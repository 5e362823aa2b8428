/** What the refinement gives a user of /dev/brainfuck. */
module BrainfuckTheorems {
  import opened Bytes
  import opened BrainfuckLanguage
  import opened BrainfuckMachine
  import opened BrainfuckOutput
  import opened BrainfuckRefinement

  // ---- well-bracketed text is the text of a program ----

  predicate AllCommands(text: string) {
    forall k :: 0 <= k < |text| ==> IsCommand(text[k])
  }

  function OpOf(ch: char): (op: Op)
    requires IsCommand(ch) && ch != '[' && ch != ']'
    ensures Symbol(op) == ch
  {
    match ch
    case '+' => Plus
    case '-' => Minus
    case '<' => Left
    case '>' => Right
    case '.' => Dot
    case _ => Comma
  }

  /** Reads a program off the text, up to its end or to the first unmatched ']'. */
  lemma {:induction false} Parse(text: string, d: nat) returns (p: Prog, rest: string)
    requires Balanced(text, d) && AllCommands(text)
    ensures text == Text(p) + rest
    ensures if d == 0 then rest == [] else rest != [] && rest[0] == ']' && Balanced(rest, d)
    decreases |text|
  {
    if text == [] || text[0] == ']' {
      p, rest := End, text;
    } else if text[0] == '[' {
      p, rest := ParseLoop(text, d);
    } else {
      var more;
      more, rest := Parse(text[1..], d);
      p := Do(OpOf(text[0]), more);
      assert text == [text[0]] + text[1..];
    }
  }

  lemma TailIsCommands(text: string, body: string, tail: string)
    requires AllCommands(text) && text == body + tail && tail != []
    ensures AllCommands(tail[1..])
  {
    forall k | 0 <= k < |tail| - 1 ensures tail[1..][k] == text[|body| + 1 + k] {
    }
  }

  lemma TailIsBalanced(tail: string, d: nat)
    requires tail != [] && tail[0] == ']' && Balanced(tail, d + 1)
    ensures Balanced(tail[1..], d)
  {
  }

  lemma LoopTextIs(body: Prog, more: Prog)
    ensures Text(Loop(body, more)) == ['['] + Text(body) + [']'] + Text(more)
  {
  }

  lemma Reassembled(text: string, body: string, tail: string, more: string, rest: string)
    requires text != [] && text[0] == '[' && text[1..] == body + tail
    requires tail != [] && tail[0] == ']' && tail[1..] == more + rest
    ensures text == ['['] + body + [']'] + more + rest
  {
    assert text == ['['] + (body + ([']'] + tail[1..]));
  }

  lemma {:induction false} ParseLoop(text: string, d: nat) returns (p: Prog, rest: string)
    requires text != [] && text[0] == '[' && Balanced(text, d) && AllCommands(text)
    ensures text == Text(p) + rest
    ensures if d == 0 then rest == [] else rest != [] && rest[0] == ']' && Balanced(rest, d)
    decreases |text|, 0
  {
    var body, tail := Parse(text[1..], d + 1);
    hide Balanced, Text;
    TailIsCommands(text[1..], Text(body), tail);
    TailIsBalanced(tail, d);
    var more;
    more, rest := Parse(tail[1..], d);
    p := Loop(body, more);
    LoopTextIs(body, more);
    Reassembled(text, Text(body), tail, Text(more), rest);
  }

  lemma {:induction false} TextIsCommands(p: Prog)
    ensures AllCommands(Text(p))
  {
    match p
    case End =>
    case Do(op, rest) =>
      TextIsCommands(rest);
    case Loop(body, rest) =>
      TextIsCommands(body);
      TextIsCommands(rest);
  }

  /** The texts of programs are exactly the command texts whose brackets match. */
  lemma WellBracketed(text: string)
    ensures Balanced(text, 0) && AllCommands(text) <==> exists p :: Text(p) == text
  {
    if Balanced(text, 0) && AllCommands(text) {
      var p, rest := Parse(text, 0);
      assert Text(p) + [] == Text(p);
    }
    forall p | Text(p) == text ensures Balanced(text, 0) && AllCommands(text) {
      TextIsBalanced(p);
      TextIsCommands(p);
    }
  }

  // ---- writes in chunks ----

  function Concat(chunks: seq<string>): string {
    if chunks == [] then [] else chunks[0] + Concat(chunks[1..])
  }

  lemma {:induction false} WriteFeedsCommands(s: State, data: string, fuel: nat)
    requires OnTape(s)
    ensures DeviceWrite(s, data, fuel) == Feed(s, Commands(data), fuel)
    decreases |data|
  {
    if data != [] {
      if IsCommand(data[0]) {
        assert Commands(data)[1..] == Commands(data[1..]);
        var o := Interpret(s, data[0], fuel);
        if o.Done? {
          WriteFeedsCommands(o.value, data[1..], fuel);
        }
      } else {
        assert Commands(data) == Commands(data[1..]);
        WriteFeedsCommands(s, data[1..], fuel);
      }
    }
  }

  lemma CommandsAppend(a: string, b: string)
    ensures Commands(a + b) == Commands(a) + Commands(b)
    decreases |a|
  {
    if a == [] {
      assert a + b == b;
    } else {
      CommandsAppend(a[1..], b);
      assert (a + b)[1..] == a[1..] + b;
    }
  }

  /** How text is cut into writes, and what else is in it, makes no difference. */
  lemma {:induction false} ChunkingIsInvisible(s: State, chunks: seq<string>, fuel: nat)
    requires OnTape(s)
    ensures DeviceWrites(s, chunks, fuel) == Feed(s, Commands(Concat(chunks)), fuel)
    decreases |chunks|
  {
    if chunks != [] {
      WriteFeedsCommands(s, chunks[0], fuel);
      CommandsAppend(chunks[0], Concat(chunks[1..]));
      FeedSplits(s, Commands(chunks[0]), Commands(Concat(chunks[1..])), fuel);
      var o := DeviceWrite(s, chunks[0], fuel);
      if o.Done? {
        ChunkingIsInvisible(o.value, chunks[1..], fuel);
      }
    }
  }

  // ---- the main theorem ----

  /** Between programs: depth 0, nothing jumped over, locked or recorded. */
  predicate Idle(s: State) {
    Ready(s, true, 0, 0)
  }

  /** A program the interpreter has room for. */
  predicate Admissible(p: Prog, s: State) {
    Nesting(p) < MAX_LOOP_DEPTH && LoopsFit(p, |s.env.cells|)
  }

  /** What e holds stands for w, counting only what was written after `before`. */
  ghost predicate SimSince(e: Env, w: World, before: seq<Out>) {
    before <= e.output && Sim(e.(output := e.output[|before|..]), w)
  }

  /** Both runs wait for input, or both end in states that stand for each other. */
  ghost predicate SameEnd(a: Outcome<World>, b: Outcome<State>, before: seq<Out>) {
    || (a.Waiting? && b.Waiting?)
    || (a.Done? && b.Done? && SimSince(b.value.env, a.value, before))
  }

  ghost predicate Agree(a: Outcome<World>, b: Outcome<State>, before: seq<Out>) {
    SameEnd(a, b, before) && (b.Done? ==> Idle(b.value))
  }

  /** The tree semantics, given fuel enough, ends as b does. */
  ghost predicate TreeEndsAs(p: Prog, w: World, b: Outcome<State>, before: seq<Out>) {
    exists f: nat :: Agree(Eval(p, w, f), b, before)
  }

  lemma RunAgrees(p: Prog, w: World, s: State, before: seq<Out>, chunks: seq<string>, f: nat, g: nat)
    requires Idle(s) && SimSince(s.env, w, before) && Admissible(p, s) && Commands(Concat(chunks)) == Text(p)
    requires Settled(Eval(p, w, f), DeviceWrites(s, chunks, g), f, g, Nesting(p))
    ensures Agree(Eval(p, w, f), DeviceWrites(s, chunks, g), before)
  {
    hide Text, Eval, Sim, Interpret;
    var t := s.(env := s.env.(output := s.env.output[|before|..]));
    assert Behind(before, t) == s;
    ChunkingIsInvisible(s, chunks, g);
    FeedBehind(before, t, Text(p), g);
    assert Stretch(t, true, 0, Text(p), g) == Feed(t, Text(p), g);
    Runs(p, w, f, t, true, 0, 0, g);
    var o := Feed(t, Text(p), g);
    if o.Done? {
      var out := o.value.env.output;
      assert (before + out)[|before|..] == out;
    }
  }

  /** For every program and every way of writing it to the device: whenever the tree semantics ends, so does the
      interpreter; whenever the interpreter ends, so does the tree semantics; both end alike, the interpreter idle
      again; and it never leaves its arrays. */
  lemma InterpreterIsTreeSemantics(p: Prog, w: World, s: State, before: seq<Out>, chunks: seq<string>)
    requires Idle(s) && SimSince(s.env, w, before) && Admissible(p, s) && Commands(Concat(chunks)) == Text(p)
    ensures forall f: nat, g: nat :: !Eval(p, w, f).OutOfFuel? && f <= g ==>
              Agree(Eval(p, w, f), DeviceWrites(s, chunks, g), before)
    ensures forall g: nat :: !DeviceWrites(s, chunks, g).OutOfFuel? ==>
              TreeEndsAs(p, w, DeviceWrites(s, chunks, g), before)
    ensures forall g: nat :: !DeviceWrites(s, chunks, g).Fault?
  {
    forall f: nat, g: nat | !Eval(p, w, f).OutOfFuel? && f <= g
      ensures Agree(Eval(p, w, f), DeviceWrites(s, chunks, g), before)
    {
      RunAgrees(p, w, s, before, chunks, f, g);
    }
    forall g: nat | !DeviceWrites(s, chunks, g).OutOfFuel?
      ensures TreeEndsAs(p, w, DeviceWrites(s, chunks, g), before)
    {
      var f: nat := g + Nesting(p);
      RunAgrees(p, w, s, before, chunks, f, g);
      assert Agree(Eval(p, w, f), DeviceWrites(s, chunks, g), before);
    }
  }

  // ---- after start-up ----

  /** The world a new tape stands for: zeros where the tape is, elsewhere what later allocations will bring. */
  function FreshWorld(garbage: int -> byte, input: seq<byte>): World {
    var g: int -> byte := garbage;
    var t: int -> byte := (p: int) => if 0 <= p < INITIAL_LENGTH then 0 else g(p);
    World(t, 0, 0, 0, input, [])
  }

  lemma BootIsIdle(garbage: int -> byte, input: seq<byte>)
    ensures Idle(Boot(garbage, input)) && SimSince(Boot(garbage, input).env, FreshWorld(garbage, input), [])
  {
    assert Boot(garbage, input).env.output[0..] == [];
  }

  function AsCells(bytes: seq<byte>): seq<Out> {
    seq(|bytes|, k requires 0 <= k < |bytes| => Cell(bytes[k]))
  }

  lemma {:induction false} BytesWithoutNotices(out: seq<Out>)
    requires NoNotice(out)
    ensures out == AsCells(ProgramBytes(out))
  {
    if out != [] {
      var before := out[..|out| - 1];
      BytesWithoutNotices(before);
      assert out == before + [out[|out| - 1]];
    }
  }

  /** What the program wrote is what arrived after `before`, leaving out the repair notices; and there are none
      exactly if the pointer stayed on the first tape. */
  ghost predicate WritesOnly(e: Env, w: World, before: seq<Out>) {
    && before <= e.output
    && ProgramBytes(e.output[|before|..]) == w.output
    && (e.output == before + AsCells(w.output) <==> 0 <= w.lo && w.hi < INITIAL_LENGTH)
  }

  /** The repair notices go to the same descriptor as the program's output. So what arrives there is the program's
      output exactly when the pointer never leaves the first 10000 cells. */
  lemma OutputIsCleanIffTapeSuffices(p: Prog, w: World, s: State, before: seq<Out>, chunks: seq<string>, f: nat, g: nat)
    requires Idle(s) && SimSince(s.env, w, before) && Admissible(p, s) && Commands(Concat(chunks)) == Text(p)
    requires Eval(p, w, f).Done? && f <= g
    ensures DeviceWrites(s, chunks, g).Done?
    ensures WritesOnly(DeviceWrites(s, chunks, g).value.env, Eval(p, w, f).value, before)
  {
    RunAgrees(p, w, s, before, chunks, f, g);
    var e := DeviceWrites(s, chunks, g).value.env;
    var out := e.output[|before|..];
    assert e.output == before + out;
    var bytes := Eval(p, w, f).value.output;
    if e.output == before + AsCells(bytes) {
      assert out == AsCells(bytes);
    }
    if NoNotice(out) {
      BytesWithoutNotices(out);
    }
  }

  /** In particular for the first program after start-up. */
  lemma FirstOutputIsCleanIffTapeSuffices(p: Prog, garbage: int -> byte, input: seq<byte>, chunks: seq<string>,
                                          f: nat, g: nat)
    requires Nesting(p) < MAX_LOOP_DEPTH && LoopsFit(p, INITIAL_LENGTH) && Commands(Concat(chunks)) == Text(p)
    requires Eval(p, FreshWorld(garbage, input), f).Done? && f <= g
    ensures var o := DeviceWrites(Boot(garbage, input), chunks, g);
            o.Done? && WritesOnly(o.value.env, Eval(p, FreshWorld(garbage, input), f).value, [])
  {
    BootIsIdle(garbage, input);
    OutputIsCleanIffTapeSuffices(p, FreshWorld(garbage, input), Boot(garbage, input), [], chunks, f, g);
  }
}
