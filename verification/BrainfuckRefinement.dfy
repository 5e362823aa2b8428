/** The interpreter means what the tree semantics says: one ends exactly when the other does, in the same state. */
module BrainfuckRefinement {
  import opened Bytes
  import opened BrainfuckLanguage
  import opened BrainfuckMachine

  // ---- how a machine state represents a world ----

  /** The cell at place p of the unbounded tape; places not yet allocated hold what allocation will give them. */
  function Logical(e: Env, p: int): byte {
    if e.base <= p < e.base + |e.cells| then e.cells[p - e.base] else e.garbage(p)
  }

  /** The bytes the program itself wrote. */
  function ProgramBytes(out: seq<Out>): seq<byte> {
    if out == [] then []
    else
      var before := ProgramBytes(out[..|out| - 1]);
      match out[|out| - 1]
      case Cell(b) => before + [b]
      case _ => before
  }

  predicate NoNotice(out: seq<Out>) {
    forall k :: 0 <= k < |out| ==> out[k].Cell?
  }

  ghost predicate Sim(e: Env, w: World) {
    && PtrOnTape(e)
    && e.base + e.ptr == w.pos
    && (forall p: int :: w.tape(p) == Logical(e, p))
    && e.input == w.input
    && ProgramBytes(e.output) == w.output
    && e.base <= w.lo <= w.pos <= w.hi < e.base + |e.cells|
    && e.base <= 0 && INITIAL_LENGTH <= e.base + |e.cells|
    && (|e.cells| == INITIAL_LENGTH <==> 0 <= w.lo && w.hi < INITIAL_LENGTH)
    && (|e.cells| == INITIAL_LENGTH <==> NoNotice(e.output))
  }

  lemma BytesOfAppend(out: seq<Out>, x: Out)
    ensures ProgramBytes(out + [x]) == ProgramBytes(out) + (if x.Cell? then [x.b] else [])
    ensures NoNotice(out + [x]) <==> NoNotice(out) && x.Cell?
  {
    assert (out + [x])[..|out|] == out;
    assert (out + [x])[|out|] == x;
    if NoNotice(out + [x]) {
      forall k | 0 <= k < |out| ensures out[k].Cell? { assert (out + [x])[k] == out[k]; }
    }
  }

  /** A repair keeps every cell at its place on the unbounded tape and puts the pointer on the one asked for. */
  lemma GrowKeepsTape(e: Env)
    requires PtrNearTape(e)
    ensures Grow(e).base + Grow(e).ptr == e.base + e.ptr
    ensures forall p: int :: Logical(Grow(e), p) == Logical(e, p)
    ensures Grow(e).base == if e.ptr < 0 then e.base - |e.cells| else e.base
    ensures |Grow(e).cells| == if 0 <= e.ptr < |e.cells| then |e.cells| else 2 * |e.cells|
  {
  }

  lemma MoveSim(e: Env, w: World, delta: int)
    requires Sim(e, w) && (delta == -1 || delta == 1)
    ensures Sim(Grow(e.(ptr := e.ptr + delta)), Move(w, delta))
  {
    var t := e.(ptr := e.ptr + delta);
    GrowKeepsTape(t);
    BytesOfAppend(e.output, LowerNotice);
    BytesOfAppend(e.output, UpperNotice);
    forall p: int ensures Move(w, delta).tape(p) == Logical(Grow(t), p) {
      assert Logical(t, p) == Logical(e, p);
    }
  }

  lemma PutSim(e: Env, w: World, b: byte)
    requires Sim(e, w)
    ensures Sim(e.(cells := e.cells[e.ptr := b]), Put(w, b))
  {
    var t := e.(cells := e.cells[e.ptr := b]);
    forall p: int ensures Put(w, b).tape(p) == Logical(t, p) {
      assert w.tape(p) == Logical(e, p);
    }
  }

  lemma SameCell(e: Env, w: World)
    requires Sim(e, w)
    ensures PtrOnTape(e) && w.Here() == e.cells[e.ptr]
  {
    assert w.tape(w.pos) == Logical(e, w.pos);
  }

  lemma BasicSim(e: Env, w: World, op: Op)
    requires Sim(e, w)
    ensures || (Exec(op, w).Waiting? && BasicOn(e, op).Waiting?)
            || (Exec(op, w).Done? && BasicOn(e, op).Done? && Sim(BasicOn(e, op).value, Exec(op, w).value))
  {
    hide Sim, Put, Move;
    SameCell(e, w);
    match op
    case Plus => PutSim(e, w, Inc(w.Here()));
    case Minus => PutSim(e, w, Dec(w.Here()));
    case Left => MoveSim(e, w, -1);
    case Right => MoveSim(e, w, 1);
    case Dot => WriteSim(e, w);
    case Comma => ReadSim(e, w);
  }

  lemma WriteSim(e: Env, w: World)
    requires Sim(e, w)
    ensures Sim(e.(output := e.output + [Cell(e.cells[e.ptr])]), w.(output := w.output + [w.Here()]))
  {
    SameCell(e, w);
    BytesOfAppend(e.output, Cell(w.Here()));
    var t := e.(output := e.output + [Cell(e.cells[e.ptr])]);
    forall p: int ensures w.tape(p) == Logical(t, p) {
      assert w.tape(p) == Logical(e, p);
    }
  }

  lemma ReadSim(e: Env, w: World)
    requires Sim(e, w)
    ensures || (w.input == [] && Exec(Comma, w).Waiting? && BasicOn(e, Comma).Waiting?)
            || (Exec(Comma, w).Done? && BasicOn(e, Comma).Done? && Sim(BasicOn(e, Comma).value, Exec(Comma, w).value))
  {
    if w.input != [] {
      PutSim(e, w, w.input[0]);
    }
  }

  lemma BasicFrame(e: Env, op: Op)
    requires PtrOnTape(e) && BasicOn(e, op).Done?
    ensures |BasicOn(e, op).value.cells| >= |e.cells| && BasicOn(e, op).value.garbage == e.garbage
  {
  }

  // ---- a stretch of text, handed over live or out of the recording ----

  function Stretch(s: State, live: bool, i: int, text: string, fuel: nat): (r: Outcome<State>)
    requires OnTape(s)
    ensures r.Done? ==> OnTape(r.value)
  {
    if live then Feed(s, text, fuel) else Replay(s, i, i + |text|, fuel)
  }

  lemma {:induction false} FeedSplits(s: State, a: string, b: string, fuel: nat)
    requires OnTape(s)
    ensures Feed(s, a + b, fuel) == (var s1 :- Feed(s, a, fuel); Feed(s1, b, fuel))
    decreases |a|
  {
    if a == [] {
      assert a + b == b;
    } else {
      assert (a + b)[1..] == a[1..] + b;
      var o := Interpret(s, a[0], fuel);
      if o.Done? {
        FeedSplits(o.value, a[1..], b, fuel);
      }
    }
  }

  lemma {:induction false} ReplaySplits(s: State, i: int, j: int, k: int, fuel: nat)
    requires OnTape(s) && i <= j <= k
    ensures Replay(s, i, k, fuel) == (var s1 :- Replay(s, i, j, fuel); Replay(s1, j, k, fuel))
    decreases j - i
  {
    if i < j && s.recording && 0 <= i < |s.recorded| {
      var o := Interpret(s, s.recorded[i], fuel);
      if o.Done? {
        ReplaySplits(o.value.(position := i + 1), i + 1, j, k, fuel);
      }
    }
  }

  lemma StretchSplits(s: State, live: bool, i: int, a: string, b: string, fuel: nat)
    requires OnTape(s)
    ensures Stretch(s, live, i, a + b, fuel) ==
            (var s1 :- Stretch(s, live, i, a, fuel); Stretch(s1, live, i + |a|, b, fuel))
  {
    if live {
      FeedSplits(s, a, b, fuel);
    } else {
      ReplaySplits(s, i, i + |a|, i + |a| + |b|, fuel);
    }
  }

  /** In replay, the driving loop sets the position after each character. */
  function Advance(s: State, live: bool, i: int): State {
    if live then s else s.(position := i)
  }

  /** Text can be handed over: in live mode it fits into the recording, in replay it is what was recorded at i. */
  predicate Room(s: State, live: bool, i: int, text: string) {
    if live then s.recording ==> |s.recorded| + |text| <= s.capacity
    else s.recording && 0 <= i && i + |text| <= |s.recorded| && s.recorded[i..i + |text|] == text
  }

  lemma RoomSplits(s: State, live: bool, i: int, a: string, b: string)
    requires Room(s, live, i, a + b)
    ensures Room(s, live, i, a)
    ensures !live ==> Room(s, live, i + |a|, b)
  {
    if !live {
      var r := s.recorded[i..i + |a + b|];
      assert r[..|a|] == a && r[|a|..] == b;
      assert s.recorded[i..i + |a|] == r[..|a|];
      assert s.recorded[i + |a|..i + |a| + |b|] == r[|a|..];
    }
  }

  lemma OneCharacter(s: State, live: bool, i: int, ch: char, fuel: nat)
    requires OnTape(s) && Room(s, live, i, [ch])
    ensures Stretch(s, live, i, [ch], fuel) == (var s1 :- Interpret(s, ch, fuel); Done(Advance(s1, live, i + 1)))
  {
    if live {
      var o := Interpret(s, ch, fuel);
      assert [ch][1..] == [];
      if o.Done? {
        assert Feed(o.value, [], fuel) == Done(o.value);
      }
    } else {
      assert s.recorded[i..i + 1][0] == ch;
      var o := Interpret(s, ch, fuel);
      if o.Done? {
        assert Replay(o.value.(position := i + 1), i + 1, i + 1, fuel) == Done(o.value.(position := i + 1));
      }
    }
  }

  // ---- jumping over a loop ----

  /** The bookkeeping left by text that is not executed. */
  function Passed(s: State, live: bool, text: string): State {
    if s.recording then
      s.(recorded := if live then s.recorded + text else s.recorded, position := s.position + |text|)
    else s
  }

  predicate Mode(s: State, live: bool, i: int) {
    if live then !s.storeLock else s.storeLock && s.recording && s.position == i
  }

  lemma PassedTwice(s: State, live: bool, a: string, b: string)
    ensures Passed(Passed(s, live, a), live, b) == Passed(s, live, a + b)
  {
    assert s.recorded + a + b == s.recorded + (a + b);
  }

  /** One more character handed over. */
  lemma StretchStep(s: State, live: bool, i: int, ch: char, rest: string, fuel: nat)
    requires OnTape(s) && Room(s, live, i, [ch] + rest)
    ensures Stretch(s, live, i, [ch] + rest, fuel) ==
            (var s1 :- Interpret(s, ch, fuel); Stretch(Advance(s1, live, i + 1), live, i + 1, rest, fuel))
    ensures !live ==> Room(s, live, i + 1, rest)
  {
    RoomSplits(s, live, i, [ch], rest);
    StretchSplits(s, live, i, [ch], rest, fuel);
    OneCharacter(s, live, i, ch, fuel);
  }

  /** A character met while jumping over a loop only moves the depth. */
  lemma SkipsOne(s: State, live: bool, i: int, ch: char, fuel: nat)
    requires OnTape(s) && s.jumpover && Mode(s, live, i) && Room(s, live, i, [ch])
    ensures Interpret(s, ch, fuel).Done?
    ensures Advance(Interpret(s, ch, fuel).value, live, i + 1) == Passed(Skip(s, ch), live, [ch])
  {
  }

  lemma RoomAfter(s: State, live: bool, i: int, ch: char, rest: string)
    requires OnTape(s) && Mode(s, live, i) && Room(s, live, i, [ch] + rest)
    ensures Room(s, live, i, [ch])
    ensures var t := Passed(Skip(s, ch), live, [ch]); OnTape(t) && Mode(t, live, i + 1) && Room(t, live, i + 1, rest)
  {
    RoomSplits(s, live, i, [ch], rest);
  }

  /** Text inside the loop being jumped over: only the depth it closes is left of it. */
  lemma {:induction false} SkipsText(text: string, k: nat, s: State, live: bool, i: int, fuel: nat)
    requires OnTape(s) && s.jumpover && Mode(s, live, i) && Room(s, live, i, text)
    requires Balanced(text, k) && s.depth - k >= s.tempDepth
    ensures Stretch(s, live, i, text, fuel) == Done(Passed(s.(depth := s.depth - k), live, text))
    decreases |text|
  {
    if text == [] {
      assert s.recorded + [] == s.recorded;
    } else {
      hide Stretch, Interpret, Room, Mode, Skip, Passed;
      var ch, rest := text[0], text[1..];
      assert text == [ch] + rest;
      StretchStep(s, live, i, ch, rest, fuel);
      RoomAfter(s, live, i, ch, rest);
      SkipsOne(s, live, i, ch, fuel);
      var k1: nat := if ch == '[' then k + 1 else if ch == ']' then k - 1 else k;
      SkipMoves(s, live, ch, k, k1, rest);
      SkipsText(rest, k1, Passed(Skip(s, ch), live, [ch]), live, i + 1, fuel);
    }
  }

  lemma SkipMoves(s: State, live: bool, ch: char, k: nat, k1: nat, rest: string)
    requires s.jumpover && s.depth - k >= s.tempDepth && (ch == ']' ==> k > 0)
    requires k1 == if ch == '[' then k + 1 else if ch == ']' then k - 1 else k
    ensures var t := Passed(Skip(s, ch), live, [ch]);
            && t.jumpover && t.depth - k1 == s.depth - k >= t.tempDepth
            && Passed(t.(depth := t.depth - k1), live, rest) == Passed(s.(depth := s.depth - k), live, [ch] + rest)
  {
    PassedTwice(s.(depth := s.depth - k), live, [ch], rest);
  }

  // ---- running ----

  /** The machine is about to run at depth d the character with index i in the recording.
      At depth 0 nothing is recorded and the index stays 0. */
  predicate Ready(s: State, live: bool, d: int, i: int) {
    && OnTape(s) && Mode(s, live, i)
    && 0 <= d < MAX_LOOP_DEPTH && s.depth == d && !s.jumpover && s.tempDepth == 0
    && s.recording == (d > 0)
    && s.marks[1].open == 0
    && (if live then s.lockLevel == 0 && i == |s.recorded| && s.position == i - 1 else 1 <= s.lockLevel <= d)
    && (d == 0 ==> live && s.recorded == [] && s.capacity == 0)
  }

  function After(d: int, i: int, text: string): int {
    if d == 0 then 0 else i + |text|
  }

  /** What running `text` at depth d leaves of the machine's bookkeeping. */
  ghost predicate Kept(s: State, s1: State, live: bool, d: int, i: int, text: string)
    requires OnTape(s) && OnTape(s1)
  {
    && Ready(s1, live, d, After(d, i, text))
    && s1.recorded == (if live && d > 0 then s.recorded + text else s.recorded)
    && s1.capacity == s.capacity && s1.lockLevel == s.lockLevel
    && |s1.env.cells| >= |s.env.cells|
    && s1.env.garbage == s.env.garbage
    && forall k :: 0 <= k <= d ==> s1.marks[k] == s.marks[k]
  }

  ghost predicate Matches(a: Outcome<World>, b: Outcome<State>, s: State, live: bool, d: int, i: int, text: string)
    requires OnTape(s)
  {
    || (a.Waiting? && b.Waiting?)
    || (a.Done? && b.Done? && Sim(b.value.env, a.value) && OnTape(b.value) && Kept(s, b.value, live, d, i, text))
  }

  /** One side has ended, and the other has fuel enough to end too; n bounds what the tree semantics spends on
      first rounds of loops, which the interpreter runs without any fuel. */
  predicate Settled(a: Outcome<World>, b: Outcome<State>, f: nat, g: nat, n: nat) {
    (!a.OutOfFuel? && f <= g) || (!b.OutOfFuel? && g + n <= f)
  }

  lemma KeptTwice(s: State, s1: State, s2: State, live: bool, d: int, i: int, a: string, b: string)
    requires OnTape(s) && OnTape(s1) && OnTape(s2)
    requires Kept(s, s1, live, d, i, a) && Kept(s1, s2, live, d, After(d, i, a), b)
    ensures Kept(s, s2, live, d, i, a + b)
  {
    assert s.recorded + a + b == s.recorded + (a + b);
  }

  lemma InterpretsBasic(s: State, op: Op, g: nat)
    requires OnTape(s) && !s.jumpover && Record(s, Symbol(op)).Done?
    ensures Interpret(s, Symbol(op), g) == Basic(Record(s, Symbol(op)).value, op)
  {
  }

  lemma BasicKept(s: State, e: Env, live: bool, d: int, i: int, ch: char)
    requires Ready(s, live, d, i) && Room(s, live, i, [ch]) && PtrOnTape(e)
    requires |e.cells| >= |s.env.cells| && e.garbage == s.env.garbage
    ensures Record(s, ch).Done? && Kept(s, Advance(Record(s, ch).value.(env := e), live, i + 1), live, d, i, [ch])
  {
  }

  lemma RunsBasic(op: Op, w: World, s: State, live: bool, d: int, i: int, g: nat)
    requires Ready(s, live, d, i) && Sim(s.env, w) && Room(s, live, i, [Symbol(op)])
    ensures Matches(Exec(op, w), Stretch(s, live, i, [Symbol(op)], g), s, live, d, i, [Symbol(op)])
  {
    OneCharacter(s, live, i, Symbol(op), g);
    InterpretsBasic(s, op, g);
    BasicSim(s.env, w, op);
    var o := BasicOn(s.env, op);
    if o.Done? {
      BasicFrame(s.env, op);
      BasicKept(s, o.value, live, d, i, Symbol(op));
    }
  }

  // ---- a loop: its '[', its first round, its ']' with all further rounds ----

  function LoopText(body: Prog): string { ['['] + Text(body) + [']'] }

  /** A loop whose test fails at '[' is jumped over and leaves everything as it was. */
  lemma SkipsLoop(body: Prog, s: State, live: bool, d: int, i: int, g: nat)
    requires Ready(s, live, d, i) && Room(s, live, i, LoopText(body)) && s.env.cells[s.env.ptr] == 0
    ensures Stretch(s, live, i, LoopText(body), g) == Done(Passed(s, live, LoopText(body)))
  {
    hide Balanced, Text, Stretch, Interpret, Room;
    var t := s.(depth := d + 1, jumpover := true, tempDepth := d + 1);
    var text := Text(body) + [']'];
    assert LoopText(body) == ['['] + text;
    StretchStep(s, live, i, '[', text, g);
    RoomBehind(s, live, d, i, text);
    StartsJumping(s, live, d, i, g);
    TextIsBalanced(body);
    SkipsToEnd(Text(body), Passed(t, live, ['[']), live, i + 1, g);
    PassedTwice(s, live, ['['], text);
  }

  /** A '[' in front of a zero cell starts jumping over. */
  lemma StartsJumping(s: State, live: bool, d: int, i: int, g: nat)
    requires Ready(s, live, d, i) && s.env.cells[s.env.ptr] == 0 && Room(s, live, i, ['['])
    ensures var t := s.(depth := d + 1, jumpover := true, tempDepth := d + 1);
            && Interpret(s, '[', g).Done?
            && Advance(Interpret(s, '[', g).value, live, i + 1) == Passed(t, live, ['['])
  {
  }

  lemma RoomBehind(s: State, live: bool, d: int, i: int, text: string)
    requires Ready(s, live, d, i) && Room(s, live, i, ['['] + text)
    ensures var t := Passed(s.(depth := d + 1, jumpover := true, tempDepth := d + 1), live, ['[']);
            OnTape(t) && Mode(t, live, i + 1) && Room(t, live, i + 1, text) && Room(s, live, i, ['['])
  {
    RoomSplits(s, live, i, ['['], text);
  }

  /** The text from after the '[' that started jumping over to the ']' that ends it. */
  lemma SkipsToEnd(text: string, s: State, live: bool, i: int, g: nat)
    requires OnTape(s) && s.jumpover && Mode(s, live, i) && Room(s, live, i, text + [']']) && s.depth == s.tempDepth
    requires Balanced(text, 0)
    ensures Stretch(s, live, i, text + [']'], g) == Done(Passed(JumpedOver(s), live, text + [']']))
  {
    hide Stretch;
    RoomSplits(s, live, i, text, [']']);
    SkipsText(text, 0, s, live, i, g);
    StretchSplits(s, live, i, text, [']'], g);
    JumpEnds(Passed(s, live, text), live, i + |text|, g);
    PassedTwice(JumpedOver(s), live, text, [']']);
  }

  function JumpedOver(s: State): State {
    s.(depth := s.depth - 1, jumpover := false, tempDepth := 0)
  }

  /** The ']' that ends jumping over. */
  lemma JumpEnds(s: State, live: bool, i: int, g: nat)
    requires OnTape(s) && s.jumpover && Mode(s, live, i) && Room(s, live, i, [']']) && s.depth == s.tempDepth
    ensures Stretch(s, live, i, [']'], g) ==
            Done(Passed(JumpedOver(s), live, [']']))
  {
    OneCharacter(s, live, i, ']', g);
  }

  /** The state in which the first character of a loop body is handed over. */
  function Entered(s: State, live: bool, d: int, i: int): State
    requires OnTape(s) && 0 <= d && d + 1 < MAX_LOOP_DEPTH
  {
    if d == 0 then s.(depth := 1, recording := true, capacity := |s.env.cells|)
    else Passed(s, live, ['[']).(depth := d + 1, marks := s.marks[d + 1 := s.marks[d + 1].(open := i + 1)])
  }

  lemma Enters(s: State, live: bool, d: int, i: int, g: nat)
    requires Ready(s, live, d, i) && Room(s, live, i, ['[']) && s.env.cells[s.env.ptr] != 0 && d + 1 < MAX_LOOP_DEPTH
    ensures Stretch(s, live, i, ['['], g) == Done(Entered(s, live, d, i))
    ensures Ready(Entered(s, live, d, i), live, d + 1, After(d, i, ['[']))
    ensures Entered(s, live, d, i).marks[d + 1].open == After(d, i, ['['])
  {
    OneCharacter(s, live, i, '[', g);
  }

  /** At the ']' of a loop of depth d, whose body was recorded from a to b. */
  predicate AtClose(t: State, body: Prog, d: int, a: int, b: int) {
    && OnTape(t)
    && 1 <= d < MAX_LOOP_DEPTH && t.depth == d && !t.jumpover && t.tempDepth == 0
    && t.recording && t.marks[1].open == 0 && t.marks[d] == Mark(a, b) && t.position == b
    && 0 <= a && b == a + |Text(body)| && b <= |t.recorded| && t.recorded[a..b] == Text(body)
    && (if t.storeLock then 1 <= t.lockLevel <= d else t.lockLevel == 0)
  }

  ghost predicate RoundsKept(t: State, u: State, body: Prog, d: int, a: int, b: int)
    requires OnTape(t) && OnTape(u)
  {
    && AtClose(u, body, d, a, b)
    && u.recorded == t.recorded && u.capacity == t.capacity && u.env.garbage == t.env.garbage
    && |u.env.cells| >= |t.env.cells|
    && (t.storeLock ==> u.storeLock && u.lockLevel == t.lockLevel)
    && (!t.storeLock && u.storeLock ==> u.lockLevel == d)
    && forall k :: 0 <= k <= d ==> u.marks[k] == t.marks[k]
  }

  lemma RoundStarts(body: Prog, t: State, d: int, a: int, b: int)
    requires AtClose(t, body, d, a, b)
    ensures Ready(Locked(t, a), false, d, a) && Room(Locked(t, a), false, a, Text(body))
  {
  }

  lemma RoundEnds(body: Prog, t: State, u: State, d: int, a: int, b: int)
    requires AtClose(t, body, d, a, b) && OnTape(u)
    requires Kept(Locked(t, a), u, false, d, a, Text(body))
    ensures RoundsKept(t, u, body, d, a, b)
  {
  }

  lemma RoundsKeptTwice(body: Prog, t: State, u: State, v: State, d: int, a: int, b: int)
    requires OnTape(t) && OnTape(u) && OnTape(v) && AtClose(t, body, d, a, b)
    requires RoundsKept(t, u, body, d, a, b) && RoundsKept(u, v, body, d, a, b)
    ensures RoundsKept(t, v, body, d, a, b)
  {
  }

  ghost predicate RoundsAgree(x: Outcome<World>, y: Outcome<State>, t: State, body: Prog, d: int, a: int, b: int)
    requires OnTape(t)
  {
    || (x.Waiting? && y.Waiting?)
    || (x.Done? && y.Done? && Sim(y.value.env, x.value) && OnTape(y.value) && RoundsKept(t, y.value, body, d, a, b))
  }

  lemma {:induction false} RoundsMatch(body: Prog, w: World, f: nat, t: State, d: int, a: int, b: int, g: nat)
    requires AtClose(t, body, d, a, b) && Sim(t.env, w) && d + Nesting(body) < MAX_LOOP_DEPTH
    requires Settled(While(body, w, f), Rounds(t, g), f, g, Nesting(body))
    ensures RoundsAgree(While(body, w, f), Rounds(t, g), t, body, d, a, b)
    decreases f, body, 0
  {
    hide Sim, Eval, Replay, Ready, Text;
    SameCell(t.env, w);
    if w.Here() != 0 {
      var x, y := Eval(body, w, f - 1), Replay(Locked(t, a), a, b, g - 1);
      OneRound(body, w, f - 1, t, d, a, b, g - 1);
      MoreRounds(body, f - 1, x, y, t, d, a, b, g - 1);
    }
  }

  lemma MoreRounds(body: Prog, f: nat, x: Outcome<World>, y: Outcome<State>, t: State, d: int, a: int, b: int, g: nat)
    requires AtClose(t, body, d, a, b) && d + Nesting(body) < MAX_LOOP_DEPTH
    requires RoundsAgree(x, y, t, body, d, a, b)
    requires y.Done? ==> Settled(While(body, x.value, f), Rounds(y.value, g), f, g, Nesting(body))
    ensures RoundsAgree(var w1 :- x; While(body, w1, f), var s1 :- y; Rounds(s1, g), t, body, d, a, b)
    decreases f, body, 1
  {
    if y.Done? {
      RoundsMatch(body, x.value, f, y.value, d, a, b, g);
      var z := Rounds(y.value, g);
      if z.Done? {
        RoundsKeptTwice(body, t, y.value, z.value, d, a, b);
      }
    }
  }

  lemma OneRound(body: Prog, w: World, f: nat, t: State, d: int, a: int, b: int, g: nat)
    requires AtClose(t, body, d, a, b) && Sim(t.env, w) && d + Nesting(body) < MAX_LOOP_DEPTH
    requires Settled(Eval(body, w, f), Replay(Locked(t, a), a, b, g), f, g, Nesting(body))
    ensures RoundsAgree(Eval(body, w, f), Replay(Locked(t, a), a, b, g), t, body, d, a, b)
    decreases f, body, 7
  {
    var s := Locked(t, a);
    RoundStarts(body, t, d, a, b);
    var y := Replay(s, a, b, g);
    assert y == Stretch(s, false, a, Text(body), g);
    Runs(body, w, f, s, false, d, a, g);
    if y.Done? {
      RoundEnds(body, t, y.value, d, a, b);
    }
  }

  ghost predicate Closed(s: State, u: State, live: bool, d: int, b: int)
    requires OnTape(s) && OnTape(u) && 0 <= d < MAX_LOOP_DEPTH
  {
    && Ready(u, live, d, After(d, b, [']']))
    && u.recorded == (if d == 0 then [] else if live then s.recorded + [']'] else s.recorded)
    && (d > 0 ==> u.capacity == s.capacity) && u.lockLevel == s.lockLevel && u.env.garbage == s.env.garbage
    && |u.env.cells| >= |s.env.cells|
    && forall k :: 0 <= k <= d ==> u.marks[k] == s.marks[k]
  }

  /** The state in which ']' starts its rounds. */
  function Marked(s: State, d: int): State
    requires OnTape(s) && 0 <= d && d + 1 < MAX_LOOP_DEPTH && Record(s, ']').Done?
  {
    var r := Record(s, ']').value;
    r.(marks := r.marks[d + 1 := r.marks[d + 1].(close := r.position)])
  }

  ghost predicate BodyRecorded(s: State, body: Prog, live: bool, d: int, a: int, b: int) {
    && 0 <= d && Ready(s, live, d + 1, b) && (live || s.lockLevel <= d)
    && s.marks[d + 1].open == a && 0 <= a && b == a + |Text(body)| && b <= |s.recorded|
        && s.recorded[a..b] == Text(body)
    && Room(s, live, b, [']'])
  }

  lemma ClosesStart(body: Prog, s: State, live: bool, d: int, a: int, b: int, g: nat)
    requires BodyRecorded(s, body, live, d, a, b)
    ensures Record(s, ']').Done?
    ensures AtClose(Marked(s, d), body, d + 1, a, b)
    ensures Interpret(s, ']', g) == (var u :- Rounds(Marked(s, d), g); Done(Leave(u)))
  {
    var t := Marked(s, d);
    assert t.recorded[a..b] == s.recorded[a..b];
  }

  lemma ClosesEnd(body: Prog, s: State, u: State, live: bool, d: int, a: int, b: int)
    requires BodyRecorded(s, body, live, d, a, b) && Record(s, ']').Done? && OnTape(u)
    requires RoundsKept(Marked(s, d), u, body, d + 1, a, b)
    ensures Closed(s, Advance(Leave(u), live, b + 1), live, d, b)
  {
    var v := Advance(Leave(u), live, b + 1);
    if live {
      assert Leave(u).lockLevel == 0 && !Leave(u).storeLock;
    } else {
      assert u.storeLock && u.lockLevel == s.lockLevel <= d;
    }
    forall k | 0 <= k <= d ensures v.marks[k] == s.marks[k] {
      assert u.marks[k] == Marked(s, d).marks[k];
    }
  }

  /** The ']' of the loop at depth d + 1: the rounds left to do, and back at depth d. */
  lemma Closes(body: Prog, w: World, f: nat, s: State, live: bool, d: int, a: int, b: int, g: nat)
    requires BodyRecorded(s, body, live, d, a, b) && Sim(s.env, w) && d + 1 + Nesting(body) < MAX_LOOP_DEPTH
    requires Settled(While(body, w, f), Stretch(s, live, b, [']'], g), f, g, Nesting(body))
    ensures var x, y := While(body, w, f), Stretch(s, live, b, [']'], g);
            || (x.Waiting? && y.Waiting?)
            || (x.Done? && y.Done? && Sim(y.value.env, x.value) && Closed(s, y.value, live, d, b))
    decreases f, body, 1
  {
    OneCharacter(s, live, b, ']', g);
    ClosesStart(body, s, live, d, a, b, g);
    RoundsMatch(body, w, f, Marked(s, d), d + 1, a, b, g);
    var x, y := While(body, w, f), Rounds(Marked(s, d), g);
    if y.Done? {
      ClosesEnd(body, s, y.value, live, d, a, b);
    }
  }

  lemma {:induction false} LoopRuns(body: Prog, w: World, f: nat, s: State, live: bool, d: int, i: int, g: nat)
    requires Ready(s, live, d, i) && Sim(s.env, w) && Room(s, live, i, LoopText(body))
    requires d + 1 + Nesting(body) < MAX_LOOP_DEPTH && (d == 0 ==> |Text(body)| + 1 <= |s.env.cells|)
    requires Settled(While(body, w, f), Stretch(s, live, i, LoopText(body), g), f, g, 1 + Nesting(body))
    ensures Matches(While(body, w, f), Stretch(s, live, i, LoopText(body), g), s, live, d, i, LoopText(body))
    decreases f, body, 4
  {
    SameCell(s.env, w);
    if w.Here() == 0 {
      SkipsLoop(body, s, live, d, i, g);
    } else {
      LoopSplits(body, s, live, d, i, g);
      FirstRound(body, w, f, s, live, d, i, g);
    }
  }

  lemma EnteredIs(s: State, live: bool, d: int, i: int)
    requires Ready(s, live, d, i) && d + 1 < MAX_LOOP_DEPTH
    ensures OnTape(s) && 0 <= d && OnTape(Entered(s, live, d, i)) && Entered(s, live, d, i).env == s.env
  {
  }

  /** A loop from after its '[' on: the first round, and whatever follows it. */
  lemma FirstRound(body: Prog, w: World, f: nat, s: State, live: bool, d: int, i: int, g: nat)
    requires Ready(s, live, d, i) && Room(s, live, i, LoopText(body)) && Sim(s.env, w) && w.Here() != 0
    requires d + 1 + Nesting(body) < MAX_LOOP_DEPTH && (d == 0 ==> |Text(body)| + 1 <= |s.env.cells|)
    requires Ready(Entered(s, live, d, i), live, d + 1, After(d, i, ['[']))
    requires Entered(s, live, d, i).marks[d + 1].open == After(d, i, ['['])
    requires Room(Entered(s, live, d, i), live, After(d, i, ['[']), Text(body))
    requires Settled(While(body, w, f), FromEntered(body, s, live, d, i, g), f, g, 1 + Nesting(body))
    ensures Matches(While(body, w, f), FromEntered(body, s, live, d, i, g), s, live, d, i, LoopText(body))
    decreases f, body, 3
  {
    hide Text, Stretch, Interpret, Eval, Room, Sim, Kept, Ready, Entered, Balanced;
    EnteredIs(s, live, d, i);
    var s1, i1 := Entered(s, live, d, i), After(d, i, ['[']);
    var x1, y1 := Eval(body, w, f - 1), Stretch(s1, live, i1, Text(body), g);
    Runs(body, w, f - 1, s1, live, d + 1, i1, g);
    if x1.Done? {
      LoopEnds(body, x1.value, f - 1, s, y1.value, live, d, i, g);
    }
  }

  function FromEntered(body: Prog, s: State, live: bool, d: int, i: int, g: nat): Outcome<State>
    requires OnTape(s) && 0 <= d && d + 1 < MAX_LOOP_DEPTH
  {
    var i1 := After(d, i, ['[']);
    var s2 :- Stretch(Entered(s, live, d, i), live, i1, Text(body), g);
    Stretch(s2, live, i1 + |Text(body)|, [']'], g)
  }

  /** A loop from the end of its first round on. */
  lemma LoopEnds(body: Prog, w: World, f: nat, s: State, s2: State, live: bool, d: int, i: int, g: nat)
    requires Ready(s, live, d, i) && Room(s, live, i, LoopText(body))
    requires d + 1 + Nesting(body) < MAX_LOOP_DEPTH && (d == 0 ==> |Text(body)| + 1 <= |s.env.cells|)
    requires Ready(Entered(s, live, d, i), live, d + 1, After(d, i, ['[']))
    requires Entered(s, live, d, i).marks[d + 1].open == After(d, i, ['['])
    requires OnTape(s2) && Kept(Entered(s, live, d, i), s2, live, d + 1, After(d, i, ['[']), Text(body))
        && Sim(s2.env, w)
    requires Settled(While(body, w, f), Stretch(s2, live, After(d, i, ['[']) + |Text(body)|, [']'], g), f, g,
        Nesting(body))
    ensures Matches(While(body, w, f), Stretch(s2, live, After(d, i, ['[']) + |Text(body)|, [']'], g), s, live, d, i,
                    LoopText(body))
    decreases f, body, 2
  {
    var i1 := After(d, i, ['[']);
    var i2 := i1 + |Text(body)|;
    BodyIsRecorded(body, s, s2, live, d, i);
    Closes(body, w, f, s2, live, d, i1, i2, g);
    var y := Stretch(s2, live, i2, [']'], g);
    if y.Done? {
      ClosedIsKept(body, s, s2, y.value, live, d, i);
    }
  }

  /** The text of an entered loop is its '[', its body and its ']', handed over one after the other. */
  lemma LoopSplits(body: Prog, s: State, live: bool, d: int, i: int, g: nat)
    requires Ready(s, live, d, i) && Room(s, live, i, LoopText(body)) && s.env.cells[s.env.ptr] != 0
    requires d + 1 < MAX_LOOP_DEPTH && (d == 0 ==> |Text(body)| + 1 <= |s.env.cells|)
    ensures var s1, i1 := Entered(s, live, d, i), After(d, i, ['[']);
            && Ready(s1, live, d + 1, i1) && s1.marks[d + 1].open == i1
            && Room(s1, live, i1, Text(body))
            && Stretch(s, live, i, LoopText(body), g) == FromEntered(body, s, live, d, i, g)
  {
    hide Text, Balanced, Interpret;
    var a, b, c := ['['], Text(body), [']'];
    RoomSplits(s, live, i, a + b, c);
    RoomSplits(s, live, i, a, b);
    StretchSplits(s, live, i, a + b, c, g);
    StretchSplits(s, live, i, a, b, g);
    Enters(s, live, d, i, g);
    var s1, i1 := Entered(s, live, d, i), After(d, i, a);
    assert Stretch(s1, live, i1, b, g) == Stretch(s1, live, i + 1, b, g);
  }

  lemma BodyIsRecorded(body: Prog, s: State, s2: State, live: bool, d: int, i: int)
    requires Ready(s, live, d, i) && Room(s, live, i, LoopText(body))
    requires d + 1 < MAX_LOOP_DEPTH && (d == 0 ==> |Text(body)| + 1 <= |s.env.cells|)
    requires OnTape(s2) && Ready(Entered(s, live, d, i), live, d + 1, After(d, i, ['[']))
    requires Entered(s, live, d, i).marks[d + 1].open == After(d, i, ['['])
    requires Kept(Entered(s, live, d, i), s2, live, d + 1, After(d, i, ['[']), Text(body))
    ensures BodyRecorded(s2, body, live, d, After(d, i, ['[']), After(d, i, ['[']) + |Text(body)|)
  {
    hide Text, Stretch, Interpret, Balanced;
    var a, b, c := ['['], Text(body), [']'];
    RoomSplits(s, live, i, a + b, c);
    RoomSplits(s, live, i, a, b);
    var i1 := After(d, i, a);
    if live {
      assert s2.recorded[i1..i1 + |b|] == b;
    }
  }

  lemma ClosedIsKept(body: Prog, s: State, s2: State, s3: State, live: bool, d: int, i: int)
    requires Ready(s, live, d, i) && d + 1 < MAX_LOOP_DEPTH && OnTape(s2) && OnTape(s3)
    requires Kept(Entered(s, live, d, i), s2, live, d + 1, After(d, i, ['[']), Text(body))
    requires Closed(s2, s3, live, d, After(d, i, ['[']) + |Text(body)|)
    ensures Kept(s, s3, live, d, i, LoopText(body))
  {
    assert s.recorded + ['['] + Text(body) + [']'] == s.recorded + LoopText(body);
    forall k | 0 <= k <= d ensures s3.marks[k] == s.marks[k] {
      assert Entered(s, live, d, i).marks[k] == s.marks[k];
    }
  }

  lemma LoopsFitMore(p: Prog, n: int, m: int)
    requires LoopsFit(p, n) && n <= m
    ensures LoopsFit(p, m)
  {
  }

  /** The main induction: text of a program, handed over live or in replay at any depth. */
  lemma {:induction false} Runs(p: Prog, w: World, f: nat, s: State, live: bool, d: int, i: int, g: nat)
    requires Ready(s, live, d, i) && Sim(s.env, w) && Room(s, live, i, Text(p))
    requires d + Nesting(p) < MAX_LOOP_DEPTH && (d == 0 ==> LoopsFit(p, |s.env.cells|))
    requires Settled(Eval(p, w, f), Stretch(s, live, i, Text(p), g), f, g, Nesting(p))
    ensures Matches(Eval(p, w, f), Stretch(s, live, i, Text(p), g), s, live, d, i, Text(p))
    decreases f, p, 6
  {
    match p
    case End =>
      assert s.recorded + [] == s.recorded;
    case Do(op, rest) =>
      var a, b := [Symbol(op)], Text(rest);
      RoomSplits(s, live, i, a, b);
      StretchSplits(s, live, i, a, b, g);
      RunsBasic(op, w, s, live, d, i, g);
      RunsRest(p, Exec(op, w), Stretch(s, live, i, a, g), rest, f, s, live, d, i, a, g);
    case Loop(body, rest) =>
      var a, b := LoopText(body), Text(rest);
      assert Text(p) == a + b;
      RoomSplits(s, live, i, a, b);
      StretchSplits(s, live, i, a, b, g);
      LoopRuns(body, w, f, s, live, d, i, g);
      RunsRest(p, While(body, w, f), Stretch(s, live, i, a, g), rest, f, s, live, d, i, a, g);
  }

  lemma {:induction false} RunsRest(p: Prog, x: Outcome<World>, y: Outcome<State>, rest: Prog, f: nat,
                                    s: State, live: bool, d: int, i: int, a: string, g: nat)
    requires rest < p && OnTape(s) && Matches(x, y, s, live, d, i, a)
    requires Ready(s, live, d, i) && Room(s, live, i, a + Text(rest))
    requires d + Nesting(rest) < MAX_LOOP_DEPTH && (d == 0 ==> LoopsFit(rest, |s.env.cells|))
    requires y.Done? ==> Settled(Eval(rest, x.value, f), Stretch(y.value, live, i + |a|, Text(rest), g), f, g,
        Nesting(rest))
    ensures Matches(var w1 :- x; Eval(rest, w1, f), var s1 :- y; Stretch(s1, live, i + |a|, Text(rest), g),
                    s, live, d, i, a + Text(rest))
    decreases f, p, 5
  {
    if y.Done? {
      var b := Text(rest);
      RoomSplits(s, live, i, a, b);
      var i1 := After(d, i, a);
      assert Stretch(y.value, live, i1, b, g) == Stretch(y.value, live, i + |a|, b, g);
      if d == 0 {
        LoopsFitMore(rest, |s.env.cells|, |y.value.env.cells|);
      }
      Runs(rest, x.value, f, y.value, live, d, i1, g);
      var z := Stretch(y.value, live, i1, b, g);
      if z.Done? {
        KeptTwice(s, y.value, z.value, live, d, i, a, b);
      }
    }
  }
}
