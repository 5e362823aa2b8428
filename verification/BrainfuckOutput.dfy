/** The interpreter never looks at what has been written: earlier output only stays in front of later output. */
module BrainfuckOutput {
  import opened Bytes
  import opened BrainfuckLanguage
  import opened BrainfuckMachine

  /** s with `before` written earlier. */
  function Behind(before: seq<Out>, s: State): State {
    s.(env := s.env.(output := before + s.env.output))
  }

  function BehindResult(before: seq<Out>, o: Outcome<State>): Outcome<State> {
    match o
    case Done(s) => Done(Behind(before, s))
    case _ => o
  }

  lemma BasicBehind(before: seq<Out>, s: State, op: Op)
    requires OnTape(s)
    ensures Basic(Behind(before, s), op) == BehindResult(before, Basic(s, op))
  {
    var e, e1 := s.env, Behind(before, s).env;
    var o, o1 := Apply(e, op), Apply(e1, op);
    if op.Dot? {
      var x := [Cell(e.cells[e.ptr])];
      assert before + (e.output + x) == before + e.output + x;
    }
    if o.Done? {
      assert o1.value == o.value.(output := before + o.value.output);
      GrowBehind(before, o.value);
    }
  }

  lemma GrowBehind(before: seq<Out>, e: Env)
    requires PtrNearTape(e)
    ensures Grow(e.(output := before + e.output)) == Grow(e).(output := before + Grow(e).output)
  {
    assert before + (e.output + [LowerNotice]) == before + e.output + [LowerNotice];
    assert before + (e.output + [UpperNotice]) == before + e.output + [UpperNotice];
    var e1 := e.(output := before + e.output);
    assert Grow(e1).cells == Grow(e).cells;
  }

  lemma {:induction false} InterpretBehind(before: seq<Out>, s: State, ch: char, fuel: nat)
    requires OnTape(s)
    ensures Interpret(Behind(before, s), ch, fuel) == BehindResult(before, Interpret(s, ch, fuel))
    decreases fuel, 2
  {
    hide Basic, Close;
    var o := Record(s, ch);
    if o.Done? && !o.value.jumpover {
      match ch
      case '+' => BasicBehind(before, o.value, Plus);
      case '-' => BasicBehind(before, o.value, Minus);
      case '<' => BasicBehind(before, o.value, Left);
      case '>' => BasicBehind(before, o.value, Right);
      case '.' => BasicBehind(before, o.value, Dot);
      case ',' => BasicBehind(before, o.value, Comma);
      case ']' => CloseBehind(before, o.value, fuel);
      case _ =>
    }
  }

  lemma {:induction false} CloseBehind(before: seq<Out>, s: State, fuel: nat)
    requires OnTape(s)
    ensures Close(Behind(before, s), fuel) == BehindResult(before, Close(s, fuel))
    decreases fuel, 1
  {
    hide Rounds;
    if 0 <= s.depth < MAX_LOOP_DEPTH {
      RoundsBehind(before, s.(marks := s.marks[s.depth := s.marks[s.depth].(close := s.position)]), fuel);
    }
  }

  lemma {:induction false} RoundsBehind(before: seq<Out>, s: State, fuel: nat)
    requires OnTape(s)
    ensures Rounds(Behind(before, s), fuel) == BehindResult(before, Rounds(s, fuel))
    decreases fuel, 0
  {
    hide Replay;
    if s.env.cells[s.env.ptr] != 0 && fuel > 0 && 0 <= s.depth < MAX_LOOP_DEPTH {
      var m := s.marks[s.depth];
      ReplayBehind(before, Locked(s, m.open), m.open, m.close, fuel - 1);
      var o := Replay(Locked(s, m.open), m.open, m.close, fuel - 1);
      if o.Done? {
        RoundsBehind(before, o.value, fuel - 1);
      }
    }
  }

  lemma {:induction false} ReplayBehind(before: seq<Out>, s: State, start: int, end: int, fuel: nat)
    requires OnTape(s)
    ensures Replay(Behind(before, s), start, end, fuel) == BehindResult(before, Replay(s, start, end, fuel))
    decreases fuel, 3, end - start
  {
    hide Interpret;
    if start < end && s.recording && 0 <= start < |s.recorded| {
      InterpretBehind(before, s, s.recorded[start], fuel);
      var o := Interpret(s, s.recorded[start], fuel);
      if o.Done? {
        ReplayBehind(before, o.value.(position := start + 1), start + 1, end, fuel);
      }
    }
  }

  lemma {:induction false} FeedBehind(before: seq<Out>, s: State, text: string, fuel: nat)
    requires OnTape(s)
    ensures Feed(Behind(before, s), text, fuel) == BehindResult(before, Feed(s, text, fuel))
    decreases |text|
  {
    hide Interpret;
    if text != [] {
      InterpretBehind(before, s, text[0], fuel);
      var o := Interpret(s, text[0], fuel);
      if o.Done? {
        FeedBehind(before, o.value, text[1..], fuel);
      }
    }
  }
}
