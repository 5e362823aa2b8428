/** What reset_bf undoes and what it does not: it leaves loop_marks alone, and '[' of an outermost loop relies on
    loop_marks[1][0] being 0 without ever setting it. */
module BrainfuckReset {
  import opened Bytes
  import opened BrainfuckLanguage
  import opened BrainfuckMachine
  import opened BrainfuckRefinement
  import opened BrainfuckTheorems

  lemma ResetIsIdleIff(s: State, garbage: int -> byte)
    requires OnTape(s)
    ensures Idle(Reset(s, garbage)) <==> s.marks[1].open == 0
    ensures SimSince(Reset(s, garbage).env, FreshWorld(garbage, s.env.input), s.env.output)
  {
    assert Reset(s, garbage).env.output[|s.env.output|..] == [];
  }

  /** Program p ends in s, however it is written to the device, as the tree semantics has it from w. */
  ghost predicate EndsAsTree(p: Prog, w: World, s: State)
    requires OnTape(s)
  {
    && (forall chunks: seq<string>, f: nat, g: nat ::
          Commands(Concat(chunks)) == Text(p) && !Eval(p, w, f).OutOfFuel? && f <= g ==>
          SameEnd(Eval(p, w, f), DeviceWrites(s, chunks, g), s.env.output))
    && (forall chunks: seq<string>, g: nat ::
          Commands(Concat(chunks)) == Text(p) && !DeviceWrites(s, chunks, g).OutOfFuel? ==>
          exists f: nat :: SameEnd(Eval(p, w, f), DeviceWrites(s, chunks, g), s.env.output))
  }

  ghost predicate RunsAllPrograms(w: World, s: State)
    requires OnTape(s)
  {
    forall p: Prog :: Admissible(p, s) ==> EndsAsTree(p, w, s)
  }

  lemma IdleRunsAll(w: World, s: State)
    requires Idle(s) && SimSince(s.env, w, s.env.output)
    ensures RunsAllPrograms(w, s)
  {
    forall p: Prog | Admissible(p, s) ensures EndsAsTree(p, w, s) {
      IdleRuns(p, w, s);
    }
  }

  lemma IdleRuns(p: Prog, w: World, s: State)
    requires Idle(s) && SimSince(s.env, w, s.env.output) && Admissible(p, s)
    ensures EndsAsTree(p, w, s)
  {
    hide Eval, DeviceWrites, Concat, Commands, Text, SameEnd, SimSince, Sim;
    forall chunks: seq<string>, f: nat, g: nat |
      Commands(Concat(chunks)) == Text(p) && !Eval(p, w, f).OutOfFuel? && f <= g
      ensures SameEnd(Eval(p, w, f), DeviceWrites(s, chunks, g), s.env.output)
    {
      RunAgrees(p, w, s, s.env.output, chunks, f, g);
    }
    forall chunks: seq<string>, g: nat |
      Commands(Concat(chunks)) == Text(p) && !DeviceWrites(s, chunks, g).OutOfFuel?
      ensures exists f: nat :: SameEnd(Eval(p, w, f), DeviceWrites(s, chunks, g), s.env.output)
    {
      var f: nat := g + Nesting(p);
      RunAgrees(p, w, s, s.env.output, chunks, f, g);
      assert SameEnd(Eval(p, w, f), DeviceWrites(s, chunks, g), s.env.output);
    }
  }

  // ---- a program that a wrong mark spoils ----

  /** ++[-] */
  function CountDown(): Prog { Do(Plus, Do(Plus, Loop(Do(Minus, End), End))) }

  lemma CountDownText()
    ensures Text(CountDown()) == "++[-]" && Commands(Concat(["++[-]"])) == Text(CountDown())
    ensures Nesting(CountDown()) < MAX_LOOP_DEPTH && LoopsFit(CountDown(), INITIAL_LENGTH)
  {
    TextIsCommands(CountDown());
    assert Text(Do(Minus, End)) == "-";
    assert Text(Loop(Do(Minus, End), End)) == "[-]";
    assert Concat(["++[-]"]) == "++[-]" + [];
    CommandsOfCommands(Text(CountDown()));
  }

  lemma CommandsOfCommands(text: string)
    requires AllCommands(text)
    ensures Commands(text) == text
  {
    if text != [] {
      TailIsCommands(text, [], text);
    }
  }

  lemma CountDownEnds(w: World)
    requires w.Here() == 0
    ensures Eval(CountDown(), w, 2).Done?
  {
    var w1 := Put(w, Inc(w.Here()));
    var w2 := Put(w1, Inc(w1.Here()));
    var w3 := Put(w2, Dec(w2.Here()));
    var w4 := Put(w3, Dec(w3.Here()));
    assert w2.Here() == 2 && w3.Here() == 1 && w4.Here() == 0;
    var body := Do(Minus, End);
    assert Exec(Minus, w2) == Done(w3) && Exec(Minus, w3) == Done(w4);
    assert Eval(body, w2, 1) == Done(w3) by { assert Eval(End, w3, 1) == Done(w3); }
    assert Eval(body, w3, 0) == Done(w4) by { assert Eval(End, w4, 0) == Done(w4); }
    assert While(body, w3, 1) == While(body, w4, 0) == Done(w4);
    assert While(body, w2, 2) == Done(w4);
    var rest := Loop(body, End);
    assert Eval(rest, w2, 2) == Eval(End, w4, 2) == Done(w4);
    assert Eval(Do(Plus, rest), w1, 2) == Eval(rest, w2, 2);
  }

  /** The state in which the ']' of ++[-] starts its rounds after a reset. */
  predicate AtCountDown(s: State) {
    && OnTape(s) && s.env.cells[s.env.ptr] != 0 && s.depth == 1 && s.recording && s.recorded == "-]"
    && s.marks[1].close == 1 && s.marks[1].open != 0
  }

  lemma {:induction false} WrongMarkNeverEnds(s: State, g: nat)
    requires AtCountDown(s)
    ensures Rounds(s, g).OutOfFuel? || Rounds(s, g).Fault?
    decreases g
  {
    if g > 0 && s.marks[1].open > 0 {
      WrongMarkNeverEnds(Locked(s, s.marks[1].open), g - 1);
    }
  }

  lemma FeedOne(s: State, ch: char, rest: string, text: string, g: nat)
    requires OnTape(s) && text == [ch] + rest
    ensures Feed(s, text, g) == (var s1 :- Interpret(s, ch, g); Feed(s1, rest, g))
  {
  }

  lemma FeedLast(s: State, ch: char, g: nat)
    requires OnTape(s)
    ensures Feed(s, [ch], g) == Interpret(s, ch, g)
  {
    FeedOne(s, ch, [], [ch], g);
    var o := Interpret(s, ch, g);
    if o.Done? {
      assert Feed(o.value, [], g) == o;
    }
  }

  lemma StepPlus(s: State, g: nat)
    requires OnTape(s) && !s.jumpover && !s.recording
    ensures Interpret(s, '+', g) ==
            Done(s.(env := s.env.(cells := s.env.cells[s.env.ptr := Inc(s.env.cells[s.env.ptr])])))
  {
  }

  lemma CountDownHangs(s: State, g: nat)
    requires OnTape(s) && s.depth == 0 && !s.recording && s.recorded == [] && s.position == -1
    requires !s.jumpover && !s.storeLock && |s.env.cells| >= 2 && s.env.cells[s.env.ptr] == 0
    requires s.marks[1].open != 0
    ensures Feed(s, "++[-]", g).OutOfFuel? || Feed(s, "++[-]", g).Fault?
  {
    hide Feed, Rounds;
    FeedOne(s, '+', "+[-]", "++[-]", g);
    StepPlus(s, g);
    var s1 := Interpret(s, '+', g).value;
    FeedOne(s1, '+', "[-]", "+[-]", g);
    StepPlus(s1, g);
    var s2 := Interpret(s1, '+', g).value;
    FeedOne(s2, '[', "-]", "[-]", g);
    var s3 := Interpret(s2, '[', g).value;
    FeedOne(s3, '-', "]", "-]", g);
    var s4 := Interpret(s3, '-', g).value;
    assert s4.recorded == "-" && s4.env.cells[s4.env.ptr] == 1;
    FeedLast(s4, ']', g);
    var s5 := Record(s4, ']').value;
    assert s5.recorded == "-]";
    WrongMarkNeverEnds(s5.(marks := s5.marks[1 := s5.marks[1].(close := s5.position)]), g);
  }

  /** After a reset, the interpreter runs every program as the tree semantics has it exactly if loop_marks[1][0]
      was 0 before: reset_bf does not put it back. */
  lemma ResetWorksIffMarkIsZero(s: State, garbage: int -> byte)
    requires OnTape(s)
    ensures RunsAllPrograms(FreshWorld(garbage, s.env.input), Reset(s, garbage)) <==> s.marks[1].open == 0
  {
    var r, w := Reset(s, garbage), FreshWorld(garbage, s.env.input);
    ResetIsIdleIff(s, garbage);
    if s.marks[1].open == 0 {
      IdleRunsAll(w, r);
    } else {
      WrongMarkSpoils(w, r);
    }
  }

  lemma WrongMarkSpoils(w: World, r: State)
    requires OnTape(r) && r.depth == 0 && !r.recording && r.recorded == [] && r.position == -1
    requires !r.jumpover && !r.storeLock && |r.env.cells| == INITIAL_LENGTH && r.env.cells[r.env.ptr] == 0
    requires r.marks[1].open != 0 && w.Here() == 0
    ensures !RunsAllPrograms(w, r)
  {
    hide Eval, Text, Commands, Concat, DeviceWrites, Feed;
    var p, chunks := CountDown(), ["++[-]"];
    CountDownText();
    CountDownEnds(w);
    ChunkingIsInvisible(r, chunks, 2);
    CountDownHangs(r, 2);
    assert !SameEnd(Eval(p, w, 2), DeviceWrites(r, chunks, 2), r.env.output);
    assert Admissible(p, r) && !EndsAsTree(p, w, r);
  }

  // ---- and a text after which the mark is wrong ----

  /** One ']' too many is enough: what follows it is recorded one level too low. */
  lemma StrayBracketLeavesMark(s: State, g: nat)
    requires Idle(s) && s.env.cells[s.env.ptr] == 0 && |s.env.cells| >= 2
    ensures Feed(s, "]+[+[", g).Done? && Feed(s, "]+[+[", g).value.marks[1].open == 2
  {
    hide Feed;
    FeedOne(s, ']', "+[+[", "]+[+[", g);
    StepClose(s, g);
    var s1 := Interpret(s, ']', g).value;
    FeedOne(s1, '+', "[+[", "+[+[", g);
    StepPlus(s1, g);
    var s2 := Interpret(s1, '+', g).value;
    FeedOne(s2, '[', "+[", "[+[", g);
    var s3 := Interpret(s2, '[', g).value;
    FeedOne(s3, '+', "[", "+[", g);
    var s4 := Interpret(s3, '+', g).value;
    FeedLast(s4, '[', g);
  }

  /** A ']' with no '[' before it. */
  lemma StepClose(s: State, g: nat)
    requires Idle(s) && s.env.cells[s.env.ptr] == 0
    ensures var o := Interpret(s, ']', g);
            && o.Done? && o.value.env == s.env && o.value.depth == -1
            && !o.value.recording && o.value.recorded == [] && o.value.position == -1
            && !o.value.jumpover && !o.value.storeLock
  {
    var t := s.(marks := s.marks[0 := s.marks[0].(close := s.position)]);
    assert Rounds(t, g) == Done(t);
    assert Close(s, g) == Done(Leave(t));
  }

  /** The failing family has a member that start-up reaches: write ]+[+[ first, reset, and ++[-] never ends. */
  lemma ResetDoesNotRepair(garbage: int -> byte, again: int -> byte, input: seq<byte>, g: nat, h: nat)
    ensures var o := Feed(Boot(garbage, input), "]+[+[", g);
            && o.Done?
            && !Idle(Reset(o.value, again))
            && !Feed(Reset(o.value, again), "++[-]", h).Done?
            && !RunsAllPrograms(FreshWorld(again, o.value.env.input), Reset(o.value, again))
  {
    BootIsIdle(garbage, input);
    StrayBracketLeavesMark(Boot(garbage, input), g);
    var s := Feed(Boot(garbage, input), "]+[+[", g).value;
    ResetIsIdleIff(s, again);
    CountDownHangs(Reset(s, again), h);
    ResetWorksIffMarkIsZero(s, again);
  }
}
