/** A text in which no ']' comes too early may be written to the device, complete or not, whatever comes after it:
    loop_marks[1][0] stays 0, so that the next reset leaves the interpreter idle. */
module BrainfuckGuard {
  import opened Bytes
  import opened BrainfuckLanguage
  import opened BrainfuckMachine
  import opened BrainfuckRefinement
  import opened BrainfuckTheorems
  import opened BrainfuckReset

  // ---- brackets left open ----

  function Delta(ch: char): int { if ch == '[' then 1 else if ch == ']' then -1 else 0 }

  /** How many more brackets a text opens than it closes. */
  function Height(text: string): int {
    if text == [] then 0 else Height(text[..|text| - 1]) + Delta(text[|text| - 1])
  }

  /** Read inside d open brackets, the text never closes more than there are. */
  ghost predicate NeverBelow(text: string, d: int) {
    forall k :: 0 <= k <= |text| ==> d + Height(text[..k]) >= 0
  }

  /** The text closes no bracket from before it, and leaves n open. */
  ghost predicate Leaves(text: string, n: int) {
    NeverBelow(text, 0) && Height(text) == n
  }

  lemma {:induction false} HeightAppend(a: string, b: string)
    ensures Height(a + b) == Height(a) + Height(b)
    decreases |b|
  {
    if b == [] {
      assert a + b == a;
    } else {
      assert (a + b)[..|a + b| - 1] == a + b[..|b| - 1];
      HeightAppend(a, b[..|b| - 1]);
    }
  }

  lemma LeavesNothing()
    ensures Leaves([], 0)
  {
    var none: string := [];
    forall k | 0 <= k <= |none| ensures 0 + Height(none[..k]) >= 0 {
    }
  }

  lemma LeavesMore(text: string, n: int, ch: char)
    requires Leaves(text, n) && n + Delta(ch) >= 0
    ensures Leaves(text + [ch], n + Delta(ch))
  {
    var t := text + [ch];
    assert t[..|text|] == text;
    forall k | 0 <= k <= |t| ensures 0 + Height(t[..k]) >= 0 {
      if k <= |text| {
        assert t[..k] == text[..k];
      } else {
        assert t[..k] == t;
      }
    }
  }

  /** The front of a text, when the back is known. */
  lemma LeavesBefore(text: string, k: nat, n: int, m: int)
    requires k <= |text| && Leaves(text, n) && Height(text[k..]) == m
    ensures Leaves(text[..k], n - m)
  {
    assert text[..k] + text[k..] == text;
    HeightAppend(text[..k], text[k..]);
    var t := text[..k];
    forall j | 0 <= j <= |t| ensures 0 + Height(t[..j]) >= 0 {
      assert t[..j] == text[..j];
    }
  }

  // ---- the loops being run, and where their recording starts ----

  /** How many loops are being run; a loop jumped over, and those in it, are not. */
  function Inner(s: State): int { if s.jumpover then s.tempDepth - 1 else s.depth }

  predicate JumpOk(s: State) { if s.jumpover then s.tempDepth <= s.depth else s.tempDepth == 0 }

  /** From where the body of the loop at depth k is recorded up to i, just the brackets deeper than k are open. */
  ghost predicate Level(s: State, i: int, k: int)
    requires OnTape(s) && 1 <= k < MAX_LOOP_DEPTH
  {
    0 <= s.marks[k].open <= i <= |s.recorded| && Leaves(s.recorded[s.marks[k].open..i], s.depth - k)
  }

  ghost predicate Nested(s: State, j: int, k: int)
    requires OnTape(s) && 1 <= j <= k < MAX_LOOP_DEPTH
  {
    s.marks[j].open <= s.marks[k].open
  }

  /** The interpreter is at index i of the recording. */
  ghost predicate Stack(s: State, i: int)
    ensures Stack(s, i) ==> OnTape(s) && 1 <= Inner(s) < MAX_LOOP_DEPTH && s.marks[1].open == 0
  {
    && OnTape(s) && s.recording && 1 <= Inner(s) < MAX_LOOP_DEPTH && JumpOk(s) && 0 <= i <= |s.recorded|
    && s.marks[1].open == 0
    && (forall k :: 1 <= k <= Inner(s) ==> Level(s, i, k))
    && (forall j, k :: 1 <= j <= k <= Inner(s) ==> Nested(s, j, k))
  }

  /** One character further, with the loops from before, or some of them, or one more that starts here. */
  lemma StackGrows(s: State, u: State, i: int, ch: char)
    requires Stack(s, i) && OnTape(u) && u.recording && JumpOk(u)
    requires i < |u.recorded| && u.recorded[..i] == s.recorded[..i] && u.recorded[i] == ch
    requires u.depth == s.depth + Delta(ch) && u.marks[1].open == 0
    requires 1 <= Inner(u) < MAX_LOOP_DEPTH
    requires Inner(u) <= Inner(s) || (Inner(u) == u.depth == Inner(s) + 1 && u.marks[Inner(u)].open == i + 1)
    requires forall k :: 1 <= k <= Inner(u) && k <= Inner(s) ==> u.marks[k].open == s.marks[k].open
    ensures Stack(u, i + 1)
  {
    hide Leaves;
    var n := i + 1;
    forall k | 1 <= k <= Inner(u) ensures Level(u, n, k) {
      if k <= Inner(s) {
        assert Level(s, i, k);
        var a := s.marks[k].open;
        LeavesMore(s.recorded[a..i], s.depth - k, ch);
        assert u.recorded[a..i + 1] == s.recorded[a..i] + [ch] by {
          assert s.recorded[a..i] == s.recorded[..i][a..] == u.recorded[..i][a..] == u.recorded[a..i];
        }
      } else {
        LeavesNothing();
        assert u.recorded[i + 1..i + 1] == [];
      }
    }
    forall j, k | 1 <= j <= k <= Inner(u) ensures Nested(u, j, k) {
      if k <= Inner(s) {
        assert Nested(s, j, k);
      } else if j <= Inner(s) {
        assert Level(s, i, j);
      }
    }
  }

  // ---- one character, other than a ']' that is executed ----

  /** What is left alone while the loops down to depth e are being run. */
  ghost predicate Same(s: State, u: State, e: int)
    requires OnTape(s) && OnTape(u)
  {
    && u.recording && u.lockLevel == s.lockLevel && u.storeLock == s.storeLock
    && forall k :: 1 <= k <= e && k < MAX_LOOP_DEPTH ==> u.marks[k] == s.marks[k]
  }

  /** The recording after the character at i has been handed over. */
  ghost predicate RecordedTo(s: State, u: State, live: bool, i: int, ch: char) {
    u.recorded == if live then s.recorded + [ch] else s.recorded
  }

  /** At index i of the recording, which in live mode is its end. */
  ghost predicate At(s: State, live: bool, i: int) {
    Mode(s, live, i) && (live ==> i == |s.recorded| && s.position == i - 1)
  }

  /** The character at index i is handed over. */
  predicate Next(s: State, live: bool, i: int, ch: char) {
    !live ==> 0 <= i < |s.recorded| && s.recorded[i] == ch
  }

  /** What interpret_bf does with any character but ']', the tape apart. */
  lemma StepIs(s: State, ch: char, g: nat)
    requires OnTape(s) && (ch != ']' || s.jumpover) && Interpret(s, ch, g).Done?
    ensures Record(s, ch).Done?
    ensures var r, u := Record(s, ch).value, Interpret(s, ch, g).value;
            if r.jumpover then u == Skip(r, ch)
            else if ch == '[' then Open(r).Done? && u == Open(r).value
            else u == r.(env := u.env)
  {
  }

  lemma StackSteps(s: State, live: bool, i: int, ch: char, g: nat)
    requires Stack(s, i) && At(s, live, i) && Next(s, live, i, ch) && (ch != ']' || s.jumpover)
    requires Interpret(s, ch, g).Done?
    ensures var u := Advance(Interpret(s, ch, g).value, live, i + 1);
            && Stack(u, i + 1) && At(u, live, i + 1) && RecordedTo(s, u, live, i, ch) && Same(s, u, Inner(s))
            && u.depth == s.depth + Delta(ch) && Inner(u) >= Inner(s)
  {
    StepIs(s, ch, g);
    hide Level, Interpret, Leaves, Height;
    var u := Advance(Interpret(s, ch, g).value, live, i + 1);
    StackGrows(s, u, i, ch);
  }

  // ---- a ']' that is executed ----

  /** At the ']' of the loop at depth e, which is at index i. */
  ghost predicate AtEnd(s: State, e: int, i: int) {
    && Stack(s, i) && !s.jumpover && s.depth == e && s.marks[e].close == i && s.position == i
    && (if s.storeLock then 1 <= s.lockLevel <= e else s.lockLevel == 0)
  }

  /** What the rounds of the loop at depth e leave alone. */
  ghost predicate RoundsSame(s: State, u: State, e: int)
    requires OnTape(s) && OnTape(u)
  {
    && u.recorded == s.recorded
    && (forall k :: 1 <= k <= e && k < MAX_LOOP_DEPTH ==> u.marks[k] == s.marks[k])
    && (if s.storeLock then u.storeLock && u.lockLevel == s.lockLevel else u.storeLock ==> u.lockLevel == e)
  }

  lemma LevelRewinds(s: State, e: int, i: int, k: int)
    requires AtEnd(s, e, i) && 1 <= k <= e
    ensures var a := s.marks[e].open; Level(Locked(s, a), a, k) && a <= i <= |s.recorded| && Leaves(s.recorded[a..i], 0)
  {
    var a, b := s.marks[e].open, s.marks[k].open;
    assert Level(s, i, e) && Level(s, i, k) && Nested(s, k, e);
    hide Leaves, Stack;
    var text := s.recorded[b..i];
    SlicesMeet(s.recorded, b, a, i);
    LeavesHeight(s.recorded[a..i], 0);
    LeavesBefore(text, a - b, e - k, 0);
  }

  lemma SlicesMeet(text: string, b: int, a: int, i: int)
    requires 0 <= b <= a <= i <= |text|
    ensures text[b..i][a - b..] == text[a..i] && text[b..i][..a - b] == text[b..a]
  {
  }

  lemma LeavesHeight(text: string, n: int)
    requires Leaves(text, n)
    ensures Height(text) == n
  {
  }

  /** Back to the start of the body. */
  lemma StackRewinds(s: State, e: int, i: int)
    requires AtEnd(s, e, i)
    ensures var a := s.marks[e].open; Stack(Locked(s, a), a) && a <= i <= |s.recorded| && Leaves(s.recorded[a..i], 0)
  {
    hide Leaves, Level;
    var a := s.marks[e].open;
    LevelRewinds(s, e, i, e);
    forall k | 1 <= k <= e ensures Level(Locked(s, a), a, k) {
      LevelRewinds(s, e, i, k);
    }
    forall j, k | 1 <= j <= k <= e ensures Nested(Locked(s, a), j, k) {
      assert Nested(s, j, k);
    }
    assert 0 <= a by { LevelStarts(s, i, e); }
  }

  lemma LevelStarts(s: State, i: int, k: int)
    requires Stack(s, i) && 1 <= k <= Inner(s)
    ensures 0 <= s.marks[k].open <= i
  {
    assert Level(s, i, k);
  }

  lemma {:induction false} RoundsKeep(s: State, e: int, i: int, g: nat)
    requires AtEnd(s, e, i) && Rounds(s, g).Done?
    ensures AtEnd(Rounds(s, g).value, e, i) && RoundsSame(s, Rounds(s, g).value, e)
    decreases g, 0
  {
    if s.env.cells[s.env.ptr] != 0 {
      var a := s.marks[e].open;
      StackRewinds(s, e, i);
      assert Level(s, i, e);
      assert s.recorded[a..a] == [];
      ReplayKeeps(Locked(s, a), e, a, a, i, g - 1);
      var u := Replay(Locked(s, a), a, i, g - 1).value;
      RoundsKeep(u, e, i, g - 1);
    }
  }

  /** Replaying the body of the loop at depth e from index j on. */
  ghost predicate InBody(s: State, e: int, a: int, j: int, end: int) {
    && Stack(s, j) && At(s, false, j) && 0 <= a <= j <= end <= |s.recorded| && Leaves(s.recorded[a..end], 0)
    && s.depth == e + Height(s.recorded[a..j]) && 1 <= s.lockLevel <= e <= Inner(s)
  }

  ghost predicate ReplaySame(s: State, u: State, e: int)
    requires OnTape(s) && OnTape(u)
  {
    u.recorded == s.recorded && Same(s, u, e)
  }

  lemma {:induction false} ReplayKeeps(s: State, e: int, a: int, j: int, end: int, g: nat)
    requires InBody(s, e, a, j, end) && Replay(s, j, end, g).Done?
    ensures var u := Replay(s, j, end, g).value;
            Stack(u, end) && At(u, false, end) && !u.jumpover && u.depth == e && ReplaySame(s, u, e)
    decreases g, 3, end - j
  {
    if j == end {
      assert Height(s.recorded[a..end]) == 0;
    } else {
      var ch := s.recorded[j];
      BodyGoesOn(s, e, a, j, end);
      hide Leaves, Height, Interpret, Stack;
      if ch == ']' && !s.jumpover {
        CloseKeeps(s, false, j, g);
      } else {
        StackSteps(s, false, j, ch, g);
      }
      var u := Advance(Interpret(s, ch, g).value, false, j + 1);
      ReplayKeeps(u, e, a, j + 1, end, g);
    }
  }

  lemma BodyGoesOn(s: State, e: int, a: int, j: int, end: int)
    requires InBody(s, e, a, j, end) && j < end
    ensures s.depth + Delta(s.recorded[j]) == e + Height(s.recorded[a..j + 1]) >= e
  {
    var text := s.recorded[a..end];
    assert s.recorded[a..j + 1] == s.recorded[a..j] + [s.recorded[j]];
    HeightAppend(s.recorded[a..j], [s.recorded[j]]);
    assert Height([s.recorded[j]]) == Delta(s.recorded[j]) by { assert [s.recorded[j]][..0] == []; }
    assert text[..j + 1 - a] == s.recorded[a..j + 1];
  }

  /** The state in which the ']' at index i starts its rounds. */
  function Closing(s: State): State
    requires OnTape(s) && 0 <= s.depth < MAX_LOOP_DEPTH && Record(s, ']').Done?
  {
    var r := Record(s, ']').value;
    r.(marks := r.marks[r.depth := r.marks[r.depth].(close := r.position)])
  }

  lemma CloseIs(s: State, g: nat)
    requires OnTape(s) && !s.jumpover && 0 <= s.depth < MAX_LOOP_DEPTH && Interpret(s, ']', g).Done?
    ensures Record(s, ']').Done? && OnTape(Closing(s)) && Rounds(Closing(s), g).Done?
    ensures Interpret(s, ']', g).value == Leave(Rounds(Closing(s), g).value)
  {
  }

  /** Nothing changes for the loops being run when the ']' is recorded. */
  lemma ClosingIsAtEnd(s: State, live: bool, i: int)
    requires Stack(s, i) && At(s, live, i) && Next(s, live, i, ']') && !s.jumpover && Record(s, ']').Done?
    requires if live then s.lockLevel == 0 else 1 <= s.lockLevel < s.depth
    ensures AtEnd(Closing(s), s.depth, i) && RecordedTo(s, Closing(s), live, i, ']')
  {
    hide Leaves, Height;
    var t := Closing(s);
    forall k | 1 <= k <= s.depth ensures Level(t, i, k) {
      assert Level(s, i, k);
      var a := s.marks[k].open;
      assert t.recorded[a..i] == s.recorded[a..i];
    }
    forall j, k | 1 <= j <= k <= s.depth ensures Nested(t, j, k) {
      assert Nested(s, j, k);
    }
  }

  lemma {:induction false} CloseKeeps(s: State, live: bool, i: int, g: nat)
    requires Stack(s, i) && At(s, live, i) && Next(s, live, i, ']') && !s.jumpover
    requires if live then s.lockLevel == 0 else 1 <= s.lockLevel < s.depth
    requires Interpret(s, ']', g).Done?
    ensures var u := Advance(Interpret(s, ']', g).value, live, i + 1);
            if s.depth == 1 then Rested(u) && u.depth == 0 && !u.jumpover
            else Stack(u, i + 1) && At(u, live, i + 1) && RecordedTo(s, u, live, i, ']') && Same(s, u, s.depth - 1)
                 && u.depth == Inner(u) == s.depth - 1
    decreases g, 1
  {
    CloseIs(s, g);
    ClosingIsAtEnd(s, live, i);
    var t := Closing(s);
    RoundsKeep(t, s.depth, i, g);
    hide Level, Nested, Leaves, Height, Rounds, Interpret;
    var v := Rounds(t, g).value;
    var u := Advance(Leave(v), live, i + 1);
    if s.depth > 1 {
      StackGrows(v, u.(depth := s.depth - 1), i, ']');
    }
  }

  // ---- text handed over live ----

  /** Nothing is recorded, and at most one outermost loop is being jumped over. */
  ghost predicate Rested(s: State) {
    && OnTape(s) && s.marks[1].open == 0 && !s.storeLock && s.lockLevel == 0 && JumpOk(s)
    && !s.recording && Inner(s) == 0 && s.recorded == [] && s.capacity == 0 && s.position == -1
  }

  ghost predicate Guarded(s: State)
    ensures Guarded(s) ==> OnTape(s) && s.marks[1].open == 0
  {
    || Rested(s)
    || (Stack(s, |s.recorded|) && At(s, true, |s.recorded|) && s.lockLevel == 0)
  }

  lemma RestedSteps(s: State, ch: char, g: nat)
    requires Rested(s) && s.depth + Delta(ch) >= 0 && Interpret(s, ch, g).Done?
    ensures Guarded(Interpret(s, ch, g).value) && Interpret(s, ch, g).value.depth == s.depth + Delta(ch)
  {
    StepIs(s, ch, g);
    hide Interpret;
    var u := Interpret(s, ch, g).value;
    if u.recording {
      LeavesNothing();
      assert u.recorded[0..0] == [];
      assert Level(u, 0, 1) && Nested(u, 1, 1);
    }
  }

  lemma GuardedSteps(s: State, ch: char, g: nat)
    requires Guarded(s) && s.depth + Delta(ch) >= 0 && Interpret(s, ch, g).Done?
    ensures Guarded(Interpret(s, ch, g).value) && Interpret(s, ch, g).value.depth == s.depth + Delta(ch)
  {
    if Rested(s) {
      RestedSteps(s, ch, g);
    } else {
      hide Stack, Interpret;
      var i := |s.recorded|;
      if ch == ']' && !s.jumpover {
        CloseKeeps(s, true, i, g);
      } else {
        StackSteps(s, true, i, ch, g);
      }
    }
  }

  lemma {:induction false} FeedIsGuarded(s: State, text: string, g: nat)
    requires Guarded(s) && NeverBelow(text, s.depth) && Feed(s, text, g).Done?
    ensures Guarded(Feed(s, text, g).value)
    decreases |text|
  {
    if text != [] {
      hide Guarded, Interpret;
      var ch, rest := text[0], text[1..];
      BelowSplits(text, s.depth);
      GuardedSteps(s, ch, g);
      FeedIsGuarded(Interpret(s, ch, g).value, rest, g);
    }
  }

  lemma BelowSplits(text: string, d: int)
    requires text != [] && NeverBelow(text, d)
    ensures d + Delta(text[0]) >= 0 && NeverBelow(text[1..], d + Delta(text[0]))
  {
    var one := [text[0]];
    assert Height(one) == Delta(text[0]) by { assert one[..0] == []; }
    assert text[..1] == one;
    var rest := text[1..];
    forall k | 0 <= k <= |rest| ensures d + Delta(text[0]) + Height(rest[..k]) >= 0 {
      HeightAppend(one, rest[..k]);
      assert text[..k + 1] == one + rest[..k];
    }
  }

  /** A text without a ']' too early keeps the mark, so a reset after it leaves the interpreter idle. */
  lemma GuardedTextMayBeReset(s: State, chunks: seq<string>, garbage: int -> byte, g: nat)
    requires Idle(s) && NeverBelow(Commands(Concat(chunks)), 0) && DeviceWrites(s, chunks, g).Done?
    ensures var u := DeviceWrites(s, chunks, g).value; u.marks[1].open == 0 && Idle(Reset(u, garbage))
  {
    hide Stack, NeverBelow, DeviceWrites, Feed;
    ChunkingIsInvisible(s, chunks, g);
    FeedIsGuarded(s, Commands(Concat(chunks)), g);
    ResetIsIdleIff(DeviceWrites(s, chunks, g).value, garbage);
  }

  /** Texts written one after the other, with a reset after each. */
  function Sessions(s: State, texts: seq<seq<string>>, garbage: int -> byte, fuel: nat): (r: Outcome<State>)
    requires OnTape(s)
    ensures r.Done? ==> OnTape(r.value)
    decreases |texts|
  {
    if texts == [] then Done(s)
    else
      var u :- DeviceWrites(s, texts[0], fuel);
      Sessions(Reset(u, garbage), texts[1..], garbage, fuel)
  }

  /** However many guarded texts have come and gone, whole programs or cut off, the interpreter then runs every
      program as the tree semantics has it. */
  lemma {:induction false} GuardedSessionsRunAll(s: State, texts: seq<seq<string>>, garbage: int -> byte, g: nat)
    requires Idle(s) && texts != [] && Sessions(s, texts, garbage, g).Done?
    requires forall k :: 0 <= k < |texts| ==> NeverBelow(Commands(Concat(texts[k])), 0)
    ensures var u := Sessions(s, texts, garbage, g).value; RunsAllPrograms(FreshWorld(garbage, u.env.input), u)
    decreases |texts|
  {
    hide RunsAllPrograms, NeverBelow, DeviceWrites, Commands, Concat, SimSince;
    GuardedTextMayBeReset(s, texts[0], garbage, g);
    var u := DeviceWrites(s, texts[0], g).value;
    var r := Reset(u, garbage);
    if |texts| == 1 {
      assert Sessions(r, texts[1..], garbage, g) == Done(r);
      ResetWorksIffMarkIsZero(u, garbage);
    } else {
      GuardedSessionsRunAll(r, texts[1..], garbage, g);
    }
  }
}
