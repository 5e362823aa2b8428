/** When the threads of the bounded buffer can all come to wait for ever: exactly if there is no consumer, or there
    are ten or more. */
module SemaphoreDeadlock {
  import opened SemaphorePrograms
  import opened SemaphoreLaws
  import opened SemaphoreInvariants
  import opened SemaphoreTheorems

  // ---- reachability ----

  ghost predicate Reaches(st: State, g: State) {
    Inv(st) && exists schedule ::
      (forall i :: 0 <= i < |schedule| ==> schedule[i] < |st.threads|) && Run(st, schedule) == g
  }

  lemma ReachesItself(st: State)
    requires Inv(st)
    ensures Reaches(st, st)
  {
    assert Run(st, []) == st;
  }

  lemma ReachesBefore(st: State, n: nat, g: State)
    requires Inv(st) && n < |st.threads| && Running(st.threads[n]) && Reaches(Step(st, n), g)
    ensures Reaches(st, g)
  {
    hide Inv, Step;
    StepKeepsCount(st, n);
    var schedule :| (forall i :: 0 <= i < |schedule| ==> schedule[i] < |Step(st, n).threads|)
                    && Run(Step(st, n), schedule) == g;
    var all := [n] + schedule;
    assert all[1..] == schedule;
    assert Run(st, all) == g;
  }

  lemma RunningNow(st: State, n: nat)
    requires Inv(st) && n < |st.threads|
    ensures Running(st.threads[n])
  {
  }

  lemma {:induction false} ReachesOn(st: State, schedule: seq<nat>, g: State)
    requires Inv(st) && (forall i :: 0 <= i < |schedule| ==> schedule[i] < |st.threads|)
    requires Reaches(Run(st, schedule), g)
    ensures Reaches(st, g)
    decreases |schedule|
  {
    hide Inv, Step, Reaches;
    if schedule != [] {
      var n := schedule[0];
      RunningNow(st, n);
      StepKeepsInv(st, n);
      StepKeepsCount(st, n);
      ReachesOn(Step(st, n), schedule[1..], g);
      ReachesBefore(st, n, g);
    }
  }

  lemma ReachesTwice(st: State, u: State, g: State)
    requires Reaches(st, u) && Reaches(u, g)
    ensures Reaches(st, g)
  {
    hide Inv, Run;
    var schedule :| (forall i :: 0 <= i < |schedule| ==> schedule[i] < |st.threads|) && Run(st, schedule) == u;
    ReachesOn(st, schedule, g);
  }

  // ---- rounds of one producer, and consumers that take one token each ----

  /** Between rounds of the producer p: the consumers in `taken` have taken one token each, all other threads are at
      their start, and m tokens are left. */
  ghost predicate Quiet(st: State, p: nat, taken: set<nat>, m: nat) {
    && Inv(st) && BufferOnly(st.threads) && p < |st.threads| && st.threads[p].kind == Producer
    && (forall i :: i in taken ==> i < |st.threads| && st.threads[i].kind == Consumer)
    && (forall i: nat :: i < |st.threads| ==> st.threads[i].pc == if i in taken then 1 else 0)
    && st.counts(FREE) == 10 - |taken| - m && st.counts(FULL) == m && st.counts(ACCESS) == 1
  }

  /** In a round of the producer that began in `was`. */
  ghost predicate InRound(st: State, was: State, p: nat, pc: nat) {
    && Inv(st) && |st.threads| == |was.threads| && p < |st.threads|
    && st.threads[p].kind == Producer && st.threads[p].pc == pc
    && (forall i: nat :: i < |st.threads| && i != p ==> st.threads[i] == was.threads[i])
    && st.counts(FREE) == was.counts(FREE) - (if pc >= 1 then 1 else 0)
    && st.counts(ACCESS) == (if 2 <= pc <= 4 then 0 else 1) && st.counts(FULL) == was.counts(FULL)
  }

  lemma RoundGoesOn(st: State, was: State, p: nat, pc: nat)
    requires InRound(st, was, p, pc) && pc < 5 && (pc == 0 ==> st.counts(FREE) > 0)
    ensures Running(st.threads[p]) && InRound(Step(st, p), was, p, pc + 1)
  {
    hide Inv;
    RunningNow(st, p);
    StepKeepsInv(st, p);
  }

  lemma RoundEnds(st: State, was: State, p: nat, taken: set<nat>, m: nat)
    requires Quiet(was, p, taken, m) && InRound(st, was, p, 5)
    ensures Running(st.threads[p]) && Quiet(Step(st, p), p, taken, m + 1)
  {
    hide Inv;
    RunningNow(st, p);
    StepKeepsInv(st, p);
    var g := Step(st, p);
    forall i: nat | i < |g.threads|
      ensures g.threads[i].kind == was.threads[i].kind && g.threads[i].pc == was.threads[i].pc
    {
      if i != p {
        assert g.threads[i] == st.threads[i] == was.threads[i];
      }
    }
  }

  lemma {:induction false} Round(st: State, was: State, p: nat, pc: nat, taken: set<nat>, m: nat) returns (g: State)
    requires Quiet(was, p, taken, m) && |taken| + m < 10 && InRound(st, was, p, pc) && pc <= 5
    ensures Quiet(g, p, taken, m + 1) && Reaches(st, g)
    decreases 5 - pc
  {
    hide Inv, Step, Reaches;
    if pc < 5 {
      RoundGoesOn(st, was, p, pc);
      g := Round(Step(st, p), was, p, pc + 1, taken, m);
    } else {
      RoundEnds(st, was, p, taken, m);
      g := Step(st, p);
      QuietReachesItself(g, p, taken, m + 1);
    }
    ReachesBefore(st, p, g);
  }

  lemma QuietReachesItself(st: State, p: nat, taken: set<nat>, m: nat)
    requires Quiet(st, p, taken, m)
    ensures Reaches(st, st)
  {
    ReachesItself(st);
  }

  lemma TokenIsTaken(st: State, p: nat, taken: set<nat>, i: nat)
    requires Quiet(st, p, taken, 1) && i < |st.threads| && st.threads[i].kind == Consumer && i !in taken
    ensures Running(st.threads[i]) && Quiet(Step(st, i), p, taken + {i}, 0)
  {
    hide Inv;
    RunningNow(st, i);
    StepKeepsInv(st, i);
    var g := Step(st, i);
    assert |taken + {i}| == |taken| + 1;
    forall j: nat | j < |g.threads| && j != i ensures g.threads[j] == st.threads[j] {
    }
  }

  /** Without consumers, the producer fills the buffer. */
  lemma {:induction false} FillsUp(st: State, p: nat, m: nat) returns (g: State)
    requires Quiet(st, p, {}, m) && m <= 10
    ensures Quiet(g, p, {}, 10) && Reaches(st, g)
    decreases 10 - m
  {
    hide Inv, Reaches;
    if m == 10 {
      g := st;
      ReachesItself(g);
    } else {
      var u := Round(st, st, p, 0, {}, m);
      g := FillsUp(u, p, m + 1);
      ReachesTwice(st, u, g);
    }
  }

  function ConsumerSet(threads: seq<Thread>, k: nat): set<nat> {
    set i: nat | k <= i < |threads| && threads[i].kind == Consumer
  }

  lemma {:induction false} ConsumerSetSize(threads: seq<Thread>, k: nat)
    requires k <= |threads|
    ensures |ConsumerSet(threads, k)| == Consumers(threads[k..])
    decreases |threads| - k
  {
    if k < |threads| {
      ConsumerSetSize(threads, k + 1);
      assert threads[k..][1..] == threads[k + 1..];
      var here: set<nat> := if threads[k].kind == Consumer then {k} else {};
      assert ConsumerSet(threads, k) == ConsumerSet(threads, k + 1) + here;
    } else {
      assert ConsumerSet(threads, k) == {};
    }
  }

  /** Someone is left who has not taken a token. */
  lemma OneMoreConsumer(threads: seq<Thread>, taken: set<nat>) returns (i: nat)
    requires |taken| < Consumers(threads)
    requires forall j :: j in taken ==> j < |threads| && threads[j].kind == Consumer
    ensures i < |threads| && threads[i].kind == Consumer && i !in taken
  {
    ConsumerSetSize(threads, 0);
    assert threads[0..] == threads;
    var all := ConsumerSet(threads, 0);
    assert |all - taken| == |all| - |taken| by { assert taken <= all; }
    i :| i in all - taken;
  }

  /** With ten consumers or more, one after the other takes its first token, and no place is left. */
  lemma {:induction false} AllGetServed(st: State, p: nat, taken: set<nat>) returns (g: State, all: set<nat>)
    requires Quiet(st, p, taken, 0) && |taken| <= 10 <= Consumers(st.threads)
    ensures Quiet(g, p, all, 0) && |all| == 10 && Reaches(st, g)
    decreases 10 - |taken|
  {
    hide Inv, Reaches;
    if |taken| == 10 {
      g, all := st, taken;
      ReachesItself(g);
    } else {
      var u := Round(st, st, p, 0, taken, 0);
      ReachesSameKinds(st, u);
      SameConsumers(st.threads, u.threads);
      var i := OneMoreConsumer(u.threads, taken);
      TokenIsTaken(u, p, taken, i);
      var v := Step(u, i);
      StepKeepsKinds(u, i);
      SameConsumers(u.threads, v.threads);
      g, all := AllGetServed(v, p, taken + {i});
      ReachesBefore(u, i, g);
      ReachesTwice(st, u, g);
    }
  }

  lemma ReachesSameKinds(st: State, g: State)
    requires Reaches(st, g)
    ensures |g.threads| == |st.threads| && forall i :: 0 <= i < |g.threads| ==> g.threads[i].kind == st.threads[i].kind
  {
    hide Inv, Run;
    var schedule :| (forall i :: 0 <= i < |schedule| ==> schedule[i] < |st.threads|) && Run(st, schedule) == g;
    KindsStay(st, schedule);
  }

  // ---- the exact condition ----

  ghost predicate CanGetStuck(st: State) {
    exists g :: Reaches(st, g) && AllRunning(g.threads) && Stuck(g)
  }

  lemma QuietIsStuck(st: State, p: nat, taken: set<nat>, m: nat)
    requires Quiet(st, p, taken, m) && |taken| + m == 10
    requires m == 0 || Consumers(st.threads) == 0
    ensures AllRunning(st.threads) && Stuck(st)
  {
    hide AllLaws, RegisterIsCurrent, Code;
    forall i: nat | i < |st.threads| ensures Running(st.threads[i]) && Blocked(st, i) {
      TokenWaitersAreAtP(st.threads[i]);
      WaitingPlaces(st.threads[i]);
      if st.threads[i].kind == Consumer {
        SomeConsumer(st.threads, i);
      }
    }
  }

  lemma SomeConsumer(threads: seq<Thread>, i: nat)
    requires i < |threads| && threads[i].kind == Consumer
    ensures Consumers(threads) > 0
  {
    ConsumerSetSize(threads, 0);
    assert threads[0..] == threads;
    assert i in ConsumerSet(threads, 0);
  }

  lemma StartsQuiet(st: State, p: nat)
    requires Initial(st) && BufferOnly(st.threads) && p < |st.threads| && st.threads[p].kind == Producer
    ensures Quiet(st, p, {}, 0)
  {
    InitialInv(st);
  }

  lemma GetsStuck(st: State, p: nat)
    requires Initial(st) && BufferOnly(st.threads) && p < |st.threads| && st.threads[p].kind == Producer
    requires Consumers(st.threads) == 0 || Consumers(st.threads) >= 10
    ensures CanGetStuck(st)
  {
    StartsQuiet(st, p);
    hide Inv, Quiet, Reaches, Stuck, Initial;
    if Consumers(st.threads) == 0 {
      var g := FillsUp(st, p, 0);
      ReachesSameKinds(st, g);
      SameConsumers(st.threads, g.threads);
      QuietIsStuck(g, p, {}, 10);
    } else {
      var g, all := AllGetServed(st, p, {});
      QuietIsStuck(g, p, all, 0);
    }
  }

  /** Some schedule of any number of producers and consumers leads to a state in which all wait for ever exactly if
      there is no consumer, or there are at least ten. */
  lemma GetsStuckIff(st: State)
    requires Initial(st) && BufferOnly(st.threads) && HasKind(st.threads, Producer)
    ensures CanGetStuck(st) <==> Consumers(st.threads) == 0 || Consumers(st.threads) >= 10
  {
    if Consumers(st.threads) == 0 || Consumers(st.threads) >= 10 {
      var p :| 0 <= p < |st.threads| && st.threads[p].kind == Producer;
      GetsStuck(st, p);
    } else {
      var c := OneMoreConsumer(st.threads, {});
      assert HasKind(st.threads, Consumer);
      if CanGetStuck(st) {
        StaysUnstuck(st);
      }
    }
  }

  lemma StaysUnstuck(st: State)
    requires Initial(st) && BufferOnly(st.threads) && HasKind(st.threads, Producer) && HasKind(st.threads, Consumer)
    requires Consumers(st.threads) <= 9
    ensures !CanGetStuck(st)
  {
    hide Inv, Stuck, Initial, BufferOnly, HasKind, Consumers, Run;
    forall g | Reaches(st, g) && AllRunning(g.threads) ensures !Stuck(g) {
      var schedule :| (forall i :: 0 <= i < |schedule| ==> schedule[i] < |st.threads|) && Run(st, schedule) == g;
      NineConsumersNeverStuck(st, schedule);
    }
  }
}
