/** Runs of single instructions: what holds in them, and that somebody can always complete an operation. */
module SemaphoreProgress {
  import opened SemaphorePrograms
  import opened SemaphoreLaws
  import opened SemaphoreInvariants
  import opened SemaphoreTheorems
  import opened SemaphoreLocks

  /** Every lock that is taken has a holder. */
  ghost predicate Held(m: Machine, s: Sem) {
    exists i :: 0 <= i < |m.workers| && HasLock(m.workers[i], s)
  }

  ghost predicate LocksAreHeld(m: Machine) { forall s: Sem :: m.locks(s) ==> Held(m, s) }

  ghost predicate Good(m: Machine) {
    MicroInv(m) && LocksAreHeld(m) && Inv(View(m))
  }

  lemma LocksStayHeld(m: Machine, n: nat, s: Sem)
    requires MicroInv(m) && LocksAreHeld(m) && n < |m.workers|
    ensures Running(m.workers[n].thread)
    ensures MicroStep(m, n).locks(s) ==> Held(MicroStep(m, n), s)
  {
    hide MicroInv, Code, Moved;
    Knows(m, n);
    WorkerAfter(m, n);
    var g := MicroStep(m, n);
    if g.locks(s) {
      if m.locks(s) {
        assert Held(m, s);
        var i :| 0 <= i < |m.workers| && HasLock(m.workers[i], s);
        assert HasLock(g.workers[i], s);
      } else {
        assert HasLock(g.workers[n], s);
      }
    }
  }

  lemma StepKeepsGood(m: Machine, n: nat)
    requires Good(m) && n < |m.workers|
    ensures Running(m.workers[n].thread) && Good(MicroStep(m, n))
    ensures |MicroStep(m, n).workers| == |m.workers|
  {
    hide MicroInv, Inv, MicroStep, Held, TakesEffect;
    MicroStepRefines(m, n);
    WorkerAfter(m, n);
    StepKeepsInv(View(m), n);
    forall s: Sem | MicroStep(m, n).locks(s) ensures Held(MicroStep(m, n), s) {
      LocksStayHeld(m, n, s);
    }
  }

  ghost predicate Names(schedule: seq<nat>, count: nat) { forall i :: 0 <= i < |schedule| ==> schedule[i] < count }

  ghost function MicroRun(m: Machine, schedule: seq<nat>): (r: Machine)
    requires Good(m) && Names(schedule, |m.workers|)
    ensures Good(r)
    decreases |schedule|
  {
    if schedule == [] then m
    else
      StepKeepsGood(m, schedule[0]);
      MicroRun(MicroStep(m, schedule[0]), schedule[1..])
  }

  /** All threads before their first instruction. */
  ghost predicate Start(m: Machine) {
    && (forall s: Sem :: !m.locks(s))
    && (forall i :: 0 <= i < |m.workers| ==> m.workers[i].phase == Outside)
    && Initial(State(m.counts, m.vars, Threads(m.workers)))
  }

  function Threads(workers: seq<Worker>): seq<Thread> {
    seq(|workers|, i requires 0 <= i < |workers| => workers[i].thread)
  }

  lemma StartIsGood(m: Machine)
    requires Start(m)
    ensures Good(m)
  {
    hide Inv, Code;
    var st := State(m.counts, m.vars, Threads(m.workers));
    InitialInv(st);
    forall i | 0 <= i < |m.workers| ensures KnowsCount(m.workers[i], m.counts) {
      assert st.threads[i].pc == 0;
      StartsWithP(m.workers[i].thread);
    }
    assert View(m).threads == st.threads;
  }

  lemma StartsWithP(t: Thread)
    requires t.pc == 0
    ensures Running(t) && OnSemaphore(t)
  {
  }

  /** In every state that single instructions of any number of threads can reach: at most one thread holds each
      lock, no count is negative, and counters and tokens keep their bounds. */
  lemma EveryInstructionIsSafe(m: Machine, schedule: seq<nat>)
    requires Start(m) && Names(schedule, |m.workers|)
    ensures Good(m)
    ensures var r := MicroRun(m, schedule);
            && (forall i, j, s: Sem :: 0 <= i < j < |r.workers| ==>
                  !HasLock(r.workers[i], s) || !HasLock(r.workers[j], s))
            && (forall s :: r.counts(s) >= 0)
            && 0 <= r.vars(ELEMENTS) <= 10
            && r.counts(FREE) + r.counts(FULL) + Sum(Places, View(r).threads) == 10
            && 0 <= r.vars(BETTEN) && 0 <= r.vars(SCHRAENKE) && r.vars(BETTEN) + r.vars(SCHRAENKE) <= 500
            && 0 <= r.vars(RBETTEN) && 0 <= r.vars(RSCHRAENKE) && r.vars(RBETTEN) + r.vars(RSCHRAENKE) <= 10
            && 0 <= r.vars(G1BETTEN) <= 30 && 0 <= r.vars(G2BETTEN) <= 20 && 0 <= r.vars(G2SCHRAENKE) <= 20
  {
    hide Sum, HasLock, KnowsCount;
    StartIsGood(m);
    var r := MicroRun(m, schedule);
    BufferIsBounded(View(r));
    LagerIsBounded(View(r));
    RampeIsBounded(View(r));
    ShopsAreBounded(View(r));
  }

  // ---- progress ----

  /** The last instruction of the schedule makes an operation take effect, and none before it does. */
  ghost predicate Completes(m: Machine, schedule: seq<nat>)
    requires Good(m) && Names(schedule, |m.workers|)
    decreases |schedule|
  {
    && schedule != []
    && (StepKeepsGood(m, schedule[0]);
        if |schedule| == 1 then TakesEffect(m, schedule[0])
        else !TakesEffect(m, schedule[0]) && Completes(MicroStep(m, schedule[0]), schedule[1..]))
  }

  /** Instructions that lie before thread w's operation, if the lock is free. */
  function Ahead(w: Worker): nat {
    match w.phase
    case Stored => 6
    case Failed => 5
    case Outside => 4
    case Locked => 3
    case Positive => 2
    case Loaded(_) => 1
  }

  /** Instructions until a holder's operation takes effect or the lock is given back. */
  function HolderAhead(w: Worker): nat {
    match w.phase
    case Locked => 3
    case Positive => 2
    case _ => 1
  }

  lemma Prepend(m: Machine, n: nat, rest: seq<nat>) returns (schedule: seq<nat>)
    requires Good(m) && n < |m.workers| && Running(m.workers[n].thread) && !TakesEffect(m, n)
    requires Good(MicroStep(m, n)) && |MicroStep(m, n).workers| == |m.workers|
    requires Names(rest, |m.workers|) && Completes(MicroStep(m, n), rest)
    ensures Names(schedule, |m.workers|) && Completes(m, schedule)
  {
    hide Good, MicroStep, TakesEffect;
    schedule := [n] + rest;
    assert schedule[1..] == rest;
  }

  lemma Single(m: Machine, n: nat)
    requires Good(m) && n < |m.workers| && Running(m.workers[n].thread) && TakesEffect(m, n)
    ensures Names([n], |m.workers|) && Completes(m, [n])
  {
  }

  /** A thread that has its lock, or can get it, and is not blocked, comes closer to its operation. */
  lemma CloserToEffect(m: Machine, n: nat)
    requires Good(m) && n < |m.workers| && Running(m.workers[n].thread) && !TakesEffect(m, n)
    requires m.workers[n].phase.Outside? ==> !m.locks(OpOf(m.workers[n].thread).s)
    requires AllRunning(View(m).threads) && n < |View(m).threads| && !Blocked(View(m), n)
    ensures |MicroStep(m, n).workers| == |m.workers|
    ensures Ahead(MicroStep(m, n).workers[n]) < Ahead(m.workers[n])
  {
    hide MicroInv, Inv, Code, Moved;
    Knows(m, n);
  }

  /** So does one that has the lock, or it gives the lock back. */
  lemma HolderComesCloser(m: Machine, u: nat, s: Sem)
    requires Good(m) && u < |m.workers| && HasLock(m.workers[u], s) && !TakesEffect(m, u)
    ensures |MicroStep(m, u).workers| == |m.workers|
    ensures var w := MicroStep(m, u).workers[u];
            if m.workers[u].phase.Stored? || m.workers[u].phase.Failed? then !MicroStep(m, u).locks(s)
            else HasLock(w, s) && HolderAhead(w) < HolderAhead(m.workers[u]) && MicroStep(m, u).locks(s)
  {
    hide MicroInv, Inv, Code, Moved;
    Knows(m, u);
    IsLocked(m, u, s);
  }

  lemma IsLocked(m: Machine, u: nat, s: Sem)
    requires MicroInv(m) && u < |m.workers| && HasLock(m.workers[u], s)
    ensures m.locks(s)
  {
  }

  /** What an unnoticed instruction leaves as it is. */
  lemma Unnoticed(m: Machine, u: nat, n: nat)
    requires Good(m) && u < |m.workers| && n < |m.workers| && Running(m.workers[u].thread) && !TakesEffect(m, u)
    requires AllRunning(View(m).threads) && n < |View(m).threads| && !Blocked(View(m), n)
    ensures Good(MicroStep(m, u)) && |MicroStep(m, u).workers| == |m.workers|
    ensures AllRunning(View(MicroStep(m, u)).threads) && n < |View(MicroStep(m, u)).threads|
    ensures !Blocked(View(MicroStep(m, u)), n)
    ensures n != u ==> MicroStep(m, u).workers[n] == m.workers[n]
  {
    hide MicroInv, Inv, MicroStep, LocksAreHeld, Blocked, View, TakesEffect;
    StepKeepsGood(m, u);
    MicroStepRefines(m, u);
    WorkerAfter(m, u);
  }

  /** From a state in which thread n is not blocked, some operation can be completed: n's own, or that of the thread
      that holds the lock n needs. */
  lemma {:induction false} Progress(m: Machine, n: nat) returns (schedule: seq<nat>)
    requires Good(m) && n < |m.workers|
    requires AllRunning(View(m).threads) && n < |View(m).threads| && !Blocked(View(m), n)
    ensures Names(schedule, |m.workers|) && Completes(m, schedule)
    decreases Ahead(m.workers[n]), 5
  {
    hide MicroInv, Inv, MicroStep, Completes, Blocked, View, Ahead, Held;
    Knows(m, n);
    if TakesEffect(m, n) {
      Single(m, n);
      schedule := [n];
    } else if m.workers[n].phase.Outside? && m.locks(OpOf(m.workers[n].thread).s) {
      var u := HolderOf(m, OpOf(m.workers[n].thread).s);
      OutsideIsFour(m, n, u);
      schedule := HolderProgress(m, n, u);
    } else {
      Unnoticed(m, n, n);
      CloserToEffect(m, n);
      var rest := Progress(MicroStep(m, n), n);
      schedule := Prepend(m, n, rest);
    }
  }

  lemma HolderOf(m: Machine, s: Sem) returns (u: nat)
    requires LocksAreHeld(m) && m.locks(s)
    ensures u < |m.workers| && HasLock(m.workers[u], s)
  {
    assert Held(m, s);
    u :| u < |m.workers| && HasLock(m.workers[u], s);
  }

  lemma OutsideIsFour(m: Machine, n: nat, u: nat)
    requires n < |m.workers| && u < |m.workers| && m.workers[n].phase.Outside?
    ensures Ahead(m.workers[n]) == 4 && HolderAhead(m.workers[u]) < 5
  {
  }

  /** The holder u of the lock that n needs completes its operation, or gives the lock back to n. */
  lemma {:induction false} HolderProgress(m: Machine, n: nat, u: nat) returns (schedule: seq<nat>)
    requires Good(m) && n < |m.workers| && Running(m.workers[n].thread) && OnSemaphore(m.workers[n].thread)
    requires AllRunning(View(m).threads) && n < |View(m).threads| && !Blocked(View(m), n)
    requires m.workers[n].phase.Outside?
    requires u < |m.workers| && HasLock(m.workers[u], OpOf(m.workers[n].thread).s)
    ensures Names(schedule, |m.workers|) && Completes(m, schedule)
    decreases 4, HolderAhead(m.workers[u])
  {
    hide MicroInv, Inv, MicroStep, Completes, Blocked, View, Ahead, HolderAhead, LocksAreHeld;
    if TakesEffect(m, u) {
      Single(m, u);
      schedule := [u];
    } else {
      var s := OpOf(m.workers[n].thread).s;
      var g := MicroStep(m, u);
      Unnoticed(m, u, n);
      HolderComesCloser(m, u, s);
      var rest: seq<nat>;
      if m.workers[u].phase.Stored? || m.workers[u].phase.Failed? {
        Unnoticed(g, n, n);
        CloserToEffect(g, n);
        OutsideIsFour(g, n, u);
        rest := Progress(MicroStep(g, n), n);
        rest := Prepend(g, n, rest);
      } else {
        rest := HolderProgress(g, n, u);
      }
      schedule := Prepend(m, u, rest);
    }
  }

  ghost predicate SameKinds(threads: seq<Thread>, others: seq<Thread>) {
    |threads| == |others| && forall i :: 0 <= i < |threads| ==> threads[i].kind == others[i].kind
  }

  lemma {:induction false} MicroKindsStay(m: Machine, schedule: seq<nat>)
    requires Good(m) && Names(schedule, |m.workers|)
    ensures SameKinds(View(MicroRun(m, schedule)).threads, View(m).threads)
    decreases |schedule|
  {
    hide MicroInv, Inv, MicroStep, LocksAreHeld, View, TakesEffect, Step;
    if schedule != [] {
      var n := schedule[0];
      StepKeepsGood(m, n);
      MicroStepRefines(m, n);
      StepKeepsKinds(View(m), n);
      MicroKindsStay(MicroStep(m, n), schedule[1..]);
    }
  }

  lemma KindsCarryOver(threads: seq<Thread>, others: seq<Thread>)
    requires SameKinds(threads, others)
    ensures BufferOnly(others) ==> BufferOnly(threads)
    ensures forall k :: HasKind(others, k) ==> HasKind(threads, k)
    ensures Consumers(threads) == Consumers(others)
  {
    forall k | HasKind(others, k) ensures HasKind(threads, k) {
      var i :| 0 <= i < |others| && others[i].kind == k;
      assert threads[i].kind == k;
    }
    SameConsumers(threads, others);
  }

  lemma SeenAtStart(m: Machine)
    requires Start(m) && Good(m)
    ensures View(m).threads == Threads(m.workers)
  {
    hide Inv, MicroInv, LocksAreHeld;
    forall i | 0 <= i < |m.workers| ensures View(m).threads[i] == m.workers[i].thread {
      Knows(m, i);
    }
  }

  lemma NotStuckMeansSomeone(st: State) returns (n: nat)
    requires AllRunning(st.threads) && !Stuck(st)
    ensures n < |st.threads| && !Blocked(st, n)
  {
    n :| n < |st.threads| && !Blocked(st, n);
  }

  lemma NineAreNotTen(st: State)
    requires Inv(st) && BufferOnly(st.threads) && Consumers(st.threads) <= 9
    requires HasKind(st.threads, Producer) && HasKind(st.threads, Consumer)
    ensures AllRunning(st.threads) && !Stuck(st)
  {
    hide AllLaws, Consumers, HalfServed, WaitsForToken, Stuck, RegisterIsCurrent, BufferOnly, HasKind;
    StuckIffTenHalfServed(st);
    HalfServedAreConsumers(st.threads);
  }

  lemma ViewCount(m: Machine)
    requires MicroInv(m)
    ensures |View(m).threads| == |m.workers|
  {
  }

  /** With producers and one to nine consumers, from every state that single instructions can reach, some thread can
      complete an operation. */
  lemma SomeoneCanComplete(m: Machine, schedule: seq<nat>) returns (next: seq<nat>)
    requires Start(m) && Names(schedule, |m.workers|)
    requires BufferOnly(Threads(m.workers)) && Consumers(Threads(m.workers)) <= 9
    requires HasKind(Threads(m.workers), Producer) && HasKind(Threads(m.workers), Consumer)
    ensures Good(m)
    ensures Names(next, |MicroRun(m, schedule).workers|) && Completes(MicroRun(m, schedule), next)
  {
    hide MicroInv, Inv, LocksAreHeld, View, Start, Names, Completes, Threads, BufferOnly, HasKind, Consumers, Stuck;
    hide SameKinds, Blocked, MicroRun;
    StartIsGood(m);
    SeenAtStart(m);
    var r := MicroRun(m, schedule);
    MicroKindsStay(m, schedule);
    KindsCarryOver(View(r).threads, View(m).threads);
    NineAreNotTen(View(r));
    ViewCount(r);
    var n := NotStuckMeansSomeone(View(r));
    next := Progress(r, n);
  }
}
