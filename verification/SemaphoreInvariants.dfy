/** The laws hold in every state that any number of threads can reach, and what follows from them. */
module SemaphoreInvariants {
  import opened SemaphorePrograms
  import opened SemaphoreLaws

  ghost predicate AllLaws(st: State) { forall l :: IsLaw(l) ==> LawHolds(l, st) }

  ghost predicate Inv(st: State) {
    && AllRunning(st.threads)
    && AllLaws(st)
    && (forall s :: st.counts(s) >= 0)
    && (forall i :: 0 <= i < |st.threads| ==> RegisterIsCurrent(st.threads[i], st.vars))
  }

  // ---- sums over threads ----

  lemma {:induction false} SumUpdate(l: Law, threads: seq<Thread>, n: nat, t: Thread)
    requires n < |threads|
    ensures Sum(l, threads[n := t]) == Sum(l, threads) - Share(l, threads[n]) + Share(l, t)
  {
    hide Share;
    if n == 0 {
      assert threads[0 := t][1..] == threads[1..];
    } else {
      assert threads[n := t][1..] == threads[1..][n - 1 := t];
      SumUpdate(l, threads[1..], n - 1, t);
    }
  }

  lemma {:induction false} OneInSum(l: Law, threads: seq<Thread>, i: nat)
    requires CountsOnTop(l)
    ensures Sum(l, threads) >= 0
    ensures i < |threads| ==> Sum(l, threads) >= Holds(l, threads[i])
    decreases threads
  {
    hide Holds;
    if threads != [] {
      OneInSum(l, threads[1..], if i == 0 then |threads| else i - 1);
    }
  }

  lemma {:induction false} PairInSum(l: Law, threads: seq<Thread>, i: nat, j: nat)
    requires CountsOnTop(l) && i < j < |threads|
    ensures Sum(l, threads) >= Holds(l, threads[i]) + Holds(l, threads[j])
    decreases threads
  {
    hide Holds;
    if i == 0 {
      OneInSum(l, threads[1..], j - 1);
    } else {
      PairInSum(l, threads[1..], i - 1, j - 1);
    }
  }

  lemma {:induction false} SumAtStart(l: Law, threads: seq<Thread>)
    requires forall i :: 0 <= i < |threads| ==> threads[i].pc == 0
    ensures Sum(l, threads) == 0
    decreases threads
  {
    if threads != [] {
      HoldsNothing(l, threads[0]);
      SumAtStart(l, threads[1..]);
    }
  }

  lemma HoldsNothing(l: Law, t: Thread)
    requires t.pc == 0
    ensures Holds(l, t) == 0
  {
  }

  // ---- sections ----

  /** The semaphore that guards a counter. */
  function GuardOf(x: Var): Sem {
    if x == ELEMENTS then ACCESS
    else if x == BETTEN || x == SCHRAENKE then LAGER_ACCESS
    else if x == RBETTEN || x == RSCHRAENKE then RAMPE_ACCESS
    else if x == G1BETTEN then G1_ACCESS
    else G2_ACCESS
  }

  /** Thread t is inside the section guarded by s. */
  predicate Inside(s: Sem, t: Thread) { Holds(Holder(s), t) >= 1 }

  /** A counter is only loaded and stored inside its section, and only stored after it was loaded. */
  lemma CountersAreGuarded(t: Thread)
    requires Running(t)
    ensures OpOf(t).Load? ==> Inside(GuardOf(OpOf(t).x), t)
    ensures OpOf(t).Store? ==> Inside(GuardOf(OpOf(t).x), t)
    ensures OpOf(t).Choose? ==> Inside(GuardOf(OpOf(t).bed), t) && Inside(GuardOf(OpOf(t).cupboard), t)
  {
  }

  lemma StoreFollowsLoad(t: Thread)
    requires Running(t)
    ensures OpOf(Moved(t)).Store? ==> OpOf(t) == Load(OpOf(Moved(t)).x)
    ensures OpOf(t).Choose? ==> !OpOf(Moved(t).(cupboard := !t.cupboard)).Store?
  {
  }

  /** At most one thread is inside each section. */
  lemma MutualExclusion(st: State, s: Sem, i: nat, j: nat)
    requires Inv(st) && IsAccess(s) && i < j < |st.threads|
    ensures !(Inside(s, st.threads[i]) && Inside(s, st.threads[j]))
  {
    hide Holds;
    assert LawHolds(Holder(s), st);
    PairInSum(Holder(s), st.threads, i, j);
  }

  // ---- the invariant ----

  lemma InitialInv(st: State)
    requires Initial(st)
    ensures Inv(st)
  {
    hide Holds, Code;
    forall l | IsLaw(l) ensures LawHolds(l, st) {
      SumAtStart(l, st.threads);
    }
    forall i | 0 <= i < |st.threads| ensures RegisterIsCurrent(st.threads[i], st.vars) {
      StartIsNoStore(st.threads[i]);
    }
  }

  lemma StartIsNoStore(t: Thread)
    requires t.pc == 0
    ensures Running(t) && !OpOf(t).Store?
  {
  }

  lemma StepKeepsLaw(l: Law, st: State, n: nat)
    requires IsLaw(l) && AllRunning(st.threads) && n < |st.threads| && LawHolds(l, st)
    requires RegisterIsCurrent(st.threads[n], st.vars)
    ensures LawHolds(l, Step(st, n))
  {
    hide Holds, Code, Share, Gain, Shared, Sum, Moved, Total, RegisterIsCurrent;
    if !Blocked(st, n) {
      var t := st.threads[n];
      EveryStepBalances(l, t);
      SharedGains(l, st.counts, st.vars, t);
      ActedShare(l, st.counts, st.vars, t);
      SumUpdate(l, st.threads, n, Act(st.counts, st.vars, t).thread);
    }
  }

  lemma ActedShare(l: Law, c: Sem -> int, v: Var -> int, t: Thread)
    requires Running(t)
    ensures Share(l, Act(c, v, t).thread) == Share(l, Moved(t))
  {
    hide Code, Moved, Share;
    RegisterIsIrrelevant(l, Moved(t), Act(c, v, t).thread.reg);
    if OpOf(t).Choose? {
      ChoosingIsNeutral(l, t);
      ChooseIsNotLast(t);
      assert Moved(t).(cupboard := t.cupboard) == Moved(t);
    }
  }

  lemma ChooseIsNotLast(t: Thread)
    requires Running(t) && OpOf(t).Choose?
    ensures Moved(t).cupboard == t.cupboard
  {
  }

  lemma RegisterIsIrrelevant(l: Law, t: Thread, r: int)
    ensures Share(l, t.(reg := r)) == Share(l, t)
  {
  }

  lemma StepKeepsOwnRegister(c: Sem -> int, v: Var -> int, t: Thread)
    requires Running(t)
    ensures var e := Act(c, v, t); Running(e.thread) && RegisterIsCurrent(e.thread, e.vars)
  {
    hide Moved;
    StoreFollowsLoad(t);
  }

  /** A thread that is about to store is not disturbed by another one's step. */
  lemma StepKeepsOtherRegister(st: State, n: nat, i: nat)
    requires Inv(st) && n < |st.threads| && i < |st.threads| && i != n
    ensures RegisterIsCurrent(st.threads[i], Act(st.counts, st.vars, st.threads[n]).vars)
  {
    hide Code, AllLaws, Inside, GuardOf, Moved;
    var t := st.threads[n];
    if OpOf(t).Store? && OpOf(st.threads[i]).Store? && OpOf(t).x == OpOf(st.threads[i]).x {
      CountersAreGuarded(t);
      CountersAreGuarded(st.threads[i]);
      GuardIsAccess(OpOf(t).x);
      MutualExclusion(st, GuardOf(OpOf(t).x), if i < n then i else n, if i < n then n else i);
      assert false;
    }
  }

  lemma GuardIsAccess(x: Var)
    ensures IsAccess(GuardOf(x))
  {
  }

  /** Whatever thread comes next, the laws go on holding and no count becomes negative. */
  lemma StepKeepsInv(st: State, n: nat)
    requires Inv(st) && n < |st.threads|
    ensures Inv(Step(st, n))
  {
    hide LawHolds, Code, RegisterIsCurrent, AllRunning, Act;
    IsRunning(st, n);
    var g := Step(st, n);
    forall l | IsLaw(l) ensures LawHolds(l, g) {
      StepKeepsLaw(l, st, n);
    }
    forall i: nat | i < |st.threads| ensures Running(g.threads[i]) && RegisterIsCurrent(g.threads[i], g.vars) {
      IsRunning(st, i);
      if i == n {
        StepKeepsOwnRegister(st.counts, st.vars, st.threads[n]);
      } else if !Blocked(st, n) {
        StepKeepsOtherRegister(st, n, i);
      }
    }
    CountsStayPositive(st, n);
    NowRunning(g.threads);
  }

  lemma IsRunning(st: State, i: nat)
    requires Inv(st) && i < |st.threads|
    ensures Running(st.threads[i]) && RegisterIsCurrent(st.threads[i], st.vars)
  {
  }

  lemma CountsStayPositive(st: State, n: nat)
    requires n < |st.threads| && Running(st.threads[n]) && forall s :: st.counts(s) >= 0
    ensures forall s :: Step(st, n).counts(s) >= 0
  {
    hide Code;
  }

  lemma NowRunning(threads: seq<Thread>)
    requires forall i: nat :: i < |threads| ==> Running(threads[i])
    ensures AllRunning(threads)
  {
  }

  // ---- runs ----

  /** The threads in the order in which they get to do a step. */
  ghost function Run(st: State, schedule: seq<nat>): (r: State)
    requires Inv(st)
    requires forall i :: 0 <= i < |schedule| ==> schedule[i] < |st.threads|
    ensures Inv(r)
    decreases |schedule|
  {
    if schedule == [] then st
    else
      StepKeepsInv(st, schedule[0]);
      StepKeepsCount(st, schedule[0]);
      Run(Step(st, schedule[0]), schedule[1..])
  }

  lemma StepKeepsCount(st: State, n: nat)
    requires n < |st.threads| && Running(st.threads[n])
    ensures |Step(st, n).threads| == |st.threads|
  {
  }
}
