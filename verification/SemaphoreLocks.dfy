/** How p and v are really made: a lock word that is swapped, and a count that is tested, loaded and stored. At every
    point another thread may come in. */
module SemaphoreLocks {
  import opened SemaphorePrograms
  import opened SemaphoreLaws
  import opened SemaphoreInvariants

  /** Where a thread is in p or v: before the swap; behind it; the count was found positive; the count was loaded;
      the new count is stored; the count was found zero, the lock has to be given back for another try. */
  datatype Phase = Outside | Locked | Positive | Loaded(count: int) | Stored | Failed

  datatype Worker = Worker(thread: Thread, phase: Phase)

  datatype Machine = Machine(locks: nat -> bool, counts: Sem -> int, vars: Var -> int, workers: seq<Worker>)

  function Mark(f: nat -> bool, k: nat, b: bool): nat -> bool { (j: nat) => if j == k then b else f(j) }

  predicate OnSemaphore(t: Thread)
    requires Running(t)
  {
    OpOf(t).P? || OpOf(t).V?
  }

  /** One instruction of p or v: the swap stores 1 in the lock word and tells whether it was 0. */
  function SemaphoreStep(m: Machine, n: nat): Machine
    requires n < |m.workers| && Running(m.workers[n].thread) && OnSemaphore(m.workers[n].thread)
  {
    var w := m.workers[n];
    var s := OpOf(w.thread).s;
    match w.phase
    case Outside =>
      m.(locks := Mark(m.locks, s, true),
          workers := m.workers[n := w.(phase := if m.locks(s) then Outside else Locked)])
    case Locked =>
      m.(workers := m.workers[n := w.(phase := if OpOf(w.thread).V? then Loaded(m.counts(s))
                                               else if m.counts(s) > 0 then Positive else Failed)])
    case Positive => m.(workers := m.workers[n := w.(phase := Loaded(m.counts(s)))])
    case Loaded(count) =>
      m.(counts := Set(m.counts, s, if OpOf(w.thread).P? then count - 1 else count + 1),
         workers := m.workers[n := w.(phase := Stored)])
    case Stored => m.(locks := Mark(m.locks, s, false), workers := m.workers[n := Worker(Moved(w.thread), Outside)])
    case Failed => m.(locks := Mark(m.locks, s, false), workers := m.workers[n := w.(phase := Outside)])
  }

  function MicroStep(m: Machine, n: nat): Machine
    requires n < |m.workers| && Running(m.workers[n].thread)
  {
    var w := m.workers[n];
    if OnSemaphore(w.thread) then SemaphoreStep(m, n)
    else
      var e := Act(m.counts, m.vars, w.thread);
      m.(counts := e.counts, vars := e.vars, workers := m.workers[n := w.(thread := e.thread)])
  }

  // ---- the locks work ----

  /** The worker has the lock of semaphore s. */
  predicate HasLock(w: Worker, s: Sem) {
    Running(w.thread) && OnSemaphore(w.thread) && OpOf(w.thread).s == s && w.phase != Outside
  }

  /** What a worker inside p or v knows of the count. */
  predicate KnowsCount(w: Worker, counts: Sem -> int) {
    && Running(w.thread)
    && (!OnSemaphore(w.thread) ==> w.phase == Outside)
    && (w.phase.Positive? ==> OpOf(w.thread).P? && counts(OpOf(w.thread).s) > 0)
    && (w.phase.Failed? ==> OpOf(w.thread).P?)
    && (w.phase.Loaded? ==>
          && w.phase.count == counts(OpOf(w.thread).s)
          && (OpOf(w.thread).P? ==> counts(OpOf(w.thread).s) > 0))
  }

  ghost predicate MicroInv(m: Machine) {
    && (forall i :: 0 <= i < |m.workers| ==> KnowsCount(m.workers[i], m.counts))
    && (forall i, s: Sem :: 0 <= i < |m.workers| && HasLock(m.workers[i], s) ==> m.locks(s))
    && (forall i, j, s: Sem ::
          0 <= i < |m.workers| && 0 <= j < |m.workers| ==>
              !HasLock(m.workers[i], s) || !HasLock(m.workers[j], s) || i == j)
  }

  /** The thread as the semaphores' users see it: an operation is done from the moment the count is stored. */
  function Seen(w: Worker): Thread
    requires Running(w.thread)
  {
    if w.phase.Stored? then Moved(w.thread) else w.thread
  }

  ghost function View(m: Machine): State
    requires MicroInv(m)
  {
    State(m.counts, m.vars, seq(|m.workers|, i requires 0 <= i < |m.workers| => SeenIn(m, i)))
  }

  ghost function SeenIn(m: Machine, i: nat): Thread
    requires MicroInv(m) && i < |m.workers|
  {
    assert KnowsCount(m.workers[i], m.counts);
    Seen(m.workers[i])
  }

  // ---- one instruction ----

  /** The instruction by which an operation takes effect. */
  predicate TakesEffect(m: Machine, n: nat)
    requires n < |m.workers| && Running(m.workers[n].thread)
  {
    !OnSemaphore(m.workers[n].thread) || m.workers[n].phase.Loaded?
  }

  lemma WorkerAfter(m: Machine, n: nat)
    requires MicroInv(m) && n < |m.workers|
    ensures Running(m.workers[n].thread)
    ensures var g := MicroStep(m, n);
            && |g.workers| == |m.workers| && KnowsCount(g.workers[n], g.counts)
            && (forall i :: 0 <= i < |m.workers| && i != n ==> g.workers[i] == m.workers[i])
  {
    hide Code, Moved;
    assert KnowsCount(m.workers[n], m.counts);
  }

  /** Only a swap that found the lock free gives the lock, and only its holder gives it back. */
  lemma LocksAfter(m: Machine, n: nat, s: Sem)
    requires MicroInv(m) && n < |m.workers|
    ensures Running(m.workers[n].thread)
    ensures var (w, g) := (m.workers[n], MicroStep(m, n));
            && (HasLock(g.workers[n], s) ==> g.locks(s) && (HasLock(w, s) || !m.locks(s)))
            && (m.locks(s) && !g.locks(s) ==> HasLock(w, s))
            && (!HasLock(w, s) ==> g.counts(s) == m.counts(s))
  {
    hide Code, Moved;
    assert KnowsCount(m.workers[n], m.counts);
  }

  lemma OthersKnow(m: Machine, n: nat, i: nat)
    requires MicroInv(m) && n < |m.workers| && i < |m.workers| && i != n && Running(m.workers[n].thread)
    ensures KnowsCount(m.workers[i], MicroStep(m, n).counts)
  {
    hide Code, Moved, MicroStep;
    var w := m.workers[i];
    assert KnowsCount(w, m.counts);
    if w.phase.Positive? || w.phase.Loaded? {
      var s := OpOf(w.thread).s;
      assert HasLock(w, s);
      LocksAfter(m, n, s);
    }
  }

  /** No instruction breaks mutual exclusion, and no knowledge of a count goes stale. */
  lemma MicroStepKeepsInv(m: Machine, n: nat)
    requires MicroInv(m) && n < |m.workers|
    ensures Running(m.workers[n].thread) && MicroInv(MicroStep(m, n))
  {
    hide KnowsCount, HasLock, MicroStep, Running;
    WorkerAfter(m, n);
    var g := MicroStep(m, n);
    forall i: nat | i < |g.workers| ensures KnowsCount(g.workers[i], g.counts) {
      if i != n {
        OthersKnow(m, n, i);
      }
    }
    forall i: nat, s: Sem | i < |g.workers| && HasLock(g.workers[i], s) ensures g.locks(s) {
      LocksAfter(m, n, s);
    }
    forall i: nat, j: nat, s: Sem | i < |g.workers| && j < |g.workers|
      ensures !HasLock(g.workers[i], s) || !HasLock(g.workers[j], s) || i == j
    {
      LocksAfter(m, n, s);
    }
  }

  /** The swap-based operations refine the ones in one step: an instruction either is not noticed, or is exactly the
      step of the thread, which then was not blocked. */
  lemma MicroStepRefines(m: Machine, n: nat)
    requires MicroInv(m) && n < |m.workers|
    ensures Running(m.workers[n].thread) && MicroInv(MicroStep(m, n))
    ensures n < |View(m).threads| && Running(View(m).threads[n])
    ensures if TakesEffect(m, n) then !Blocked(View(m), n) && View(MicroStep(m, n)) == Step(View(m), n)
            else View(MicroStep(m, n)) == View(m)
  {
    hide Code, Moved, HasLock, MicroInv;
    MicroStepKeepsInv(m, n);
    Knows(m, n);
    var g := MicroStep(m, n);
    WorkerAfter(m, n);
    assert |View(g).threads| == |View(m).threads|;
    if TakesEffect(m, n) {
      assert View(g).threads == Step(View(m), n).threads;
    } else {
      assert View(g).threads == View(m).threads;
    }
  }

  lemma Knows(m: Machine, n: nat)
    requires MicroInv(m) && n < |m.workers|
    ensures KnowsCount(m.workers[n], m.counts)
  {
  }
}
