/** Whole runs of the kernel: timer interrupts, creation, exit, kill, priorities, sleeping and monitor switches in
    any order. */
module ProcessRuns {
  import opened Options
  import opened Processes
  import opened ProcessProofs
  import opened ProcessSchedule

  datatype Event =
    | Tick(context: int)
    | Spawn(stack: int)
    | Exit
    | Kill(pid: nat)
    | Prioritize(pid: nat, priority: nat)
    | Up
    | Down
    | Sleep
    | Key

  /** pm_init, after the debug monitor was started for pid 0. */
  function Boot(): Kernel {
    Kernel([Proc(0, Alive, 0, 1, 1, 0)], [0], 0, None, 1)
  }

  /** The kernel process neither exits, nor is killed, nor waits for input; a process with the focus does not sleep. */
  predicate Allowed(k: Kernel, e: Event) {
    match e
    case Exit => k.ring != [] && k.ring[0].pid != 0
    case Kill(pid) => pid != 0
    case Sleep => k.ring != [] && k.ring[0].pid != 0 && k.focus != Some(k.ring[0].pid)
    case _ => true
  }

  ghost function Step(k: Kernel, e: Event): Kernel
    requires Inv(k) && Allowed(k, e)
  {
    InvShown(k);
    match e
    case Tick(context) => Schedule(k, context).0
    case Spawn(stack) => Create(k, stack)
    case Exit => SetState(k, k.ring[0].pid, Dead)
    case Kill(pid) => SetState(k, pid, Dead)
    case Prioritize(pid, priority) => SetPriority(k, pid, priority)
    case Up => SwitchUp(k)
    case Down => SwitchDown(k)
    case Sleep => SetState(k, k.ring[0].pid, Sleeping)
    case Key => Input(k)
  }

  lemma BootKeepsInv()
    ensures Inv(Boot())
  {
    var k := Boot();
    assert k.ring[0].pid == 0 && k.ring[0].state == Alive && k.ring[0].monitor == 0;
  }

  // ---- creation ----

  lemma InsertedAt<T>(ring: seq<T>, p: T, at: nat, i: nat)
    requires at <= |ring| && i <= |ring|
    ensures InsertAt(ring, at, p)[i] == if i < at then ring[i] else if i == at then p else ring[i - 1]
  {
  }

  /** The new process and its monitor extend the pairing. */
  lemma PairedAfterInsert(ring: seq<Proc>, monitors: seq<nat>, p: Proc, at: nat)
    requires Paired(ring, monitors) && at <= |ring| && p.monitor == |monitors|
    ensures Paired(InsertAt(ring, at, p), monitors + [p.pid])
  {
    hide Paired;
    var r := InsertAt(ring, at, p);
    forall i | 0 <= i < |r| ensures HasMonitor(monitors + [p.pid], r[i]) {
      InsertedAt(ring, p, at, i);
      if i != at {
        PairedAt(ring, monitors, if i < at then i else i - 1);
      }
    }
    forall v: nat | v < |monitors| + 1 ensures Owned(r, v) {
      var i := at;
      if v < |monitors| {
        var j := Owner(ring, monitors, v);
        i := if j < at then j else j + 1;
      }
      InsertedAt(ring, p, at, i);
    }
    IsPaired(r, monitors + [p.pid]);
  }

  lemma PairedAt(ring: seq<Proc>, monitors: seq<nat>, i: nat)
    requires Paired(ring, monitors) && i < |ring|
    ensures HasMonitor(monitors, ring[i])
  {
  }

  lemma IsPaired(ring: seq<Proc>, monitors: seq<nat>)
    requires forall i :: 0 <= i < |ring| ==> HasMonitor(monitors, ring[i])
    requires forall v: nat :: v < |monitors| ==> Owned(ring, v)
    ensures Paired(ring, monitors)
  {
  }

  lemma RingAfterInsert(ring: seq<Proc>, p: Proc, at: nat)
    requires at <= |ring| && DistinctPids(ring) && KernelProcAlive(ring)
    requires forall i :: 0 <= i < |ring| ==> ring[i].pid < p.pid
    ensures var r := InsertAt(ring, at, p);
            && DistinctPids(r) && KernelProcAlive(r) && forall i :: 0 <= i < |r| ==> r[i].pid < p.pid + 1
  {
    var r := InsertAt(ring, at, p);
    forall i | 0 <= i < |r| ensures r[i] == if i < at then ring[i] else if i == at then p else ring[i - 1] {
      InsertedAt(ring, p, at, i);
    }
    var z :| 0 <= z < |ring| && ring[z].pid == 0 && ring[z].state == Alive;
    assert r[if z < at then z else z + 1] == ring[z];
  }

  lemma CreateKeepsInv(k: Kernel, stack: int)
    requires Inv(k)
    ensures Inv(Create(k, stack))
  {
    hide Paired, DistinctPids, KernelProcAlive;
    var p := Proc(k.nextPid, Alive, stack, 1, 1, |k.monitors|);
    var at := match Find(k.ring, 0) case Some(i) => i + 1 case None => |k.ring|;
    PairedAfterInsert(k.ring, k.monitors, p, at);
    RingAfterInsert(k.ring, p, at);
  }

  /** The new process comes right behind the kernel process, alive and with one slice, with a pid nobody has; it has
      the focus and the active monitor; and the ring without it is the former ring. */
  lemma CreatedProcess(k: Kernel, stack: int) returns (at: nat)
    requires Inv(k)
    ensures var g := Create(k, stack);
            && 0 < at < |g.ring| && g.ring[at - 1].pid == 0
            && g.ring[at].pid == k.nextPid && g.ring[at].state == Alive && g.ring[at].context == stack
            && g.ring[at].priority == g.ring[at].remaining == 1
            && g.ring[..at] + g.ring[at + 1..] == k.ring && !HasPid(k.ring, k.nextPid)
            && g.focus == Some(k.nextPid) && g.monitors[..|k.monitors|] == k.monitors
            && g.shown < |g.monitors| && g.monitors[g.shown] == k.nextPid && g.ring[at].monitor == g.shown
  {
    hide Paired, DistinctPids;
    var z :| 0 <= z < |k.ring| && k.ring[z].pid == 0 && k.ring[z].state == Alive;
    at := Find(k.ring, 0).value + 1;
    var g := Create(k, stack);
    var p := Proc(k.nextPid, Alive, stack, 1, 1, |k.monitors|);
    InsertedAt(k.ring, p, at, at);
    InsertedAt(k.ring, p, at, at - 1);
    assert g.ring[..at] == k.ring[..at] && g.ring[at + 1..] == k.ring[at..];
  }

  // ---- the other calls ----

  /** Killing, exiting and sleeping change the state of the one process, and nothing else. */
  lemma StateOfOneChanges(k: Kernel, pid: nat, state: PState, i: nat)
    requires Inv(k) && i < |k.ring|
    ensures var g := SetState(k, pid, state);
            && |g.ring| == |k.ring| && g.(ring := k.ring) == k
            && g.ring[i] == if k.ring[i].pid == pid then k.ring[i].(state := state) else k.ring[i]
  {
    hide Paired, KernelProcAlive;
    if k.ring[i].pid == pid {
      FindAt(k.ring, i);
    }
  }

  /** A new priority is that of the one process, and leaves the slices it has. */
  lemma PriorityOfOneChanges(k: Kernel, pid: nat, priority: nat, i: nat)
    requires Inv(k) && i < |k.ring|
    ensures var g := SetPriority(k, pid, priority);
            && |g.ring| == |k.ring| && g.(ring := k.ring) == k
            && g.ring[i] == if k.ring[i].pid == pid then k.ring[i].(priority := priority) else k.ring[i]
  {
    hide Paired, KernelProcAlive;
    if k.ring[i].pid == pid {
      FindAt(k.ring, i);
    }
  }

  /** Going one monitor up and one down again, or the other way round, changes nothing. */
  lemma SwitchesUndoEachOther(k: Kernel)
    requires Inv(k) && k.focus.Some?
    ensures k.shown < |k.monitors| && SwitchUp(k).shown < |k.monitors| && SwitchDown(k).shown < |k.monitors|
    ensures SwitchDown(SwitchUp(k)) == k && SwitchUp(SwitchDown(k)) == k
  {
    hide DistinctPids, KernelProcAlive, Paired;
    var i := Owner(k.ring, k.monitors, k.shown);
    SomeoneHas(k.ring, i);
  }

  lemma SetStateKeepsInv(k: Kernel, pid: nat, state: PState)
    requires Inv(k) && (pid != 0 || state == Alive)
    ensures Inv(SetState(k, pid, state))
  {
    hide Inv;
    if Find(k.ring, pid).Some? {
      var i := Find(k.ring, pid).value;
      ChangeKeepsInv(k, i, k.ring[i].(state := state));
    }
  }

  lemma SetPriorityKeepsInv(k: Kernel, pid: nat, priority: nat)
    requires Inv(k)
    ensures Inv(SetPriority(k, pid, priority))
  {
    hide Inv;
    if Find(k.ring, pid).Some? {
      var i := Find(k.ring, pid).value;
      ChangeKeepsInv(k, i, k.ring[i].(priority := priority));
    }
  }

  lemma ShowKeepsInv(k: Kernel, shown: nat)
    requires Inv(k) && shown < |k.monitors|
    ensures Inv(SetFocus(k.(shown := shown), k.monitors[shown]))
  {
    var i := Owner(k.ring, k.monitors, shown);
    SomeoneHas(k.ring, i);
  }

  /** No call breaks the invariant. */
  lemma StepKeepsInv(k: Kernel, e: Event)
    requires Inv(k) && Allowed(k, e)
    ensures Inv(Step(k, e))
  {
    hide Inv, Create, SetState, SetPriority, SetFocus, Schedule;
    InvShown(k);
    match e
    case Tick(context) => ScheduleIsRight(k, context);
    case Spawn(stack) => CreateKeepsInv(k, stack);
    case Exit => SetStateKeepsInv(k, k.ring[0].pid, Dead);
    case Kill(pid) => SetStateKeepsInv(k, pid, Dead);
    case Prioritize(pid, priority) => SetPriorityKeepsInv(k, pid, priority);
    case Up => ShowKeepsInv(k, if k.shown < |k.monitors| - 1 then k.shown + 1 else 0);
    case Down => ShowKeepsInv(k, if k.shown > 0 then k.shown - 1 else |k.monitors| - 1);
    case Sleep => SetStateKeepsInv(k, k.ring[0].pid, Sleeping);
    case Key =>
      if k.focus.Some? {
        SetStateKeepsInv(k, k.focus.value, Alive);
      }
  }

  ghost predicate AllowedRun(k: Kernel, es: seq<Event>)
    requires Inv(k)
    decreases |es|
  {
    es == [] || (Allowed(k, es[0]) && (StepKeepsInv(k, es[0]); AllowedRun(Step(k, es[0]), es[1..])))
  }

  ghost function Run(k: Kernel, es: seq<Event>): (r: Kernel)
    requires Inv(k) && AllowedRun(k, es)
    ensures Inv(r)
    decreases |es|
  {
    if es == [] then k
    else
      StepKeepsInv(k, es[0]);
      Run(Step(k, es[0]), es[1..])
  }

  ghost predicate HasPid(ring: seq<Proc>, pid: nat) { exists i :: 0 <= i < |ring| && ring[i].pid == pid }

  /** What the invariant says of the monitors: their pids are exactly those of the processes, none twice; each
      process's monitor is the one with its pid; and once a thread was created the process with the focus is there
      and has the active monitor. */
  lemma MonitorsMatchProcesses(k: Kernel)
    requires Inv(k)
    ensures forall v, w :: 0 <= v < w < |k.monitors| ==> k.monitors[v] != k.monitors[w]
    ensures forall pid: nat :: pid in k.monitors <==> HasPid(k.ring, pid)
    ensures forall i :: 0 <= i < |k.ring| ==>
              k.ring[i].monitor < |k.monitors| && k.monitors[k.ring[i].monitor] == k.ring[i].pid
    ensures |k.monitors| > 1 ==> k.focus.Some?
    ensures k.shown < |k.monitors|
    ensures k.focus.Some? ==> k.focus.value == k.monitors[k.shown] && HasPid(k.ring, k.focus.value)
  {
    forall v, w | 0 <= v < w < |k.monitors| ensures k.monitors[v] != k.monitors[w] {
      var i := Owner(k.ring, k.monitors, v);
      var j := Owner(k.ring, k.monitors, w);
    }
    forall i | 0 <= i < |k.ring| ensures HasMonitor(k.monitors, k.ring[i]) {
      PairedAt(k.ring, k.monitors, i);
    }
    forall pid: nat ensures pid in k.monitors <==> HasPid(k.ring, pid) {
      if pid in k.monitors {
        var v: nat :| v < |k.monitors| && k.monitors[v] == pid;
        var i := Owner(k.ring, k.monitors, v);
      }
    }
    var o := Owner(k.ring, k.monitors, k.shown);
  }

  // ---- the active monitor ----

  lemma ReapedPids(k: Kernel, pid: nat)
    requires Inv(k) && |k.ring| > 1 && k.ring[1].state == Dead
    ensures |k.monitors| > 1 && k.ring[1].monitor < |k.monitors| && k.shown < |k.monitors|
    ensures HasPid(Reap(k).ring, pid) ==> HasPid(k.ring, pid) && pid != k.ring[1].pid
  {
    hide Reap, Paired, KernelProcAlive;
    ReapKeepsInv(k);
    var g := Reap(k);
    CoresLength(g.ring);
    CoresLength(k.ring);
    if HasPid(g.ring, pid) {
      var i :| 0 <= i < |g.ring| && g.ring[i].pid == pid;
      assert Core(g.ring[i]) == Core(k.ring[if i == 0 then 0 else i + 1]);
    }
  }

  lemma {:induction false} WalkedPids(k: Kernel, pid: nat)
    requires Inv(k)
    ensures HasPid(Walk(k).ring, pid) ==> HasPid(k.ring, pid)
    decreases Distance(k)
  {
    hide Inv, Reap, FirstAlive, Distance;
    NextIsAhead(k);
    match Next(k.ring).state
    case Alive =>
    case Dead =>
      ReapIsCloser(k);
      ReapedPids(k, pid);
      WalkedPids(Reap(k), pid);
    case Sleeping =>
      AdvanceKeepsInv(k);
      AdvanceIsCloser(k);
      WalkedPids(Advance(k), pid);
      if i :| 0 <= i < |k.ring| && Advance(k).ring[i].pid == pid {
        assert k.ring[if i == |k.ring| - 1 then 0 else i + 1].pid == pid;
      }
  }

  /** However many processes are removed on the way, also in the background, the active monitor keeps showing its
      process as long as that process is still there. */
  lemma {:induction false} WalkShows(k: Kernel)
    requires Inv(k)
    ensures k.shown < |k.monitors| && Inv(Walk(k)) && Walk(k).shown < |Walk(k).monitors|
    ensures HasPid(Walk(k).ring, Shows(k)) ==> Shows(Walk(k)) == Shows(k)
    decreases Distance(k)
  {
    hide Inv, Reap, FirstAlive, Distance;
    WalkIsRight(k);
    InvShown(k);
    InvShown(Walk(k));
    NextIsAhead(k);
    match Next(k.ring).state
    case Alive =>
    case Dead =>
      ReapIsCloser(k);
      ReapKeepsInv(k);
      WalkShows(Reap(k));
      WalkedPids(Reap(k), Shows(k));
      ReapedPids(k, Shows(k));
      OwnMonitor(k, 1);
    case Sleeping =>
      AdvanceKeepsInv(k);
      AdvanceIsCloser(k);
      WalkShows(Advance(k));
  }

  lemma OwnMonitor(k: Kernel, i: nat)
    requires Inv(k) && i < |k.ring|
    ensures k.ring[i].monitor < |k.monitors| && k.monitors[k.ring[i].monitor] == k.ring[i].pid
  {
    PairedAt(k.ring, k.monitors, i);
  }

  // ---- contexts ----

  /** The context of process pid, if it is there, is c. */
  ghost predicate ContextIs(ring: seq<Proc>, pid: nat, c: int) {
    forall i :: 0 <= i < |ring| && ring[i].pid == pid ==> ring[i].context == c
  }

  /** The context of pid is saved when it is switched out, and set up when it is created. */
  ghost function ContextAfter(k: Kernel, e: Event, pid: nat, was: int): int
    requires k.ring != []
  {
    if e.Tick? && !MayContinue(k) && k.ring[0].pid == pid then e.context
    else if e.Spawn? && pid == k.nextPid then e.stack
    else was
  }

  /** The context saved when pid was last switched out during the run, or else its initial stack. */
  ghost function LastContext(k: Kernel, es: seq<Event>, pid: nat, was: int): int
    requires Inv(k) && AllowedRun(k, es)
    decreases |es|
  {
    if es == [] then was
    else
      InvShown(k);
      StepKeepsInv(k, es[0]);
      LastContext(Step(k, es[0]), es[1..], pid, ContextAfter(k, es[0], pid, was))
  }

  lemma {:induction false} NotDeadSubset(ps: seq<Proc>, p: Proc)
    requires p in NotDead(ps)
    ensures p in ps
  {
    if p in NotDead(ps[1..]) {
      NotDeadSubset(ps[1..], p);
    }
  }

  lemma OnwardSubset(ps: seq<Proc>, p: Proc)
    requires p in Onward(ps)
    ensures p in ps
  {
    hide NotDead, FirstAlive;
    var d := FirstAlive(ps);
    if p in NotDead(ps[..d]) {
      NotDeadSubset(ps[..d], p);
    }
  }

  lemma TickContext(k: Kernel, context: int, pid: nat, was: int)
    requires Inv(k) && ContextIs(k.ring, pid, was)
    ensures k.ring != []
    ensures ContextIs(Schedule(k, context).0.ring, pid, ContextAfter(k, Tick(context), pid, was))
  {
    hide Inv, Onward, Cores, Walk;
    InvShown(k);
    ScheduleIsRight(k, context);
    var g := Schedule(k, context).0;
    if !MayContinue(k) {
      var ring := SaveContext(k, context).ring;
      var c := Cores(Ahead(ring));
      CoresLength(Ahead(ring));
      CoresLength(g.ring);
      forall i | 0 <= i < |g.ring| && g.ring[i].pid == pid
        ensures g.ring[i].context == ContextAfter(k, Tick(context), pid, was)
      {
        assert Onward(c)[i] in Onward(c);
        OnwardSubset(c, Onward(c)[i]);
        var j :| 0 <= j < |c| && c[j] == Onward(c)[i];
        assert Cores(g.ring)[i].context == c[j].context && Cores(g.ring)[i].pid == c[j].pid;
        AheadIsRing(ring, j);
        SavedDistinct(k, pid, context, was);
      }
    }
  }

  lemma AheadIsRing(ring: seq<Proc>, j: nat)
    requires j < |ring|
    ensures Ahead(ring)[j] == ring[if j == |ring| - 1 then 0 else j + 1]
  {
  }

  lemma SavedDistinct(k: Kernel, pid: nat, context: int, was: int)
    requires Inv(k) && k.ring != [] && ContextIs(k.ring, pid, was)
    ensures ContextIs(SaveContext(k, context).ring, pid, if k.ring[0].pid == pid then context else was)
  {
    hide Paired, KernelProcAlive;
  }

  lemma StepContext(k: Kernel, e: Event, pid: nat, was: int)
    requires Inv(k) && Allowed(k, e) && ContextIs(k.ring, pid, was)
    ensures k.ring != [] && ContextIs(Step(k, e).ring, pid, ContextAfter(k, e, pid, was))
  {
    hide Inv, Schedule;
    InvShown(k);
    if e.Tick? {
      TickContext(k, e.context, pid, was);
    } else if e.Spawn? {
      SpawnContext(k, e.stack, pid, was);
    }
  }

  lemma SpawnContext(k: Kernel, stack: int, pid: nat, was: int)
    requires Inv(k) && ContextIs(k.ring, pid, was)
    ensures k.ring != [] && ContextIs(Create(k, stack).ring, pid, ContextAfter(k, Spawn(stack), pid, was))
  {
    hide Paired, DistinctPids, KernelProcAlive;
    InvShown(k);
    var p := Proc(k.nextPid, Alive, stack, 1, 1, |k.monitors|);
    var at := match Find(k.ring, 0) case Some(i) => i + 1 case None => |k.ring|;
    var g := Create(k, stack).ring;
    forall i | 0 <= i < |g| && g[i].pid == pid ensures g[i].context == ContextAfter(k, Spawn(stack), pid, was) {
      InsertedAt(k.ring, p, at, i);
    }
  }

  /** Through any run every process has the context that was saved when it was last switched out, or, if it never
      was, its initial stack; by ScheduleIsRight this is what it is resumed with. */
  lemma {:induction false} ContextsAreKept(k: Kernel, es: seq<Event>, pid: nat, was: int)
    requires Inv(k) && AllowedRun(k, es) && ContextIs(k.ring, pid, was)
    ensures ContextIs(Run(k, es).ring, pid, LastContext(k, es, pid, was))
    decreases |es|
  {
    hide Inv, Step, ContextIs;
    if es != [] {
      InvShown(k);
      StepKeepsInv(k, es[0]);
      StepContext(k, es[0], pid, was);
      ContextsAreKept(Step(k, es[0]), es[1..], pid, ContextAfter(k, es[0], pid, was));
    }
  }
}
