/** The process ring, the table of virtual monitors, and the calls that change them, as functions on values. */
module Processes {
  import opened Options

  datatype PState = Alive | Dead | Sleeping

  datatype Proc = Proc(pid: nat, state: PState, context: int, priority: nat, remaining: nat, monitor: nat)

  /** The ring is listed from the active process on. monitors[i] is the pid the i-th virtual monitor belongs to,
      shown the active monitor, focus the pid of the process with the input focus. */
  datatype Kernel = Kernel(ring: seq<Proc>, monitors: seq<nat>, shown: nat, focus: Option<nat>, nextPid: nat)

  // ---- what every call keeps ----

  ghost predicate DistinctPids(ring: seq<Proc>) {
    forall i, j :: 0 <= i < |ring| && 0 <= j < |ring| && ring[i].pid == ring[j].pid ==> i == j
  }

  ghost predicate KernelProcAlive(ring: seq<Proc>) {
    exists i :: 0 <= i < |ring| && ring[i].pid == 0 && ring[i].state == Alive
  }

  /** Process p is the one its monitor belongs to. */
  predicate HasMonitor(monitors: seq<nat>, p: Proc) {
    p.monitor < |monitors| && monitors[p.monitor] == p.pid
  }

  ghost predicate Owned(ring: seq<Proc>, v: nat) {
    exists i :: 0 <= i < |ring| && ring[i].monitor == v
  }

  /** Processes and monitors belong to each other one to one. */
  ghost predicate Paired(ring: seq<Proc>, monitors: seq<nat>) {
    && (forall i :: 0 <= i < |ring| ==> HasMonitor(monitors, ring[i]))
    && (forall v: nat :: v < |monitors| ==> Owned(ring, v))
  }

  ghost predicate Inv(k: Kernel) {
    && DistinctPids(k.ring) && KernelProcAlive(k.ring) && Paired(k.ring, k.monitors)
    && (forall i :: 0 <= i < |k.ring| ==> k.ring[i].pid < k.nextPid)
    && k.shown < |k.monitors|
    && match k.focus
       case Some(f) => f == k.monitors[k.shown]
       case None => |k.monitors| == 1
  }

  // ---- pm_get_proc, monitors ----

  function Find(ring: seq<Proc>, pid: nat): (r: Option<nat>)
    ensures r.Some? ==> r.value < |ring| && ring[r.value].pid == pid
    ensures r.None? ==> forall i :: 0 <= i < |ring| ==> ring[i].pid != pid
  {
    if ring == [] then None
    else if ring[0].pid == pid then Some(0)
    else match Find(ring[1..], pid)
         case None => None
         case Some(i) => Some(i + 1)
  }

  function SetFocus(k: Kernel, pid: nat): Kernel {
    k.(focus := if Find(k.ring, pid).Some? then Some(pid) else None)
  }

  function SetMonitor(ring: seq<Proc>, pid: nat, v: nat): seq<Proc> {
    match Find(ring, pid)
    case None => ring
    case Some(i) => ring[i := ring[i].(monitor := v)]
  }

  function DropLastMonitor(k: Kernel): Kernel
    requires k.monitors != []
  {
    k.(monitors := k.monitors[..|k.monitors| - 1])
  }

  /** The last monitor is copied to the place of monitor v, with its owner's and the active monitor's ties. */
  function MoveLastMonitor(k: Kernel, v: nat): Kernel
    requires v < |k.monitors|
  {
    var last := |k.monitors| - 1;
    k.(shown := if k.shown == last then v else k.shown,
       ring := SetMonitor(k.ring, k.monitors[last], v),
       monitors := k.monitors[v := k.monitors[last]])
  }

  /** free_virt_monitor: the last monitor takes the place of the one given back. */
  function FreeMonitor(k: Kernel, v: nat): Kernel
    requires v < |k.monitors| && k.shown < |k.monitors| && |k.monitors| > 1
  {
    var last := |k.monitors| - 1;
    if v == last then
      DropLastMonitor(if k.shown == last then SetFocus(k.(shown := last - 1), k.monitors[last - 1]) else k)
    else
      var moved := MoveLastMonitor(k, v);
      DropLastMonitor(if k.shown == v then SetFocus(moved, k.monitors[last]) else moved)
  }

  // ---- pm_schedule ----

  function Next(ring: seq<Proc>): Proc
    requires ring != []
  {
    if |ring| == 1 then ring[0] else ring[1]
  }

  function Advance(k: Kernel): Kernel
    requires k.ring != []
  {
    k.(ring := k.ring[1..] + [k.ring[0]])
  }

  /** pm_destroy_thread of the next process, and its unlinking. */
  function Reap(k: Kernel): (r: Kernel)
    requires |k.ring| > 1 && k.ring[1].monitor < |k.monitors| && k.shown < |k.monitors| && |k.monitors| > 1
  {
    var k1 := FreeMonitor(k, k.ring[1].monitor);
    if |k1.ring| < 2 then k1 else k1.(ring := [k1.ring[0]] + k1.ring[2..])
  }

  // ---- the other calls ----

  /** One timer interrupt while the active process still has slices. */
  predicate MayContinue(k: Kernel)
    requires k.ring != []
  {
    k.ring[0].remaining > 1
  }

  function SaveContext(k: Kernel, context: int): Kernel
    requires k.ring != []
  {
    k.(ring := k.ring[0 := k.ring[0].(context := context)])
  }

  function Refill(k: Kernel): Kernel
    requires k.ring != []
  {
    k.(ring := k.ring[0 := k.ring[0].(remaining := k.ring[0].priority)])
  }

  function InsertAt<T>(s: seq<T>, at: nat, x: T): seq<T>
    requires at <= |s|
  {
    s[..at] + [x] + s[at..]
  }

  /** pm_create_thread: the new process comes after the kernel process and gets a monitor and the focus. */
  function Create(k: Kernel, stack: int): Kernel {
    var p := Proc(k.nextPid, Alive, stack, 1, 1, |k.monitors|);
    var at := match Find(k.ring, 0) case Some(i) => i + 1 case None => |k.ring|;
    Kernel(InsertAt(k.ring, at, p), k.monitors + [p.pid], |k.monitors|, Some(p.pid), k.nextPid + 1)
  }

  function SetState(k: Kernel, pid: nat, state: PState): Kernel {
    match Find(k.ring, pid)
    case None => k
    case Some(i) => k.(ring := k.ring[i := k.ring[i].(state := state)])
  }

  function SetPriority(k: Kernel, pid: nat, priority: nat): Kernel {
    match Find(k.ring, pid)
    case None => k
    case Some(i) => k.(ring := k.ring[i := k.ring[i].(priority := priority)])
  }

  /** switch_monitor_up. */
  function SwitchUp(k: Kernel): Kernel
    requires k.shown < |k.monitors|
  {
    var shown := if k.shown < |k.monitors| - 1 then k.shown + 1 else 0;
    SetFocus(k.(shown := shown), k.monitors[shown])
  }

  /** switch_monitor_down. */
  function SwitchDown(k: Kernel): Kernel
    requires k.shown < |k.monitors|
  {
    var shown := if k.shown > 0 then k.shown - 1 else |k.monitors| - 1;
    SetFocus(k.(shown := shown), k.monitors[shown])
  }

  /** What the keyboard handler does to a process that waits for input. */
  function Input(k: Kernel): Kernel {
    match k.focus
    case None => k
    case Some(f) =>
      match Find(k.ring, f)
      case None => k
      case Some(i) => if k.ring[i].state == Sleeping then SetState(k, f, Alive) else k
  }
}
