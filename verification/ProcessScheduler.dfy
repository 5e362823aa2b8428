/** The scheduler as it runs: process structures in a circular list that is edited while it is walked, and the array
    of virtual monitors. */
module ProcessScheduler {
  import opened Options
  import opened Processes
  import opened ProcessProofs
  import opened ProcessSchedule
  import opened ProcessRuns

  const MONITOR_LIMIT := 1000   // num_vmonitor_limit

  class Process {
    const pid: nat
    var state: PState
    var context: int
    var priority: nat
    var remaining: nat
    var monitor: nat        // index of the virtual monitor this process is attached to
    var next: Process

    constructor (pid: nat, context: int, monitor: nat)
      ensures this.pid == pid && this.context == context && this.monitor == monitor && next == this
      ensures state == Alive && priority == 1 && remaining == 1
    {
      this.pid, this.context, this.monitor, this.next := pid, context, monitor, this;
      state, priority, remaining := Alive, 1, 1;
    }

    function Value(): Proc
      reads this
    {
      Proc(pid, state, context, priority, remaining, monitor)
    }
  }

  ghost function Values(ring: seq<Process>): (r: seq<Proc>)
    reads ring
    ensures |r| == |ring| && forall i :: 0 <= i < |ring| ==> r[i] == ring[i].Value()
  {
    if ring == [] then [] else [ring[0].Value()] + Values(ring[1..])
  }

  ghost function Nexts(ring: seq<Process>): (r: seq<Process>)
    reads ring
    ensures |r| == |ring| && forall i :: 0 <= i < |ring| ==> r[i] == ring[i].next
  {
    if ring == [] then [] else [ring[0].next] + Nexts(ring[1..])
  }

  ghost predicate LeadsTo(ring: seq<Process>, nexts: seq<Process>, i: nat)
    requires i < |ring| == |nexts|
  {
    nexts[i] == ring[if i + 1 == |ring| then 0 else i + 1]
  }

  /** From each process of the ring the next pointer leads to the one behind it, and from the last to the first. */
  ghost predicate Circular(ring: seq<Process>, nexts: seq<Process>) {
    |ring| == |nexts| && forall i: nat :: i < |ring| ==> LeadsTo(ring, nexts, i)
  }

  ghost predicate Distinct(ring: seq<Process>) {
    forall i, j :: 0 <= i < |ring| && 0 <= j < |ring| && ring[i].pid == ring[j].pid ==> i == j
  }

  /** Index t steps behind h in a ring of n. */
  function Around(n: nat, h: nat, t: nat): nat
    requires h < n && t <= n
  {
    if h + t < n then h + t else h + t - n
  }

  lemma LeadsOn(ring: seq<Process>, nexts: seq<Process>, i: nat)
    requires Circular(ring, nexts) && i < |ring|
    ensures LeadsTo(ring, nexts, i)
  {
  }

  lemma FoundAt(ring: seq<Process>, i: nat)
    requires Distinct(ring) && i < |ring|
    ensures Find(Values(ring), ring[i].pid) == Some(i)
  {
    var r := Values(ring);
    assert r[i].pid == ring[i].pid;
    var j := Find(r, ring[i].pid).value;
    assert r[j] == ring[j].Value();
  }

  /** Unlinking the second process keeps the list circular. */
  lemma UnlinkSecond(ring: seq<Process>, nexts: seq<Process>, now: seq<Process>)
    requires |ring| > 1 && Circular(ring, nexts) && |now| == |ring| - 1
    requires now[0] == nexts[1] && forall i :: 1 <= i < |now| ==> now[i] == nexts[i + 1]
    ensures Circular([ring[0]] + ring[2..], now)
  {
    var r := [ring[0]] + ring[2..];
    forall i: nat | i < |r| ensures LeadsTo(r, now, i) {
      LeadsOn(ring, nexts, i + 1);
    }
  }

  lemma RemainDistinct(ring: seq<Process>)
    requires |ring| > 1 && Distinct(ring)
    ensures Distinct([ring[0]] + ring[2..])
  {
    var r := [ring[0]] + ring[2..];
    forall i | 0 <= i < |r| ensures r[i] == ring[if i == 0 then 0 else i + 1] {
    }
  }

  lemma LastIsOwned(k: Kernel)
    requires Inv(k) && |k.ring| > 1
    ensures |k.monitors| > 1 && k.ring[1].monitor < |k.monitors| && k.shown < |k.monitors|
    ensures Find(k.ring, k.monitors[|k.monitors| - 1]).Some?
  {
    ReapReady(k);
    var i := Owner(k.ring, k.monitors, |k.monitors| - 1);
    SomeoneHas(k.ring, i);
  }

  lemma ReapReady(k: Kernel)
    requires Inv(k) && |k.ring| > 1
    ensures |k.monitors| > 1 && k.ring[1].monitor < |k.monitors| && k.shown < |k.monitors|
  {
    TwoMonitors(k);
  }

  lemma HasOne(ring: seq<Process>, h: nat)
    requires Distinct(ring) && h < |ring|
    ensures forall i :: 0 <= i < |ring| && i != h ==> ring[i] != ring[h]
  {
  }

  lemma HeadIsAlone(ring: seq<Process>)
    requires ring != [] && Distinct(ring)
    ensures forall i :: 1 <= i < |ring| ==> ring[i] != ring[0]
  {
  }

  lemma KeepsOthers(ring: seq<Process>, p: Process)
    requires |ring| > 1 && p in ring && p != ring[1]
    ensures p in [ring[0]] + ring[2..]
  {
    var i :| 0 <= i < |ring| && ring[i] == p;
    assert ([ring[0]] + ring[2..])[if i == 0 then 0 else i - 1] == p;
  }

  /** The process that is removed is not the kernel process, and has lost the focus by then. */
  lemma SecondIsNotNeeded(k: Kernel)
    requires Inv(k) && |k.ring| > 1 && k.ring[1].state == Dead
    ensures k.ring[1].pid != 0
    ensures Reap.requires(k) && Processes.FreeMonitor.requires(k, k.ring[1].monitor)
    ensures Processes.FreeMonitor(k, k.ring[1].monitor).focus != Some(k.ring[1].pid)
  {
    hide Processes.FreeMonitor;
    ReapKeepsInv(k);
    var g := Reap(k);
    MonitorsMatchProcesses(g);
    ReapedPids(k, g.monitors[g.shown]);
    assert g.focus == Processes.FreeMonitor(k, k.ring[1].monitor).focus;
    var z :| 0 <= z < |k.ring| && k.ring[z].pid == 0 && k.ring[z].state == Alive;
  }

  lemma RotatedCircular(ring: seq<Process>, nexts: seq<Process>, now: seq<Process>)
    requires ring != [] && Circular(ring, nexts) && |now| == |ring|
    requires forall i :: 0 <= i < |now| ==> now[i] == nexts[if i == |now| - 1 then 0 else i + 1]
    ensures Circular(ring[1..] + [ring[0]], now)
  {
    var r, n := ring[1..] + [ring[0]], |ring|;
    forall i: nat | i < n ensures LeadsTo(r, now, i) {
      LeadsOn(ring, nexts, if i == n - 1 then 0 else i + 1);
    }
  }

  lemma RotatedDistinct(ring: seq<Process>)
    requires ring != [] && Distinct(ring)
    ensures Distinct(ring[1..] + [ring[0]])
  {
    var r, n := ring[1..] + [ring[0]], |ring|;
    assert forall i :: 0 <= i < n ==> r[i] == ring[if i == n - 1 then 0 else i + 1];
  }

  lemma WalkReaps(k: Kernel)
    requires Inv(k) && |k.ring| > 1 && k.ring[1].state == Dead
    ensures Reap.requires(k) && Inv(Reap(k)) && Reap(k).ring != []
    ensures Walk(k) == Walk(Reap(k)) && Distance(Reap(k)) < Distance(k)
  {
    hide Inv, Reap, Distance;
    ReapIsCloser(k);
  }

  lemma WalkPasses(k: Kernel)
    requires Inv(k) && k.ring != [] && Next(k.ring).state == Sleeping
    ensures Inv(Advance(k)) && Advance(k).ring != []
    ensures Walk(k) == Walk(Advance(k)) && Distance(Advance(k)) < Distance(k)
  {
    hide Inv, Distance;
    AdvanceKeepsInv(k);
    AdvanceIsCloser(k);
    NextIsAhead(k);
  }

  lemma WalkStops(k: Kernel)
    requires Inv(k) && k.ring != [] && Next(k.ring).state == Alive
    ensures Walk(k) == k
  {
  }

  /** A process linked in behind index h keeps the list circular. */
  lemma InsertCircular(ring: seq<Process>, nexts: seq<Process>, h: nat, p: Process, now: seq<Process>)
    requires h < |ring| && Circular(ring, nexts) && |now| == |ring| + 1
    requires now[h] == p && now[h + 1] == nexts[h]
    requires forall i :: 0 <= i < |now| && i != h && i != h + 1 ==> now[i] == nexts[if i < h then i else i - 1]
    ensures Circular(InsertAt(ring, h + 1, p), now)
  {
    var r, n := InsertAt(ring, h + 1, p), |ring|;
    forall i: nat | i < n + 1 ensures LeadsTo(r, now, i) {
      if i != h {
        LeadsOn(ring, nexts, if i < h then i else i - 1);
      }
    }
  }

  lemma InsertDistinct(ring: seq<Process>, at: nat, p: Process)
    requires at <= |ring| && Distinct(ring) && forall i :: 0 <= i < |ring| ==> ring[i].pid < p.pid
    ensures Distinct(InsertAt(ring, at, p))
  {
    var r := InsertAt(ring, at, p);
    forall i | 0 <= i < |r| ensures r[i] == if i < at then ring[i] else if i == at then p else ring[i - 1] {
    }
  }

  lemma InsertedLength<T>(s: seq<T>, at: nat, x: T)
    requires at <= |s|
    ensures |InsertAt(s, at, x)| == |s| + 1
  {
  }

  lemma InsertedValues(ring: seq<Process>, at: nat, p: Process)
    requires at <= |ring|
    ensures Values(InsertAt(ring, at, p)) == InsertAt(Values(ring), at, p.Value())
  {
    hide Values, InsertAt;
    var r, vs := InsertAt(ring, at, p), Values(ring);
    InsertedLength(ring, at, p);
    InsertedLength(vs, at, p.Value());
    forall i: nat | i < |r| ensures r[i].Value() == InsertAt(vs, at, p.Value())[i] {
      InsertedAt(vs, p.Value(), at, i);
      InsertedAt(ring, p, at, i);
    }
  }

  lemma InsertKeeps(ring: seq<Process>, at: nat, p: Process)
    requires 0 < at <= |ring|
    ensures var r := InsertAt(ring, at, p); |r| == |ring| + 1 && r[0] == ring[0] && p in r
    ensures forall q :: q in ring ==> q in InsertAt(ring, at, p)
  {
    var r := InsertAt(ring, at, p);
    assert r[at] == p;
  }

  /** The same, after the two pointers were set. */
  lemma InsertedNexts(ring: seq<Process>, nexts: seq<Process>, h: nat, p: Process)
    requires h < |ring| && Circular(ring, nexts)
    requires ring[h].next == p && p.next == nexts[h]
    requires forall i :: 0 <= i < |ring| && i != h ==> ring[i].next == nexts[i]
    ensures Circular(InsertAt(ring, h + 1, p), Nexts(InsertAt(ring, h + 1, p)))
  {
    hide Nexts, Circular;
    var r := InsertAt(ring, h + 1, p);
    forall i | 0 <= i < |r| ensures r[i] == if i <= h then ring[i] else if i == h + 1 then p else ring[i - 1] {
    }
    CircularLength(ring, nexts);
    InsertCircular(ring, nexts, h, p, Nexts(r));
  }

  lemma CircularLength(ring: seq<Process>, nexts: seq<Process>)
    requires Circular(ring, nexts)
    ensures |ring| == |nexts|
  {
  }

  lemma CreateIs(k: Kernel, stack: int)
    requires Find(k.ring, 0).Some?
    ensures var p := Proc(k.nextPid, Alive, stack, 1, 1, |k.monitors|);
            Create(k, stack) == Kernel(InsertAt(k.ring, Find(k.ring, 0).value + 1, p), k.monitors + [k.nextPid],
                                       |k.monitors|, Some(k.nextPid), k.nextPid + 1)
  {
  }

  lemma PidsBelow(ring: seq<Process>, k: Kernel)
    requires Inv(k) && k.ring == Values(ring)
    ensures forall i :: 0 <= i < |ring| ==> ring[i].pid < k.nextPid
  {
    forall i | 0 <= i < |ring| ensures ring[i].pid < k.nextPid {
      assert k.ring[i] == ring[i].Value();
    }
  }

  /** Every process of the ring was in the former one. */
  ghost predicate OnlyFrom(ring: seq<Process>, was: seq<Process>) {
    forall p :: p in ring ==> p in was
  }

  lemma OnlyFromSame(ring: seq<Process>)
    ensures OnlyFrom(ring, ring)
  {
  }

  lemma OnlyFromTwice(ring: seq<Process>, mid: seq<Process>, was: seq<Process>)
    requires OnlyFrom(ring, mid) && OnlyFrom(mid, was)
    ensures OnlyFrom(ring, was)
  {
  }

  lemma OnlyFromAt(ring: seq<Process>, was: seq<Process>)
    requires OnlyFrom(ring, was)
    ensures forall i :: 0 <= i < |ring| ==> ring[i] in was
  {
  }

  lemma RingOfOne(p: Process)
    requires p.next == p
    ensures Values([p]) == [p.Value()] && Circular([p], Nexts([p])) && Distinct([p])
  {
    assert LeadsTo([p], Nexts([p]), 0);
  }

  class Scheduler {
    var head: Process
    var active: Process
    var focus: Process?
    var nextPid: nat
    const vmonitors: array<nat>
    var activeMonitor: nat
    var maxMonitor: nat
    ghost var ring: seq<Process>    // from the active process on

    ghost function View(): Kernel
      requires maxMonitor < vmonitors.Length
      reads this, ring, vmonitors
    {
      Kernel(Values(ring), vmonitors[..maxMonitor + 1], activeMonitor,
             if focus == null then None else Some(focus.pid), nextPid)
    }

    /** The list is one ring through different processes. */
    ghost predicate Shape(): (r: bool)
      reads this, ring
      ensures r ==> vmonitors.Length == MONITOR_LIMIT && maxMonitor < MONITOR_LIMIT && ring != []
    {
      && ring != [] && ring[0] == active && head in ring && head.pid == 0
      && Circular(ring, Nexts(ring)) && Distinct(ring) && (focus == null || focus in ring)
      && vmonitors.Length == MONITOR_LIMIT && maxMonitor < MONITOR_LIMIT
    }

    ghost predicate Valid()
      reads this, ring, vmonitors
    {
      Shape() && Inv(View())
    }

    /** init_vmonitors and pm_init. */
    constructor ()
      ensures Valid() && View() == Boot() && fresh(vmonitors) && fresh(ring)
    {
      var p := new Process(0, 0, 0);
      head, active, focus, nextPid := p, p, null, 1;
      vmonitors := new nat[MONITOR_LIMIT](_ => 0);
      activeMonitor, maxMonitor := 0, 0;
      ring := [p];
      new;
      hide Inv, Find, Values, Nexts, Circular;
      BootKeepsInv();
      RingOfOne(p);
      assert vmonitors[..1] == [0];
    }

    /** pm_get_proc: once around the ring from its head. */
    method GetProc(pid: nat) returns (p: Process?)
      requires Shape()
      ensures match Find(View().ring, pid) case None => p == null case Some(i) => p == ring[i]
    {
      hide Find, Circular, Nexts, Values;
      ghost var n, s := |ring|, 0;
      ghost var h: nat :| h < n && ring[h] == head;
      var q, first := head, true;
      while first || q != head
        invariant s <= n && (first <==> s == 0) && q == ring[Around(n, h, s)]
        invariant forall t: nat :: t < s ==> ring[Around(n, h, t)].pid != pid
        decreases n - s
      {
        if q.pid == pid {
          FoundAt(ring, Around(n, h, s));
          return q;
        }
        LeadsOn(ring, Nexts(ring), Around(n, h, s));
        q, first, s := q.next, false, s + 1;
      }
      forall i: nat | i < n ensures ring[i].pid != pid {
        assert Around(n, h, if i >= h then i - h else i - h + n) == i;
      }
      p := null;
    }

    /** pm_set_focus_proc. */
    method SetFocus(pid: nat)
      requires Shape()
      modifies this`focus
      ensures Shape() && View() == Processes.SetFocus(old(View()), pid)
    {
      hide Find, Circular, Nexts, Values;
      focus := GetProc(pid);
    }

    /** The process a monitor belongs to is attached to another. */
    method Attach(pid: nat, v: nat)
      requires Shape() && Find(View().ring, pid).Some?
      modifies ring
      ensures Shape() && View() == old(View()).(ring := old(SetMonitor(Values(ring), pid, v)))
    {
      hide Find, Circular, Nexts, Values;
      ghost var i :| 0 <= i < |ring| && ring[i].pid == pid;
      var p := GetProc(pid);
      p.monitor := v;
      assert Nexts(ring) == old(Nexts(ring));
      assert Values(ring) == old(Values(ring))[i := ring[i].Value()];
    }

    /** The last monitor is cleared and no longer counted. */
    method DropLastMonitor()
      requires Shape() && maxMonitor > 0
      modifies this`maxMonitor, vmonitors
      ensures Shape() && View() == Processes.DropLastMonitor(old(View()))
    {
      hide Circular, Nexts, Values, Distinct;
      vmonitors[maxMonitor] := 0;
      maxMonitor := maxMonitor - 1;
      assert vmonitors[..maxMonitor + 1] == old(vmonitors[..maxMonitor + 1][..maxMonitor]);
    }

    /** The last monitor is copied to the place of monitor v, and so are its owner's and the active monitor's ties. */
    method MoveLastMonitor(v: nat)
      requires Shape() && v < maxMonitor && activeMonitor <= maxMonitor
      requires Find(View().ring, vmonitors[maxMonitor]).Some?
      modifies this`activeMonitor, vmonitors, ring
      ensures Shape() && View() == Processes.MoveLastMonitor(old(View()), v)
      ensures vmonitors[v] == old(vmonitors[maxMonitor])
    {
      hide Find, Circular, Nexts, Values, Distinct, SetMonitor;
      ghost var k := View();
      if activeMonitor == maxMonitor {
        activeMonitor := v;
      }
      vmonitors[v] := vmonitors[maxMonitor];
      assert vmonitors[..maxMonitor + 1] == k.monitors[v := k.monitors[maxMonitor]];
      Attach(vmonitors[maxMonitor], v);
    }

    /** The last monitor is given back: the one before it takes over what it showed. */
    method FreeLastMonitor()
      requires Shape() && activeMonitor <= maxMonitor && maxMonitor > 0
      modifies this`focus, this`activeMonitor, this`maxMonitor, vmonitors
      ensures Shape() && View() == Processes.FreeMonitor(old(View()), old(maxMonitor))
    {
      hide Find, Circular, Nexts, Values, Distinct, Processes.SetFocus, Processes.DropLastMonitor;
      if activeMonitor == maxMonitor {
        activeMonitor := activeMonitor - 1;
        SetFocus(vmonitors[activeMonitor]);
      }
      DropLastMonitor();
    }

    /** Another monitor is given back: the last one takes its place. */
    method FreeInnerMonitor(v: nat)
      requires Shape() && v < maxMonitor && activeMonitor <= maxMonitor
      requires Find(View().ring, vmonitors[maxMonitor]).Some?
      modifies this`focus, this`activeMonitor, this`maxMonitor, vmonitors, ring
      ensures Shape() && View() == Processes.FreeMonitor(old(View()), v)
    {
      hide Find, Circular, Nexts, Values, Distinct, SetMonitor, Processes.SetFocus;
      hide Processes.MoveLastMonitor, Processes.DropLastMonitor;
      var activeDeleted := activeMonitor != maxMonitor && activeMonitor == v;
      assert View().monitors[maxMonitor] == vmonitors[maxMonitor];
      MoveLastMonitor(v);
      if activeDeleted {
        SetFocus(vmonitors[v]);
      }
      DropLastMonitor();
    }

    /** free_virt_monitor. */
    method FreeMonitor(v: nat)
      requires Shape() && v <= maxMonitor && activeMonitor <= maxMonitor && maxMonitor > 0
      requires Find(View().ring, vmonitors[maxMonitor]).Some?
      modifies this`focus, this`activeMonitor, this`maxMonitor, vmonitors, ring
      ensures Shape() && View() == Processes.FreeMonitor(old(View()), v)
    {
      hide *;
      if v == maxMonitor {
        FreeLastMonitor();
      } else {
        FreeInnerMonitor(v);
      }
    }

    /** The next process leaves the list. */
    method UnlinkNext(next: Process)
      requires Shape() && |ring| > 1 && next == ring[if |ring| == 2 then 0 else 2]
      requires head != ring[1] && focus != ring[1]
      modifies this`ring, active
      ensures Shape() && ring == [old(ring[0])] + old(ring[2..])
      ensures View() == old(View()).(ring := [old(View()).ring[0]] + old(View()).ring[2..])
    {
      hide Find, Circular, Nexts, Values, Distinct;
      ghost var r, nexts := [ring[0]] + ring[2..], Nexts(ring);
      LeadsOn(ring, nexts, 1);
      HeadIsAlone(ring);
      active.next := next;
      UnlinkSecond(ring, nexts, Nexts(r));
      RemainDistinct(ring);
      assert Values(r) == [Values(ring)[0]] + Values(ring)[2..];
      assert Values(ring) == old(Values(ring));
      KeepsOthers(ring, head);
      if focus != null {
        KeepsOthers(ring, focus);
      }
      ring := r;
    }

    /** The inner step of pm_schedule: pm_destroy_thread of the next process, and its unlinking. */
    method ReapNext()
      requires Valid() && |ring| > 1 && ring[1].state == Dead
      modifies this`focus, this`activeMonitor, this`maxMonitor, this`ring, vmonitors, ring
      ensures Valid() && OnlyFrom(ring, old(ring))
      ensures old(Reap.requires(View())) && View() == old(Reap(View()))
    {
      hide Find, Circular, Nexts, Values, Distinct, Inv, Processes.FreeMonitor;
      ghost var k := View();
      LastIsOwned(k);
      ReapKeepsInv(k);
      SecondIsNotNeeded(k);
      assert k.ring[1] == ring[1].Value() && k.monitors[maxMonitor] == vmonitors[maxMonitor];
      LeadsOn(ring, Nexts(ring), 0);
      LeadsOn(ring, Nexts(ring), 1);
      var next := active.next.next;
      FreeMonitor(active.next.monitor);
      UnlinkNext(next);
    }

    /** The context of the active process is saved. */
    method SaveActive(context: int)
      requires Valid()
      modifies ring
      ensures Valid() && View() == SaveContext(old(View()), context)
    {
      hide Inv, Circular, Nexts, Values, Distinct;
      SaveKeepsInv(View(), context);
      HeadIsAlone(ring);
      active.context := context;
      assert Nexts(ring) == old(Nexts(ring));
      assert Values(ring) == old(Values(ring))[0 := ring[0].Value()];
    }

    /** The active process gets as many slices as its priority says. */
    method RefillActive()
      requires Valid()
      modifies ring
      ensures Valid() && View() == Refill(old(View()))
    {
      hide Inv, Circular, Nexts, Values, Distinct;
      RefillKeepsInv(View());
      HeadIsAlone(ring);
      active.remaining := active.priority;
      assert Nexts(ring) == old(Nexts(ring));
      assert Values(ring) == old(Values(ring))[0 := ring[0].Value()];
    }

    /** The active pointer moves on to the next process. */
    method MoveOn()
      requires Shape()
      modifies this`active, this`ring
      ensures Shape() && View() == Advance(old(View())) && ring == old(ring[1..]) + [old(ring[0])]
    {
      hide Find, Circular, Nexts, Values, Distinct;
      ghost var r := ring[1..] + [ring[0]];
      LeadsOn(ring, Nexts(ring), 0);
      RotatedCircular(ring, Nexts(ring), Nexts(r));
      RotatedDistinct(ring);
      assert Values(r) == Values(ring)[1..] + [Values(ring)[0]];
      active := active.next;
      ring := r;
    }

    /** The next process, as the loops of pm_schedule see it. */
    lemma NextIs()
      requires Valid()
      ensures active.next == ring[if |ring| == 1 then 0 else 1]
      ensures View().ring != [] && active.next.state == Next(View().ring).state
      ensures active.next.state == Dead ==> |ring| > 1
    {
      hide Inv, Circular, Distinct, Nexts, Values;
      LeadsOn(ring, Nexts(ring), 0);
      NextIsAhead(View());
    }

    /** The first inner loop of pm_schedule. */
    method ReapDead()
      requires Valid()
      modifies this`focus, this`activeMonitor, this`maxMonitor, this`ring, vmonitors, ring
      ensures Valid() && Walk(View()) == old(Walk(View())) && OnlyFrom(ring, old(ring))
      ensures active.next.state != Dead && View().ring != [] && old(View().ring) != []
      ensures old(active.next.state) == Dead ==> Distance(View()) < old(Distance(View()))
      ensures old(active.next.state) != Dead ==> View() == old(View()) && active.next.state == old(active.next.state)
    {
      hide Inv, Walk, Reap, Distance, Shape, Values, OnlyFrom;
      ghost var k := View();
      Aliveness(k);
      OnlyFromSame(ring);
      while active.next.state == Dead
        invariant Valid() && Walk(View()) == Walk(k) && View().ring != [] && OnlyFrom(ring, old(ring))
        invariant if View() == k then active.next.state == old(active.next.state)
                  else Distance(View()) < Distance(k) && old(active.next.state) == Dead
        decreases Distance(View())
      {
        NextIs();
        WalkReaps(View());
        OnlyFromAt(ring, old(ring));
        ghost var mid := ring;
        ReapNext();
        OnlyFromTwice(ring, mid, old(ring));
        Aliveness(View());
      }
    }

    /** The second inner loop of pm_schedule. */
    method PassSleepers()
      requires Valid()
      modifies this`active, this`ring
      ensures Valid() && Walk(View()) == old(Walk(View())) && OnlyFrom(ring, old(ring))
      ensures active.next.state != Sleeping && View().ring != [] && old(View().ring) != []
      ensures old(active.next.state) == Sleeping ==> Distance(View()) < old(Distance(View()))
      ensures old(active.next.state) != Sleeping ==>
          View() == old(View()) && active.next.state == old(active.next.state)
    {
      hide Inv, Walk, Advance, Distance, Shape, Values;
      ghost var k := View();
      Aliveness(k);
      while active.next.state == Sleeping
        invariant Valid() && Walk(View()) == Walk(k) && View().ring != [] && OnlyFrom(ring, old(ring))
        invariant if View() == k then active.next.state == old(active.next.state)
                  else Distance(View()) < Distance(k) && old(active.next.state) == Sleeping
        decreases Distance(View())
      {
        NextIs();
        WalkPasses(View());
        MoveOn();
        Aliveness(View());
      }
    }

    /** The loops of pm_schedule. */
    method WalkOn()
      requires Valid()
      modifies this`active, this`focus, this`activeMonitor, this`maxMonitor, this`ring, vmonitors, ring
      ensures Valid() && View() == old(Walk(View())) && OnlyFrom(ring, old(ring))
      ensures active.next.state == Alive
    {
      hide Inv, Walk, Distance, Shape, Values;
      ghost var k := View();
      Aliveness(View());
      while active.next.state != Alive
        invariant Valid() && Walk(View()) == Walk(k) && View().ring != [] && OnlyFrom(ring, old(ring))
        decreases Distance(View())
      {
        OnlyFromAt(ring, old(ring));
        ReapDead();
        PassSleepers();
      }
      NextIs();
      WalkStops(View());
    }

    /** The active process stays so for one slice less. */
    method SpendSlice()
      requires Valid() && active.remaining > 1
      modifies ring
      ensures Valid() && View() == old(ProcessSchedule.Schedule(View(), 0)).0 && old(MayContinue(View()))
    {
      hide Inv, Circular, Nexts, Values, Distinct, Walk;
      ScheduleIsRight(View(), 0);
      HeadIsAlone(ring);
      active.remaining := active.remaining - 1;
      assert Nexts(ring) == old(Nexts(ring));
      assert Values(ring) == old(Values(ring))[0 := ring[0].Value()];
    }

    /** pm_schedule. */
    method Schedule(context: int) returns (resumed: int)
      requires Valid()
      modifies this`active, this`focus, this`activeMonitor, this`maxMonitor, this`ring, vmonitors, ring
      ensures Valid() && (View(), resumed) == old(ProcessSchedule.Schedule(View(), context))
    {
      hide Inv, Shape, Values, Walk, SaveContext, Advance, Refill;
      ActiveIsFirst();
      ghost var k := View();
      if active.remaining > 1 {
        SpendSlice();
        return context;
      }
      SaveKeepsInv(k, context);
      SaveActive(context);
      WalkOn();
      InvShown(View());
      AdvanceKeepsInv(View());
      MoveOn();
      OnlyFromAt(ring, old(ring));
      RefillActive();
      ActiveIsFirst();
      resumed := active.context;
    }

    lemma ActiveIsFirst()
      requires Shape()
      ensures View().ring != [] && View().ring[0] == active.Value()
    {
    }

    /** A new process is linked in behind the kernel process. */
    method LinkIn(p: Process)
      requires Shape() && p !in ring && p.pid == nextPid && forall i :: 0 <= i < |ring| ==> ring[i].pid < p.pid
      modifies this`ring, p`next, head`next
      ensures Shape() && focus == old(focus)
      ensures p in ring && Find(old(View()).ring, 0).Some?
      ensures var at := Find(old(View()).ring, 0).value + 1;
              View() == old(View()).(ring := InsertAt(old(Values(ring)), at, p.Value()))
      ensures p.Value() == old(p.Value())
    {
      hide Find, Circular, Nexts, Values, Distinct, InsertAt;
      ghost var h: nat :| h < |ring| && ring[h] == head;
      FoundAt(ring, h);
      LeadsOn(ring, Nexts(ring), h);
      ghost var r, nexts := InsertAt(ring, h + 1, p), Nexts(ring);
      HasOne(ring, h);
      p.next := head.next;
      head.next := p;
      assert Values(ring) == old(Values(ring));
      InsertedValues(ring, h + 1, p);
      InsertedNexts(ring, nexts, h, p);
      InsertDistinct(ring, h + 1, p);
      InsertKeeps(ring, h + 1, p);
      ring := r;
    }

    /** start_vmonitor. */
    method StartMonitor(pid: nat) returns (v: nat)
      requires Shape() && maxMonitor + 1 < MONITOR_LIMIT
      modifies this`maxMonitor, this`activeMonitor, vmonitors
      ensures Shape() && v == old(maxMonitor) + 1
      ensures View() == old(View()).(monitors := old(View().monitors) + [pid], shown := |old(View().monitors)|)
    {
      hide Circular, Nexts, Values, Distinct;
      maxMonitor := maxMonitor + 1;
      vmonitors[maxMonitor] := pid;
      activeMonitor := maxMonitor;
      v := maxMonitor;
      assert vmonitors[..maxMonitor + 1] == old(vmonitors[..maxMonitor + 1]) + [pid];
    }

    /** The new process gets the focus and a monitor. */
    method Equip(p: Process)
      requires Shape() && maxMonitor + 1 < MONITOR_LIMIT && p in ring && p.monitor == maxMonitor + 1
      modifies this`maxMonitor, this`activeMonitor, this`focus, vmonitors, p`monitor
      ensures Shape() && View() == old(View()).(monitors := old(View().monitors) + [p.pid],
                                                shown := |old(View().monitors)|, focus := Some(p.pid))
    {
      hide Circular, Nexts, Values, Distinct;
      focus := p;
      var v := StartMonitor(p.pid);
      p.monitor := v;
      assert Nexts(ring) == old(Nexts(ring));
      assert Values(ring) == old(Values(ring));
    }

    /** pm_create_thread, where memory and a virtual monitor are left. */
    method CreateThread(stack: int) returns (pid: nat)
      requires Valid() && maxMonitor + 1 < MONITOR_LIMIT
      modifies this, vmonitors, ring
      ensures Valid() && View() == Create(old(View()), stack) && pid == old(nextPid)
    {
      hide Inv, Shape, Values, Find, InsertAt, Create;
      ghost var k := View();
      CreateKeepsInv(k, stack);
      PidsBelow(ring, k);
      HeadIsIn();
      pid := nextPid;
      var p := NewThread(stack);
      assert View() == k;
      LinkIn(p);
      Equip(p);
      CountPid();
      CreateIs(k, stack);
    }

    /** The structure of a new process. */
    method NewThread(stack: int) returns (p: Process)
      requires Shape()
      ensures fresh(p) && p.pid == nextPid && p.Value() == Proc(nextPid, Alive, stack, 1, 1, maxMonitor + 1)
    {
      p := new Process(nextPid, stack, maxMonitor + 1);
    }

    /** next_pid++. */
    method CountPid()
      requires Shape()
      modifies this`nextPid
      ensures Shape() && View() == old(View()).(nextPid := old(nextPid) + 1)
    {
      hide Circular, Nexts, Values, Distinct;
      nextPid := nextPid + 1;
    }

    lemma HeadIsIn()
      requires Shape()
      ensures head in ring
    {
    }

    /** The state of the process at index i of the ring changes. */
    method ChangeState(p: Process, state: PState)
      requires Valid() && p in ring && (p.pid != 0 || state == Alive)
      modifies p`state
      ensures Valid() && View() == SetState(old(View()), p.pid, state)
    {
      hide Inv, Circular, Nexts, Values, Distinct, Find;
      ghost var i: nat :| i < |ring| && ring[i] == p;
      FoundAt(ring, i);
      HasOne(ring, i);
      SetStateKeepsInv(View(), p.pid, state);
      p.state := state;
      assert Nexts(ring) == old(Nexts(ring));
      assert Values(ring) == old(Values(ring))[i := ring[i].Value()];
    }

    /** pm_kill_proc. */
    method Kill(pid: nat)
      requires Valid() && pid != 0
      modifies ring
      ensures Valid() && View() == SetState(old(View()), pid, Dead)
    {
      hide Inv, Circular, Nexts, Values, Distinct;
      var p := GetProc(pid);
      if p != null {
        ChangeState(p, Dead);
      }
    }

    /** sys_exit; for the kernel process it is a panic. */
    method Exit()
      requires Valid() && active.pid != 0
      modifies ring
      ensures Valid() && View() == SetState(old(View()), old(active.pid), Dead)
    {
      hide Inv, Circular, Nexts, Values, Distinct;
      ChangeState(active, Dead);
    }

    /** dev_stdin_read of a process in the background, which finds too little input. */
    method Sleep()
      requires Valid() && active.pid != 0 && active != focus
      modifies ring
      ensures Valid() && View() == SetState(old(View()), old(active.pid), Sleeping)
    {
      hide Inv, Circular, Nexts, Values, Distinct;
      ChangeState(active, Sleeping);
    }

    /** pm_handle_input, but for the queue. */
    method HandleInput()
      requires Valid()
      modifies ring
      ensures Valid() && View() == Input(old(View()))
    {
      hide Inv, Circular, Nexts, Values, Distinct, Find, SetState;
      if focus == null {
        return;
      }
      ghost var i: nat :| i < |ring| && ring[i] == focus;
      FoundAt(ring, i);
      if focus.state == Sleeping {
        ChangeState(focus, Alive);
      }
    }

    /** pm_set_thread_priority. */
    method SetThreadPriority(pid: nat, priority: nat)
      requires Valid()
      modifies ring
      ensures Valid() && View() == SetPriority(old(View()), pid, priority)
    {
      hide Inv, Circular, Nexts, Values, Find;
      SetPriorityKeepsInv(View(), pid, priority);
      ghost var k := View();
      var p := GetProc(pid);
      if p != null {
        ghost var i := Find(k.ring, pid).value;
        p.priority := priority;
        assert Nexts(ring) == old(Nexts(ring));
        assert Values(ring) == old(Values(ring))[i := ring[i].Value()];
      }
    }

    /** switch_monitor_up. */
    method MonitorUp()
      requires Valid()
      modifies this`activeMonitor, this`focus
      ensures Valid() && old(SwitchUp.requires(View())) && View() == old(SwitchUp(View()))
    {
      hide Inv, Circular, Nexts, Values, Distinct, Find, Processes.SetFocus;
      InvShown(View());
      ShowKeepsInv(View(), if View().shown < |View().monitors| - 1 then View().shown + 1 else 0);
      if activeMonitor < maxMonitor {
        activeMonitor := activeMonitor + 1;
      } else if activeMonitor == maxMonitor {
        activeMonitor := 0;
      }
      SetFocus(vmonitors[activeMonitor]);
    }

    /** switch_monitor_down. */
    method MonitorDown()
      requires Valid()
      modifies this`activeMonitor, this`focus
      ensures Valid() && old(SwitchDown.requires(View())) && View() == old(SwitchDown(View()))
    {
      hide Inv, Circular, Nexts, Values, Distinct, Find, Processes.SetFocus;
      InvShown(View());
      ShowKeepsInv(View(), if View().shown > 0 then View().shown - 1 else |View().monitors| - 1);
      if activeMonitor > 0 {
        activeMonitor := activeMonitor - 1;
      } else if activeMonitor == 0 {
        activeMonitor := maxMonitor;
      }
      SetFocus(vmonitors[activeMonitor]);
    }
  }
}
