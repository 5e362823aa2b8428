/** What holds of the process ring and the monitors when a process is removed. */
module ProcessProofs {
  import opened Options
  import opened Processes

  lemma FindAt(ring: seq<Proc>, i: nat)
    requires DistinctPids(ring) && i < |ring|
    ensures Find(ring, ring[i].pid) == Some(i)
  {
  }

  /** Monitors are not shared: who has monitor v is determined. */
  lemma OneOwner(ring: seq<Proc>, monitors: seq<nat>, i: nat, j: nat)
    requires DistinctPids(ring) && Paired(ring, monitors) && i < |ring| && j < |ring|
    ensures ring[i].monitor == ring[j].monitor <==> i == j
    ensures HasMonitor(monitors, ring[i])
  {
    assert HasMonitor(monitors, ring[i]) && HasMonitor(monitors, ring[j]);
  }

  lemma Owner(ring: seq<Proc>, monitors: seq<nat>, v: nat) returns (i: nat)
    requires Paired(ring, monitors) && v < |monitors|
    ensures i < |ring| && ring[i].monitor == v && ring[i].pid == monitors[v]
  {
    assert Owned(ring, v);
    i :| i < |ring| && ring[i].monitor == v;
    assert HasMonitor(monitors, ring[i]);
  }

  /** The table and the ring after the monitor of process i was given back. */
  function Table(monitors: seq<nat>, v: nat): seq<nat>
    requires v < |monitors|
  {
    monitors[v := monitors[|monitors| - 1]][..|monitors| - 1]
  }

  function Moved(ring: seq<Proc>, monitors: seq<nat>, v: nat): (r: seq<Proc>)
    requires v < |monitors|
    ensures |r| == |ring|
    ensures forall j :: 0 <= j < |ring| ==> r[j].(monitor := 0) == ring[j].(monitor := 0)
  {
    if v == |monitors| - 1 then ring else SetMonitor(ring, monitors[|monitors| - 1], v)
  }

  function Without(ring: seq<Proc>, i: nat): seq<Proc>
    requires i < |ring|
  {
    ring[..i] + ring[i + 1..]
  }

  /** Only the owner of the last monitor gets another, that of process i. */
  lemma MovedAt(ring: seq<Proc>, monitors: seq<nat>, i: nat, j: nat)
    requires DistinctPids(ring) && Paired(ring, monitors) && i < |ring| && j < |ring|
    ensures ring[i].monitor < |monitors|
    ensures var (v, last) := (ring[i].monitor, |monitors| - 1);
            Moved(ring, monitors, v)[j] == if ring[j].monitor == last then ring[j].(monitor := v) else ring[j]
  {
    hide Paired, DistinctPids;
    OneOwner(ring, monitors, i, i);
    OneOwner(ring, monitors, j, j);
    var o := Owner(ring, monitors, |monitors| - 1);
    FindAt(ring, o);
    OneOwner(ring, monitors, o, j);
  }

  lemma MovedHasMonitor(ring: seq<Proc>, monitors: seq<nat>, i: nat, j: nat)
    requires DistinctPids(ring) && Paired(ring, monitors) && i < |ring| && j < |ring| && i != j
    ensures ring[i].monitor < |monitors|
    ensures HasMonitor(Table(monitors, ring[i].monitor), Moved(ring, monitors, ring[i].monitor)[j])
  {
    hide Paired, DistinctPids, Moved;
    MovedAt(ring, monitors, i, j);
    OneOwner(ring, monitors, i, j);
    OneOwner(ring, monitors, j, j);
  }

  lemma MovedOwned(ring: seq<Proc>, monitors: seq<nat>, i: nat, w: nat) returns (j: nat)
    requires DistinctPids(ring) && Paired(ring, monitors) && i < |ring| && w < |monitors| - 1
    ensures ring[i].monitor < |monitors| && j < |ring| && j != i
    ensures Moved(ring, monitors, ring[i].monitor)[j].monitor == w
  {
    hide Paired, DistinctPids, Moved;
    OneOwner(ring, monitors, i, i);
    j := Owner(ring, monitors, if w == ring[i].monitor then |monitors| - 1 else w);
    OneOwner(ring, monitors, i, j);
    MovedAt(ring, monitors, i, j);
  }

  lemma WithoutAt(ring: seq<Proc>, i: nat, j: nat)
    requires i < |ring| && j < |ring| - 1
    ensures Without(ring, i)[j] == ring[if j < i then j else j + 1]
  {
  }

  /** Giving back the monitor of a process that is removed leaves the others paired. */
  lemma PairedAfterRemoval(ring: seq<Proc>, monitors: seq<nat>, i: nat)
    requires DistinctPids(ring) && Paired(ring, monitors) && i < |ring|
    ensures ring[i].monitor < |monitors|
    ensures Paired(Without(Moved(ring, monitors, ring[i].monitor), i), Table(monitors, ring[i].monitor))
  {
    hide DistinctPids, Moved, Without, HasMonitor, Table;
    OneOwner(ring, monitors, i, i);
    assert ring[i].monitor < |monitors| by { MovedAt(ring, monitors, i, i); }
    var v := ring[i].monitor;
    var r := Moved(ring, monitors, v);
    var r1, m1 := Without(r, i), Table(monitors, v);
    WithoutLength(r, monitors, i, v);
    forall j | 0 <= j < |r1| ensures HasMonitor(m1, r1[j]) {
      WithoutAt(r, i, j);
      MovedHasMonitor(ring, monitors, i, if j < i then j else j + 1);
    }
    forall w: nat | w < |m1| ensures Owned(r1, w) {
      var j := MovedOwned(ring, monitors, i, w);
      WithoutAt(r, i, if j < i then j else j - 1);
    }
  }

  lemma WithoutLength(ring: seq<Proc>, monitors: seq<nat>, i: nat, v: nat)
    requires i < |ring| && v < |monitors|
    ensures |Without(ring, i)| == |ring| - 1 && |Table(monitors, v)| == |monitors| - 1
  {
  }

  // ---- reaping ----

  lemma SomeoneHas(ring: seq<Proc>, i: nat)
    requires i < |ring|
    ensures Find(ring, ring[i].pid).Some?
  {
  }

  lemma TwoMonitors(k: Kernel)
    requires Inv(k) && |k.ring| > 1
    ensures |k.monitors| > 1 && k.ring[1].monitor < |k.monitors|
  {
    OneOwner(k.ring, k.monitors, 0, 1);
    OneOwner(k.ring, k.monitors, 1, 1);
  }

  /** FreeMonitor, taken apart. */
  lemma FreeMonitorParts(k: Kernel, v: nat)
    requires DistinctPids(k.ring) && Paired(k.ring, k.monitors) && v < |k.monitors| && |k.monitors| > 1
    requires k.shown < |k.monitors| && k.focus == Some(k.monitors[k.shown])
    ensures var (g, last) := (FreeMonitor(k, v), |k.monitors| - 1);
            && g.ring == Moved(k.ring, k.monitors, v) && g.monitors == Table(k.monitors, v)
            && g.nextPid == k.nextPid && g.shown < |g.monitors| && g.focus == Some(g.monitors[g.shown])
            && (k.shown != v ==> g.monitors[g.shown] == k.monitors[k.shown])
  {
    hide Paired, DistinctPids, Moved, SetMonitor;
    var last := |k.monitors| - 1;
    var i := Owner(k.ring, k.monitors, last);
    var j := Owner(k.ring, k.monitors, last - 1);
    SomeoneHas(k.ring, j);
    MovedPid(k.ring, k.monitors, v, i);
    SomeoneHas(Moved(k.ring, k.monitors, v), i);
    MovedIs(k.ring, k.monitors, v);
  }

  lemma MovedPid(ring: seq<Proc>, monitors: seq<nat>, v: nat, i: nat)
    requires v < |monitors| && i < |ring|
    ensures |Moved(ring, monitors, v)| == |ring| && Moved(ring, monitors, v)[i].pid == ring[i].pid
  {
    assert Moved(ring, monitors, v)[i].(monitor := 0) == ring[i].(monitor := 0);
  }

  lemma MovedIs(ring: seq<Proc>, monitors: seq<nat>, v: nat)
    requires v < |monitors|
    ensures Moved(ring, monitors, v)
         == if v == |monitors| - 1 then ring else SetMonitor(ring, monitors[|monitors| - 1], v)
  {
  }

  /** Two processes, but for the monitor. */
  function Core(p: Proc): Proc { p.(monitor := 0) }

  function Cores(ring: seq<Proc>): seq<Proc> { seq(|ring|, i requires 0 <= i < |ring| => Core(ring[i])) }

  lemma ReapParts(k: Kernel)
    requires Inv(k) && |k.ring| > 1
    ensures |k.monitors| > 1 && k.ring[1].monitor < |k.monitors| && k.shown < |k.monitors|
    ensures var (g, v) := (Reap(k), k.ring[1].monitor);
            && g.ring == Without(Moved(k.ring, k.monitors, v), 1) && g.monitors == Table(k.monitors, v)
            && g.nextPid == k.nextPid && g.shown < |g.monitors| && g.focus == Some(g.monitors[g.shown])
            && (k.shown != v ==> g.monitors[g.shown] == k.monitors[k.shown])
  {
    hide Paired, DistinctPids, Moved, KernelProcAlive, FreeMonitor, Table;
    TwoMonitors(k);
    FreeMonitorParts(k, k.ring[1].monitor);
    var r := Moved(k.ring, k.monitors, k.ring[1].monitor);
    assert |r| == |k.ring| by { MovedPid(k.ring, k.monitors, k.ring[1].monitor, 0); }
    assert Without(r, 1) == [r[0]] + r[2..];
  }

  lemma ReapedCores(ring: seq<Proc>, r: seq<Proc>)
    requires |ring| > 1 && |r| == |ring| && forall j :: 0 <= j < |ring| ==> Core(r[j]) == Core(ring[j])
    ensures Cores(Without(r, 1)) == [Core(ring[0])] + Cores(ring)[2..]
  {
  }

  /** Removing a dead process, with its monitor, keeps everything in order: the others stay as they are and where
      they are, and the active monitor still shows the same process unless that is the one removed. */
  lemma ReapKeepsInv(k: Kernel)
    requires Inv(k) && |k.ring| > 1 && k.ring[1].state == Dead
    ensures |k.monitors| > 1 && k.ring[1].monitor < |k.monitors| && k.shown < |k.monitors|
    ensures var g := Reap(k);
            && Inv(g) && Cores(g.ring) == [Core(k.ring[0])] + Cores(k.ring)[2..]
            && (k.shown != k.ring[1].monitor ==> g.monitors[g.shown] == k.monitors[k.shown])
  {
    hide Paired, Moved, Reap, Table, Cores, KernelProcAlive, DistinctPids, Without;
    ReapParts(k);
    PairedAfterRemoval(k.ring, k.monitors, 1);
    var r := Moved(k.ring, k.monitors, k.ring[1].monitor);
    forall j | 0 <= j < |k.ring| ensures |r| == |k.ring| && Core(r[j]) == Core(k.ring[j]) {
      MovedCore(k.ring, k.monitors, k.ring[1].monitor, j);
    }
    ReapedCores(k.ring, r);
    RemovedRing(k.ring, r, k.nextPid);
  }

  lemma MovedCore(ring: seq<Proc>, monitors: seq<nat>, v: nat, j: nat)
    requires v < |monitors| && j < |ring|
    ensures |Moved(ring, monitors, v)| == |ring| && Core(Moved(ring, monitors, v)[j]) == Core(ring[j])
  {
  }

  lemma RemovedRing(ring: seq<Proc>, r: seq<Proc>, bound: nat)
    requires DistinctPids(ring) && KernelProcAlive(ring) && |ring| > 1 && ring[1].state == Dead
    requires |r| == |ring| && forall j :: 0 <= j < |ring| ==> Core(r[j]) == Core(ring[j])
    requires forall i :: 0 <= i < |ring| ==> ring[i].pid < bound
    ensures DistinctPids(Without(r, 1)) && KernelProcAlive(Without(r, 1))
    ensures forall i :: 0 <= i < |Without(r, 1)| ==> Without(r, 1)[i].pid < bound
  {
    var x := Without(r, 1);
    forall j | 0 <= j < |x| ensures Core(x[j]) == Core(ring[if j == 0 then 0 else j + 1]) {
    }
    var z :| 0 <= z < |ring| && ring[z].pid == 0 && ring[z].state == Alive;
    assert Core(x[if z == 0 then 0 else z - 1]) == Core(ring[z]);
  }
}
