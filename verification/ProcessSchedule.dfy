/** pm_schedule: which process comes next, what is removed on the way, and when a process gets its turn. */
module ProcessSchedule {
  import opened Processes
  import opened ProcessProofs

  /** The ring as the scheduler meets it: the active process comes last. */
  function Ahead(ring: seq<Proc>): seq<Proc>
    requires ring != []
  {
    ring[1..] + [ring[0]]
  }

  /** How many processes come before the first that is alive. */
  function FirstAlive(ps: seq<Proc>): (d: nat)
    ensures d <= |ps|
    ensures forall i :: 0 <= i < d ==> ps[i].state != Alive
    ensures d < |ps| ==> ps[d].state == Alive
  {
    if ps == [] || ps[0].state == Alive then 0 else 1 + FirstAlive(ps[1..])
  }

  function NotDead(ps: seq<Proc>): seq<Proc> {
    if ps == [] then []
    else (if ps[0].state == Dead then [] else [ps[0]]) + NotDead(ps[1..])
  }

  lemma SomeoneIsAlive(ring: seq<Proc>)
    requires KernelProcAlive(ring)
    ensures ring != [] && FirstAlive(Ahead(ring)) < |ring|
  {
    var z :| 0 <= z < |ring| && ring[z].pid == 0 && ring[z].state == Alive;
    assert Ahead(ring)[if z == 0 then |ring| - 1 else z - 1].state == Alive;
  }

  lemma AdvanceKeepsInv(k: Kernel)
    requires Inv(k) && k.ring != []
    ensures Inv(Advance(k))
  {
    hide FirstAlive;
    var g := Advance(k);
    var n := |k.ring|;
    assert forall i :: 0 <= i < n ==> g.ring[i] == k.ring[if i == n - 1 then 0 else i + 1];
    var z :| 0 <= z < n && k.ring[z].pid == 0 && k.ring[z].state == Alive;
    assert g.ring[if z == 0 then n - 1 else z - 1] == k.ring[z];
    forall v: nat | v < |k.monitors| ensures Owned(g.ring, v) {
      var i := Owner(k.ring, k.monitors, v);
      assert g.ring[if i == 0 then n - 1 else i - 1] == k.ring[i];
    }
  }

  /** How far the walk still is from the first process that is alive. */
  function Distance(k: Kernel): nat
    requires k.ring != []
  {
    FirstAlive(Ahead(k.ring))
  }

  lemma NextIsAhead(k: Kernel)
    requires Inv(k)
    ensures k.ring != [] && Next(k.ring) == Ahead(k.ring)[0]
    ensures Next(k.ring).state == Dead ==> |k.ring| > 1
    ensures Next(k.ring).state == Alive <==> Distance(k) == 0
  {
    SomeoneIsAlive(k.ring);
  }

  lemma AdvanceIsCloser(k: Kernel)
    requires Inv(k) && k.ring != [] && Next(k.ring).state != Alive
    ensures Distance(Advance(k)) == Distance(k) - 1
    ensures Ahead(Advance(k).ring) == Ahead(k.ring)[1..] + [Ahead(k.ring)[0]]
  {
    hide Inv;
    var c := Ahead(k.ring);
    NextIsAhead(k);
    Aliveness(k);
    FirstAliveIn(c[1..], [c[0]]);
  }

  lemma Aliveness(k: Kernel)
    requires Inv(k)
    ensures k.ring != [] && Distance(k) < |k.ring|
  {
    SomeoneIsAlive(k.ring);
  }

  lemma {:induction false} FirstAliveIn(ps: seq<Proc>, qs: seq<Proc>)
    requires FirstAlive(ps) < |ps|
    ensures FirstAlive(ps + qs) == FirstAlive(ps)
  {
    if ps[0].state != Alive {
      assert (ps + qs)[1..] == ps[1..] + qs;
      FirstAliveIn(ps[1..], qs);
    }
  }

  lemma {:induction false} FirstAliveOfCores(ps: seq<Proc>)
    ensures FirstAlive(Cores(ps)) == FirstAlive(ps)
  {
    if ps != [] {
      assert Cores(ps)[1..] == Cores(ps[1..]);
      FirstAliveOfCores(ps[1..]);
    }
  }

  lemma AheadOfCores(ring: seq<Proc>)
    requires ring != []
    ensures Cores(Ahead(ring)) == Cores(ring)[1..] + [Cores(ring)[0]]
  {
  }

  lemma ReapIsCloser(k: Kernel)
    requires Inv(k) && |k.ring| > 1 && k.ring[1].state == Dead
    ensures |k.monitors| > 1 && k.ring[1].monitor < |k.monitors| && k.shown < |k.monitors|
    ensures Inv(Reap(k)) && Reap(k).ring != [] && Distance(Reap(k)) == Distance(k) - 1
    ensures Cores(Ahead(Reap(k).ring)) == Cores(Ahead(k.ring))[1..]
  {
    hide Inv, Reap, Cores, FirstAlive;
    ReapKeepsInv(k);
    var g := Reap(k);
    Aliveness(g);
    CoresLength(g.ring);
    CoresLength(k.ring);
    AheadOfCores(g.ring);
    AheadOfCores(k.ring);
    CoresLength(Ahead(k.ring));
    FirstAliveOfCores(Ahead(k.ring));
    FirstAliveOfCores(Ahead(g.ring));
    assert Ahead(k.ring)[0] == k.ring[1];
    assert Cores(Ahead(g.ring)) == Cores(Ahead(k.ring))[1..];
    DropFirst(Cores(Ahead(k.ring)));
  }

  lemma CoresLength(ring: seq<Proc>)
    ensures |Cores(ring)| == |ring|
    ensures forall i :: 0 <= i < |ring| ==> Cores(ring)[i] == Core(ring[i])
  {
  }

  lemma DropFirst(ps: seq<Proc>)
    requires ps != [] && ps[0].state != Alive
    ensures FirstAlive(ps[1..]) == FirstAlive(ps) - 1
  {
  }

  /** The loops of pm_schedule: dead processes are removed and sleeping ones passed, until the next one is alive. */
  ghost function Walk(k: Kernel): Kernel
    requires Inv(k)
    decreases Distance(k)
  {
    NextIsAhead(k);
    match Next(k.ring).state
    case Alive => k
    case Dead => ReapIsCloser(k); Walk(Reap(k))
    case Sleeping => AdvanceKeepsInv(k); AdvanceIsCloser(k); Walk(Advance(k))
  }

  /** The ring, from the process that comes next, if the dead ones before it are left out and the sleepers are not. */
  function Onward(ps: seq<Proc>): seq<Proc> {
    ps[FirstAlive(ps)..] + NotDead(ps[..FirstAlive(ps)])
  }

  lemma NotDeadFirst(ps: seq<Proc>)
    requires ps != []
    ensures NotDead(ps) == (if ps[0].state == Dead then [] else [ps[0]]) + NotDead(ps[1..])
  {
  }

  lemma OnwardSkips(ps: seq<Proc>)
    requires FirstAlive(ps) < |ps| && ps[0].state == Dead
    ensures Onward(ps) == Onward(ps[1..])
  {
    hide FirstAlive, NotDead;
    var d := FirstAlive(ps);
    DropFirst(ps);
    NotDeadFirst(ps[..d]);
    assert ps[..d][1..] == ps[1..][..d - 1];
    assert ps[1..][d - 1..] == ps[d..];
  }

  lemma OnwardPasses(ps: seq<Proc>)
    requires FirstAlive(ps) < |ps| && ps[0].state == Sleeping
    ensures Onward(ps) == Onward(ps[1..] + [ps[0]])
  {
    hide FirstAlive, NotDead;
    var d := FirstAlive(ps);
    DropFirst(ps);
    FirstAliveIn(ps[1..], [ps[0]]);
    var qs := ps[1..] + [ps[0]];
    NotDeadFirst(ps[..d]);
    assert ps[..d][1..] == qs[..d - 1];
    assert qs[d - 1..] == ps[d..] + [ps[0]];
  }

  function Shows(k: Kernel): nat
    requires k.shown < |k.monitors|
  {
    k.monitors[k.shown]
  }

  lemma InvShown(k: Kernel)
    requires Inv(k)
    ensures k.shown < |k.monitors| && k.ring != []
  {
    SomeoneIsAlive(k.ring);
  }

  /** The walk ends before the first process alive, having removed exactly the dead ones it passed, with all others
      in their order. The active monitor goes on showing its process if that one is still there. */
  lemma {:induction false} WalkIsRight(k: Kernel)
    requires Inv(k)
    ensures k.ring != [] && Inv(Walk(k)) && Walk(k).ring != [] && Walk(k).nextPid == k.nextPid
    ensures Cores(Ahead(Walk(k).ring)) == Onward(Cores(Ahead(k.ring)))
    ensures Next(Walk(k).ring).state == Alive
    decreases Distance(k)
  {
    hide Inv, Cores, Onward, FirstAlive, Reap;
    NextIsAhead(k);
    Aliveness(k);
    var c := Cores(Ahead(k.ring));
    CoresLength(Ahead(k.ring));
    FirstAliveOfCores(Ahead(k.ring));
    match Next(k.ring).state
    case Alive =>
      OnwardHere(c);
    case Dead =>
      ReapIsCloser(k);
      ReapParts(k);
      WalkIsRight(Reap(k));
      OnwardSkips(c);
    case Sleeping =>
      AdvanceKeepsInv(k);
      AdvanceIsCloser(k);
      WalkIsRight(Advance(k));
      OnwardPasses(c);
      CoresOfRotated(Ahead(k.ring));
  }

  lemma OnwardHere(ps: seq<Proc>)
    requires ps != [] && ps[0].state == Alive
    ensures Onward(ps) == ps
  {
  }

  lemma CoresOfRotated(ps: seq<Proc>)
    requires ps != []
    ensures |Cores(ps)| == |ps| && Cores(ps[1..] + [ps[0]]) == Cores(ps)[1..] + [Cores(ps)[0]]
  {
  }

  // ---- pm_schedule ----

  /** pm_schedule: the kernel afterwards, and the context that is resumed. */
  ghost function Schedule(k: Kernel, context: int): (Kernel, int)
    requires Inv(k)
  {
    InvShown(k);
    if MayContinue(k) then
      (k.(ring := k.ring[0 := k.ring[0].(remaining := k.ring[0].remaining - 1)]), context)
    else
      SaveKeepsInv(k, context);
      WalkIsRight(SaveContext(k, context));
      var g := Refill(Advance(Walk(SaveContext(k, context))));
      (g, g.ring[0].context)
  }

  /** Changing something of a process that is neither its pid, its monitor nor its state. */
  lemma ChangeKeepsInv(k: Kernel, i: nat, p: Proc)
    requires Inv(k) && i < |k.ring| && p.pid == k.ring[i].pid && p.monitor == k.ring[i].monitor
    requires p.state == k.ring[i].state || p.pid != 0 || p.state == Alive
    ensures Inv(k.(ring := k.ring[i := p]))
  {
    var r := k.ring[i := p];
    var z :| 0 <= z < |k.ring| && k.ring[z].pid == 0 && k.ring[z].state == Alive;
    assert r[z].pid == 0 && r[z].state == Alive;
    forall v: nat | v < |k.monitors| ensures Owned(r, v) {
      var j := Owner(k.ring, k.monitors, v);
      assert r[j].monitor == v;
    }
  }

  lemma SaveKeepsInv(k: Kernel, context: int)
    requires Inv(k)
    ensures k.ring != [] && Inv(SaveContext(k, context))
  {
    InvShown(k);
    ChangeKeepsInv(k, 0, k.ring[0].(context := context));
  }

  lemma RefillKeepsInv(k: Kernel)
    requires Inv(k)
    ensures k.ring != [] && Inv(Refill(k))
  {
    InvShown(k);
    ChangeKeepsInv(k, 0, k.ring[0].(remaining := k.ring[0].priority));
  }

  function Refilled(ps: seq<Proc>): seq<Proc> {
    if ps == [] then [] else ps[0 := ps[0].(remaining := ps[0].priority)]
  }

  /** At the end of its slices the active process is switched out with its context saved; the next process alive in
      the ring becomes active, with as many slices as its priority says and with the context it was switched out
      with; the dead processes between the two are gone, and all others are still there, in their order. */
  lemma ScheduleIsRight(k: Kernel, context: int)
    requires Inv(k)
    ensures var (g, resumed) := Schedule(k, context);
            && Inv(g) && g.nextPid == k.nextPid && g.ring != [] && k.ring != []
            && (MayContinue(k) ==> resumed == context)
            && (!MayContinue(k) ==>
                  && Cores(g.ring) == Refilled(Onward(Cores(Ahead(SaveContext(k, context).ring))))
                  && g.ring[0].state == Alive && resumed == g.ring[0].context)
  {
    hide Inv, Walk, Onward, Cores;
    InvShown(k);
    if MayContinue(k) {
      ChangeKeepsInv(k, 0, k.ring[0].(remaining := k.ring[0].remaining - 1));
    } else {
      SaveKeepsInv(k, context);
      WalkIsRight(SaveContext(k, context));
      var w := Walk(SaveContext(k, context));
      AdvanceKeepsInv(w);
      RefillKeepsInv(Advance(w));
      NextIsAhead(w);
      CoresRefilled(Ahead(w.ring));
    }
  }

  lemma CoresRefilled(ps: seq<Proc>)
    requires ps != []
    ensures Cores(ps[0 := ps[0].(remaining := ps[0].priority)]) == Refilled(Cores(ps))
  {
  }
}
