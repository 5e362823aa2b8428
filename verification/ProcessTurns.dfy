/** How many timer interrupts a process has to wait for its turn. */
module ProcessTurns {
  import opened Processes
  import opened ProcessProofs
  import opened ProcessSchedule

  /** The slices a process really gets: at least one. */
  function Slices(n: nat): nat { if n == 0 then 1 else n }

  /** Slices of the processes alive in ps. */
  function Load(ps: seq<Proc>): nat {
    if ps == [] then 0
    else (if ps[0].state == Alive then Slices(ps[0].priority) else 0) + Load(ps[1..])
  }

  /** How long the process at t has to wait: what the active one has left, and the turns of those alive between. */
  function Wait(ring: seq<Proc>, t: nat): nat
    requires t < |ring|
  {
    if t == 0 then 0 else Slices(ring[0].remaining) + Load(ring[1..t])
  }

  ghost function Ticks(k: Kernel, contexts: seq<int>): Kernel
    requires Inv(k)
    decreases |contexts|
  {
    if contexts == [] then k
    else
      ScheduleIsRight(k, contexts[0]);
      Ticks(Schedule(k, contexts[0]).0, contexts[1..])
  }

  lemma LoadOfSleepers(ps: seq<Proc>)
    requires forall i :: 0 <= i < |ps| ==> ps[i].state != Alive
    ensures Load(ps) == 0
  {
  }

  lemma {:induction false} LoadIn(ps: seq<Proc>, qs: seq<Proc>)
    ensures Load(ps + qs) == Load(ps) + Load(qs)
  {
    if ps == [] {
      assert ps + qs == qs;
    } else {
      assert (ps + qs)[1..] == ps[1..] + qs;
      LoadIn(ps[1..], qs);
    }
  }

  lemma {:induction false} LoadOfCores(ps: seq<Proc>)
    ensures Load(Cores(ps)) == Load(ps)
  {
    if ps != [] {
      assert Cores(ps)[1..] == Cores(ps[1..]);
      LoadOfCores(ps[1..]);
    }
  }

  /** When the active process is switched out, the process at t of c (the ring behind it) moves up, and its waiting
      time is one less. */
  lemma WaitAfterSwitch(ring: seq<Proc>, c: seq<Proc>, t: nat)
    requires 0 < t < |c| == |ring| && FirstAlive(c) < |c| && c[t - 1].state == Alive
    requires c[..|c| - 1] == ring[1..] && ring[0].remaining <= 1
    ensures FirstAlive(c) < t
    ensures var r := Refilled(Onward(c));
            && t - 1 - FirstAlive(c) < |r| && Wait(r, t - 1 - FirstAlive(c)) == Wait(ring, t) - 1
            && r[t - 1 - FirstAlive(c)].(remaining := 0) == c[t - 1].(remaining := 0)
  {
    hide FirstAlive, NotDead;
    var d := FirstAlive(c);
    var r := Refilled(Onward(c));
    assert ring[1..t] == ring[1..][..t - 1] == c[..|c| - 1][..t - 1] == c[..t - 1];
    if d < t - 1 {
      assert c[..t - 1] == c[..d] + [c[d]] + c[d + 1..t - 1];
      LoadIn(c[..d] + [c[d]], c[d + 1..t - 1]);
      LoadIn(c[..d], [c[d]]);
      assert [c[d]][1..] == [];
      assert r[1..t - 1 - d] == c[d + 1..t - 1];
    }
    LoadOfSleepers(c[..d]);
  }

  lemma WaitOfCores(ring: seq<Proc>, t: nat)
    requires t < |ring|
    ensures |Cores(ring)| == |ring| && Wait(Cores(ring), t) == Wait(ring, t)
  {
    if t > 0 {
      assert Cores(ring)[1..t] == Cores(ring[1..t]);
      LoadOfCores(ring[1..t]);
    }
  }

  lemma AheadOfSaved(k: Kernel, context: int, t: nat)
    requires k.ring != [] && 0 < t < |k.ring|
    ensures var c := Cores(Ahead(SaveContext(k, context).ring));
            && |c| == |k.ring| && c[..|c| - 1] == Cores(k.ring)[1..] && c[t - 1] == Core(k.ring[t])
  {
  }

  /** One timer interrupt brings a process that is alive exactly one step nearer to its turn. */
  lemma OneTick(k: Kernel, context: int, t: nat) returns (next: nat)
    requires Inv(k) && 0 < t < |k.ring| && k.ring[t].state == Alive
    ensures var g := Schedule(k, context).0;
            && next < |g.ring| && g.ring[next].pid == k.ring[t].pid && g.ring[next].state == Alive
            && Wait(g.ring, next) == Wait(k.ring, t) - 1
  {
    hide Inv, Cores, Onward, FirstAlive, Walk;
    ScheduleIsRight(k, context);
    var g := Schedule(k, context).0;
    if MayContinue(k) {
      next := t;
      assert g.ring[1..t] == k.ring[1..t];
    } else {
      var c := Cores(Ahead(SaveContext(k, context).ring));
      AheadOfSaved(k, context, t);
      SaveKeepsInv(k, context);
      Aliveness(SaveContext(k, context));
      FirstAliveOfCores(Ahead(SaveContext(k, context).ring));
      CoresLength(k.ring);
      WaitAfterSwitch(Cores(k.ring), c, t);
      WaitOfCores(k.ring, t);
      next := t - 1 - FirstAlive(c);
      CoresLength(g.ring);
      WaitOfCores(g.ring, next);
    }
  }

  /** With timer interrupts only, the process at t, alive, becomes active after exactly Wait interrupts: not one
      earlier. */
  lemma {:induction false} TurnComes(k: Kernel, t: nat, contexts: seq<int>)
    requires Inv(k) && 0 < t < |k.ring| && k.ring[t].state == Alive && |contexts| <= Wait(k.ring, t)
    ensures var g := Ticks(k, contexts);
            && Inv(g) && g.ring != []
            && (g.ring[0].pid == k.ring[t].pid <==> |contexts| == Wait(k.ring, t))
    decreases |contexts|
  {
    hide Schedule;
    if contexts == [] {
      assert k.ring[0].pid != k.ring[t].pid;
    } else {
      ScheduleIsRight(k, contexts[0]);
      var g := Schedule(k, contexts[0]).0;
      var next := OneTick(k, contexts[0], t);
      if next > 0 {
        TurnComes(g, next, contexts[1..]);
      } else {
        assert contexts[1..] == [];
      }
    }
  }
}
