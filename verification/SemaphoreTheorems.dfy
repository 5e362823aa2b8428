/** The bounds and the freedom from deadlock that the demonstrations rely on. */
module SemaphoreTheorems {
  import opened SemaphorePrograms
  import opened SemaphoreLaws
  import opened SemaphoreInvariants

  // ---- bounds ----

  /** What is on stock never exceeds the places that are claimed. */
  lemma BufferCovered(t: Thread)
    ensures Holds(Stock, t) <= Holds(Places, t)
  {
  }

  lemma LagerCovered(t: Thread)
    ensures Holds(LagerBeds, t) + Holds(LagerCupboards, t) <= Holds(LagerPlaces, t)
  {
  }

  lemma RampeCovered(t: Thread)
    ensures Holds(RampeBeds, t) + Holds(RampeCupboards, t) <= Holds(RampePlaces, t)
  {
  }

  lemma ShopsCovered(t: Thread)
    ensures Holds(G1Stock, t) <= Holds(G1Places, t)
    ensures Holds(G2bStock, t) <= Holds(G2bPlaces, t)
    ensures Holds(G2sStock, t) <= Holds(G2sPlaces, t)
  {
  }

  /** Law l says how a stock relates to its semaphore, law p how places are shared out. */
  lemma {:induction false} StockWithinPlaces(l: Law, p: Law, threads: seq<Thread>)
    requires !CountsOnTop(l) && CountsOnTop(p)
    requires forall i :: 0 <= i < |threads| ==> Holds(l, threads[i]) <= Holds(p, threads[i])
    ensures Sum(l, threads) <= 0 <= Sum(p, threads) + Sum(l, threads)
    decreases threads
  {
    hide Holds, CountsOnTop;
    if threads != [] {
      StockWithinPlaces(l, p, threads[1..]);
    }
  }

  lemma {:induction false} StocksWithinPlaces(l: Law, m: Law, p: Law, threads: seq<Thread>)
    requires !CountsOnTop(l) && !CountsOnTop(m) && CountsOnTop(p)
    requires forall i :: 0 <= i < |threads| ==> Holds(l, threads[i]) + Holds(m, threads[i]) <= Holds(p, threads[i])
    ensures Sum(l, threads) <= 0 && Sum(m, threads) <= 0
    ensures 0 <= Sum(p, threads) + Sum(l, threads) + Sum(m, threads)
    decreases threads
  {
    hide Holds, CountsOnTop;
    if threads != [] {
      StocksWithinPlaces(l, m, p, threads[1..]);
    }
  }

  /** The bounded buffer: tokens are conserved, and between 0 and 10 elements are in it. */
  lemma BufferIsBounded(st: State)
    requires Inv(st)
    ensures st.counts(FREE) + st.counts(FULL) + Sum(Places, st.threads) == 10
    ensures 0 <= st.vars(ELEMENTS) <= 10
    ensures 0 <= st.counts(FREE) && 0 <= st.counts(FULL)
  {
    hide Holds, Sum;
    assert LawHolds(Places, st) && LawHolds(Stock, st);
    forall i | 0 <= i < |st.threads| ensures Holds(Stock, st.threads[i]) <= Holds(Places, st.threads[i]) {
      BufferCovered(st.threads[i]);
    }
    StockWithinPlaces(Stock, Places, st.threads);
  }

  lemma LagerIsBounded(st: State)
    requires Inv(st)
    ensures 0 <= st.vars(BETTEN) && 0 <= st.vars(SCHRAENKE) && st.vars(BETTEN) + st.vars(SCHRAENKE) <= 500
  {
    hide Holds, Sum;
    assert LawHolds(LagerPlaces, st) && LawHolds(LagerBeds, st) && LawHolds(LagerCupboards, st);
    forall i | 0 <= i < |st.threads|
      ensures Holds(LagerBeds, st.threads[i]) + Holds(LagerCupboards, st.threads[i])
              <= Holds(LagerPlaces, st.threads[i])
    {
      LagerCovered(st.threads[i]);
    }
    StocksWithinPlaces(LagerBeds, LagerCupboards, LagerPlaces, st.threads);
  }

  lemma RampeIsBounded(st: State)
    requires Inv(st)
    ensures 0 <= st.vars(RBETTEN) && 0 <= st.vars(RSCHRAENKE) && st.vars(RBETTEN) + st.vars(RSCHRAENKE) <= 10
  {
    hide Holds, Sum;
    assert LawHolds(RampePlaces, st) && LawHolds(RampeBeds, st) && LawHolds(RampeCupboards, st);
    forall i | 0 <= i < |st.threads|
      ensures Holds(RampeBeds, st.threads[i]) + Holds(RampeCupboards, st.threads[i])
              <= Holds(RampePlaces, st.threads[i])
    {
      RampeCovered(st.threads[i]);
    }
    StocksWithinPlaces(RampeBeds, RampeCupboards, RampePlaces, st.threads);
  }

  lemma ShopsAreBounded(st: State)
    requires Inv(st)
    ensures 0 <= st.vars(G1BETTEN) <= 30 && 0 <= st.vars(G2BETTEN) <= 20 && 0 <= st.vars(G2SCHRAENKE) <= 20
  {
    hide Holds, Sum;
    assert LawHolds(G1Places, st) && LawHolds(G1Stock, st);
    assert LawHolds(G2bPlaces, st) && LawHolds(G2bStock, st) && LawHolds(G2sPlaces, st) && LawHolds(G2sStock, st);
    forall i | 0 <= i < |st.threads|
      ensures Holds(G1Stock, st.threads[i]) <= Holds(G1Places, st.threads[i])
      ensures Holds(G2bStock, st.threads[i]) <= Holds(G2bPlaces, st.threads[i])
      ensures Holds(G2sStock, st.threads[i]) <= Holds(G2sPlaces, st.threads[i])
    {
      ShopsCovered(st.threads[i]);
    }
    StockWithinPlaces(G1Stock, G1Places, st.threads);
    StockWithinPlaces(G2bStock, G2bPlaces, st.threads);
    StockWithinPlaces(G2sStock, G2sPlaces, st.threads);
  }

  /** The supply chain, in every state it can reach: no store overflows and no stock becomes negative. */
  lemma SupplyChainIsSafe(st: State, schedule: seq<nat>)
    requires Initial(st) && forall i :: 0 <= i < |schedule| ==> schedule[i] < |st.threads|
    ensures Inv(st)
    ensures var v := Run(st, schedule).vars;
            && 0 <= v(BETTEN) && 0 <= v(SCHRAENKE) && v(BETTEN) + v(SCHRAENKE) <= 500
            && 0 <= v(RBETTEN) && 0 <= v(RSCHRAENKE) && v(RBETTEN) + v(RSCHRAENKE) <= 10
            && 0 <= v(G1BETTEN) <= 30 && 0 <= v(G2BETTEN) <= 20 && 0 <= v(G2SCHRAENKE) <= 20
  {
    hide Inv, Initial;
    InitialInv(st);
    var r := Run(st, schedule);
    LagerIsBounded(r);
    RampeIsBounded(r);
    ShopsAreBounded(r);
  }

  // ---- the only way to get stuck ----

  ghost predicate BufferOnly(threads: seq<Thread>) {
    forall i :: 0 <= i < |threads| ==> threads[i].kind == Producer || threads[i].kind == Consumer
  }

  ghost predicate Stuck(st: State)
    requires AllRunning(st.threads)
  {
    forall i: nat :: i < |st.threads| ==> Blocked(st, i)
  }

  /** Consumers that wait for their second element. */
  function HalfServed(threads: seq<Thread>): nat {
    if threads == [] then 0
    else (if threads[0].kind == Consumer && threads[0].pc == 1 then 1 else 0) + HalfServed(threads[1..])
  }

  /** Where a thread of the buffer waits: at the very start of its loop, or after the first of two elements. */
  predicate WaitsForToken(t: Thread) {
    t.pc == 0 || (t.kind == Consumer && t.pc == 1)
  }

  function Consumers(threads: seq<Thread>): nat {
    if threads == [] then 0 else (if threads[0].kind == Consumer then 1 else 0) + Consumers(threads[1..])
  }

  lemma {:induction false} HalfServedAreConsumers(threads: seq<Thread>)
    ensures HalfServed(threads) <= Consumers(threads)
  {
    if threads != [] {
      HalfServedAreConsumers(threads[1..]);
    }
  }

  /** If all threads wait for tokens, the claimed places are those of the half served consumers. */
  lemma {:induction false} ClaimedIsHalfServed(threads: seq<Thread>)
    requires BufferOnly(threads) && forall i :: 0 <= i < |threads| ==> WaitsForToken(threads[i])
    ensures Sum(Places, threads) == HalfServed(threads)
    ensures Sum(Holder(ACCESS), threads) == 0
    decreases threads
  {
    if threads != [] {
      ClaimedIsHalfServed(threads[1..]);
    }
  }

  lemma {:induction false} SomeoneIsInside(s: Sem, threads: seq<Thread>) returns (i: nat)
    requires Sum(Holder(s), threads) >= 1
    ensures i < |threads| && Inside(s, threads[i])
    decreases threads
  {
    hide Holds;
    if Inside(s, threads[0]) {
      i := 0;
    } else {
      i := SomeoneIsInside(s, threads[1..]);
      i := i + 1;
    }
  }

  /** Whoever is inside the section of the buffer is not about to wait; and those of the buffer that wait elsewhere
      wait for tokens. */
  lemma WaitingPlaces(t: Thread)
    requires Running(t) && (t.kind == Producer || t.kind == Consumer) && OpOf(t).P?
    ensures !Inside(ACCESS, t)
    ensures OpOf(t).s == ACCESS || WaitsForToken(t)
    ensures WaitsForToken(t) ==> OpOf(t).s == if t.kind == Producer then FREE else FULL
  {
  }

  lemma TokenWaitersAreAtP(t: Thread)
    requires WaitsForToken(t) && (t.kind == Producer || t.kind == Consumer)
    ensures Running(t) && OpOf(t).P?
  {
  }

  /** If all are stuck, nobody waits for the section: all wait for tokens. */
  lemma StuckWaitForTokens(st: State)
    requires Inv(st) && BufferOnly(st.threads) && Stuck(st)
    ensures forall i :: 0 <= i < |st.threads| ==> WaitsForToken(st.threads[i])
  {
    hide Holds, WaitsForToken, Sum, Code;
    assert LawHolds(Holder(ACCESS), st);
    forall i: nat | i < |st.threads| ensures WaitsForToken(st.threads[i]) {
      assert Blocked(st, i);
      WaitingPlaces(st.threads[i]);
      if OpOf(st.threads[i]).s == ACCESS {
        var j := SomeoneIsInside(ACCESS, st.threads);
        assert Blocked(st, j);
        WaitingPlaces(st.threads[j]);
        assert false;
      }
    }
  }

  /** The shape in which ten consumers have one element each and all places are claimed. */
  ghost predicate TenHalfServed(st: State) {
    && st.counts(FREE) == 0 && st.counts(FULL) == 0 && HalfServed(st.threads) == 10
    && forall i :: 0 <= i < |st.threads| ==> WaitsForToken(st.threads[i])
  }

  ghost predicate HasKind(threads: seq<Thread>, kind: Kind) {
    exists i :: 0 <= i < |threads| && threads[i].kind == kind
  }

  /** With producers and consumers there, nobody can go on exactly if ten consumers hold one token each. */
  lemma StuckIffTenHalfServed(st: State)
    requires Inv(st) && BufferOnly(st.threads)
    requires HasKind(st.threads, Producer) && HasKind(st.threads, Consumer)
    ensures Stuck(st) <==> TenHalfServed(st)
  {
    hide Holds, Sum, WaitsForToken, HalfServed, Code;
    assert LawHolds(Places, st);
    if Stuck(st) {
      StuckWaitForTokens(st);
      ClaimedIsHalfServed(st.threads);
      var p :| 0 <= p < |st.threads| && st.threads[p].kind == Producer;
      var c :| 0 <= c < |st.threads| && st.threads[c].kind == Consumer;
      assert Blocked(st, p) && Blocked(st, c);
      WaitingPlaces(st.threads[p]);
      WaitingPlaces(st.threads[c]);
    }
    if TenHalfServed(st) {
      forall i: nat | i < |st.threads| ensures Blocked(st, i) {
        TokenWaitersAreAtP(st.threads[i]);
        WaitingPlaces(st.threads[i]);
      }
    }
  }

  /** With producers only, they are stuck exactly if the buffer is full and all of them wait for a place. */
  lemma ProducersStuckIffFull(st: State)
    requires Inv(st) && HasKind(st.threads, Producer)
    requires forall i :: 0 <= i < |st.threads| ==> st.threads[i].kind == Producer
    ensures Stuck(st) <==> st.counts(FULL) == 10 && forall i :: 0 <= i < |st.threads| ==> st.threads[i].pc == 0
  {
    hide Holds, Sum, HalfServed, Code;
    assert LawHolds(Places, st);
    assert BufferOnly(st.threads);
    if Stuck(st) {
      StuckWaitForTokens(st);
      ClaimedIsHalfServed(st.threads);
      NoConsumers(st.threads);
      HalfServedAreConsumers(st.threads);
      var p :| 0 <= p < |st.threads| && st.threads[p].kind == Producer;
      assert Blocked(st, p);
      WaitingPlaces(st.threads[p]);
    }
    if st.counts(FULL) == 10 && forall i :: 0 <= i < |st.threads| ==> st.threads[i].pc == 0 {
      SumIsNotNegative(st.threads);
      forall i: nat | i < |st.threads| ensures Blocked(st, i) {
        TokenWaitersAreAtP(st.threads[i]);
        WaitingPlaces(st.threads[i]);
      }
    }
  }

  lemma SumIsNotNegative(threads: seq<Thread>)
    ensures Sum(Places, threads) >= 0
  {
    OneInSum(Places, threads, |threads|);
  }

  lemma {:induction false} NoConsumers(threads: seq<Thread>)
    requires forall i :: 0 <= i < |threads| ==> threads[i].kind == Producer
    ensures Consumers(threads) == 0
  {
    if threads != [] {
      NoConsumers(threads[1..]);
    }
  }

  lemma {:induction false} KindsStay(st: State, schedule: seq<nat>)
    requires Inv(st) && forall i :: 0 <= i < |schedule| ==> schedule[i] < |st.threads|
    ensures var r := Run(st, schedule).threads;
            |r| == |st.threads| && forall i :: 0 <= i < |r| ==> r[i].kind == st.threads[i].kind
    decreases |schedule|
  {
    hide Inv;
    if schedule != [] {
      StepKeepsInv(st, schedule[0]);
      StepKeepsKinds(st, schedule[0]);
      KindsStay(Step(st, schedule[0]), schedule[1..]);
    }
  }

  lemma StepKeepsKinds(st: State, n: nat)
    requires Inv(st) && n < |st.threads|
    ensures Running(st.threads[n])
    ensures var r := Step(st, n).threads;
            |r| == |st.threads| && forall i :: 0 <= i < |r| ==> r[i].kind == st.threads[i].kind
  {
    hide Code;
  }

  lemma {:induction false} SameConsumers(threads: seq<Thread>, others: seq<Thread>)
    requires |threads| == |others| && forall i :: 0 <= i < |threads| ==> threads[i].kind == others[i].kind
    ensures Consumers(threads) == Consumers(others)
  {
    if threads != [] {
      SameConsumers(threads[1..], others[1..]);
    }
  }

  /** Any number of producers and one to nine consumers never get stuck, whatever the interleaving. */
  lemma NineConsumersNeverStuck(st: State, schedule: seq<nat>)
    requires Initial(st) && BufferOnly(st.threads) && HasKind(st.threads, Producer) && HasKind(st.threads, Consumer)
    requires Consumers(st.threads) <= 9
    requires forall i :: 0 <= i < |schedule| ==> schedule[i] < |st.threads|
    ensures Inv(st) && AllRunning(Run(st, schedule).threads) && !Stuck(Run(st, schedule))
  {
    hide AllLaws, Consumers, HalfServed, WaitsForToken, Stuck, RegisterIsCurrent;
    InitialInv(st);
    var r := Run(st, schedule);
    KindsStay(st, schedule);
    SameConsumers(st.threads, r.threads);
    HalfServedAreConsumers(r.threads);
    var p :| 0 <= p < |st.threads| && st.threads[p].kind == Producer;
    var c :| 0 <= c < |st.threads| && st.threads[c].kind == Consumer;
    assert r.threads[p].kind == Producer && r.threads[c].kind == Consumer;
    StuckIffTenHalfServed(r);
  }
}
