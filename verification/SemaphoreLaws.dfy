/** What the demonstration threads keep, in any number and in any interleaving. */
module SemaphoreLaws {
  import opened SemaphorePrograms

  /** The sums that no step changes. Holder(s): who is inside the section that s guards. Places: free and occupied
      places, and those a thread has claimed. Stock: what is there, against what the semaphore counts. */
  datatype Law =
    | Holder(s: Sem)
    | Places | Stock
    | LagerPlaces | LagerBeds | LagerCupboards
    | RampePlaces | RampeBeds | RampeCupboards
    | G1Places | G1Stock
    | G2bPlaces | G2bStock | G2sPlaces | G2sStock

  predicate IsLaw(l: Law) { l.Holder? ==> IsAccess(l.s) }

  function Total(l: Law): int {
    match l
    case Holder(_) => 1
    case Places => 10
    case LagerPlaces => 500
    case RampePlaces => 10
    case G1Places => 30
    case G2bPlaces => 20
    case G2sPlaces => 20
    case _ => 0
  }

  /** What semaphores and counters contribute. */
  function Shared(l: Law, c: Sem -> int, v: Var -> int): int {
    match l
    case Holder(s) => c(s)
    case Places => c(FREE) + c(FULL)
    case Stock => v(ELEMENTS) - c(FULL)
    case LagerPlaces => c(LAGER_FREE) + c(LAGER_BETTEN) + c(LAGER_SCHRAENKE)
    case LagerBeds => v(BETTEN) - c(LAGER_BETTEN)
    case LagerCupboards => v(SCHRAENKE) - c(LAGER_SCHRAENKE)
    case RampePlaces => c(RAMPE_FREE) + c(RAMPE_BETTEN) + c(RAMPE_SCHRAENKE)
    case RampeBeds => v(RBETTEN) - c(RAMPE_BETTEN)
    case RampeCupboards => v(RSCHRAENKE) - c(RAMPE_SCHRAENKE)
    case G1Places => c(G1_FREE) + c(G1_FULL)
    case G1Stock => v(G1BETTEN) - c(G1_FULL)
    case G2bPlaces => c(G2B_FREE) + c(G2B_FULL)
    case G2bStock => v(G2BETTEN) - c(G2B_FULL)
    case G2sPlaces => c(G2S_FREE) + c(G2S_FULL)
    case G2sStock => v(G2SCHRAENKE) - c(G2S_FULL)
  }

  function ProducerHolds(l: Law, pc: nat): nat {
    match l
    case Holder(s) => if s == ACCESS && 2 <= pc <= 4 then 1 else 0
    case Places => if 1 <= pc <= 5 then 1 else 0
    case Stock => if 4 <= pc <= 5 then 1 else 0
    case _ => 0
  }

  function ConsumerHolds(l: Law, pc: nat): nat {
    match l
    case Holder(s) => if s == ACCESS && 3 <= pc <= 5 then 1 else 0
    case Places => (if 1 <= pc <= 7 then 1 else 0) + (if 2 <= pc <= 6 then 1 else 0)
    case Stock => (if 1 <= pc <= 4 then 1 else 0) + (if 2 <= pc <= 4 then 1 else 0)
    case _ => 0
  }

  function FabrikHolds(l: Law, pc: nat): nat {
    match l
    case Holder(s) => if s == LAGER_ACCESS && 3 <= pc <= 7 then 1 else 0
    case LagerPlaces => (if 1 <= pc <= 9 then 1 else 0) + (if 2 <= pc <= 8 then 1 else 0)
    case LagerBeds => if 5 <= pc <= 8 then 1 else 0
    case LagerCupboards => if 7 <= pc <= 9 then 1 else 0
    case _ => 0
  }

  function MitarbeiterHolds(l: Law, pc: nat, cupboard: bool): nat {
    match l
    case Holder(s) => if (s == LAGER_ACCESS && 3 <= pc <= 5) || (s == RAMPE_ACCESS && 8 <= pc <= 12) then 1 else 0
    case LagerPlaces => if 2 <= pc <= 6 then 1 else 0
    case LagerBeds => if !cupboard && 2 <= pc <= 4 then 1 else 0
    case LagerCupboards => if cupboard && 2 <= pc <= 4 then 1 else 0
    case RampePlaces => if 1 <= pc <= 13 then 1 else 0
    case RampeBeds => if !cupboard && 10 <= pc <= 13 then 1 else 0
    case RampeCupboards => if cupboard && 12 <= pc <= 13 then 1 else 0
    case _ => 0
  }

  function Lastwagen1Holds(l: Law, pc: nat): nat {
    match l
    case Holder(s) => if (s == RAMPE_ACCESS && 3 <= pc <= 5) || (s == G1_ACCESS && 8 <= pc <= 10) then 1 else 0
    case RampePlaces => if 2 <= pc <= 6 then 1 else 0
    case RampeBeds => if 2 <= pc <= 4 then 1 else 0
    case G1Places => if 1 <= pc <= 11 then 1 else 0
    case G1Stock => if 10 <= pc <= 11 then 1 else 0
    case _ => 0
  }

  function Lastwagen2Holds(l: Law, pc: nat, cupboard: bool): nat {
    match l
    case Holder(s) =>
      if (s == RAMPE_ACCESS && (1 <= pc <= 2 || 6 <= pc <= 8)) || (s == G2_ACCESS && 11 <= pc <= 13) then 1 else 0
    case RampePlaces => if 5 <= pc <= 9 then 1 else 0
    case RampeBeds => if !cupboard && 5 <= pc <= 7 then 1 else 0
    case RampeCupboards => if cupboard && 5 <= pc <= 7 then 1 else 0
    case G2bPlaces => if !cupboard && 4 <= pc <= 14 then 1 else 0
    case G2bStock => if !cupboard && 13 <= pc <= 14 then 1 else 0
    case G2sPlaces => if cupboard && 4 <= pc <= 14 then 1 else 0
    case G2sStock => if cupboard && 13 <= pc <= 14 then 1 else 0
    case _ => 0
  }

  function Geschaeft1Holds(l: Law, pc: nat): nat {
    match l
    case Holder(s) => if s == G1_ACCESS && 2 <= pc <= 4 then 1 else 0
    case G1Places => if 1 <= pc <= 5 then 1 else 0
    case G1Stock => if 1 <= pc <= 3 then 1 else 0
    case _ => 0
  }

  function Geschaeft2Holds(l: Law, pc: nat, cupboard: bool): nat {
    match l
    case Holder(s) => if s == G2_ACCESS && (1 <= pc <= 2 || 5 <= pc <= 7) then 1 else 0
    case G2bPlaces => if !cupboard && 4 <= pc <= 8 then 1 else 0
    case G2bStock => if !cupboard && 4 <= pc <= 6 then 1 else 0
    case G2sPlaces => if cupboard && 4 <= pc <= 8 then 1 else 0
    case G2sStock => if cupboard && 4 <= pc <= 6 then 1 else 0
    case _ => 0
  }

  /** What a thread holds: for Places and Holder laws it counts on top of the semaphores, for the others it is what
      the counter has more than the semaphore. */
  function Holds(l: Law, t: Thread): nat {
    match t.kind
    case Producer => ProducerHolds(l, t.pc)
    case Consumer => ConsumerHolds(l, t.pc)
    case Fabrik => FabrikHolds(l, t.pc)
    case Mitarbeiter => MitarbeiterHolds(l, t.pc, t.cupboard)
    case Lastwagen1 => Lastwagen1Holds(l, t.pc)
    case Lastwagen2 => Lastwagen2Holds(l, t.pc, t.cupboard)
    case Geschaeft1 => Geschaeft1Holds(l, t.pc)
    case Geschaeft2 => Geschaeft2Holds(l, t.pc, t.cupboard)
  }

  predicate CountsOnTop(l: Law) {
    match l
    case Holder(_) => true
    case Places => true
    case LagerPlaces => true
    case RampePlaces => true
    case G1Places => true
    case G2bPlaces => true
    case G2sPlaces => true
    case _ => false
  }

  function Share(l: Law, t: Thread): int { if CountsOnTop(l) then Holds(l, t) else 0 - Holds(l, t) }

  function Sum(l: Law, threads: seq<Thread>): int {
    if threads == [] then 0 else Share(l, threads[0]) + Sum(l, threads[1..])
  }

  ghost predicate LawHolds(l: Law, st: State) { Shared(l, st.counts, st.vars) + Sum(l, st.threads) == Total(l) }

  /** A thread about to store what it computed from a counter still knows the counter's value. */
  predicate RegisterIsCurrent(t: Thread, v: Var -> int)
    requires Running(t)
  {
    OpOf(t).Store? ==> t.reg == v(OpOf(t).x)
  }

  // ---- one thread's step ----

  /** How much a semaphore's count contributes to the law. */
  function Coefficient(l: Law, s: Sem): int {
    match l
    case Holder(h) => if s == h then 1 else 0
    case Places => if s == FREE || s == FULL then 1 else 0
    case Stock => 0 - (if s == FULL then 1 else 0)
    case LagerPlaces => if s == LAGER_FREE || s == LAGER_BETTEN || s == LAGER_SCHRAENKE then 1 else 0
    case LagerBeds => 0 - (if s == LAGER_BETTEN then 1 else 0)
    case LagerCupboards => 0 - (if s == LAGER_SCHRAENKE then 1 else 0)
    case RampePlaces => if s == RAMPE_FREE || s == RAMPE_BETTEN || s == RAMPE_SCHRAENKE then 1 else 0
    case RampeBeds => 0 - (if s == RAMPE_BETTEN then 1 else 0)
    case RampeCupboards => 0 - (if s == RAMPE_SCHRAENKE then 1 else 0)
    case G1Places => if s == G1_FREE || s == G1_FULL then 1 else 0
    case G1Stock => 0 - (if s == G1_FULL then 1 else 0)
    case G2bPlaces => if s == G2B_FREE || s == G2B_FULL then 1 else 0
    case G2bStock => 0 - (if s == G2B_FULL then 1 else 0)
    case G2sPlaces => if s == G2S_FREE || s == G2S_FULL then 1 else 0
    case G2sStock => 0 - (if s == G2S_FULL then 1 else 0)
  }

  predicate CountsVar(l: Law, x: Var) {
    match l
    case Stock => x == ELEMENTS
    case LagerBeds => x == BETTEN
    case LagerCupboards => x == SCHRAENKE
    case RampeBeds => x == RBETTEN
    case RampeCupboards => x == RSCHRAENKE
    case G1Stock => x == G1BETTEN
    case G2bStock => x == G2BETTEN
    case G2sStock => x == G2SCHRAENKE
    case _ => false
  }

  /** What an operation adds to the shared part of a law. */
  function Gain(l: Law, op: Op): int {
    match op
    case P(s) => 0 - Coefficient(l, s)
    case V(s) => Coefficient(l, s)
    case Store(x, d) => if CountsVar(l, x) then d else 0
    case _ => 0
  }

  lemma CountChanges(l: Law, c: Sem -> int, v: Var -> int, s: Sem, d: int)
    requires d == 1 || d == -1
    ensures Shared(l, Set(c, s, c(s) + d), v) ==
        Shared(l, c, v) + (if d == 1 then Coefficient(l, s) else 0 - Coefficient(l, s))
  {
  }

  lemma VarChanges(l: Law, c: Sem -> int, v: Var -> int, x: Var, d: int)
    ensures Shared(l, c, Set(v, x, v(x) + d)) == Shared(l, c, v) + (if CountsVar(l, x) then d else 0)
  {
  }

  lemma SharedGains(l: Law, c: Sem -> int, v: Var -> int, t: Thread)
    requires Running(t) && RegisterIsCurrent(t, v)
    ensures var e := Act(c, v, t); Shared(l, e.counts, e.vars) == Shared(l, c, v) + Gain(l, OpOf(t))
  {
    hide Code, Moved, Shared, Coefficient, CountsVar;
    match OpOf(t)
    case P(s) => CountChanges(l, c, v, s, -1);
    case V(s) => CountChanges(l, c, v, s, 1);
    case Store(x, d) => VarChanges(l, c, v, x, d);
    case _ =>
  }

  /** The thread loses what the shared part gains. */
  ghost predicate Balanced(l: Law, t: Thread)
    requires Running(t)
  {
    Share(l, Moved(t)) == Share(l, t) - Gain(l, OpOf(t))
  }

  lemma OnlyTheseChoose(t: Thread)
    requires Running(t) && OpOf(t).Choose?
    ensures (t.kind == Lastwagen2 || t.kind == Geschaeft2) && t.pc == 1
  {
  }

  /** Where a thread chooses it holds nothing of either article. */
  lemma ChoosingIsNeutral(l: Law, t: Thread)
    requires Running(t) && OpOf(t).Choose?
    ensures Share(l, Moved(t)) == Share(l, Moved(t).(cupboard := !t.cupboard))
  {
    hide Code;
    OnlyTheseChoose(t);
  }

  lemma ProducerBalance(l: Law, t: Thread)
    requires IsLaw(l) && Running(t) && t.kind == Producer
    ensures Balanced(l, t)
  {
    hide ConsumerCode, FabrikCode, MitarbeiterCode, Lastwagen1Code, Lastwagen2Code, Geschaeft1Code, Geschaeft2Code;
    hide ConsumerHolds, FabrikHolds, MitarbeiterHolds, Lastwagen1Holds, Lastwagen2Holds, Geschaeft1Holds,
         Geschaeft2Holds;
  }

  lemma ConsumerTaking(l: Law, t: Thread)
    requires IsLaw(l) && Running(t) && t.kind == Consumer && t.pc < 4
    ensures Balanced(l, t)
  {
    hide ProducerCode, FabrikCode, MitarbeiterCode, Lastwagen1Code, Lastwagen2Code, Geschaeft1Code, Geschaeft2Code;
    hide ProducerHolds, FabrikHolds, MitarbeiterHolds, Lastwagen1Holds, Lastwagen2Holds, Geschaeft1Holds,
         Geschaeft2Holds;
  }

  lemma ConsumerReleasing(l: Law, t: Thread)
    requires IsLaw(l) && Running(t) && t.kind == Consumer && 4 <= t.pc
    ensures Balanced(l, t)
  {
    hide ProducerCode, FabrikCode, MitarbeiterCode, Lastwagen1Code, Lastwagen2Code, Geschaeft1Code, Geschaeft2Code;
    hide ProducerHolds, FabrikHolds, MitarbeiterHolds, Lastwagen1Holds, Lastwagen2Holds, Geschaeft1Holds,
         Geschaeft2Holds;
  }

  lemma FabrikMaking(l: Law, t: Thread)
    requires IsLaw(l) && Running(t) && t.kind == Fabrik && t.pc < 5
    ensures Balanced(l, t)
  {
    hide ProducerCode, ConsumerCode, MitarbeiterCode, Lastwagen1Code, Lastwagen2Code, Geschaeft1Code, Geschaeft2Code;
    hide ProducerHolds, ConsumerHolds, MitarbeiterHolds, Lastwagen1Holds, Lastwagen2Holds, Geschaeft1Holds,
         Geschaeft2Holds;
  }

  lemma FabrikStoring(l: Law, t: Thread)
    requires IsLaw(l) && Running(t) && t.kind == Fabrik && 5 <= t.pc
    ensures Balanced(l, t)
  {
    hide ProducerCode, ConsumerCode, MitarbeiterCode, Lastwagen1Code, Lastwagen2Code, Geschaeft1Code, Geschaeft2Code;
    hide ProducerHolds, ConsumerHolds, MitarbeiterHolds, Lastwagen1Holds, Lastwagen2Holds, Geschaeft1Holds,
         Geschaeft2Holds;
  }

  lemma MitarbeiterEntering(l: Law, t: Thread)
    requires IsLaw(l) && Running(t) && t.kind == Mitarbeiter && t.pc < 4
    ensures Balanced(l, t)
  {
    hide ProducerCode, ConsumerCode, FabrikCode, Lastwagen1Code, Lastwagen2Code, Geschaeft1Code, Geschaeft2Code;
    hide ProducerHolds, ConsumerHolds, FabrikHolds, Lastwagen1Holds, Lastwagen2Holds, Geschaeft1Holds, Geschaeft2Holds;
  }

  lemma MitarbeiterFetching(l: Law, t: Thread)
    requires IsLaw(l) && Running(t) && t.kind == Mitarbeiter && 4 <= t.pc < 8
    ensures Balanced(l, t)
  {
    hide ProducerCode, ConsumerCode, FabrikCode, Lastwagen1Code, Lastwagen2Code, Geschaeft1Code, Geschaeft2Code;
    hide ProducerHolds, ConsumerHolds, FabrikHolds, Lastwagen1Holds, Lastwagen2Holds, Geschaeft1Holds, Geschaeft2Holds;
  }

  lemma MitarbeiterLoading(l: Law, t: Thread)
    requires IsLaw(l) && Running(t) && t.kind == Mitarbeiter && 8 <= t.pc < 11
    ensures Balanced(l, t)
  {
    hide ProducerCode, ConsumerCode, FabrikCode, Lastwagen1Code, Lastwagen2Code, Geschaeft1Code, Geschaeft2Code;
    hide ProducerHolds, ConsumerHolds, FabrikHolds, Lastwagen1Holds, Lastwagen2Holds, Geschaeft1Holds, Geschaeft2Holds;
  }

  lemma MitarbeiterLeaving(l: Law, t: Thread)
    requires IsLaw(l) && Running(t) && t.kind == Mitarbeiter && 11 <= t.pc
    ensures Balanced(l, t)
  {
    hide ProducerCode, ConsumerCode, FabrikCode, Lastwagen1Code, Lastwagen2Code, Geschaeft1Code, Geschaeft2Code;
    hide ProducerHolds, ConsumerHolds, FabrikHolds, Lastwagen1Holds, Lastwagen2Holds, Geschaeft1Holds, Geschaeft2Holds;
  }

  lemma Lastwagen1Claiming(l: Law, t: Thread)
    requires IsLaw(l) && Running(t) && t.kind == Lastwagen1 && t.pc < 4
    ensures Balanced(l, t)
  {
    hide ProducerCode, ConsumerCode, FabrikCode, MitarbeiterCode, Lastwagen2Code, Geschaeft1Code, Geschaeft2Code;
    hide ProducerHolds, ConsumerHolds, FabrikHolds, MitarbeiterHolds, Lastwagen2Holds, Geschaeft1Holds, Geschaeft2Holds;
  }

  lemma Lastwagen1Loading(l: Law, t: Thread)
    requires IsLaw(l) && Running(t) && t.kind == Lastwagen1 && 4 <= t.pc < 8
    ensures Balanced(l, t)
  {
    hide ProducerCode, ConsumerCode, FabrikCode, MitarbeiterCode, Lastwagen2Code, Geschaeft1Code, Geschaeft2Code;
    hide ProducerHolds, ConsumerHolds, FabrikHolds, MitarbeiterHolds, Lastwagen2Holds, Geschaeft1Holds, Geschaeft2Holds;
  }

  lemma Lastwagen1Delivering(l: Law, t: Thread)
    requires IsLaw(l) && Running(t) && t.kind == Lastwagen1 && 8 <= t.pc
    ensures Balanced(l, t)
  {
    hide ProducerCode, ConsumerCode, FabrikCode, MitarbeiterCode, Lastwagen2Code, Geschaeft1Code, Geschaeft2Code;
    hide ProducerHolds, ConsumerHolds, FabrikHolds, MitarbeiterHolds, Lastwagen2Holds, Geschaeft1Holds, Geschaeft2Holds;
  }

  lemma Lastwagen2Choosing(l: Law, t: Thread)
    requires IsLaw(l) && Running(t) && t.kind == Lastwagen2 && t.pc < 4
    ensures Balanced(l, t)
  {
    hide ProducerCode, ConsumerCode, FabrikCode, MitarbeiterCode, Lastwagen1Code, Geschaeft1Code, Geschaeft2Code;
    hide ProducerHolds, ConsumerHolds, FabrikHolds, MitarbeiterHolds, Lastwagen1Holds, Geschaeft1Holds, Geschaeft2Holds;
  }

  lemma Lastwagen2Claiming(l: Law, t: Thread)
    requires IsLaw(l) && Running(t) && t.kind == Lastwagen2 && 4 <= t.pc < 7
    ensures Balanced(l, t)
  {
    hide ProducerCode, ConsumerCode, FabrikCode, MitarbeiterCode, Lastwagen1Code, Geschaeft1Code, Geschaeft2Code;
    hide ProducerHolds, ConsumerHolds, FabrikHolds, MitarbeiterHolds, Lastwagen1Holds, Geschaeft1Holds, Geschaeft2Holds;
  }

  lemma Lastwagen2Loading(l: Law, t: Thread)
    requires IsLaw(l) && Running(t) && t.kind == Lastwagen2 && 7 <= t.pc < 11
    ensures Balanced(l, t)
  {
    hide ProducerCode, ConsumerCode, FabrikCode, MitarbeiterCode, Lastwagen1Code, Geschaeft1Code, Geschaeft2Code;
    hide ProducerHolds, ConsumerHolds, FabrikHolds, MitarbeiterHolds, Lastwagen1Holds, Geschaeft1Holds, Geschaeft2Holds;
  }

  lemma Lastwagen2Delivering(l: Law, t: Thread)
    requires IsLaw(l) && Running(t) && t.kind == Lastwagen2 && 11 <= t.pc
    ensures Balanced(l, t)
  {
    hide ProducerCode, ConsumerCode, FabrikCode, MitarbeiterCode, Lastwagen1Code, Geschaeft1Code, Geschaeft2Code;
    hide ProducerHolds, ConsumerHolds, FabrikHolds, MitarbeiterHolds, Lastwagen1Holds, Geschaeft1Holds, Geschaeft2Holds;
  }

  lemma Geschaeft1Balance(l: Law, t: Thread)
    requires IsLaw(l) && Running(t) && t.kind == Geschaeft1
    ensures Balanced(l, t)
  {
    hide ProducerCode, ConsumerCode, FabrikCode, MitarbeiterCode, Lastwagen1Code, Lastwagen2Code, Geschaeft2Code;
    hide ProducerHolds, ConsumerHolds, FabrikHolds, MitarbeiterHolds, Lastwagen1Holds, Lastwagen2Holds, Geschaeft2Holds;
  }

  lemma Geschaeft2Choosing(l: Law, t: Thread)
    requires IsLaw(l) && Running(t) && t.kind == Geschaeft2 && t.pc < 4
    ensures Balanced(l, t)
  {
    hide ProducerCode, ConsumerCode, FabrikCode, MitarbeiterCode, Lastwagen1Code, Lastwagen2Code, Geschaeft1Code;
    hide ProducerHolds, ConsumerHolds, FabrikHolds, MitarbeiterHolds, Lastwagen1Holds, Lastwagen2Holds, Geschaeft1Holds;
  }

  lemma Geschaeft2Selling(l: Law, t: Thread)
    requires IsLaw(l) && Running(t) && t.kind == Geschaeft2 && 4 <= t.pc < 7
    ensures Balanced(l, t)
  {
    hide ProducerCode, ConsumerCode, FabrikCode, MitarbeiterCode, Lastwagen1Code, Lastwagen2Code, Geschaeft1Code;
    hide ProducerHolds, ConsumerHolds, FabrikHolds, MitarbeiterHolds, Lastwagen1Holds, Lastwagen2Holds, Geschaeft1Holds;
  }

  lemma Geschaeft2Clearing(l: Law, t: Thread)
    requires IsLaw(l) && Running(t) && t.kind == Geschaeft2 && 7 <= t.pc
    ensures Balanced(l, t)
  {
    hide ProducerCode, ConsumerCode, FabrikCode, MitarbeiterCode, Lastwagen1Code, Lastwagen2Code, Geschaeft1Code;
    hide ProducerHolds, ConsumerHolds, FabrikHolds, MitarbeiterHolds, Lastwagen1Holds, Lastwagen2Holds, Geschaeft1Holds;
  }

  lemma EveryStepBalances(l: Law, t: Thread)
    requires IsLaw(l) && Running(t)
    ensures Balanced(l, t)
  {
    hide Balanced, Code, Holds;
    match t.kind
    case Producer =>
      ProducerBalance(l, t);
    case Consumer =>
      if t.pc < 4 {
        ConsumerTaking(l, t);
      } else {
        ConsumerReleasing(l, t);
      }
    case Fabrik =>
      if t.pc < 5 {
        FabrikMaking(l, t);
      } else {
        FabrikStoring(l, t);
      }
    case Mitarbeiter =>
      if t.pc < 4 {
        MitarbeiterEntering(l, t);
      } else if t.pc < 8 {
        MitarbeiterFetching(l, t);
      } else if t.pc < 11 {
        MitarbeiterLoading(l, t);
      } else {
        MitarbeiterLeaving(l, t);
      }
    case Lastwagen1 =>
      if t.pc < 4 {
        Lastwagen1Claiming(l, t);
      } else if t.pc < 8 {
        Lastwagen1Loading(l, t);
      } else {
        Lastwagen1Delivering(l, t);
      }
    case Lastwagen2 =>
      if t.pc < 4 {
        Lastwagen2Choosing(l, t);
      } else if t.pc < 7 {
        Lastwagen2Claiming(l, t);
      } else if t.pc < 11 {
        Lastwagen2Loading(l, t);
      } else {
        Lastwagen2Delivering(l, t);
      }
    case Geschaeft1 =>
      Geschaeft1Balance(l, t);
    case Geschaeft2 =>
      if t.pc < 4 {
        Geschaeft2Choosing(l, t);
      } else if t.pc < 7 {
        Geschaeft2Selling(l, t);
      } else {
        Geschaeft2Clearing(l, t);
      }
  }
}
