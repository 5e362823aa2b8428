/** The demonstration threads: what they do with semaphores and shared counters, step by step. */
module SemaphorePrograms {
  // The semaphores and the counters are told apart by number.
  type Sem = nat
  type Var = nat

  const FREE: Sem := 0
  const FULL: Sem := 1
  const ACCESS: Sem := 2
  const LAGER_BETTEN: Sem := 3
  const LAGER_SCHRAENKE: Sem := 4
  const LAGER_FREE: Sem := 5
  const LAGER_ACCESS: Sem := 6
  const RAMPE_BETTEN: Sem := 7
  const RAMPE_SCHRAENKE: Sem := 8
  const RAMPE_FREE: Sem := 9
  const RAMPE_ACCESS: Sem := 10
  const G1_FULL: Sem := 11
  const G1_FREE: Sem := 12
  const G1_ACCESS: Sem := 13
  const G2B_FULL: Sem := 14
  const G2B_FREE: Sem := 15
  const G2S_FULL: Sem := 16
  const G2S_FREE: Sem := 17
  const G2_ACCESS: Sem := 18

  const ELEMENTS: Var := 0
  const BETTEN: Var := 1
  const SCHRAENKE: Var := 2
  const RBETTEN: Var := 3
  const RSCHRAENKE: Var := 4
  const G1BETTEN: Var := 5
  const G2BETTEN: Var := 6
  const G2SCHRAENKE: Var := 7

  datatype Kind = Producer | Consumer | Fabrik | Mitarbeiter | Lastwagen1 | Lastwagen2 | Geschaeft1 | Geschaeft2

  /** Adding to a counter is a load followed by a store. Choose turns to the other article if of the one whose turn
      it is there is none. */
  datatype Op = P(s: Sem) | V(s: Sem) | Load(x: Var) | Store(x: Var, d: int) | Choose(bed: Var, cupboard: Var)

  /** A thread: where it is in its loop, which article its turn is (i == 1, a cupboard), and the register that holds
      what it loaded. */
  datatype Thread = Thread(kind: Kind, pc: nat, cupboard: bool, reg: int)

  // The bodies of the endless loops, operation by operation.

  function ProducerCode(pc: nat): Op {
    match pc
    case 0 => P(FREE)
    case 1 => P(ACCESS)
    case 2 => Load(ELEMENTS)
    case 3 => Store(ELEMENTS, 1)
    case 4 => V(ACCESS)
    case _ => V(FULL)
  }

  function ConsumerCode(pc: nat): Op {
    match pc
    case 0 => P(FULL)
    case 1 => P(FULL)
    case 2 => P(ACCESS)
    case 3 => Load(ELEMENTS)
    case 4 => Store(ELEMENTS, -2)
    case 5 => V(ACCESS)
    case 6 => V(FREE)
    case _ => V(FREE)
  }

  function FabrikCode(pc: nat): Op {
    match pc
    case 0 => P(LAGER_FREE)
    case 1 => P(LAGER_FREE)
    case 2 => P(LAGER_ACCESS)
    case 3 => Load(BETTEN)
    case 4 => Store(BETTEN, 1)
    case 5 => Load(SCHRAENKE)
    case 6 => Store(SCHRAENKE, 1)
    case 7 => V(LAGER_ACCESS)
    case 8 => V(LAGER_BETTEN)
    case _ => V(LAGER_SCHRAENKE)
  }

  function MitarbeiterCode(pc: nat, cupboard: bool): Op {
    match pc
    case 0 => P(RAMPE_FREE)
    case 1 => P(if cupboard then LAGER_SCHRAENKE else LAGER_BETTEN)
    case 2 => P(LAGER_ACCESS)
    case 3 => Load(if cupboard then SCHRAENKE else BETTEN)
    case 4 => Store(if cupboard then SCHRAENKE else BETTEN, -1)
    case 5 => V(LAGER_ACCESS)
    case 6 => V(LAGER_FREE)
    case 7 => P(RAMPE_ACCESS)
    case 8 => Load(RBETTEN)
    case 9 => Store(RBETTEN, if cupboard then 0 else 1)
    case 10 => Load(RSCHRAENKE)
    case 11 => Store(RSCHRAENKE, if cupboard then 1 else 0)
    case 12 => V(RAMPE_ACCESS)
    case _ => V(if cupboard then RAMPE_SCHRAENKE else RAMPE_BETTEN)
  }

  function Lastwagen1Code(pc: nat): Op {
    match pc
    case 0 => P(G1_FREE)
    case 1 => P(RAMPE_BETTEN)
    case 2 => P(RAMPE_ACCESS)
    case 3 => Load(RBETTEN)
    case 4 => Store(RBETTEN, -1)
    case 5 => V(RAMPE_ACCESS)
    case 6 => V(RAMPE_FREE)
    case 7 => P(G1_ACCESS)
    case 8 => Load(G1BETTEN)
    case 9 => Store(G1BETTEN, 1)
    case 10 => V(G1_ACCESS)
    case _ => V(G1_FULL)
  }

  function Lastwagen2Code(pc: nat, cupboard: bool): Op {
    match pc
    case 0 => P(RAMPE_ACCESS)
    case 1 => Choose(RBETTEN, RSCHRAENKE)
    case 2 => V(RAMPE_ACCESS)
    case 3 => P(if cupboard then G2S_FREE else G2B_FREE)
    case 4 => P(if cupboard then RAMPE_SCHRAENKE else RAMPE_BETTEN)
    case 5 => P(RAMPE_ACCESS)
    case 6 => Load(if cupboard then RSCHRAENKE else RBETTEN)
    case 7 => Store(if cupboard then RSCHRAENKE else RBETTEN, -1)
    case 8 => V(RAMPE_ACCESS)
    case 9 => V(RAMPE_FREE)
    case 10 => P(G2_ACCESS)
    case 11 => Load(if cupboard then G2SCHRAENKE else G2BETTEN)
    case 12 => Store(if cupboard then G2SCHRAENKE else G2BETTEN, 1)
    case 13 => V(G2_ACCESS)
    case _ => V(if cupboard then G2S_FULL else G2B_FULL)
  }

  function Geschaeft1Code(pc: nat): Op {
    match pc
    case 0 => P(G1_FULL)
    case 1 => P(G1_ACCESS)
    case 2 => Load(G1BETTEN)
    case 3 => Store(G1BETTEN, -1)
    case 4 => V(G1_ACCESS)
    case _ => V(G1_FREE)
  }

  function Geschaeft2Code(pc: nat, cupboard: bool): Op {
    match pc
    case 0 => P(G2_ACCESS)
    case 1 => Choose(G2BETTEN, G2SCHRAENKE)
    case 2 => V(G2_ACCESS)
    case 3 => P(if cupboard then G2S_FULL else G2B_FULL)
    case 4 => P(G2_ACCESS)
    case 5 => Load(if cupboard then G2SCHRAENKE else G2BETTEN)
    case 6 => Store(if cupboard then G2SCHRAENKE else G2BETTEN, -1)
    case 7 => V(G2_ACCESS)
    case _ => V(if cupboard then G2S_FREE else G2B_FREE)
  }

  function Code(kind: Kind, pc: nat, cupboard: bool): Op {
    match kind
    case Producer => ProducerCode(pc)
    case Consumer => ConsumerCode(pc)
    case Fabrik => FabrikCode(pc)
    case Mitarbeiter => MitarbeiterCode(pc, cupboard)
    case Lastwagen1 => Lastwagen1Code(pc)
    case Lastwagen2 => Lastwagen2Code(pc, cupboard)
    case Geschaeft1 => Geschaeft1Code(pc)
    case Geschaeft2 => Geschaeft2Code(pc, cupboard)
  }

  function Length(kind: Kind): nat {
    match kind
    case Producer => 6
    case Consumer => 8
    case Fabrik => 10
    case Mitarbeiter => 14
    case Lastwagen1 => 12
    case Lastwagen2 => 15
    case Geschaeft1 => 6
    case Geschaeft2 => 9
  }

  /** These take turns between the two articles. */
  predicate Alternates(kind: Kind) { kind == Mitarbeiter || kind == Lastwagen2 || kind == Geschaeft2 }

  predicate Running(t: Thread) { t.pc < Length(t.kind) }

  function OpOf(t: Thread): Op
    requires Running(t)
  {
    Code(t.kind, t.pc, t.cupboard)
  }

  /** The thread after its current operation. */
  function Moved(t: Thread): (r: Thread)
    requires Running(t)
    ensures Running(r)
  {
    if t.pc + 1 < Length(t.kind) then t.(pc := t.pc + 1)
    else t.(pc := 0, cupboard := if Alternates(t.kind) then !t.cupboard else t.cupboard)
  }

  // ---- semaphore operations in one step ----

  datatype State = State(counts: Sem -> int, vars: Var -> int, threads: seq<Thread>)

  function Set(f: nat -> int, k: nat, v: int): nat -> int { (j: nat) => if j == k then v else f(j) }

  ghost predicate AllRunning(threads: seq<Thread>) { forall i :: 0 <= i < |threads| ==> Running(threads[i]) }

  /** What one thread, which is not blocked, does to the semaphores, to the counters and to itself. */
  datatype Effect = Effect(counts: Sem -> int, vars: Var -> int, thread: Thread)

  function Act(c: Sem -> int, v: Var -> int, t: Thread): Effect
    requires Running(t)
  {
    match OpOf(t)
    case P(s) => Effect(Set(c, s, c(s) - 1), v, Moved(t))
    case V(s) => Effect(Set(c, s, c(s) + 1), v, Moved(t))
    case Load(x) => Effect(c, v, Moved(t).(reg := v(x)))
    case Store(x, d) => Effect(c, Set(v, x, t.reg + d), Moved(t))
    case Choose(bed, cupboard) =>
      var none := v(if t.cupboard then cupboard else bed) == 0;
      Effect(c, v, Moved(t).(cupboard := if none then !t.cupboard else t.cupboard))
  }

  predicate Blocked(st: State, n: nat)
    requires n < |st.threads| && Running(st.threads[n])
  {
    var op := OpOf(st.threads[n]);
    op.P? && st.counts(op.s) <= 0
  }

  /** What thread n does; a blocked thread tries in vain. */
  function Step(st: State, n: nat): State
    requires n < |st.threads| && Running(st.threads[n])
  {
    if Blocked(st, n) then st
    else
      var e := Act(st.counts, st.vars, st.threads[n]);
      State(e.counts, e.vars, st.threads[n := e.thread])
  }

  // ---- the start ----

  /** The semaphores that guard a section. */
  predicate IsAccess(s: Sem) {
    s == ACCESS || s == LAGER_ACCESS || s == RAMPE_ACCESS || s == G1_ACCESS || s == G2_ACCESS
  }

  /** do_tests and paralleleModellierung. */
  function InitialCount(s: Sem): int {
    if s == FREE || s == RAMPE_FREE then 10
    else if s == LAGER_FREE then 500
    else if s == G1_FREE then 30
    else if s == G2B_FREE || s == G2S_FREE then 20
    else if IsAccess(s) then 1
    else 0
  }

  /** Any number of threads of any kind, each before its first operation. */
  ghost predicate Initial(st: State) {
    && (forall s :: st.counts(s) == InitialCount(s))
    && (forall x :: st.vars(x) == 0)
    && (forall i :: 0 <= i < |st.threads| ==> st.threads[i].pc == 0)
  }
}
