/** The language the interpreter is for: programs as trees, their text, and their meaning on an unbounded tape. */
module BrainfuckLanguage {
  import opened Bytes

  // Cells of the tape are 8-bit and wrap around.

  function Inc(b: byte): byte { (b + 1) % 256 }

  function Dec(b: byte): byte { (b + 255) % 256 }

  /** How a run ends. `Waiting` is a read that finds no input and so never returns;
      `Fault` is an access outside an array, which only the interpreter can make. */
  datatype Outcome<+T> = Done(value: T) | Waiting | OutOfFuel | Fault {
    predicate IsFailure() { !Done? }

    function PropagateFailure<U>(): Outcome<U>
      requires IsFailure()
    {
      match this
      case Waiting => Waiting
      case OutOfFuel => OutOfFuel
      case Fault => Fault
    }

    function Extract(): T
      requires Done?
    {
      value
    }
  }

  datatype Op = Plus | Minus | Left | Right | Dot | Comma

  datatype Prog = End | Do(op: Op, rest: Prog) | Loop(body: Prog, rest: Prog)

  function Symbol(op: Op): char {
    match op
    case Plus => '+'
    case Minus => '-'
    case Left => '<'
    case Right => '>'
    case Dot => '.'
    case Comma => ','
  }

  function Text(p: Prog): string {
    match p
    case End => []
    case Do(op, rest) => [Symbol(op)] + Text(rest)
    case Loop(body, rest) => ['['] + Text(body) + [']'] + Text(rest)
  }

  /** Reading text from left to right inside d open brackets, no ']' comes too early and none is missing. */
  predicate Balanced(text: string, d: nat) {
    if text == [] then d == 0
    else if text[0] == '[' then Balanced(text[1..], d + 1)
    else if text[0] == ']' then d > 0 && Balanced(text[1..], d - 1)
    else Balanced(text[1..], d)
  }

  lemma BalancedAppend(a: string, b: string, d: nat, e: nat)
    requires Balanced(a, d) && Balanced(b, e)
    ensures Balanced(a + b, d + e)
    decreases |a|
  {
    if a == [] {
      assert a + b == b;
    } else {
      assert (a + b)[1..] == a[1..] + b;
      if a[0] == '[' {
        BalancedAppend(a[1..], b, d + 1, e);
      } else if a[0] == ']' {
        BalancedAppend(a[1..], b, d - 1, e);
      } else {
        BalancedAppend(a[1..], b, d, e);
      }
    }
  }

  lemma BalancedLoop(inner: string, rest: string)
    requires Balanced(inner, 0) && Balanced(rest, 0)
    ensures Balanced(['['] + inner + [']'] + rest, 0)
  {
    assert Balanced([']'], 1) by { assert [']'][1..] == []; }
    BalancedAppend(inner, [']'], 0, 1);
    BalancedAppend(inner + [']'], rest, 1, 0);
    assert (['['] + inner + [']'] + rest)[1..] == inner + [']'] + rest;
  }

  lemma {:induction false} TextIsBalanced(p: Prog)
    ensures Balanced(Text(p), 0)
  {
    match p
    case End =>
    case Do(op, rest) =>
      TextIsBalanced(rest);
      assert Text(p)[1..] == Text(rest);
    case Loop(body, rest) =>
      TextIsBalanced(body);
      TextIsBalanced(rest);
      BalancedLoop(Text(body), Text(rest));
  }

  function Max(a: int, b: int): int { if a < b then b else a }

  function Min(a: int, b: int): int { if a < b then a else b }

  /** How deep loops are nested in p. */
  function Nesting(p: Prog): nat {
    match p
    case End => 0
    case Do(_, rest) => Nesting(rest)
    case Loop(body, rest) => Max(1 + Nesting(body), Nesting(rest))
  }

  /** Every top-level loop of p, from after its '[' up to and including its ']', is at most n characters long. */
  predicate LoopsFit(p: Prog, n: int) {
    match p
    case End => true
    case Do(_, rest) => LoopsFit(rest, n)
    case Loop(body, rest) => |Text(body)| + 1 <= n && LoopsFit(rest, n)
  }

  /** The meaning of a program: an unbounded tape, the position on it, the leftmost and rightmost
      positions visited so far, what is still to be read and what has been written. */
  datatype World = World(tape: int -> byte, pos: int, lo: int, hi: int, input: seq<byte>, output: seq<byte>) {
    function Here(): byte { tape(pos) }
  }

  function Put(w: World, b: byte): World {
    var t: int -> byte := w.tape;
    var updated: int -> byte := (p: int) => if p == w.pos then b else t(p);
    w.(tape := updated)
  }

  function Move(w: World, delta: int): World {
    w.(pos := w.pos + delta, lo := Min(w.lo, w.pos + delta), hi := Max(w.hi, w.pos + delta))
  }

  function Exec(op: Op, w: World): Outcome<World> {
    match op
    case Plus => Done(Put(w, Inc(w.Here())))
    case Minus => Done(Put(w, Dec(w.Here())))
    case Left => Done(Move(w, -1))
    case Right => Done(Move(w, 1))
    case Dot => Done(w.(output := w.output + [w.Here()]))
    case Comma => if w.input == [] then Waiting else Done(Put(w, w.input[0]).(input := w.input[1..]))
  }

  /** Tree semantics; fuel bounds how often loop bodies are entered, since programs may run for ever. */
  function Eval(p: Prog, w: World, fuel: nat): Outcome<World>
    decreases fuel, p
  {
    match p
    case End => Done(w)
    case Do(op, rest) =>
      var w1 :- Exec(op, w);
      Eval(rest, w1, fuel)
    case Loop(body, rest) =>
      var w1 :- While(body, w, fuel);
      Eval(rest, w1, fuel)
  }

  function While(body: Prog, w: World, fuel: nat): Outcome<World>
    decreases fuel, body
  {
    if w.Here() == 0 then Done(w)
    else if fuel == 0 then OutOfFuel
    else
      var w1 :- Eval(body, w, fuel - 1);
      While(body, w1, fuel - 1)
  }
}
