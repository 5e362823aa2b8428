/** The streaming interpreter as a function of its state: it is handed one character at a time, runs a loop body
    while recording it, and replays the recording for the further rounds of the loop. */
module BrainfuckMachine {
  import opened Bytes
  import opened BrainfuckLanguage

  const INITIAL_LENGTH := 10000
  const MAX_LOOP_DEPTH := 50

  datatype Mark = Mark(open: int, close: int)

  /** What goes to file descriptor 1: bytes of the program, and the two repair notices, which are written to
      the same descriptor. */
  datatype Out = Cell(b: byte) | LowerNotice | UpperNotice

  /** The tape and the pointer, and what is read and written. `base` is where `bf_start` lies on the unbounded tape;
      no variable holds it. `garbage` gives what a newly allocated cell holds, by its place on that tape. */
  datatype Env = Env(garbage: int -> byte, base: int, cells: seq<byte>, ptr: int, input: seq<byte>, output: seq<Out>)

  /** The interpreter's variables. `recorded` is the part of `bf_buffer` written so far, so `bf_buf_offset` is its
      length; `recording` says that the buffer exists. */
  datatype State = State(
    env: Env,
    recording: bool, recorded: string, capacity: int, position: int,
    marks: seq<Mark>, depth: int,
    jumpover: bool, tempDepth: int,
    storeLock: bool, lockLevel: int)

  /** The pointer is on the tape: bf_start <= bf_ptr < bf_start + maxlength. */
  predicate PtrOnTape(e: Env) {
    0 <= e.ptr < |e.cells|
  }

  predicate OnTape(s: State) {
    PtrOnTape(s.env) && |s.marks| == MAX_LOOP_DEPTH
  }

  function Record(s: State, ch: char): Outcome<State> {
    if s.storeLock || !s.recording then Done(s)
    else if |s.recorded| >= s.capacity then Fault
    else Done(s.(recorded := s.recorded + [ch], position := s.position + 1))
  }

  function Skip(s: State, ch: char): State {
    if ch == ']' && s.depth == s.tempDepth then s.(jumpover := false, depth := s.depth - 1, tempDepth := 0)
    else if ch == '[' then s.(depth := s.depth + 1)
    else if ch == ']' then s.(depth := s.depth - 1)
    else s
  }

  function Open(s: State): Outcome<State>
    requires OnTape(s)
  {
    var d := s.depth + 1;
    if s.env.cells[s.env.ptr] == 0 then Done(s.(depth := d, jumpover := true, tempDepth := d))
    else if !s.recording then Done(s.(depth := d, recording := true, capacity := |s.env.cells|))
    else if !(0 <= d < MAX_LOOP_DEPTH) then Fault
    else Done(s.(depth := d, marks := s.marks[d := s.marks[d].(open := s.position + 1)]))
  }

  /** What ']' does after its while loop. */
  function Leave(s: State): State {
    var s1 := if s.depth == s.lockLevel then s.(storeLock := false, lockLevel := 0) else s;
    var s2 := s1.(depth := s1.depth - 1);
    if s2.depth == 0 && s2.recording then s2.(recording := false, recorded := [], capacity := 0, position := -1) else s2
  }

  /** The pointer may be one off the tape: between a move and the bound check. */
  predicate PtrNearTape(e: Env) {
    |e.cells| > 0 && -1 <= e.ptr <= |e.cells|
  }

  /** The bound check at the end of interpret_bf: a pointer off the tape gets a tape of twice the length. */
  function Grow(e: Env): (r: Env)
    requires PtrNearTape(e)
    ensures PtrOnTape(r)
  {
    var n := |e.cells|;
    if e.ptr < 0 then
      e.(base := e.base - n, cells := seq(n, (i: int) => e.garbage(e.base - n + i)) + e.cells, ptr := n - 1,
         output := e.output + [LowerNotice])
    else if e.ptr > n - 1 then
      e.(cells := e.cells + seq(n, (i: int) => e.garbage(e.base + n + i)), ptr := n, output := e.output + [UpperNotice])
    else e
  }

  function Apply(e: Env, op: Op): (r: Outcome<Env>)
    requires PtrOnTape(e)
    ensures r.Done? ==> PtrNearTape(r.value)
  {
    match op
    case Plus => Done(e.(cells := e.cells[e.ptr := Inc(e.cells[e.ptr])]))
    case Minus => Done(e.(cells := e.cells[e.ptr := Dec(e.cells[e.ptr])]))
    case Left => Done(e.(ptr := e.ptr - 1))
    case Right => Done(e.(ptr := e.ptr + 1))
    case Dot => Done(e.(output := e.output + [Cell(e.cells[e.ptr])]))
    case Comma =>
      if e.input == [] then Waiting
      else Done(e.(cells := e.cells[e.ptr := e.input[0]], input := e.input[1..]))
  }

  function BasicOn(e: Env, op: Op): (r: Outcome<Env>)
    requires PtrOnTape(e)
    ensures r.Done? ==> PtrOnTape(r.value)
  {
    var e1 :- Apply(e, op);
    Done(Grow(e1))
  }

  function Basic(s: State, op: Op): (r: Outcome<State>)
    requires OnTape(s)
    ensures r.Done? ==> OnTape(r.value)
  {
    var e :- BasicOn(s.env, op);
    Done(s.(env := e))
  }

  /** One call of interpret_bf. */
  function Interpret(s: State, ch: char, fuel: nat): (r: Outcome<State>)
    requires OnTape(s)
    ensures r.Done? ==> OnTape(r.value)
    decreases fuel, 2
  {
    var s1 :- Record(s, ch);
    if s1.jumpover then Done(Skip(s1, ch))
    else match ch
      case '+' => Basic(s1, Plus)
      case '-' => Basic(s1, Minus)
      case '<' => Basic(s1, Left)
      case '>' => Basic(s1, Right)
      case '.' => Basic(s1, Dot)
      case ',' => Basic(s1, Comma)
      case '[' => Open(s1)
      case ']' => Close(s1, fuel)
      case _ => Done(s1)
  }

  /** ']' outside jump-over mode. */
  function Close(s: State, fuel: nat): (r: Outcome<State>)
    requires OnTape(s)
    ensures r.Done? ==> OnTape(r.value)
    decreases fuel, 1
  {
    if !(0 <= s.depth < MAX_LOOP_DEPTH) then Fault
    else
      var s1 :- Rounds(s.(marks := s.marks[s.depth := s.marks[s.depth].(close := s.position)]), fuel);
      Done(Leave(s1))
  }

  /** The while loop of ']'. */
  function Rounds(s: State, fuel: nat): (r: Outcome<State>)
    requires OnTape(s)
    ensures r.Done? ==> OnTape(r.value)
    decreases fuel, 0
  {
    if s.env.cells[s.env.ptr] == 0 then Done(s)
    else if fuel == 0 then OutOfFuel
    else if !(0 <= s.depth < MAX_LOOP_DEPTH) then Fault
    else
      var m := s.marks[s.depth];
      var s1 :- Replay(Locked(s, m.open), m.open, m.close, fuel - 1);
      Rounds(s1, fuel - 1)
  }

  /** Before a round: nothing is recorded any more, and the outermost replayed loop is remembered. */
  function Locked(s: State, open: int): State {
    s.(storeLock := true, lockLevel := if s.lockLevel == 0 then s.depth else s.lockLevel, position := open)
  }

  /** The inner while loop of ']': hands the recorded characters from `start` to `end` back to interpret_bf. */
  function Replay(s: State, start: int, end: int, fuel: nat): (r: Outcome<State>)
    requires OnTape(s)
    ensures r.Done? ==> OnTape(r.value)
    decreases fuel, 3, end - start
  {
    if start >= end then Done(s)
    else if !(s.recording && 0 <= start < |s.recorded|) then Fault
    else
      var s1 :- Interpret(s, s.recorded[start], fuel);
      Replay(s1.(position := start + 1), start + 1, end, fuel)
  }

  /** Characters handed over one after the other, as by the loop of the device's write. */
  function Feed(s: State, text: string, fuel: nat): (r: Outcome<State>)
    requires OnTape(s)
    ensures r.Done? ==> OnTape(r.value)
    decreases |text|
  {
    if text == [] then Done(s)
    else
      var s1 :- Interpret(s, text[0], fuel);
      Feed(s1, text[1..], fuel)
  }

  predicate IsCommand(ch: char) {
    ch == '.' || ch == ',' || ch == '+' || ch == '-' || ch == '<' || ch == '>' || ch == '[' || ch == ']'
  }

  function Commands(text: string): string {
    if text == [] then []
    else (if IsCommand(text[0]) then [text[0]] else []) + Commands(text[1..])
  }

  /** One write to /dev/brainfuck. */
  function DeviceWrite(s: State, data: string, fuel: nat): (r: Outcome<State>)
    requires OnTape(s)
    ensures r.Done? ==> OnTape(r.value)
    decreases |data|
  {
    if data == [] then Done(s)
    else if !IsCommand(data[0]) then DeviceWrite(s, data[1..], fuel)
    else
      var s1 :- Interpret(s, data[0], fuel);
      DeviceWrite(s1, data[1..], fuel)
  }

  function DeviceWrites(s: State, chunks: seq<string>, fuel: nat): (r: Outcome<State>)
    requires OnTape(s)
    ensures r.Done? ==> OnTape(r.value)
    decreases |chunks|
  {
    if chunks == [] then Done(s)
    else
      var s1 :- DeviceWrite(s, chunks[0], fuel);
      DeviceWrites(s1, chunks[1..], fuel)
  }

  function ZeroCells(): seq<byte> { seq(INITIAL_LENGTH, _ => 0) }

  /** The state after start-up: the globals as they are initialised, and the tape init_bf allocates. */
  function Boot(garbage: int -> byte, input: seq<byte>): (s: State) {
    State(Env(garbage, 0, ZeroCells(), 0, input, []), false, [], 0, -1,
          seq(MAX_LOOP_DEPTH, _ => Mark(0, 0)), 0, false, 0, false, 0)
  }

  /** The state reset_bf leaves: a new tape, in new memory, and every variable as after start-up, except loop_marks,
      which reset_bf does not touch. What was written before stays written. */
  function Reset(s: State, garbage: int -> byte): State {
    State(Env(garbage, 0, ZeroCells(), 0, s.env.input, s.env.output), false, [], 0, -1,
          s.marks, 0, false, 0, false, 0)
  }
}
