/** The interpreter as the source has it: variables and buffers updated character by character. */
module BrainfuckInterpreter {
  import opened Bytes
  import opened BrainfuckLanguage
  import opened BrainfuckMachine

  class Interpreter {
    var maxlength: int
    var cells: array<byte>       // the memory at bf_start
    var ptr: int                 // bf_ptr - bf_start
    var buffer: array?<char>     // bf_buffer
    var offset: int              // bf_buf_offset
    var position: int            // bf_buf_position
    var marks: array<Mark>       // loop_marks
    var depth: int
    var jumpover: bool
    var tempDepth: int
    var storeLock: bool
    var lockLevel: int
    var input: seq<byte>         // what reads of the program will find
    var output: seq<Out>         // what went to file descriptor 1
    var garbage: int -> byte     // what fresh memory will hold
    var base: int                // where bf_start lies on the unbounded tape; the source has no such variable

    /** Holds between a move and the bound check. */
    ghost predicate Loose()
      reads this
    {
      && cells.Length == maxlength > 0 && -1 <= ptr <= maxlength && marks.Length == MAX_LOOP_DEPTH
      && (if buffer == null then offset == 0 else 0 <= offset <= buffer.Length)
    }

    ghost predicate Valid()
      reads this
    {
      Loose() && 0 <= ptr < maxlength
    }

    ghost function Tape(): (e: Env)
      requires Loose()
      reads this, cells
      ensures PtrNearTape(e)
    {
      Env(garbage, base, cells[..], ptr, input, output)
    }

    ghost function View(): (s: State)
      requires Loose()
      reads this, cells, marks, buffer
    {
      State(Tape(), buffer != null, if buffer == null then [] else buffer[..offset],
            if buffer == null then 0 else buffer.Length, position, marks[..], depth, jumpover, tempDepth,
            storeLock, lockLevel)
    }

    /** r tells how the computation o ends, and if it is done this object is in its final state. */
    ghost predicate Yields(o: Outcome<State>, r: Outcome<()>)
      reads this, cells, marks, buffer
    {
      match o
      case Done(s) => r.Done? && Valid() && View() == s
      case Waiting => r.Waiting?
      case OutOfFuel => r.OutOfFuel?
      case Fault => r.Fault?
    }

    /** The initialised globals and init_bf: the state after start-up. */
    constructor (garbage: int -> byte, input: seq<byte>)
      ensures Valid() && View() == Boot(garbage, input)
      ensures fresh(cells) && fresh(marks) && buffer == null
    {
      maxlength := INITIAL_LENGTH;
      cells := new byte[INITIAL_LENGTH](_ => 0);
      ptr := 0;
      buffer, offset, position := null, 0, -1;
      marks := new Mark[MAX_LOOP_DEPTH](_ => Mark(0, 0));
      depth, jumpover, tempDepth, storeLock, lockLevel := 0, false, 0, false, 0;
      this.input, output := input, [];
      this.garbage := garbage;
      base := 0;
      new;
      assert cells[..] == ZeroCells();
      assert marks[..] == seq(MAX_LOOP_DEPTH, _ => Mark(0, 0));
    }

    /** reset_bf: everything but loop_marks starts afresh, on a tape in new memory. `memory` gives what the memory
        allocated from now on will hold, by its place on the new tape. */
    method ResetBf(memory: int -> byte)
      requires Valid()
      modifies this
      ensures Valid() && View() == Reset(old(View()), memory)
      ensures fresh(cells) && marks == old(marks) && buffer == null
    {
      hide ZeroCells;
      DropBuffer();
      ResetModes();
      ResetTape(memory);
    }

    /** Frees the buffer. */
    method DropBuffer()
      requires Loose()
      modifies this`buffer, this`offset, this`position
      ensures Loose() && buffer == null
      ensures View() == old(View()).(recording := false, recorded := [], capacity := 0, position := -1)
    {
      buffer := null;
      offset := 0;
      position := -1;
    }

    method ResetModes()
      requires Loose()
      modifies this`depth, this`tempDepth, this`lockLevel, this`storeLock, this`jumpover
      ensures View() == old(View()).(depth := 0, tempDepth := 0, lockLevel := 0, storeLock := false, jumpover := false)
    {
      depth, tempDepth, lockLevel := 0, 0, 0;
      storeLock, jumpover := false, false;
    }

    method ResetTape(memory: int -> byte)
      modifies this`maxlength, this`cells, this`ptr, this`garbage, this`base
      ensures fresh(cells) && cells.Length == maxlength && 0 <= ptr < maxlength
      ensures Env(garbage, base, cells[..], ptr, input, output) == Env(memory, 0, ZeroCells(), 0, input, output)
    {
      maxlength := INITIAL_LENGTH;
      cells := ZeroTape();
      ptr := 0;
      garbage, base := memory, 0;
    }

    /** malloc of the first tape, and the loop that clears it. */
    static method ZeroTape() returns (tape: array<byte>)
      ensures fresh(tape) && tape.Length == INITIAL_LENGTH && tape[..] == ZeroCells()
    {
      tape := new byte[INITIAL_LENGTH];
      for i := 0 to INITIAL_LENGTH
        invariant forall k :: 0 <= k < i ==> tape[k] == 0
      {
        tape[i] := 0;
      }
    }

    method RecordChar(ch: char) returns (r: Outcome<()>)
      requires Valid()
      modifies this`offset, this`position, buffer
      ensures Yields(Record(old(View()), ch), r)
      ensures cells[..] == old(cells[..])
    {
      if !storeLock && buffer != null {
        if offset >= buffer.Length {
          return Fault;
        }
        buffer[offset] := ch;
        offset := offset + 1;
        position := position + 1;
      }
      r := Done(());
    }

    /** The bound check at the end of interpret_bf: a pointer off the tape gets a tape of twice the length. */
    method Repair()
      requires Loose()
      modifies this`maxlength, this`cells, this`ptr, this`output, this`base
      ensures cells == old(cells) || fresh(cells)
      ensures Valid() && Tape() == Grow(old(Tape()))
    {
      if ptr < 0 {
        GrowBelow();
      } else if ptr > maxlength - 1 {
        GrowAbove();
      }
    }

    static lemma GrownBelow(s: Env, t: seq<byte>)
      requires PtrNearTape(s) && s.ptr < 0 && |t| == 2 * |s.cells| && t[|s.cells|..] == s.cells
      requires forall k :: 0 <= k < |s.cells| ==> t[k] == s.garbage(s.base - |s.cells| + k)
      ensures t == Grow(s).cells
    {
      assert t == t[..|s.cells|] + t[|s.cells|..];
    }

    static lemma GrownAbove(s: Env, t: seq<byte>)
      requires PtrNearTape(s) && s.ptr == |s.cells| && |t| == 2 * |s.cells| && t[..|s.cells|] == s.cells
      requires forall k :: |s.cells| <= k < |t| ==> t[k] == s.garbage(s.base + k)
      ensures t == Grow(s).cells
    {
      assert t == t[..|s.cells|] + t[|s.cells|..];
    }

    method GrowBelow()
      requires Loose() && ptr < 0
      modifies this`maxlength, this`cells, this`ptr, this`output, this`base
      ensures fresh(cells)
      ensures Valid() && Tape() == Grow(old(Tape()))
    {
      ghost var e := Tape();
      var half := maxlength;
      var temp := NewTape(base - half, half);
      GrownBelow(e, temp[..]);
      output := output + [LowerNotice];
      maxlength := maxlength * 2;
      cells := temp;
      ptr := half - 1;
      base := base - half;
    }

    method GrowAbove()
      requires Loose() && ptr > maxlength - 1
      modifies this`maxlength, this`cells, this`ptr, this`output
      ensures fresh(cells)
      ensures Valid() && Tape() == Grow(old(Tape()))
    {
      ghost var e := Tape();
      var half := maxlength;
      var temp := NewTape(base, 0);
      GrownAbove(e, temp[..]);
      output := output + [UpperNotice];
      maxlength := maxlength * 2;
      cells := temp;
      ptr := half;
    }

    /** malloc of twice the memory, which holds whatever it holds, and memcpy of the cells to a place in it. */
    method NewTape(place: int, at: int) returns (temp: array<byte>)
      requires Loose() && (at == 0 || at == maxlength)
      ensures fresh(temp) && temp.Length == 2 * maxlength
      ensures temp[at..at + maxlength] == cells[..]
      ensures forall k :: (0 <= k < at || at + maxlength <= k < temp.Length) ==> temp[k] == garbage(place + k)
    {
      var g := garbage;
      temp := new byte[maxlength * 2](k => g(place + k));
      CopyInto(temp, at, cells);
    }

    /** memcpy of all of src to a place inside dest. */
    static method CopyInto(dest: array<byte>, at: int, src: array<byte>)
      requires 0 <= at <= at + src.Length <= dest.Length && src != dest
      modifies dest
      ensures dest[at..at + src.Length] == src[..]
      ensures forall k :: 0 <= k < at || at + src.Length <= k < dest.Length ==> dest[k] == old(dest[k])
    {
      for i := 0 to src.Length
        invariant forall k :: 0 <= k < i ==> dest[at + k] == src[k]
        invariant forall k :: 0 <= k < at || at + i <= k < dest.Length ==> dest[k] == old(dest[k])
      {
        dest[at + i] := src[i];
      }
    }

    method Skip(ch: char)
      requires Valid()
      modifies this`jumpover, this`depth, this`tempDepth
      ensures View() == BrainfuckMachine.Skip(old(View()), ch)
    {
      if ch == ']' && depth == tempDepth {
        jumpover := false;
        depth := depth - 1;
        tempDepth := 0;
      } else {
        if ch == '[' {
          depth := depth + 1;
        }
        if ch == ']' {
          depth := depth - 1;
        }
      }
    }

    method Apply(op: Op) returns (r: Outcome<()>)
      requires Valid()
      modifies this`ptr, this`input, this`output, cells
      ensures var o := BrainfuckMachine.Apply(old(Tape()), op);
              if o.Done? then r.Done? && Loose() && Tape() == o.value else r.Waiting? && o.Waiting?
    {
      match op {
      case Plus => cells[ptr] := Inc(cells[ptr]);
      case Minus => cells[ptr] := Dec(cells[ptr]);
      case Left => ptr := ptr - 1;
      case Right => ptr := ptr + 1;
      case Dot => output := output + [Cell(cells[ptr])];
      case Comma =>
        if input == [] {
          return Waiting;
        }
        cells[ptr] := input[0];
        input := input[1..];
      }
      r := Done(());
    }

    method Basic(op: Op) returns (r: Outcome<()>)
      requires Valid()
      modifies this`maxlength, this`cells, this`ptr, this`input, this`output, this`base, cells
      ensures cells == old(cells) || fresh(cells)
      ensures var o := BasicOn(old(Tape()), op);
              if o.Done? then r.Done? && Valid() && Tape() == o.value else r.Waiting? && o.Waiting?
      ensures r.Done? ==> View() == old(View()).(env := Tape())
    {
      hide Grow;
      ghost var s := View();
      r := Apply(op);
      if r.Done? {
        assert View() == s.(env := BrainfuckMachine.Apply(s.env, op).value);
        Repair();
      }
    }

    /** '[' outside jump-over mode. */
    method OpenLoop() returns (r: Outcome<()>)
      requires Valid()
      modifies this`depth, this`jumpover, this`tempDepth, this`buffer, this`offset, marks
      ensures buffer == old(buffer) || fresh(buffer)
      ensures Yields(Open(old(View())), r)
    {
      depth := depth + 1;
      if cells[ptr] == 0 {
        jumpover := true;
        tempDepth := depth;
      } else if buffer == null {
        buffer := new char[maxlength];
      } else if !(0 <= depth < MAX_LOOP_DEPTH) {
        return Fault;
      } else {
        marks[depth] := marks[depth].(open := position + 1);
      }
      r := Done(());
    }

    /** What ']' does after its while loop. */
    method LeaveLoop()
      requires Valid()
      modifies this`depth, this`storeLock, this`lockLevel, this`buffer, this`offset, this`position
      ensures Valid() && View() == Leave(old(View()))
      ensures buffer == old(buffer) || buffer == null
    {
      if depth == lockLevel {
        storeLock := false;
        lockLevel := 0;
      }
      depth := depth - 1;
      if depth == 0 && buffer != null {
        DropBuffer();
      }
    }

    /** interpret_bf. Fuel bounds the rounds of replayed loops, since a program may run for ever. */
    method Interpret(ch: char, fuel: nat) returns (r: Outcome<()>)
      requires Valid()
      modifies this, cells, marks, buffer
      ensures marks == old(marks)
      ensures cells == old(cells) || fresh(cells)
      ensures buffer == old(buffer) || buffer == null || fresh(buffer)
      ensures Yields(BrainfuckMachine.Interpret(old(View()), ch, fuel), r)
      decreases fuel, 2
    {
      hide BasicOn, Record, BrainfuckMachine.Skip, Open, Close, PtrOnTape;
      r := RecordChar(ch);
      if !r.Done? {
        return;
      }
      if jumpover {
        Skip(ch);
        return;
      }
      match ch
      case '+' => r := Basic(Plus);
      case '-' => r := Basic(Minus);
      case '<' => r := Basic(Left);
      case '>' => r := Basic(Right);
      case '.' => r := Basic(Dot);
      case ',' => r := Basic(Comma);
      case '[' => r := OpenLoop();
      case ']' => r := CloseLoop(fuel);
      case _ =>
    }

    /** ']' outside jump-over mode. */
    method CloseLoop(fuel: nat) returns (r: Outcome<()>)
      requires Valid()
      modifies this, cells, marks, buffer
      ensures marks == old(marks)
      ensures cells == old(cells) || fresh(cells)
      ensures buffer == old(buffer) || buffer == null || fresh(buffer)
      ensures Yields(Close(old(View()), fuel), r)
      decreases fuel, 1
    {
      if !(0 <= depth < MAX_LOOP_DEPTH) {
        return Fault;
      }
      marks[depth] := marks[depth].(close := position);
      r := PlayRounds(fuel);
      if r.Done? {
        LeaveLoop();
      }
    }

    /** The while loop of ']'. */
    method PlayRounds(fuel: nat) returns (r: Outcome<()>)
      requires Valid()
      modifies this, cells, marks, buffer
      ensures marks == old(marks)
      ensures cells == old(cells) || fresh(cells)
      ensures buffer == old(buffer) || buffer == null || fresh(buffer)
      ensures Yields(Rounds(old(View()), fuel), r)
      decreases fuel, 0
    {
      hide Locked, Replay;
      var left := fuel;
      while cells[ptr] != 0
        invariant Valid() && marks == old(marks)
        invariant cells == old(cells) || fresh(cells)
        invariant buffer == old(buffer) || buffer == null || fresh(buffer)
        invariant 0 <= left <= fuel && Rounds(old(View()), fuel) == Rounds(View(), left)
        decreases left
      {
        if left == 0 {
          return OutOfFuel;
        }
        if !(0 <= depth < MAX_LOOP_DEPTH) {
          return Fault;
        }
        Lock(marks[depth].open);
        left := left - 1;
        r := PlayBack(marks[depth].open, marks[depth].close, left);
        if !r.Done? {
          return;
        }
      }
      r := Done(());
    }

    method Lock(open: int)
      requires Valid()
      modifies this`storeLock, this`lockLevel, this`position
      ensures View() == Locked(old(View()), open)
    {
      storeLock := true;
      if lockLevel == 0 {
        lockLevel := depth;
      }
      position := open;
    }

    /** The inner while loop of ']'. */
    method PlayBack(open: int, end: int, fuel: nat) returns (r: Outcome<()>)
      requires Valid()
      modifies this, cells, marks, buffer
      ensures marks == old(marks)
      ensures cells == old(cells) || fresh(cells)
      ensures buffer == old(buffer) || buffer == null || fresh(buffer)
      ensures Yields(Replay(old(View()), open, end, fuel), r)
      decreases fuel, 3
    {
      var start := open;
      while start < end
        invariant Valid() && marks == old(marks)
        invariant cells == old(cells) || fresh(cells)
        invariant buffer == old(buffer) || buffer == null || fresh(buffer)
        invariant Replay(old(View()), open, end, fuel) == Replay(View(), start, end, fuel)
      {
        if !(buffer != null && 0 <= start < offset) {
          return Fault;
        }
        r := Interpret(buffer[start], fuel);
        if !r.Done? {
          return;
        }
        start := start + 1;
        position := start;
      }
      r := Done(());
    }

    /** dev_brainfuck_write. */
    method DeviceWrite(data: string, fuel: nat) returns (r: Outcome<()>)
      requires Valid()
      modifies this, cells, marks, buffer
      ensures Yields(BrainfuckMachine.DeviceWrite(old(View()), data, fuel), r)
    {
      for i := 0 to |data|
        invariant Valid() && marks == old(marks)
        invariant cells == old(cells) || fresh(cells)
        invariant buffer == old(buffer) || buffer == null || fresh(buffer)
        invariant BrainfuckMachine.DeviceWrite(old(View()), data, fuel) ==
                  BrainfuckMachine.DeviceWrite(View(), data[i..], fuel)
      {
        assert data[i..][1..] == data[i + 1..];
        if IsCommand(data[i]) {
          r := Interpret(data[i], fuel);
          if !r.Done? {
            return;
          }
        }
      }
      r := Done(());
    }
  }
}
