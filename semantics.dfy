/** The effect of one Piet command on the engine's state (src/cpu.rs,
    `CPU::execute`), as a function of the old state. */
module Semantics {
  import opened Wrappers
  import opened RustInt
  import opened PietBlocks
  import opened Directions
  import opened Opcodes

  /** The conditions under which the engine panics (aborts the program). */
  datatype Panic =
    | RotateOutOfRange   // PTR: `rotate_direction` reaches its panicking arm
    | RollByZero         // ROLL with depth 0: `num_rolls % 0`
    | NothingRead        // INPC: `read_line` read no bytes, so there is no byte 0
    | BlackCurrentBlock  // `execute_blk`: leaving a black block into a colour

  /** The messages stored in `error`, as tags. */
  datatype Error = StackUnderflow | DivideByZero | ModuloByZero | InputUnparsable | InputReadFailed

  /** What OUTN and OUTC store in `output`: a decimal number or one byte. */
  datatype Output = Number(n: int) | Char(b: Byte)

  /** One line read from standard input, as far as the commands look at it:
      whether it trims and parses as a number, and its first byte. A line
      that was read keeps its newline, so `firstByte` is `None` only when
      the read returned no bytes, at the end of input. Such a read trims to
      the empty string, which does not parse, so `read_line` never yields
      `Line(Some(n), None)`. */
  datatype InputLine = Line(number: Option<int>, firstByte: Option<Byte>) | ReadFailed

  datatype Outcome<+T> = Done(value: T) | Panicked(why: Panic)

  /** The observable fields of `CPU` other than the program itself. The
      top of the stack is the last element. */
  datatype Machine = Machine(
    stack: seq<int>,
    dp: Direction,
    cc: Direction,
    pc: Coord,
    error: Option<Error>,
    output: Option<Output>,
    lastCmd: Option<OpCode>)

  /** How many values a command pops; each command checks this many are
      present before it pops anything. */
  function Arity(op: OpCode): nat
  {
    match op
    case Pop | Not | Ptr | Switch | Dup | OutNumber | OutChar => 1
    case Add | Sub | Mul | Div | Mod | Gt | Roll => 2
    case Nop | Push | InNumber | InChar => 0
  }

  /** The pure binary commands: `v1` is the value that was on top. */
  function Binary(op: OpCode, v1: int, v2: int): int
    requires op == Add || op == Sub || op == Mul || op == Gt
  {
    match op
    case Add => v1 + v2
    case Sub => v2 - v1
    case Mul => v1 * v2
    case Gt => if v2 > v1 then 1 else 0
  }

  /** `Vec::rotate_right(k)`: the last `k` values move to the front. */
  function RotateRight(s: seq<int>, k: nat): (r: seq<int>)
    requires k <= |s|
    ensures |r| == |s|
    ensures multiset(r) == multiset(s)
  {
    var cut := |s| - k;
    assert s == s[..cut] + s[cut..];
    s[cut..] + s[..cut]
  }

  /** The ROLL body once its arguments are checked: drain the top `n`
      values, rotate them right by `k`, append them again. */
  function Rolled(s: seq<int>, k: nat, n: nat): (r: seq<int>)
    requires k < n <= |s|
    ensures |r| == |s|
  {
    var cut := |s| - n;
    s[..cut] + RotateRight(s[cut..], k)
  }

  /** The low byte of an i32, as `n as u8` takes it. */
  function LowByte(n: int): (b: Byte)
    ensures 0 <= n < 256 ==> b == n
    ensures (n - b) % 256 == 0
  {
    n % 256
  }

  /** `execute`: the new state, or the panic that ends the program. The
      command is recorded in `lastCmd` whatever happens next. */
  function Execute(m0: Machine, curr: ViewableBlock, op: OpCode, inp: InputLine): (r: Outcome<Machine>)
    ensures r.Done? ==> r.value.pc == m0.pc && r.value.lastCmd == Some(op)
    ensures r.Done? && op != Ptr ==> r.value.dp == m0.dp
    ensures r.Done? && op != Switch ==> r.value.cc == m0.cc
  {
    var m := m0.(lastCmd := Some(op));
    var s := m.stack;
    if |s| < Arity(op) then
      Done(m.(error := Some(StackUnderflow)))
    else
      match op
      case Nop => Done(m)
      case Push => Done(m.(stack := s + [curr.num]))
      case InNumber =>
        (match inp
         case ReadFailed => Done(m.(error := Some(InputReadFailed)))
         case Line(number, _) =>
           if number.None? then Done(m.(error := Some(InputUnparsable)))
           else Done(m.(stack := s + [number.value])))
      case InChar =>
        (match inp
         case ReadFailed => Done(m.(error := Some(InputReadFailed)))
         case Line(_, firstByte) =>
           if firstByte.None? then Panicked(NothingRead)
           else Done(m.(stack := s + [firstByte.value])))
      case Pop | Not | Ptr | Switch | Dup | OutNumber | OutChar =>
        Unary(m, op, s[|s| - 1], s[..|s| - 1])
      case Add | Sub | Mul | Div | Mod | Gt | Roll =>
        Dyadic(m, op, s[|s| - 1], s[|s| - 2], s[..|s| - 2])
  }

  /** The one-value commands, once `v` has been popped off `rest`. */
  function Unary(m: Machine, op: OpCode, v: int, rest: seq<int>): (r: Outcome<Machine>)
    requires op == Pop || op == Not || op == Ptr || op == Switch || op == Dup || op == OutNumber || op == OutChar
    ensures r.Done? ==> r.value.pc == m.pc && r.value.lastCmd == m.lastCmd
    ensures r.Done? && op != Ptr ==> r.value.dp == m.dp
    ensures r.Done? && op != Switch ==> r.value.cc == m.cc
  {
    match op
    case Pop => Done(m.(stack := rest))
    case Not => Done(m.(stack := rest + [if v == 0 then 1 else 0]))
    case Ptr =>
      (match RotateDirection(m.dp, v)
       case None => Panicked(RotateOutOfRange)
       case Some(d) => Done(m.(stack := rest, dp := d)))
    case Switch => Done(m.(stack := rest, cc := SwitchCodel(m.cc, v)))
    case Dup => Done(m.(stack := rest + [v, v]))
    case OutNumber => Done(m.(stack := rest, output := Some(Number(v))))
    case OutChar => Done(m.(stack := rest, output := Some(Char(LowByte(v)))))
  }

  /** The two-value commands, once `v1` (the old top) and `v2` have been
      popped off `rest`. */
  function Dyadic(m: Machine, op: OpCode, v1: int, v2: int, rest: seq<int>): (r: Outcome<Machine>)
    requires op == Add || op == Sub || op == Mul || op == Div || op == Mod || op == Gt || op == Roll
    ensures r.Done? ==> r.value.pc == m.pc && r.value.lastCmd == m.lastCmd && r.value.dp == m.dp && r.value.cc == m.cc
  {
    match op
    case Add | Sub | Mul | Gt => Done(m.(stack := rest + [Binary(op, v1, v2)]))
    case Div =>
      if v1 != 0 then Done(m.(stack := rest + [Quot(v2, v1)]))
      else Done(m.(error := Some(DivideByZero), stack := rest + [v2, v1]))
    case Mod =>
      if v1 != 0 then Done(m.(stack := rest + [Rem(v2, v1)]))
      else Done(m.(error := Some(ModuloByZero), stack := rest + [v2, v1]))
    case Roll =>
      // v1 is the number of rolls, v2 the depth; a negative depth converts
      // to a huge `usize`, so the length test sends it to the early return
      if v1 < 0 || v2 < 0 || |rest| < v2 then Done(m.(stack := rest))
      else if v2 == 0 then Panicked(RollByZero)
      else Done(m.(stack := Rolled(rest, Rem(v1, v2), v2)))
  }
}
