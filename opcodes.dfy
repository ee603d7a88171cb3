/** The Piet command table and the colour-change decode of the engine
    (src/cpu.rs, `OpCode` and `typeof_exec`). */
module Opcodes {
  import RustInt
  import opened PietBlocks

  datatype OpCode =
    | Nop | Push | Pop
    | Add | Sub | Mul
    | Div | Mod | Not
    | Gt | Ptr | Switch
    | Dup | Roll | InNumber
    | InChar | OutNumber | OutChar

  /** `OPCODE_TABLE`: rows by hue change, columns by lightness change. */
  const OpcodeTable: seq<seq<OpCode>> := [
    [Nop, Push, Pop],
    [Add, Sub, Mul],
    [Div, Mod, Not],
    [Gt, Ptr, Switch],
    [Dup, Roll, InNumber],
    [InChar, OutNumber, OutChar]
  ]

  /** How many steps darker (cyclically) `l1` is than `l0`: the i8
      expression `(l1 - l0 + 3) % 3`, whose operand is never negative. */
  function LightDelta(l0: Lightness, l1: Lightness): (d: nat)
    ensures d < 3
    ensures (l0.Index() + d) % 3 == l1.Index()
  {
    RustInt.Rem(l1.Index() - l0.Index() + 3, 3)
  }

  /** How many steps round the hue cycle `h1` is from `h0`. */
  function HueDelta(h0: Hue, h1: Hue): (d: nat)
    ensures d < 6
    ensures (h0.Index() + d) % 6 == h1.Index()
  {
    RustInt.Rem(h1.Index() - h0.Index() + 6, 6)
  }

  /** `typeof_exec`: the command of a transition from colour (l0, h0) to
      colour (l1, h1). Both table indices are in range for every input. */
  function TypeOfExec(l0: Lightness, h0: Hue, l1: Lightness, h1: Hue): (op: OpCode)
    ensures TablePosition(op) == (HueDelta(h0, h1), LightDelta(l0, l1))
  {
    var dh, dl := HueDelta(h0, h1), LightDelta(l0, l1);
    var op := OpcodeTable[dh][dl];
    var p := TablePosition(op);
    TableCellsDistinct(p.0, p.1, dh, dl);
    op
  }

  /** Where a command sits in the table: (hue steps, lightness steps). */
  function TablePosition(op: OpCode): (p: (nat, nat))
    ensures p.0 < 6 && p.1 < 3
    ensures OpcodeTable[p.0][p.1] == op
  {
    match op
    case Nop => (0, 0)      case Push => (0, 1)      case Pop => (0, 2)
    case Add => (1, 0)      case Sub => (1, 1)       case Mul => (1, 2)
    case Div => (2, 0)      case Mod => (2, 1)       case Not => (2, 2)
    case Gt => (3, 0)       case Ptr => (3, 1)       case Switch => (3, 2)
    case Dup => (4, 0)      case Roll => (4, 1)      case InNumber => (4, 2)
    case InChar => (5, 0)   case OutNumber => (5, 1) case OutChar => (5, 2)
  }

  /** Every cell of the table holds a different command. */
  lemma TableCellsDistinct(i: nat, j: nat, k: nat, l: nat)
    requires i < 6 && j < 3 && k < 6 && l < 3
    requires OpcodeTable[i][j] == OpcodeTable[k][l]
    ensures i == k && j == l
  {
    assert TablePosition(OpcodeTable[i][j]) == (i, j);
  }

  function LightnessFromIndex(i: int): (l: Lightness)
    requires 0 <= i < 3
    ensures l.Index() == i
  {
    if i == 0 then Light else if i == 1 then Normal else Dark
  }

  function HueFromIndex(i: int): (h: Hue)
    requires 0 <= i < 6
    ensures h.Index() == i
  {
    if i == 0 then Red else if i == 1 then Yellow else if i == 2 then Green
    else if i == 3 then Cyan else if i == 4 then Blue else Magenta
  }

  /** The colour a program author paints next, after (l0, h0), to issue
      `op`: the inverse of the decode. */
  function NextColor(l0: Lightness, h0: Hue, op: OpCode): (c: (Lightness, Hue))
  {
    var (dh, dl) := TablePosition(op);
    (LightnessFromIndex((l0.Index() + dl) % 3), HueFromIndex((h0.Index() + dh) % 6))
  }

  lemma LightDeltaUnique(l0: Lightness, l1: Lightness, d: nat)
    requires d < 3 && (l0.Index() + d) % 3 == l1.Index()
    ensures LightDelta(l0, l1) == d
  {
  }

  lemma HueDeltaUnique(h0: Hue, h1: Hue, d: nat)
    requires d < 6 && (h0.Index() + d) % 6 == h1.Index()
    ensures HueDelta(h0, h1) == d
  {
  }

  /** Painting `NextColor` after a colour decodes to the intended command. */
  lemma DecodeNextColor(l0: Lightness, h0: Hue, op: OpCode)
    ensures TypeOfExec(l0, h0, NextColor(l0, h0, op).0, NextColor(l0, h0, op).1) == op
  {
    var (dh, dl) := TablePosition(op);
    LightDeltaUnique(l0, NextColor(l0, h0, op).0, dl);
    HueDeltaUnique(h0, NextColor(l0, h0, op).1, dh);
  }

  /** Conversely, the colour after (l0, h0) is the one `NextColor` gives for
      the command it decodes to: the decode is a bijection from the 18
      colours onto the 18 commands. */
  lemma NextColorOfDecode(l0: Lightness, h0: Hue, l1: Lightness, h1: Hue)
    ensures NextColor(l0, h0, TypeOfExec(l0, h0, l1, h1)) == (l1, h1)
  {
    FromIndexInverse(l1, h1);
  }

  lemma FromIndexInverse(l: Lightness, h: Hue)
    ensures LightnessFromIndex(l.Index()) == l
    ensures HueFromIndex(h.Index()) == h
  {
  }

  /** A transition between blocks of the same colour does nothing. */
  lemma SameColorIsNop(l: Lightness, h: Hue)
    ensures TypeOfExec(l, h, l, h) == Nop
  {
    LightDeltaUnique(l, l, 0);
    HueDeltaUnique(h, h, 0);
  }

  /** One step darker in the same hue pushes. */
  lemma DarkerIsPush(h: Hue)
    ensures TypeOfExec(Light, h, Normal, h) == Push
    ensures TypeOfExec(Normal, h, Dark, h) == Push
    ensures TypeOfExec(Dark, h, Light, h) == Push
  {
    HueDeltaUnique(h, h, 0);
  }
}
