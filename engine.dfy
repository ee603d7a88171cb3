/** The `CPU` object of src/cpu.rs: the interpreter state, updated in place
    by `execute`, `execute_blk`, `step` and `try_step`. Each method is proved
    to do what the corresponding function of `Semantics` or `Stepping` says
    of the state it starts from. */
module Engine {
  import opened Wrappers
  import opened RustInt
  import opened PietBlocks
  import opened Directions
  import opened Opcodes
  import opened Semantics
  import Stepping

  class Cpu {
    const codelSize: int
    const code: Blocks
    var stack: seq<int>
    var dp: Direction
    var cc: Direction
    var pc: Coord
    var error: Option<Error>
    var output: Option<Output>
    var lastCmd: Option<OpCode>

    /** The fields the commands act on, as one value. */
    function State(): Machine
      reads this
    {
      Machine(stack, dp, cc, pc, error, output, lastCmd)
    }

    /** The program is a valid segmentation, the pointer is on it and the
        chooser is `Left` or `Right`. */
    ghost predicate Valid()
      reads this
    {
      && codelSize > 0
      && code.Valid()
      && pc in code.lookup
      && (cc == Left || cc == Right)
    }

    /** `from_config`, given the segmented program: DP right, CC left,
        pointer at the top-left codel, empty stack. */
    constructor (codelSize: int, code: Blocks)
      requires codelSize > 0 && code.Valid() && (0, 0) in code.lookup
      ensures Valid()
      ensures this.codelSize == codelSize && this.code == code
      ensures State() == Machine([], Right, Left, (0, 0), None, None, None)
    {
      this.codelSize := codelSize;
      this.code := code;
      stack := [];
      dp := Right;
      cc := Left;
      pc := (0, 0);
      error := None;
      output := None;
      lastCmd := None;
    }

    method PushValue(v: int)
      modifies this`stack
      ensures stack == old(stack) + [v]
    {
      stack := stack + [v];
    }

    method PopValue() returns (v: int)
      requires |stack| > 0
      modifies this`stack
      ensures stack == old(stack[..|stack| - 1]) && v == old(stack[|stack| - 1])
    {
      v := stack[|stack| - 1];
      stack := stack[..|stack| - 1];
    }

    /** `execute`: run one command on the stack and pointers. A panic is
        returned, and then the state is of no further interest. */
    method Execute(curr: ViewableBlock, op: OpCode, inp: InputLine) returns (panic: Option<Panic>)
      requires cc == Left || cc == Right
      modifies this`stack, this`dp, this`cc, this`error, this`output, this`lastCmd
      ensures cc == Left || cc == Right
      ensures match Semantics.Execute(old(State()), curr, op, inp)
              case Panicked(p) => panic == Some(p)
              case Done(m) => panic == None && State() == m
    {
      lastCmd := Some(op);
      match op
      case Nop | Push | InNumber | InChar =>
        panic := ExecuteNullary(old(State()), curr, op, inp);
      case Pop | Not | Dup =>
        ExecuteUnary(old(State()), curr, op, inp);
        panic := None;
      case OutNumber | OutChar =>
        ExecuteOutput(old(State()), curr, op, inp);
        panic := None;
      case Ptr =>
        panic := ExecutePointer(old(State()), curr, inp);
      case Switch =>
        ExecuteSwitch(old(State()), curr, inp);
        panic := None;
      case Add | Sub | Mul | Gt =>
        ExecuteBinary(old(State()), curr, op, inp);
        panic := None;
      case Div =>
        ExecuteDiv(old(State()), curr, inp);
        panic := None;
      case Mod =>
        ExecuteMod(old(State()), curr, inp);
        panic := None;
      case Roll =>
        panic := ExecuteRoll(old(State()), curr, inp);
    }

    /** NOP, PUSH, and INPN and INPC given the line read: the commands that
        pop nothing. */
    method ExecuteNullary(ghost m0: Machine, curr: ViewableBlock, op: OpCode, inp: InputLine) returns (panic: Option<Panic>)
      requires op == Nop || op == Push || op == InNumber || op == InChar
      requires State() == m0.(lastCmd := Some(op))
      modifies this`stack, this`error
      ensures match Semantics.Execute(m0, curr, op, inp)
              case Panicked(p) => panic == Some(p)
              case Done(m) => panic == None && State() == m
    {
      panic := None;
      if op == Nop {
        return;
      } else if op == Push {
        PushValue(curr.num);
        return;
      }
      match inp
      case ReadFailed =>
        error := Some(InputReadFailed);
      case Line(number, firstByte) =>
        if op == InNumber {
          if number.None? {
            error := Some(InputUnparsable);
            return;
          }
          PushValue(number.value);
        } else {
          if firstByte.None? {
            return Some(NothingRead);
          }
          PushValue(firstByte.value);
        }
    }

    /** POP, NOT and DUP: check there is a value, pop it, push what the
        command makes of it. */
    method ExecuteUnary(ghost m0: Machine, curr: ViewableBlock, op: OpCode, inp: InputLine)
      requires op == Pop || op == Not || op == Dup
      requires State() == m0.(lastCmd := Some(op))
      modifies this`stack, this`error
      ensures Semantics.Execute(m0, curr, op, inp) == Done(State())
    {
      if |stack| < 1 {
        error := Some(StackUnderflow);
        return;
      }
      var v := PopValue();
      assert v == m0.stack[|m0.stack| - 1] && stack == m0.stack[..|m0.stack| - 1];
      match op
      case Pop =>
      case Not =>
        PushValue(if v == 0 then 1 else 0);
      case Dup =>
        PushValue(v);
        PushValue(v);
        assert stack == m0.stack[..|m0.stack| - 1] + [v, v];
    }

    /** OUTN and OUTC: pop a value and store it, as a number or as its low
        byte, for the caller to print. */
    method ExecuteOutput(ghost m0: Machine, curr: ViewableBlock, op: OpCode, inp: InputLine)
      requires op == OutNumber || op == OutChar
      requires State() == m0.(lastCmd := Some(op))
      modifies this`stack, this`output, this`error
      ensures Semantics.Execute(m0, curr, op, inp) == Done(State())
    {
      if |stack| < 1 {
        error := Some(StackUnderflow);
        return;
      }
      var v := PopValue();
      assert v == m0.stack[|m0.stack| - 1] && stack == m0.stack[..|m0.stack| - 1];
      output := Some(if op == OutNumber then Number(v) else Char(LowByte(v)));
    }

    /** PTR: pop a value and turn the DP clockwise that many times; a
        rotation that `rotate_direction` cannot handle panics. */
    method ExecutePointer(ghost m0: Machine, curr: ViewableBlock, inp: InputLine) returns (panic: Option<Panic>)
      requires State() == m0.(lastCmd := Some(Ptr))
      modifies this`stack, this`dp, this`error
      ensures match Semantics.Execute(m0, curr, Ptr, inp)
              case Panicked(p) => panic == Some(p)
              case Done(m) => panic == None && State() == m
    {
      panic := None;
      if |stack| < 1 {
        error := Some(StackUnderflow);
        return;
      }
      var v := PopValue();
      assert v == m0.stack[|m0.stack| - 1] && stack == m0.stack[..|m0.stack| - 1];
      var d := RotateDirection(dp, v);
      if d.None? {
        return Some(RotateOutOfRange);
      }
      dp := d.value;
    }

    /** SWTCH: pop a value and switch the CC that many times. */
    method ExecuteSwitch(ghost m0: Machine, curr: ViewableBlock, inp: InputLine)
      requires State() == m0.(lastCmd := Some(Switch))
      requires cc == Left || cc == Right
      modifies this`stack, this`cc, this`error
      ensures cc == Left || cc == Right
      ensures Semantics.Execute(m0, curr, Switch, inp) == Done(State())
    {
      if |stack| < 1 {
        error := Some(StackUnderflow);
        return;
      }
      var v := PopValue();
      assert v == m0.stack[|m0.stack| - 1] && stack == m0.stack[..|m0.stack| - 1];
      cc := SwitchCodel(cc, v);
    }

    /** ADD, SUB, MUL and GT: check there are two values, pop `v1` then `v2`,
        push the result. */
    method ExecuteBinary(ghost m0: Machine, curr: ViewableBlock, op: OpCode, inp: InputLine)
      requires op == Add || op == Sub || op == Mul || op == Gt
      requires State() == m0.(lastCmd := Some(op))
      modifies this`stack, this`error
      ensures Semantics.Execute(m0, curr, op, inp) == Done(State())
    {
      if |stack| < 2 {
        error := Some(StackUnderflow);
        return;
      }
      var v1 := PopValue();
      var v2 := PopValue();
      assert v1 == m0.stack[|m0.stack| - 1] && v2 == m0.stack[|m0.stack| - 2];
      assert stack == m0.stack[..|m0.stack| - 2];
      PushValue(Binary(op, v1, v2));
    }

    /** DIV: as the binary commands, except that a zero divisor puts both
        values back and records the error. */
    method ExecuteDiv(ghost m0: Machine, curr: ViewableBlock, inp: InputLine)
      requires State() == m0.(lastCmd := Some(Div))
      modifies this`stack, this`error
      ensures Semantics.Execute(m0, curr, Div, inp) == Done(State())
    {
      if |stack| < 2 {
        error := Some(StackUnderflow);
        return;
      }
      var v1 := PopValue();
      var v2 := PopValue();
      assert v1 == m0.stack[|m0.stack| - 1] && v2 == m0.stack[|m0.stack| - 2];
      assert stack == m0.stack[..|m0.stack| - 2];
      if v1 != 0 {
        PushValue(Quot(v2, v1));
      } else {
        error := Some(DivideByZero);
        PushValue(v2);
        PushValue(v1);
        assert stack == m0.stack[..|m0.stack| - 2] + [v2, v1];
      }
    }

    /** MOD: as DIV, with the remainder and its own error. */
    method ExecuteMod(ghost m0: Machine, curr: ViewableBlock, inp: InputLine)
      requires State() == m0.(lastCmd := Some(Mod))
      modifies this`stack, this`error
      ensures Semantics.Execute(m0, curr, Mod, inp) == Done(State())
    {
      if |stack| < 2 {
        error := Some(StackUnderflow);
        return;
      }
      var v1 := PopValue();
      var v2 := PopValue();
      assert v1 == m0.stack[|m0.stack| - 1] && v2 == m0.stack[|m0.stack| - 2];
      assert stack == m0.stack[..|m0.stack| - 2];
      if v1 != 0 {
        PushValue(Rem(v2, v1));
      } else {
        error := Some(ModuloByZero);
        PushValue(v2);
        PushValue(v1);
        assert stack == m0.stack[..|m0.stack| - 2] + [v2, v1];
      }
    }

    /** ROLL: check there are two values, pop the number of rolls, then the
        depth; rotate the top `depth` values right by the number of rolls. */
    method ExecuteRoll(ghost m0: Machine, curr: ViewableBlock, inp: InputLine) returns (panic: Option<Panic>)
      requires State() == m0.(lastCmd := Some(Roll))
      modifies this`stack, this`error
      ensures match Semantics.Execute(m0, curr, Roll, inp)
              case Panicked(p) => panic == Some(p)
              case Done(m) => panic == None && State() == m
    {
      panic := None;
      if |stack| < 2 {
        error := Some(StackUnderflow);
        return;
      }
      var numRolls := PopValue();
      var n := PopValue();
      assert numRolls == m0.stack[|m0.stack| - 1] && n == m0.stack[|m0.stack| - 2];
      assert stack == m0.stack[..|m0.stack| - 2];
      if numRolls < 0 || n < 0 || |stack| < n {
        return;
      }
      if n == 0 {
        return Some(RollByZero);
      }
      RollTop(n, Rem(numRolls, n));
    }

    /** The in-place part of ROLL: drain the top `n` values, rotate them
        right by `k`, append them again. */
    method RollTop(n: nat, k: nat)
      requires k < n <= |stack|
      modifies this`stack
      ensures stack == Rolled(old(stack), k, n)
    {
      var cut := |stack| - n;
      var substack := stack[cut..];
      stack := stack[..cut];
      substack := RotateRight(substack, k);
      stack := stack + substack;
    }

    /** `execute_blk`: the transition into block `next`. It succeeds unless
        `next` is black; only a colour-to-colour transition runs a command. */
    method ExecuteBlk(curr: ViewableBlock, next: ViewableBlock, inp: InputLine) returns (success: bool, panic: Option<Panic>)
      requires cc == Left || cc == Right
      modifies this`stack, this`dp, this`cc, this`error, this`output, this`lastCmd
      ensures cc == Left || cc == Right
      ensures match Stepping.ExecuteBlk(old(State()), curr, next, inp)
              case Panicked(p) => panic == Some(p)
              case Done((m, ok)) => panic == None && success == ok && State() == m
    {
      lastCmd := None;
      panic := None;
      match next.t
      case Black =>
        success := false;
      case White =>
        success := true;
      case Color(l, h) =>
        if curr.t.Color? {
          panic := Execute(curr, TypeOfExec(curr.t.l, curr.t.h, l, h), inp);
        } else if curr.t == Black {
          return false, Some(BlackCurrentBlock);
        }
        success := true;
    }

    /** `step`: leave the current block through the codel the DP and CC
        select, and enter the block one codel size further on, if any. */
    method Step(inp: InputLine) returns (moved: bool, panic: Option<Panic>)
      requires Valid()
      modifies this`stack, this`dp, this`cc, this`pc, this`error, this`output, this`lastCmd
      ensures Valid()
      ensures match Stepping.Step(old(State()), code, codelSize, inp)
              case Panicked(p) => panic == Some(p)
              case Done((m, ok)) => panic == None && moved == ok && State() == m
    {
      ghost var m0 := State();
      var blk := code.FindBlockFromIndex(pc).value;
      var edges := Stepping.GetEdges(blk.coords, dp);
      var chosen := Stepping.ChooseCoord(edges, dp, cc);
      var newCoord := Stepping.Advance(chosen, dp, codelSize);
      assert newCoord == Stepping.Target(code, codelSize, m0.pc, m0.dp, m0.cc);
      var newBlk := code.FindBlockFromIndex(newCoord);
      if newBlk.None? {
        return false, None;
      }
      error := None;
      output := None;
      assert Stepping.Step(m0, code, codelSize, inp) == Stepping.Enter(State(), blk, newBlk.value, newCoord, inp);
      moved, panic := Enter(blk, newBlk.value, newCoord, inp);
    }

    /** The rest of `step` once the target block is known: run the
        transition and, if it happened, move the pointer to `target`. */
    method Enter(blk: Block, nextBlk: Block, target: Coord, inp: InputLine) returns (moved: bool, panic: Option<Panic>)
      requires Valid() && target in code.lookup
      modifies this`stack, this`dp, this`cc, this`pc, this`error, this`output, this`lastCmd
      ensures Valid()
      ensures match Stepping.Enter(old(State()), blk, nextBlk, target, inp)
              case Panicked(p) => panic == Some(p)
              case Done((m, ok)) => panic == None && moved == ok && State() == m
    {
      var success;
      success, panic := ExecuteBlk(blk.ToViewable(), nextBlk.ToViewable(), inp);
      if panic.Some? {
        return false, panic;
      }
      if success {
        if pc == target {
          return false, None;
        }
        pc := target;
      }
      moved := success;
    }

    /** `try_step`: at most eight attempts to move; after each failure the
        CC is switched, and after every second failure the DP turns
        clockwise. */
    method TryStep(inp: InputLine) returns (moved: bool, panic: Option<Panic>)
      requires Valid()
      modifies this`stack, this`dp, this`cc, this`pc, this`error, this`output, this`lastCmd
      ensures Valid()
      ensures match Stepping.TryStep(old(State()), code, codelSize, inp)
              case Panicked(p) => panic == Some(p)
              case Done((m, ok)) => panic == None && moved == ok && State() == m
    {
      var i := 0;
      while true
        invariant 0 <= i < 8
        invariant Valid()
        invariant Stepping.TryStep(old(State()), code, codelSize, inp)
                  == Stepping.TryFrom(State(), code, codelSize, inp, i)
        decreases 8 - i
      {
        var finished;
        finished, moved, panic := Attempt(inp, i);
        if finished {
          return;
        }
        i := i + 1;
      }
    }

    /** Attempt `i` of `try_step`: one `step`, then, if it failed, the turn.
        `finished` says whether `try_step` returns after this attempt. */
    method Attempt(inp: InputLine, i: nat) returns (finished: bool, moved: bool, panic: Option<Panic>)
      requires Valid() && i < 8
      modifies this`stack, this`dp, this`cc, this`pc, this`error, this`output, this`lastCmd
      ensures Valid()
      ensures !finished ==> i < 7 && Stepping.TryFrom(old(State()), code, codelSize, inp, i)
                                     == Stepping.TryFrom(State(), code, codelSize, inp, i + 1)
      ensures finished ==> match Stepping.TryFrom(old(State()), code, codelSize, inp, i)
                           case Panicked(p) => panic == Some(p)
                           case Done((m, ok)) => panic == None && moved == ok && State() == m
    {
      var stepped;
      stepped, panic := Step(inp);
      if panic.Some? {
        return true, false, panic;
      }
      if stepped {
        return true, true, None;
      }
      Turn(i);
      if i == 7 {
        return true, false, None;
      }
      return false, false, None;
    }

    /** The turn after failed attempt `i` of `try_step`. */
    method Turn(i: nat)
      requires cc == Left || cc == Right
      modifies this`dp, this`cc
      ensures cc == Left || cc == Right
      ensures State() == Stepping.AfterFailure(old(State()), i)
    {
      cc := SwitchCodel(cc, 1);
      if i % 2 == 1 {
        dp := Clockwise(dp);
      }
    }
  }
}
