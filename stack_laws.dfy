/** What each command does to the stack and the other fields, stated
    command by command over `Semantics.Execute`. */
module StackLaws {
  import opened Wrappers
  import opened RustInt
  import opened PietBlocks
  import opened Directions
  import opened Opcodes
  import opened Semantics

  /** With fewer values than it pops, a command records a stack underflow
      and changes nothing else. */
  lemma Underflow(m: Machine, curr: ViewableBlock, op: OpCode, inp: InputLine)
    requires |m.stack| < Arity(op)
    ensures Execute(m, curr, op, inp) == Done(m.(lastCmd := Some(op), error := Some(StackUnderflow)))
  {
  }

  /** ADD, SUB, MUL and GT replace the two top values by one result; the
      values below are untouched and no error is recorded. */
  lemma ArithmeticEffect(m: Machine, curr: ViewableBlock, op: OpCode, inp: InputLine)
    requires op == Add || op == Sub || op == Mul || op == Gt
    requires |m.stack| >= 2
    ensures var s := m.stack;
            var v1, v2 := s[|s| - 1], s[|s| - 2];
            && Execute(m, curr, op, inp).Done?
            && var m' := Execute(m, curr, op, inp).value;
            && |m'.stack| == |s| - 1
            && m'.stack[..|s| - 2] == s[..|s| - 2]
            && m'.stack[|s| - 2] == (match op
                                     case Add => v1 + v2
                                     case Sub => v2 - v1
                                     case Mul => v1 * v2
                                     case Gt => if v2 > v1 then 1 else 0)
            && m'.error == m.error && m'.output == m.output
  {
  }

  /** DIV by zero puts both values back and records the error; otherwise the
      quotient is rounded toward zero: it recomposes the dividend with a
      remainder smaller than the divisor and of the dividend's sign. Only
      the stack, the error and the last command change. */
  lemma DivisionEffect(m: Machine, curr: ViewableBlock, inp: InputLine)
    requires |m.stack| >= 2
    ensures var s := m.stack;
            var v1, v2 := s[|s| - 1], s[|s| - 2];
            && Execute(m, curr, Div, inp).Done?
            && var m' := Execute(m, curr, Div, inp).value;
            && m' == m.(lastCmd := Some(Div), stack := m'.stack, error := m'.error)
            && (v1 == 0 ==> m'.stack == s && m'.error == Some(DivideByZero))
            && (v1 != 0 ==>
                  && |m'.stack| == |s| - 1
                  && m'.stack[..|s| - 2] == s[..|s| - 2]
                  && m'.error == m.error
                  && var q := m'.stack[|s| - 2];
                  && var r := v2 - v1 * q;
                  && Abs(r) < Abs(v1)
                  && (r == 0 || (r < 0 <==> v2 < 0)))
  {
    var s := m.stack;
    var v1, v2 := s[|s| - 1], s[|s| - 2];
    assert s[..|s| - 2] + [v2, v1] == s;
    if v1 != 0 {
      DivisionIdentity(v2, v1);
    }
  }

  /** MOD by zero puts both values back and records the error; otherwise the
      remainder is smaller than the divisor, has the dividend's sign and
      differs from the dividend by a multiple of the divisor. Only the
      stack, the error and the last command change. */
  lemma ModuloEffect(m: Machine, curr: ViewableBlock, inp: InputLine)
    requires |m.stack| >= 2
    ensures var s := m.stack;
            var v1, v2 := s[|s| - 1], s[|s| - 2];
            && Execute(m, curr, Mod, inp).Done?
            && var m' := Execute(m, curr, Mod, inp).value;
            && m' == m.(lastCmd := Some(Mod), stack := m'.stack, error := m'.error)
            && (v1 == 0 ==> m'.stack == s && m'.error == Some(ModuloByZero))
            && (v1 != 0 ==>
                  && |m'.stack| == |s| - 1
                  && m'.stack[..|s| - 2] == s[..|s| - 2]
                  && m'.error == m.error
                  && var r := m'.stack[|s| - 2];
                  && Abs(r) < Abs(v1)
                  && (r == 0 || (r < 0 <==> v2 < 0))
                  && (exists q :: v2 == v1 * q + r))
  {
    var s := m.stack;
    var v1, v2 := s[|s| - 1], s[|s| - 2];
    assert s[..|s| - 2] + [v2, v1] == s;
    if v1 != 0 {
      DivisionIdentity(v2, v1);
      assert v2 == v1 * Quot(v2, v1) + Rem(v2, v1);
    }
  }

  /** DUP leaves one more value on the stack: a copy of the top. Nothing
      but the stack and the last command changes. */
  lemma DupEffect(m: Machine, curr: ViewableBlock, inp: InputLine)
    requires |m.stack| >= 1
    ensures Execute(m, curr, Dup, inp).Done?
    ensures Execute(m, curr, Dup, inp).value.stack == m.stack + [m.stack[|m.stack| - 1]]
    ensures var m' := Execute(m, curr, Dup, inp).value;
            m' == m.(lastCmd := Some(Dup), stack := m'.stack)
  {
    var s := m.stack;
    assert s[..|s| - 1] + [s[|s| - 1]] == s;
  }

  /** POP, OUTN and OUTC drop the top value; the two outputs publish it.
      Nothing but the stack, the output and the last command changes. */
  lemma PopEffect(m: Machine, curr: ViewableBlock, op: OpCode, inp: InputLine)
    requires op == Pop || op == OutNumber || op == OutChar
    requires |m.stack| >= 1
    ensures var s := m.stack;
            var v := s[|s| - 1];
            && Execute(m, curr, op, inp).Done?
            && var m' := Execute(m, curr, op, inp).value;
            && m'.stack == s[..|s| - 1]
            && m' == m.(lastCmd := Some(op), stack := m'.stack, output := m'.output)
            && (op == Pop ==> m'.output == m.output)
            && (op == OutNumber ==> m'.output == Some(Number(v)))
            && (op == OutChar ==> m'.output.Some? && m'.output.value.Char?
                                  && (v - m'.output.value.b) % 256 == 0)
  {
  }

  /** PTR turns the DP clockwise by the popped value. A negative value that
      is not a multiple of four away from `Right` panics. Nothing but the
      stack, the DP and the last command changes. */
  lemma PointerEffect(m: Machine, curr: ViewableBlock, inp: InputLine)
    requires |m.stack| >= 1
    ensures var s := m.stack;
            var v := s[|s| - 1];
            var r := Execute(m, curr, Ptr, inp);
            && (r.Panicked? <==> (m.dp.Index() + v < 0 && (m.dp.Index() + v) % 4 != 0))
            && (r.Done? ==> r.value.stack == s[..|s| - 1] && r.value.dp.Index() == (m.dp.Index() + v) % 4)
            && (r.Done? ==> r.value == m.(lastCmd := Some(Ptr), stack := r.value.stack, dp := r.value.dp))
  {
  }

  /** SWITCH flips a `Left`/`Right` chooser exactly when the popped value is
      odd. Nothing but the stack, the CC and the last command changes. */
  lemma SwitchEffect(m: Machine, curr: ViewableBlock, inp: InputLine)
    requires |m.stack| >= 1
    requires m.cc == Left || m.cc == Right
    ensures var s := m.stack;
            var v := s[|s| - 1];
            var r := Execute(m, curr, Switch, inp);
            && r.Done?
            && r.value.stack == s[..|s| - 1]
            && (r.value.cc == m.cc <==> v % 2 == 0)
            && (r.value.cc == Left || r.value.cc == Right)
            && r.value == m.(lastCmd := Some(Switch), stack := r.value.stack, cc := r.value.cc)
  {
  }

  /** PUSH pushes the size of the block being left; INPN and INPC push what
      they read, or record why they could not. */
  lemma PushEffect(m: Machine, curr: ViewableBlock, op: OpCode, inp: InputLine)
    requires op == Push || op == InNumber || op == InChar
    ensures var r := Execute(m, curr, op, inp);
            && (op == Push ==> r == Done(m.(lastCmd := Some(Push), stack := m.stack + [curr.num])))
            && (op != Push && inp.ReadFailed? ==>
                  r == Done(m.(lastCmd := Some(op), error := Some(InputReadFailed))))
            && (op == InNumber && inp.Line? ==>
                  r == Done(if inp.number.Some? then m.(lastCmd := Some(op), stack := m.stack + [inp.number.value])
                            else m.(lastCmd := Some(op), error := Some(InputUnparsable))))
            && (op == InChar && inp.Line? ==>
                  (r.Panicked? <==> inp.firstByte.None?)
                  && (r.Done? ==> r.value == m.(lastCmd := Some(InChar), stack := m.stack + [inp.firstByte.value])))
  {
  }

  /** NOT replaces the top by 1 when it was 0 and by 0 otherwise. Nothing
      but that value and the last command changes. */
  lemma NotEffect(m: Machine, curr: ViewableBlock, inp: InputLine)
    requires |m.stack| >= 1
    ensures var s := m.stack;
            var r := Execute(m, curr, Not, inp);
            && r.Done?
            && |r.value.stack| == |s|
            && r.value.stack[..|s| - 1] == s[..|s| - 1]
            && (r.value.stack[|s| - 1] == 1 <==> s[|s| - 1] == 0)
            && (r.value.stack[|s| - 1] == 0 <==> s[|s| - 1] != 0)
            && r.value == m.(lastCmd := Some(Not), stack := r.value.stack)
  {
  }

  /** NOP changes nothing but the last command, even on an empty stack. */
  lemma NopEffect(m: Machine, curr: ViewableBlock, inp: InputLine)
    ensures Execute(m, curr, Nop, inp) == Done(m.(lastCmd := Some(Nop)))
  {
  }

  /** A command panics only in PTR (rotation out of range), ROLL (depth
      zero) and INPC (nothing read). */
  lemma PanicsExactly(m: Machine, curr: ViewableBlock, op: OpCode, inp: InputLine)
    ensures var s := m.stack;
            Execute(m, curr, op, inp).Panicked? <==>
              || (op == Ptr && |s| >= 1 && RotateDirection(m.dp, s[|s| - 1]).None?)
              || (op == Roll && |s| >= 2 && s[|s| - 1] >= 0 && s[|s| - 2] == 0)
              || (op == InChar && inp.Line? && inp.firstByte.None?)
  {
  }

  /** The chooser stays `Left` or `Right` whatever command runs. */
  lemma ChooserStaysSide(m: Machine, curr: ViewableBlock, op: OpCode, inp: InputLine)
    requires m.cc == Left || m.cc == Right
    requires Execute(m, curr, op, inp).Done?
    ensures Execute(m, curr, op, inp).value.cc == Left || Execute(m, curr, op, inp).value.cc == Right
  {
  }

  // ---------------------------------------------------------------------
  // ROLL
  // ---------------------------------------------------------------------

  /** After `rotate_right(k)` the value at position `i` sits at
      `(i + k) mod n`. */
  lemma RotateRightAt(t: seq<int>, k: nat, i: nat)
    requires k < |t| && i < |t|
    ensures RotateRight(t, k)[(i + k) % |t|] == t[i]
  {
    var n := |t|;
    var r := RotateRight(t, k);
    assert r == t[n - k..] + t[..n - k];
    if i + k < n {
      DivModUnique(i + k, n, 0, i + k);
      assert r[i + k] == t[i];
    } else {
      DivModUnique(i + k, n, 1, i + k - n);
      assert r[i + k - n] == t[i];
    }
  }

  /** Rotating right by `k` and then by `n - k` restores the sequence. */
  lemma RotateRightInverse(t: seq<int>, k: nat)
    requires 0 < |t| && k < |t|
    ensures RotateRight(RotateRight(t, k), (|t| - k) % |t|) == t
  {
    var n := |t|;
    var r := RotateRight(t, k);
    if k == 0 {
      assert (n - k) % n == 0 by { DivModUnique(n - k, n, 1, 0); }
      assert r == t by { assert t[n..] + t[..n] == t; }
      assert RotateRight(r, 0) == r by { assert r[n..] + r[..n] == r; }
    } else {
      assert (n - k) % n == n - k by { DivModUnique(n - k, n, 0, n - k); }
      assert r[k..] == t[..n - k] && r[..k] == t[n - k..];
      assert RotateRight(r, n - k) == r[k..] + r[..k];
      assert t[..n - k] + t[n - k..] == t;
    }
  }

  /** A two-value command with enough values runs `Dyadic` on them. */
  lemma ExecuteDyadic(m: Machine, curr: ViewableBlock, op: OpCode, inp: InputLine)
    requires op == Add || op == Sub || op == Mul || op == Div || op == Mod || op == Gt || op == Roll
    requires |m.stack| >= 2
    ensures var s := m.stack;
            Execute(m, curr, op, inp) == Dyadic(m.(lastCmd := Some(op)), op, s[|s| - 1], s[|s| - 2], s[..|s| - 2])
  {
  }

  /** With valid arguments ROLL consumes its two arguments and rolls the
      `n` values under them by `rolls mod n`. */
  lemma RollStack(m: Machine, curr: ViewableBlock, inp: InputLine)
    requires |m.stack| >= 2
    requires var s := m.stack; s[|s| - 1] >= 0 && 0 < s[|s| - 2] <= |s| - 2
    ensures var s := m.stack;
            var rolls, n := s[|s| - 1], s[|s| - 2];
            Execute(m, curr, Roll, inp) ==
              Done(m.(lastCmd := Some(Roll), stack := Rolled(s[..|s| - 2], rolls % n, n)))
  {
    ExecuteDyadic(m, curr, Roll, inp);
  }

  /** Rotating right by `rolls mod n` moves position `j` to `(j + rolls) mod n`. */
  lemma RotateRightByRolls(t: seq<int>, rolls: nat, j: nat)
    requires 0 < |t| && j < |t|
    ensures RotateRight(t, rolls % |t|)[(j + rolls) % |t|] == t[j]
  {
    var n := |t|;
    var k := rolls % n;
    RotateRightAt(t, k, j);
    assert j + rolls == n * (rolls / n) + (j + k);
    ModAddMultiple(j + k, rolls / n, n);
  }

  /** A roll keeps the values under the top `n` and rotates the top `n`. */
  lemma RolledSplit(s: seq<int>, k: nat, n: nat)
    requires k < n <= |s|
    ensures Rolled(s, k, n)[..|s| - n] == s[..|s| - n]
    ensures Rolled(s, k, n)[|s| - n..] == RotateRight(s[|s| - n..], k)
  {
  }

  /** Rolling the top `n` values `rolls` times keeps the length and every
      value under them, and permutes those `n` values. */
  lemma RolledKeeps(s: seq<int>, rolls: nat, n: nat)
    requires 0 < n <= |s|
    ensures var r := Rolled(s, rolls % n, n);
            && |r| == |s|
            && r[..|s| - n] == s[..|s| - n]
            && multiset(r[|s| - n..]) == multiset(s[|s| - n..])
  {
    RolledSplit(s, rolls % n, n);
  }

  /** Rolling the top `n` values `rolls` times moves the one at position
      `j` forward by `rolls` places, cyclically within the top `n`. */
  lemma RolledMoves(s: seq<int>, rolls: nat, n: nat)
    requires 0 < n <= |s|
    ensures var r := Rolled(s, rolls % n, n);
            forall j :: |s| - n <= j < |s| ==> r[|s| - n + (j - (|s| - n) + rolls) % n] == s[j]
  {
    forall j | |s| - n <= j < |s|
      ensures Rolled(s, rolls % n, n)[|s| - n + (j - (|s| - n) + rolls) % n] == s[j]
    {
      RolledMovesAt(s, rolls, n, j);
    }
  }

  lemma RolledMovesAt(s: seq<int>, rolls: nat, n: nat, j: int)
    requires 0 < n <= |s| && |s| - n <= j < |s|
    ensures Rolled(s, rolls % n, n)[|s| - n + (j - (|s| - n) + rolls) % n] == s[j]
  {
    var cut := |s| - n;
    var t := s[cut..];
    assert |t| == n;
    var i: nat := j - cut;
    var k := rolls % n;
    var p := (i + rolls) % n;
    var rt := RotateRight(t, k);
    assert rt[p] == t[i] by {
      RotateRightByRolls(t, rolls, i);
    }
    var r := Rolled(s, k, n);
    RolledSplit(s, k, n);
    assert r[cut..] == rt;
    assert r[cut + p] == rt[p];
  }

  /** Rolling back by `n - rolls mod n` undoes a roll. */
  lemma RolledInverse(s: seq<int>, rolls: nat, n: nat)
    requires 0 < n <= |s|
    ensures Rolled(Rolled(s, rolls % n, n), (n - rolls % n) % n, n) == s
  {
    var cut := |s| - n;
    var t := s[cut..];
    var k := rolls % n;
    var k' := (n - k) % n;
    var r := Rolled(s, k, n);
    RolledSplit(s, k, n);
    RolledSplit(r, k', n);
    RotateRightInverse(t, k);
    assert s[..cut] + t == s;
  }

  /** ROLL with a negative roll count, a negative depth or too few values
      consumes its two arguments and records no error. */
  lemma RollRejected(m: Machine, curr: ViewableBlock, inp: InputLine)
    requires |m.stack| >= 2
    requires var s := m.stack; s[|s| - 1] < 0 || s[|s| - 2] < 0 || s[|s| - 2] > |s| - 2
    ensures Execute(m, curr, Roll, inp) == Done(m.(lastCmd := Some(Roll), stack := m.stack[..|m.stack| - 2]))
  {
  }

  /** One roll to depth three: [..., a, b, c] becomes [..., c, a, b]. */
  lemma RolledOnceDepthThree(below: seq<int>, a: int, b: int, c: int)
    ensures Rolled(below + [a, b, c], 1 % 3, 3) == below + [c, a, b]
  {
    var rest := below + [a, b, c];
    var r := Rolled(rest, 1, 3);
    assert r[..|rest| - 3] == below by {
      RolledSplit(rest, 1, 3);
      assert rest[..|rest| - 3] == below;
    }
    assert r[|rest| - 3..] == [c, a, b] by {
      RolledSplit(rest, 1, 3);
      assert rest[|rest| - 3..] == [a, b, c];
      var t := [a, b, c];
      assert t[2..] == [c] && t[..2] == [a, b];
    }
    assert r == r[..|rest| - 3] + r[|rest| - 3..];
  }

  /** The same, run as the command on a stack holding the arguments 3
      (depth) and 1 (rolls) on top. */
  lemma RollOnceDepthThree(m: Machine, curr: ViewableBlock, inp: InputLine, below: seq<int>, a: int, b: int, c: int)
    requires m.stack == below + [a, b, c, 3, 1]
    ensures Execute(m, curr, Roll, inp) == Done(m.(lastCmd := Some(Roll), stack := below + [c, a, b]))
  {
    var s := m.stack;
    assert s[|s| - 1] == 1 && s[|s| - 2] == 3 && s[..|s| - 2] == below + [a, b, c];
    RollStack(m, curr, inp);
    RolledOnceDepthThree(below, a, b, c);
  }
}
