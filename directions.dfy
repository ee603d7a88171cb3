/** The direction pointer (DP) and codel chooser (CC) of the Piet engine
    (src/cpu.rs): both are `Direction`s; the CC only ever takes `Left` and
    `Right`. */
module Directions {
  import opened Wrappers
  import RustInt

  /** The four directions, clockwise, numbered by their `repr(i32)` values. */
  datatype Direction = Right | Down | Left | Up {
    function Index(): (i: nat)
      ensures i < 4
    {
      match this
      case Right => 0
      case Down => 1
      case Left => 2
      case Up => 3
    }
  }

  function FromIndex(i: int): (d: Direction)
    requires 0 <= i < 4
    ensures d.Index() == i
  {
    if i == 0 then Right else if i == 1 then Down else if i == 2 then Left else Up
  }

  /** `rotate_direction`: `times` clockwise quarter turns. The match is on
      Rust's `(d + times) % 4`, which is negative for a negative sum that is
      not a multiple of four; that value reaches the panicking arm, modelled
      as `None`. */
  function RotateDirection(d: Direction, times: int): (r: Option<Direction>)
    ensures r.Some? <==> (d.Index() + times >= 0 || (d.Index() + times) % 4 == 0)
    ensures r.Some? ==> r.value.Index() == (d.Index() + times) % 4
  {
    var sum := d.Index() + times;
    var k := RustInt.Rem(sum, 4);
    RemByFour(sum);
    if k < 0 then None else Some(FromIndex(k))
  }

  /** Rust's remainder by four agrees with the Euclidean one exactly when it
      is not negative. */
  lemma RemByFour(a: int)
    ensures RustInt.Rem(a, 4) >= 0 <==> (a >= 0 || a % 4 == 0)
    ensures RustInt.Rem(a, 4) >= 0 ==> RustInt.Rem(a, 4) == a % 4
  {
    if a < 0 {
      var n := -a;
      var q := n / 4;
      assert n == 4 * q + n % 4;
      assert a == 4 * (-q) - n % 4;
      if n % 4 == 0 {
        assert a % 4 == 0;
      } else {
        assert a == 4 * (-q - 1) + (4 - n % 4);
        assert a % 4 == 4 - n % 4;
      }
    }
  }

  /** One clockwise quarter turn, which never panics. */
  function Clockwise(d: Direction): (r: Direction)
    ensures r.Index() == (d.Index() + 1) % 4
  {
    RotateDirection(d, 1).value
  }

  /** `switch_codel`: the chooser flips between `Left` and `Right` when
      `|times|` is odd (any direction other than `Left` becomes `Left`), and
      stays put when it is even. */
  function SwitchCodel(c: Direction, times: int): (r: Direction)
    ensures times % 2 == 0 ==> r == c
    ensures times % 2 != 0 ==> r != c && (r == Left || r == Right)
  {
    var t := if times < 0 then -times else times;
    assert t % 2 == times % 2 by { NegateParity(times); }
    if RustInt.Rem(t, 2) == 0 then c
    else if c == Left then Right
    else Left
  }

  lemma NegateParity(a: int)
    ensures (-a) % 2 == a % 2
  {
    var q := a / 2;
    assert a == 2 * q + a % 2;
    if a % 2 == 1 {
      assert -a == 2 * (-q - 1) + 1;
    } else {
      assert -a == 2 * (-q);
    }
  }

  // ---------------------------------------------------------------------
  // Laws of the two operations
  // ---------------------------------------------------------------------

  /** Rotating by a non-negative amount never panics and lands on the
      direction `times` steps clockwise. */
  lemma RotateNonNegative(d: Direction, times: nat)
    ensures RotateDirection(d, times) == Some(FromIndex((d.Index() + times) % 4))
  {
  }

  /** A negative rotation panics exactly when it does not bring the pointer
      back to `Right`: e.g. a single counter-clockwise turn from `Right`. */
  lemma RotateNegativePanics(d: Direction, times: int)
    requires d.Index() + times < 0
    ensures RotateDirection(d, times).None? <==> (d.Index() + times) % 4 != 0
    ensures RotateDirection(d, times).Some? ==> RotateDirection(d, times) == Some(Right)
  {
  }

  /** Two rotations by non-negative amounts compose into one. */
  lemma {:induction false} RotateCompose(d: Direction, a: nat, b: nat)
    ensures RotateDirection(RotateDirection(d, a).value, b) == RotateDirection(d, a + b)
  {
    var i := d.Index();
    var j := (i + a) % 4;
    assert i + a == 4 * ((i + a) / 4) + j;
    assert i + a + b == 4 * ((i + a) / 4) + (j + b);
    RustInt.ModAddMultiple(j + b, (i + a) / 4, 4);
  }

  /** A direction is determined by its number. */
  lemma IndexInjective(a: Direction, b: Direction)
    requires a.Index() == b.Index()
    ensures a == b
  {
  }

  /** Four quarter turns bring the pointer back where it started. */
  lemma FourQuarterTurns(d: Direction)
    ensures Clockwise(Clockwise(Clockwise(Clockwise(d)))) == d
  {
    ClockwiseCycle();
  }

  /** The clockwise order of the four directions. */
  lemma ClockwiseCycle()
    ensures Clockwise(Right) == Down && Clockwise(Down) == Left
    ensures Clockwise(Left) == Up && Clockwise(Up) == Right
  {
    IndexInjective(Clockwise(Right), Down);
    IndexInjective(Clockwise(Down), Left);
    IndexInjective(Clockwise(Left), Up);
    IndexInjective(Clockwise(Up), Right);
  }

  /** Two single switches undo each other on a chooser that is `Left` or
      `Right`. */
  lemma SwitchTwice(c: Direction)
    requires c == Left || c == Right
    ensures SwitchCodel(SwitchCodel(c, 1), 1) == c
  {
  }

  /** Switching by `a` and then `b` is switching by `a + b`: only the parity
      of the total counts. */
  lemma SwitchCompose(c: Direction, a: int, b: int)
    requires c == Left || c == Right
    ensures SwitchCodel(SwitchCodel(c, a), b) == SwitchCodel(c, a + b)
  {
    var qa, qb := a / 2, b / 2;
    assert a == 2 * qa + a % 2;
    assert b == 2 * qb + b % 2;
    if a % 2 == 1 && b % 2 == 1 {
      assert a + b == 2 * (qa + qb + 1);
    } else {
      assert a + b == 2 * (qa + qb) + (a % 2 + b % 2);
    }
  }

  // ---------------------------------------------------------------------
  // The schedule of `try_step`
  // ---------------------------------------------------------------------

  /** The DP in force at attempt `i` (0-based) of `try_step`: one clockwise
      turn after every second failed attempt. */
  function DpAt(dp: Direction, i: nat): (r: Direction)
    ensures r.Index() == (dp.Index() + i / 2) % 4
  {
    RotateDirection(dp, i / 2).value
  }

  /** The CC in force at attempt `i`: one switch after every failed attempt. */
  function CcAt(cc: Direction, i: nat): (r: Direction)
    ensures i % 2 == 0 ==> r == cc
    ensures i % 2 == 1 ==> r != cc && (r == Left || r == Right)
  {
    SwitchCodel(cc, i)
  }

  /** The schedule advances as the loop body does: after a failed attempt
      `i` the CC is switched once and, when `i` is odd, the DP turned once. */
  lemma ScheduleStep(dp: Direction, cc: Direction, i: nat)
    requires cc == Left || cc == Right
    ensures CcAt(cc, i + 1) == SwitchCodel(CcAt(cc, i), 1)
    ensures DpAt(dp, i + 1) == if i % 2 == 1 then Clockwise(DpAt(dp, i)) else DpAt(dp, i)
  {
    SwitchCompose(cc, i, 1);
    if i % 2 == 1 {
      RotateCompose(dp, i / 2, 1);
      assert (i + 1) / 2 == i / 2 + 1;
    } else {
      assert (i + 1) / 2 == i / 2;
    }
  }

  /** The eight attempts of `try_step` try every DP/CC combination once. */
  lemma ScheduleCoversAll(dp: Direction, cc: Direction, d: Direction, c: Direction)
    requires cc == Left || cc == Right
    requires c == Left || c == Right
    ensures exists i :: 0 <= i < 8 && DpAt(dp, i) == d && CcAt(cc, i) == c
  {
    var k := if d.Index() >= dp.Index() then d.Index() - dp.Index() else d.Index() - dp.Index() + 4;
    var i := 2 * k + (if c == cc then 0 else 1);
    assert i / 2 == k;
    assert (dp.Index() + k) % 4 == d.Index();
    IndexInjective(DpAt(dp, i), d);
    assert CcAt(cc, i) == c;
  }

  /** After eight failed attempts both pointers are back where they started. */
  lemma ScheduleRestores(dp: Direction, cc: Direction)
    requires cc == Left || cc == Right
    ensures DpAt(dp, 8) == dp && CcAt(cc, 8) == cc
  {
    IndexInjective(DpAt(dp, 8), dp);
  }
}
