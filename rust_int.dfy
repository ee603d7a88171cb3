/** Rust's signed `/` and `%`, which truncate toward zero. Dafny's own `/` and
    `%` on `int` are Euclidean, so the interpreter's arithmetic is written out
    here. Integer width (i32 overflow) is not modelled. */
module RustInt {

  function Abs(a: int): nat
  {
    if a < 0 then -a else a
  }

  /** The quotient of two naturals is a natural. Calling this in `Quot`
      hands the solver the fact by itself; proving it there in place runs out
      of resource. */
  lemma QuotientNonNegative(n: nat, d: nat)
    requires d > 0
    ensures n / d >= 0
  {
  }

  /** `a / b` in Rust: the quotient rounded toward zero. */
  function Quot(a: int, b: int): (q: int)
    requires b != 0
    ensures Abs(q) == Abs(a) / Abs(b)
    ensures (a < 0) == (b < 0) ==> q >= 0
    ensures (a < 0) != (b < 0) ==> q <= 0
  {
    QuotientNonNegative(Abs(a), Abs(b));
    var q := Abs(a) / Abs(b);
    if (a < 0) == (b < 0) then q else -q
  }

  /** `a % b` in Rust: the remainder, which takes the sign of the dividend. */
  function Rem(a: int, b: int): (r: int)
    requires b != 0
    ensures Abs(r) < Abs(b)
    ensures r == 0 || ((r < 0) <==> (a < 0))
    ensures a >= 0 ==> r == a % Abs(b)
    ensures r == a - b * Quot(a, b)
  {
    TruncatedRemainder(a, b);
    var r := Abs(a) % Abs(b);
    if a < 0 then -r else r
  }

  /** Quotient and remainder recompose the dividend, as Rust guarantees. */
  lemma DivisionIdentity(a: int, b: int)
    requires b != 0
    ensures a == b * Quot(a, b) + Rem(a, b)
  {
  }

  /** What the dividend leaves after the truncated quotient is the remainder
      of the magnitudes, with the dividend's sign. */
  lemma TruncatedRemainder(a: int, b: int)
    requires b != 0
    ensures a - b * Quot(a, b) == if a < 0 then -(Abs(a) % Abs(b)) else Abs(a) % Abs(b)
  {
    var q, r := Abs(a) / Abs(b), Abs(a) % Abs(b);
    assert Abs(a) == Abs(b) * q + r;
    if a < 0 && b < 0 {
      assert b * q == -(Abs(b) * q);
    } else if a < 0 {
      assert b * -q == -(Abs(b) * q);
    } else if b < 0 {
      assert b * -q == Abs(b) * q;
    }
  }

  // ---------------------------------------------------------------------
  // Euclidean division facts used by the proofs
  // ---------------------------------------------------------------------

  /** The only multiple of `n` strictly between `-n` and `n` is zero. */
  lemma SmallMultiple(n: int, m: int, e: int)
    requires n > 0 && n * m == e && -n < e < n
    ensures m == 0
  {
  }

  /** Quotient and remainder are unique. */
  lemma DivModUnique(x: int, n: int, q: int, r: int)
    requires n > 0 && 0 <= r < n && x == n * q + r
    ensures x / n == q && x % n == r
  {
    var q', r' := x / n, x % n;
    assert n * q' + r' == n * q + r;
    assert n * (q - q') == r' - r;
    SmallMultiple(n, q - q', r' - r);
  }

  /** Adding a multiple of `n` does not change the remainder. */
  lemma ModAddMultiple(x: int, q: int, n: int)
    requires n > 0
    ensures (n * q + x) % n == x % n
  {
    var k := x / n;
    assert x == n * k + x % n;
    assert n * q + x == n * (q + k) + x % n;
    DivModUnique(n * q + x, n, q + k, x % n);
  }
}
