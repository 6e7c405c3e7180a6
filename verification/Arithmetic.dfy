/** Divisibility and powers of two, as the alignment arithmetic of the library needs them. */
module Arithmetic {

  lemma {:induction false} MulAtLeast(d: nat, k: nat)
    requires 1 <= k
    ensures d <= d * k
    decreases k
  {
    if k > 1 {
      MulAtLeast(d, k - 1);
      assert d * k == d * (k - 1) + d;
    }
  }

  lemma NoMultipleWithin(d: int, k: int, r: int)
    requires -d < r < d && d * k == r
    ensures k == 0
  {
    if k > 0 { MulAtLeast(d, k); }
  }

  lemma ModUnique(x: int, d: nat, q: int, r: nat)
    requires r < d && x == d * q + r
    ensures x % d == r && x / d == q
  {
    var q', r' := x / d, x % d;
    assert x == d * q' + r';
    assert d * (q - q') == d * q - d * q';
    NoMultipleWithin(d, q - q', r' - r);
  }

  predicate Divides(d: nat, x: int)
    requires 0 < d
  {
    x % d == 0
  }

  lemma Multiple(d: nat, q: int)
    requires 0 < d
    ensures Divides(d, d * q)
  {
    ModUnique(d * q, d, q, 0);
  }

  lemma DividesSum(d: nat, x: int, y: int)
    requires 0 < d && Divides(d, x) && Divides(d, y)
    ensures Divides(d, x + y) && Divides(d, x - y)
  {
    var p, q := x / d, y / d;
    assert d * (p + q) == d * p + d * q == x + y;
    assert d * (p - q) == d * p - d * q == x - y;
    Multiple(d, p + q);
    Multiple(d, p - q);
  }

  lemma DividesThrough(d: nat, e: nat, x: int)
    requires 0 < d && 0 < e && Divides(d, e) && Divides(e, x)
    ensures Divides(d, x)
  {
    var p, q := e / d, x / e;
    assert x == d * p * q == d * (p * q);
    Multiple(d, p * q);
  }

  /** The remainder differs from the dividend by a multiple. */
  lemma RemainderCongruent(x: int, d: nat)
    requires 0 < d
    ensures Divides(d, x - x % d)
  {
    assert x - x % d == d * (x / d);
    Multiple(d, x / d);
  }

  /** Numbers that differ by a multiple have the same remainder. */
  lemma CongruentRemainder(x: int, y: int, d: nat)
    requires 0 < d && Divides(d, x - y)
    ensures x % d == y % d
  {
    var q, k := y / d, (x - y) / d;
    assert d * (q + k) == d * q + d * k;
    ModUnique(x, d, q + k, y % d);
  }

  /** A non-negative number below `d` that `d` divides is zero; a multiple in `[d, 2d)` is `d`. */
  lemma SmallMultiple(d: nat, x: nat)
    requires 0 < d && x < 2 * d && Divides(d, x)
    ensures x == 0 || x == d
  {
    if x >= d { ModUnique(x, d, 1, x - d); } else { ModUnique(x, d, 0, x); }
  }

  /** A multiple of `d` below a multiple `e` of `d` stays at least `d` below it. */
  lemma MultipleGap(d: nat, e: int, x: int)
    requires 0 < d && Divides(d, e) && Divides(d, x) && x < e
    ensures x <= e - d
  {
    DividesSum(d, e, x);
    if e - x < d { ModUnique(e - x, d, 0, e - x); }
  }

  predicate PowerOfTwo(a: nat) {
    a == 1 || (a > 1 && a % 2 == 0 && PowerOfTwo(a / 2))
  }

  /** Of two powers of two the smaller divides the larger. */
  lemma {:induction false} PowersDivide(a: nat, b: nat)
    requires PowerOfTwo(a) && PowerOfTwo(b) && a <= b
    ensures Divides(a, b)
    decreases a
  {
    if a == 1 {
    } else {
      PowersDivide(a / 2, b / 2);
      var q := (b / 2) / (a / 2);
      assert b / 2 == (a / 2) * q;
      assert b == a * q;
      Multiple(a, q);
    }
  }

  /** Distinct powers of two are at least a factor of two apart. */
  lemma {:induction false} PowersApart(a: nat, b: nat)
    requires PowerOfTwo(a) && PowerOfTwo(b) && a < b
    ensures 2 * a <= b && Divides(2 * a, b)
    decreases a
  {
    if a > 1 { PowersApart(a / 2, b / 2); }
    assert PowerOfTwo(2 * a);
    PowersDivide(2 * a, b);
  }
}
