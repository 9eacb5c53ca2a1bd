/** The integer arithmetic behind the element-wise operators of `vec<int>`:
    C++ integer division (which truncates toward zero) and the sequences that
    `+`, `-`, `*` and `/` compute, each defined the way the operators build
    their results, one `push_back` at a time from the front. */
module Elementwise {

  function Abs(x: int): (r: nat)
    ensures r == x || r == -x
  {
    if x < 0 then -x else x
  }

  /** The remainder `a % b` that goes with C++'s truncating quotient `q`:
      `a == q * b + remainder`, with the remainder smaller than `b` in
      magnitude and carrying the sign of `a` (or zero). */
  ghost predicate IsTruncatedQuotient(a: int, b: int, q: int)
  {
    var m := a - q * b;
    Abs(m) < Abs(b) && (m == 0 || (m < 0 <==> a < 0))
  }

  /** C++ `a / b` on `int`: the quotient rounded toward zero. Dafny's own `/`
      is Euclidean and differs from it for negative operands. */
  function TruncDiv(a: int, b: int): (q: int)
    requires b != 0
    ensures IsTruncatedQuotient(a, b, q)
  {
    var m := Abs(a) / Abs(b);
    TruncDivCorrect(a, b, m);
    if (a < 0) == (b < 0) then m else -m
  }

  lemma DivModNat(x: nat, y: nat)
    requires y > 0
    ensures x == (x / y) * y + x % y && 0 <= x % y < y
  {}

  /** Rounding the magnitude down and restoring the sign leaves a remainder
      of the dividend's sign. */
  lemma TruncDivCorrect(a: int, b: int, m: int)
    requires b != 0 && m == Abs(a) / Abs(b)
    ensures IsTruncatedQuotient(a, b, if (a < 0) == (b < 0) then m else -m)
  {
    var t := Abs(a) % Abs(b);
    DivModNat(Abs(a), Abs(b));
    var p := m * Abs(b);
    assert Abs(a) == p + t;
    MulNeg(m, b);
    if b > 0 {
      assert m * b == p;
      assert (-m) * b == -p;
    } else {
      MulNeg(m, -b);
      assert m * b == -p;
      assert (-m) * b == p;
    }
  }

  /** A nonzero integer multiple of `b` is at least `b` in magnitude. */
  lemma MultipleMagnitude(d: int, b: int)
    requires d != 0
    ensures Abs(d * b) >= Abs(b)
  {
    MulNeg(d, b);
    MulNeg(-d, b);
    if d > 0 {
      MulAtLeast(d, Abs(b));
      MulNeg(d, -b);
    } else {
      MulAtLeast(-d, Abs(b));
      MulNeg(-d, -b);
    }
  }

  /** The truncating quotient is the only integer with that remainder. */
  lemma TruncatedQuotientUnique(a: int, b: int, q: int)
    requires b != 0 && IsTruncatedQuotient(a, b, q)
    ensures q == TruncDiv(a, b)
  {
    var p := TruncDiv(a, b);
    var m1, m2 := a - q * b, a - p * b;
    MulSubDistrib(p, q, b);
    assert (p - q) * b == m1 - m2;
    // both remainders lie on a's side of zero, so they differ by less than |b|
    RemaindersClose(a, b, m1, m2);
    if p != q {
      MultipleMagnitude(p - q, b);
    }
  }

  lemma RemaindersClose(a: int, b: int, m1: int, m2: int)
    requires Abs(m1) < Abs(b) && (m1 == 0 || (m1 < 0 <==> a < 0))
    requires Abs(m2) < Abs(b) && (m2 == 0 || (m2 < 0 <==> a < 0))
    ensures Abs(m1 - m2) < Abs(b)
  {}

  lemma MulSubDistrib(p: int, q: int, b: int)
    ensures (p - q) * b == p * b - q * b
  {}

  /** Scaling by `k` and then dividing by `k` gives back the element. */
  lemma TruncDivOfMultiple(x: int, k: int)
    requires k != 0
    ensures TruncDiv(x * k, k) == x
  {
    TruncatedQuotientUnique(x * k, k, x);
  }

  /** On a multiple of `k`, truncating and Euclidean division agree. */
  lemma TruncDivExact(x: int, k: int)
    requires k != 0 && x % k == 0
    ensures TruncDiv(x, k) * k == x
  {
    assert x == (x / k) * k;
    TruncatedQuotientUnique(x, k, x / k);
  }

  /** The elements of `a + b`, pairwise. */
  function Sum(a: seq<int>, b: seq<int>): (r: seq<int>)
    requires |a| == |b|
    ensures |r| == |a|
    ensures forall i :: 0 <= i < |a| ==> r[i] == a[i] + b[i]
  {
    if a == [] then []
    else Sum(a[..|a| - 1], b[..|b| - 1]) + [a[|a| - 1] + b[|b| - 1]]
  }

  /** The elements of `a - b`, pairwise. */
  function Difference(a: seq<int>, b: seq<int>): (r: seq<int>)
    requires |a| == |b|
    ensures |r| == |a|
    ensures forall i :: 0 <= i < |a| ==> r[i] == a[i] - b[i]
  {
    if a == [] then []
    else Difference(a[..|a| - 1], b[..|b| - 1]) + [a[|a| - 1] - b[|b| - 1]]
  }

  /** The elements of `a * k`. */
  function Scaled(a: seq<int>, k: int): (r: seq<int>)
    ensures |r| == |a|
    ensures forall i :: 0 <= i < |a| ==> r[i] == a[i] * k
  {
    if a == [] then []
    else Scaled(a[..|a| - 1], k) + [a[|a| - 1] * k]
  }

  /** The elements of `a / k`, each divided as C++ divides an `int`. */
  function Quotient(a: seq<int>, k: int): (r: seq<int>)
    requires k != 0
    ensures |r| == |a|
    ensures forall i :: 0 <= i < |a| ==> r[i] == TruncDiv(a[i], k)
  {
    if a == [] then []
    else Quotient(a[..|a| - 1], k) + [TruncDiv(a[|a| - 1], k)]
  }

  /** Subtracting what was added restores the left operand. */
  lemma DifferenceOfSum(a: seq<int>, b: seq<int>)
    requires |a| == |b|
    ensures Difference(Sum(a, b), b) == a
  {
  }

  /** Adding back what was subtracted restores the left operand. */
  lemma SumOfDifference(a: seq<int>, b: seq<int>)
    requires |a| == |b|
    ensures Sum(Difference(a, b), b) == a
  {
  }

  /** `(v * k) / k == v` for every nonzero `k`. */
  lemma QuotientOfScaled(a: seq<int>, k: int)
    requires k != 0
    ensures Quotient(Scaled(a, k), k) == a
  {
    var s := Scaled(a, k);
    var r := Quotient(s, k);
    forall i | 0 <= i < |a|
      ensures r[i] == a[i]
    {
      TruncDivOfMultiple(a[i], k);
    }
  }

  /** `(v / k) * k == v` holds exactly when every element is a multiple of
      `k`: integer division truncates, so the converse fails on remainders. */
  lemma ScaledOfQuotient(a: seq<int>, k: int)
    requires k != 0
    ensures Scaled(Quotient(a, k), k) == a <==> forall i :: 0 <= i < |a| ==> a[i] % k == 0
  {
    var r := Scaled(Quotient(a, k), k);
    if forall i :: 0 <= i < |a| ==> a[i] % k == 0 {
      forall i | 0 <= i < |a|
        ensures r[i] == a[i]
      {
        TruncDivExact(a[i], k);
      }
    } else {
      var i :| 0 <= i < |a| && a[i] % k != 0;
      NotMultipleNotRestored(a[i], k, TruncDiv(a[i], k));
      assert r[i] != a[i];
    }
  }

  /** No integer times `k` is an `x` that `k` does not divide. */
  lemma NotMultipleNotRestored(x: int, k: int, q: int)
    requires k != 0 && x % k != 0
    ensures q * k != x
  {
    var e, r := x / k, x % k;
    assert x == e * k + r && 0 < r < Abs(k);
    if q * k == x {
      assert (q - e) * k == r;
      MultipleMagnitude(q - e, k);
    }
  }

  lemma MulNeg(x: int, y: int)
    ensures (-x) * y == -(x * y) && x * (-y) == -(x * y)
  {}

  lemma MulNonneg(x: int, y: int)
    requires x >= 0 && y >= 0
    ensures x * y >= 0
  {}

  lemma MulAtLeast(d: int, y: int)
    requires d >= 1 && y >= 0
    ensures d * y >= y
  {
    assert d * y == (d - 1) * y + y;
    MulNonneg(d - 1, y);
  }
}
