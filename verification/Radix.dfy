/** Positional numbers: the value of a digit sequence in a radix, its weighted sum
    around a decimal point, and the uniqueness of the canonical form. Every decimal
    representation of the connector is read through these definitions. */
module Radix {

  function Pow(b: nat, n: nat): (r: nat)
    ensures b > 0 ==> r > 0
  {
    if n == 0 then 1 else b * Pow(b, n - 1)
  }

  lemma MulAssoc(a: int, b: int, c: int)
    ensures a * (b * c) == (a * b) * c
  {
  }

  lemma MulLess(a: nat, b: nat, c: nat)
    requires a <= b
    ensures a * c <= b * c
  {
  }

  lemma MulPred(k: int, x: int)
    ensures k * (x - 1) == k * x - k
  {
  }

  lemma {:induction false} PowAdd(b: nat, m: nat, n: nat)
    ensures Pow(b, m + n) == Pow(b, m) * Pow(b, n)
  {
    if m > 0 {
      PowAdd(b, m - 1, n);
      MulAssoc(b, Pow(b, m - 1), Pow(b, n));
    }
  }

  lemma {:induction false} PowPow(b: nat, m: nat, n: nat)
    ensures Pow(Pow(b, m), n) == Pow(b, m * n)
  {
    if n > 0 {
      PowPow(b, m, n - 1);
      PowAdd(b, m, m * (n - 1));
      assert m * n == m + m * (n - 1);
    }
  }

  lemma {:induction false} PowMonotone(b: nat, m: nat, n: nat)
    requires b > 1 && m < n
    ensures b * Pow(b, m) <= Pow(b, n)
  {
    if m + 1 < n {
      PowMonotone(b, m, n - 1);
      MulLess(1, b, Pow(b, n - 1));
    }
  }

  // ----- the natural number written by a digit sequence, most significant digit first

  function Num(s: seq<nat>, b: nat): nat
  {
    if s == [] then 0 else Num(s[..|s| - 1], b) * b + s[|s| - 1]
  }

  ghost predicate Below(s: seq<nat>, b: nat)
  {
    forall i :: 0 <= i < |s| ==> s[i] < b
  }

  ghost predicate AllZero(s: seq<nat>)
  {
    forall i :: 0 <= i < |s| ==> s[i] == 0
  }

  lemma NumSnoc(s: seq<nat>, d: nat, b: nat)
    ensures Num(s + [d], b) == Num(s, b) * b + d
  {
    assert (s + [d])[..|s|] == s;
  }

  lemma NumSingle(d: nat, b: nat)
    ensures Num([d], b) == d
  {
    assert [d][..0] == [];
    ZeroTimes(b);
  }

  lemma NumCons(d: nat, s: seq<nat>, b: nat)
    ensures Num([d] + s, b) == d * Pow(b, |s|) + Num(s, b)
  {
    hide Num, Pow;
    NumConcat([d], s, b);
    NumSingle(d, b);
  }

  lemma {:induction false} NumConcat(s: seq<nat>, t: seq<nat>, b: nat)
    ensures Num(s + t, b) == Num(s, b) * Pow(b, |t|) + Num(t, b)
  {
    if t == [] {
      assert s + t == s;
    } else {
      var last := |t| - 1;
      assert (s + t)[..|s + t| - 1] == s + t[..last];
      NumConcat(s, t[..last], b);
      assert Pow(b, |t|) == b * Pow(b, last);
      NumConcatStep(Num(s, b), Pow(b, last), b, Num(t[..last], b), t[last]);
    }
  }

  lemma NumConcatStep(n: nat, p: nat, b: nat, m: nat, d: nat)
    ensures (n * p + m) * b + d == n * (b * p) + (m * b + d)
  {
    MulAssoc(n, p, b);
  }

  lemma NumSplit(s: seq<nat>, i: nat, b: nat)
    requires i <= |s|
    ensures Num(s, b) == Num(s[..i], b) * Pow(b, |s| - i) + Num(s[i..], b)
  {
    assert s == s[..i] + s[i..];
    NumConcat(s[..i], s[i..], b);
  }

  lemma {:induction false} NumZero(s: seq<nat>, b: nat)
    requires AllZero(s)
    ensures Num(s, b) == 0
  {
    if s != [] { NumZero(s[..|s| - 1], b); }
  }

  lemma NumDropZeros(s: seq<nat>, i: nat, b: nat)
    requires i <= |s| && AllZero(s[..i])
    ensures Num(s, b) == Num(s[i..], b)
  {
    NumSplit(s, i, b);
    NumZero(s[..i], b);
    ZeroTimes(Pow(b, |s| - i));
  }

  lemma NumTrimZeros(s: seq<nat>, i: nat, b: nat)
    requires i <= |s| && AllZero(s[i..])
    ensures Num(s, b) == Num(s[..i], b) * Pow(b, |s| - i)
  {
    NumSplit(s, i, b);
    NumZero(s[i..], b);
  }

  lemma ZeroTimes(p: int)
    ensures 0 * p == 0
  {
  }

  lemma {:induction false} NumBound(s: seq<nat>, b: nat)
    requires b > 0 && Below(s, b)
    ensures Num(s, b) < Pow(b, |s|)
  {
    if s != [] {
      var last := |s| - 1;
      NumBound(s[..last], b);
      BoundStep(Num(s[..last], b), Pow(b, last), b, s[last]);
    }
  }

  lemma BoundStep(n: nat, p: nat, b: nat, d: nat)
    requires n < p && d < b
    ensures n * b + d < b * p
  {
    MulLess(n + 1, p, b);
  }

  lemma {:induction false} NumUnique(s: seq<nat>, t: seq<nat>, b: nat)
    requires b > 0 && Below(s, b) && Below(t, b) && |s| == |t|
    requires Num(s, b) == Num(t, b)
    ensures s == t
  {
    if s != [] {
      var last := |s| - 1;
      DivModUnique(Num(s[..last], b), Num(t[..last], b), s[last], t[last], b);
      NumUnique(s[..last], t[..last], b);
      assert s == s[..last] + [s[last]];
      assert t == t[..last] + [t[last]];
    }
  }

  lemma DivModUnique(p: int, q: int, x: nat, y: nat, b: nat)
    requires x < b && y < b && p * b + x == q * b + y
    ensures p == q && x == y
  {
    if p < q {
      MulLessInt(p + 1, q, b);
    } else if q < p {
      MulLessInt(q + 1, p, b);
    }
  }

  lemma DivisionUnique(n: int, k: int, q: int, r: int)
    requires k > 0 && n == k * q + r && 0 <= r < k
    ensures n / k == q && n % k == r
  {
    assert n == n / k * k + n % k;
    DivModUnique(n / k, q, n % k, r, k);
  }

  lemma MulLessInt(a: int, b: int, c: nat)
    requires a <= b
    ensures a * c <= b * c
  {
  }

  /** A nonzero leading digit pins the magnitude from below. */
  lemma NumLeading(s: seq<nat>, b: nat)
    requires b > 0 && s != [] && s[0] > 0
    ensures Num(s, b) >= Pow(b, |s| - 1)
  {
    NumSplit(s, 1, b);
    assert s[..1] == [s[0]];
    assert Num(s[..1], b) == s[0] by { assert s[..1][..0] == []; }
    MulLess(1, s[0], Pow(b, |s| - 1));
  }

  /** A number below b^k has only zeros above its last k digits. */
  lemma {:induction false} SmallHasLeadingZeros(s: seq<nat>, k: nat, b: nat)
    requires b > 1 && k <= |s| && Num(s, b) < Pow(b, k)
    ensures AllZero(s[..|s| - k])
  {
    if k < |s| {
      if s[0] > 0 {
        NumLeading(s, b);
        if k < |s| - 1 { PowMonotone(b, k, |s| - 1); MulLess(1, b, Pow(b, k)); }
        assert false;
      }
      NumSplit(s, 1, b);
      NumZero(s[..1], b);
      SmallHasLeadingZeros(s[1..], k, b);
      var rest := s[1..];
      var zeros := s[..|s| - k];
      forall i | 0 <= i < |zeros| ensures zeros[i] == 0 {
        if i > 0 { assert rest[..|rest| - k][i - 1] == s[i]; }
      }
    }
  }

  /** A multiple of b^k ends in k zero digits. */
  lemma {:induction false} MultipleHasTrailingZeros(s: seq<nat>, k: nat, b: nat)
    requires b > 1 && Below(s, b) && k <= |s| && Num(s, b) % Pow(b, k) == 0
    ensures AllZero(s[|s| - k..])
  {
    var hi, lo := s[..|s| - k], s[|s| - k..];
    NumSplit(s, |s| - k, b);
    NumBound(lo, b);
    ModZero(Num(s, b), Pow(b, k), Num(hi, b), Num(lo, b));
    ZeroNumIsAllZero(lo, b);
  }

  lemma ModZero(n: nat, p: nat, q: nat, r: nat)
    requires p > 0 && n % p == 0 && n == q * p + r && r < p
    ensures r == 0
  {
    assert n == (n / p) * p;
    DivModUnique(n / p, q, 0, r, p);
  }

  lemma {:induction false} ZeroNumIsAllZero(s: seq<nat>, b: nat)
    requires b > 0 && Num(s, b) == 0
    ensures AllZero(s)
  {
    if s != [] {
      var last := |s| - 1;
      if Num(s[..last], b) > 0 { MulLess(1, Num(s[..last], b), b); }
      ZeroNumIsAllZero(s[..last], b);
      forall i | 0 <= i < |s| ensures s[i] == 0 {
        if i < last { assert s[..last][i] == 0; }
      }
    }
  }

  // ----- scaled values

  /** Ten to an integer power, as a real. */
  ghost function Ten(e: int): (r: real)
    ensures r > 0.0
    decreases if e >= 0 then e else -e
  {
    if e == 0 then 1.0
    else if e > 0 then 10.0 * Ten(e - 1)
    else Ten(e + 1) / 10.0
  }

  ghost function Scaled(n: int, e: int): real
  {
    n as real * Ten(e)
  }

  lemma TenStep(e: int)
    ensures Ten(e + 1) == 10.0 * Ten(e)
  {
  }

  lemma RealCancelRight(p: real, x: real, y: real)
    requires p != 0.0 && x * p == y * p
    ensures x == y
  {
  }

  lemma ScaledStep(n: int, e: int)
    ensures Scaled(n * 10, e) == Scaled(n, e + 1)
  {
    TenStep(e);
    TenTimes(n as real, Ten(e));
  }

  lemma TenTimes(x: real, t: real)
    ensures (10.0 * x) * t == x * (10.0 * t)
  {
  }

  lemma {:induction false} ScaledShift(n: int, k: nat, e: int)
    ensures Scaled(n * Pow(10, k), e) == Scaled(n, e + k)
    decreases k
  {
    if k > 0 {
      MulAssoc(n, 10, Pow(10, k - 1));
      ScaledShift(n * 10, k - 1, e);
      ScaledStep(n, e + k - 1);
    }
  }

  lemma ScaledInjective(n: int, m: int, e: int)
    requires Scaled(n, e) == Scaled(m, e)
    ensures n == m
  {
    hide Ten;
    RealCancelRight(Ten(e), n as real, m as real);
  }

  /** sum over i of s[i] * 10^(k*(e-i)): cells of k decimal digits, the first of
      weight (10^k)^e. */
  ghost function CellSum(s: seq<nat>, e: int, k: nat): real
  {
    if s == [] then 0.0 else Scaled(s[0], k * e) + CellSum(s[1..], e - 1, k)
  }

  lemma {:induction false} CellSumIsScaled(s: seq<nat>, e: int, k: nat)
    ensures CellSum(s, e, k) == Scaled(Num(s, Pow(10, k)), k * (e - |s| + 1))
  {
    if s == [] {
    } else {
      CellSumIsScaled(s[1..], e - 1, k);
      HeadIsScaled(s, e, k);
    }
  }

  lemma HeadIsScaled(s: seq<nat>, e: int, k: nat)
    requires s != []
    ensures Scaled(Num(s, Pow(10, k)), k * (e - |s| + 1))
         == Scaled(s[0], k * e) + Scaled(Num(s[1..], Pow(10, k)), k * (e - 1 - |s[1..]| + 1))
  {
    hide Num, Pow, Scaled;
    var b, n, low := Pow(10, k), |s| - 1, k * (e - |s| + 1);
    assert s == [s[0]] + s[1..];
    NumCons(s[0], s[1..], b);
    PowPow(10, k, n);
    MulSplit(k, n, e - n);
    ScaledShift(s[0], k * n, low);
    ScaledAdd(s[0] * Pow(b, n), Num(s[1..], b), low);
  }

  lemma MulSplit(k: int, x: int, y: int)
    ensures k * x + k * y == k * (x + y)
  {
  }

  lemma ScaledAdd(n: int, m: int, e: int)
    ensures Scaled(n + m, e) == Scaled(n, e) + Scaled(m, e)
  {
  }

  // ----- decimals as sign, exponent and cells

  /** Sign, exponent of the first cell, and cells of k decimal digits each. */
  datatype Decimal = Decimal(neg: bool, expn: int, cells: seq<nat>)

  ghost function Magnitude(d: Decimal, k: nat): real
  {
    CellSum(d.cells, d.expn, k)
  }

  ghost function Value(d: Decimal, k: nat): real
  {
    if d.neg then -Magnitude(d, k) else Magnitude(d, k)
  }

  ghost predicate Canonical(d: Decimal, k: nat)
  {
    && Below(d.cells, Pow(10, k))
    && (d.cells == [] ==> d.expn == 0)
    && (d.cells != [] ==> d.cells[0] != 0 && d.cells[|d.cells| - 1] != 0)
  }

  lemma CanonicalZero(d: Decimal, k: nat)
    requires Canonical(d, k)
    ensures Magnitude(d, k) >= 0.0
    ensures Magnitude(d, k) == 0.0 <==> d.cells == []
  {
    CellSumIsScaled(d.cells, d.expn, k);
    var n := Num(d.cells, Pow(10, k));
    var t := Ten(k * (d.expn - |d.cells| + 1));
    assert n as real * t >= 0.0;
    if d.cells != [] {
      NumLeading(d.cells, Pow(10, k));
      assert n as real >= 1.0;
      assert n as real * t >= t;
    }
  }

  /** Canonical decimals are determined by their magnitude. */
  lemma CanonicalUnique(c: Decimal, d: Decimal, k: nat)
    requires k > 0 && Canonical(c, k) && Canonical(d, k)
    requires Magnitude(c, k) == Magnitude(d, k)
    ensures c.cells == d.cells && c.expn == d.expn
  {
    CanonicalZero(c, k);
    CanonicalZero(d, k);
    if c.cells != [] && d.cells != [] {
      var ce, de := c.expn - |c.cells| + 1, d.expn - |d.cells| + 1;
      CellSumIsScaled(c.cells, c.expn, k);
      CellSumIsScaled(d.cells, d.expn, k);
      var b := Pow(10, k);
      assert b >= 10 by { assert b == 10 * Pow(10, k - 1); }
      SameScale(c.cells, ce, d.cells, de, k);
      SameScale(d.cells, de, c.cells, ce, k);
      ScaledInjective(Num(c.cells, b), Num(d.cells, b), k * ce);
      SameLength(c.cells, d.cells, b);
      SameLength(d.cells, c.cells, b);
      NumUnique(c.cells, d.cells, b);
    }
  }

  lemma SameScale(s: seq<nat>, es: int, t: seq<nat>, et: int, k: nat)
    requires k > 0 && s != [] && Below(s, Pow(10, k)) && s[|s| - 1] != 0
    requires Scaled(Num(s, Pow(10, k)), k * es) == Scaled(Num(t, Pow(10, k)), k * et)
    ensures et <= es
  {
    if es < et {
      var b, up := Pow(10, k), et - es;
      ScaledShift(Num(t, b), k * up, k * es);
      assert k * up + k * es == k * et;
      ScaledInjective(Num(s, b), Num(t, b) * Pow(10, k * up), k * es);
      PowPow(10, k, up);
      MultipleOfRadix(Num(s[..|s| - 1], b), s[|s| - 1], Num(t, b), Pow(b, up - 1), b);
    }
  }

  lemma MultipleOfRadix(n: nat, d: nat, m: nat, p: nat, b: nat)
    requires d < b && n * b + d == m * (b * p)
    ensures d == 0
  {
    MulAssoc(m, p, b);
    DivModUnique(n, m * p, d, 0, b);
  }

  lemma SameLength(s: seq<nat>, t: seq<nat>, b: nat)
    requires b > 1 && Below(s, b) && t != [] && t[0] != 0 && Num(s, b) == Num(t, b)
    ensures |t| <= |s|
  {
    if |s| < |t| {
      NumBound(s, b);
      NumLeading(t, b);
      if |s| < |t| - 1 { PowMonotone(b, |s|, |t| - 1); MulLess(1, b, Pow(b, |s|)); }
    }
  }
}
