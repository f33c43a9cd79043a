/** Conversion between the server's my_decimal (words of nine decimal digits aligned on
    the point) and the engine's dec4 (cells of four digits with an exponent), through an
    array of single digits. */
module DecimalDigits {
  import opened Radix

  const DIG_PER_MYDEC: nat := 9
  const DIG_PER_DEC4: nat := 4
  const MAX_WORDS: nat := 9          // words in a my_decimal buffer
  const MAX_CELLS: nat := 18         // cells in a dec4
  const MAX_DIGITS: nat := 83        // length of the digit array

  function CeilDiv(n: nat, k: nat): nat
    requires k > 0
  {
    (n + k - 1) / k
  }

  /** The decimal numeral of n ends in at least k zeros. */
  predicate EndsInZeros(n: nat, k: nat)
  {
    n % Pow(10, k) == 0
  }

  /** my_decimal: intg digits before the point, frac digits after it. */
  datatype MyDecimal = MyDecimal(neg: bool, intg: nat, frac: nat, buf: seq<nat>) {
    function IntWords(): nat { CeilDiv(intg, DIG_PER_MYDEC) }
    function FracWords(): nat { CeilDiv(frac, DIG_PER_MYDEC) }

    /** The word just before the point has weight one. */
    ghost function Magnitude(): real
    {
      CellSum(buf, IntWords() - 1, DIG_PER_MYDEC)
    }

    /** The layout rules of a my_decimal: words below 10^9, the integer part
        right-aligned in its words, the fraction left-aligned. */
    ghost predicate WellFormed()
    {
      && |buf| == IntWords() + FracWords() <= MAX_WORDS
      && Below(buf, Pow(10, DIG_PER_MYDEC))
      && (intg % DIG_PER_MYDEC != 0 ==> buf[0] < Pow(10, intg % DIG_PER_MYDEC))
      && (frac % DIG_PER_MYDEC != 0 ==>
            EndsInZeros(buf[|buf| - 1], DIG_PER_MYDEC - frac % DIG_PER_MYDEC))
    }

    /** No leading integer zero and no trailing fraction zero; zero is one integer digit. */
    ghost predicate Normal()
    {
      || (intg == 1 && frac == 0 && buf == [0])
      || (&& intg + frac > 0 && |buf| == IntWords() + FracWords()
          && (intg > 0 ==> buf[0] >= Pow(10, (intg - 1) % DIG_PER_MYDEC))
          && (frac > 0 ==>
                !EndsInZeros(buf[|buf| - 1], DIG_PER_MYDEC - (frac - 1) % DIG_PER_MYDEC)))
    }
  }

  /** Cells a decimal writes out before and after the point. */
  function IntCells(d: Decimal): nat
  {
    if d.cells == [] || d.expn < 0 then 0 else d.expn + 1
  }

  function FracCells(d: Decimal): nat
  {
    if |d.cells| - 1 - d.expn <= 0 || d.cells == [] then 0 else |d.cells| - 1 - d.expn
  }

  // ----- single digits in and out of the array

  /** Writes val into the step positions from start, most significant digit first. */
  method RecordDigital(digits: array<nat>, val: nat, start: nat, step: nat)
    requires start + step <= digits.Length
    requires val < Pow(10, step)
    requires AllZero(digits[start..start + step])
    modifies digits
    ensures Num(digits[start..start + step], 10) == val
    ensures Below(digits[start..start + step], 10)
    ensures digits[..start] == old(digits[..start])
    ensures digits[start + step..] == old(digits[start + step..])
  {
    hide Num, Pow, Recording;
    var v := val;
    var end := start + step - 1;
    RecordStart(digits[start..start + step], val);
    while v != 0 && end >= start
      invariant start - 1 <= end < start + step
      invariant Recording(digits[start..start + step], v, end - start, val)
      invariant digits[..start] == old(digits[..start])
      invariant digits[start + step..] == old(digits[start + step..])
    {
      ghost var s := digits[start..start + step];
      digits[end] := v % 10;
      assert digits[start..start + step] == s[end - start := v % 10];
      RecordStep(s, v, end - start, val);
      v := v / 10;
      end := end - 1;
    }
    RecordDone(digits[start..start + step], v, end - start, val);
  }

  /** The digits after position e hold the low part of val; v is what is left to write. */
  ghost predicate Recording(s: seq<nat>, v: nat, e: int, val: nat)
    requires -1 <= e < |s|
  {
    && v < Pow(10, e + 1)
    && Below(s, 10)
    && AllZero(s[..e + 1])
    && v * Pow(10, |s| - 1 - e) + Num(s[e + 1..], 10) == val
  }

  lemma RecordStart(s: seq<nat>, val: nat)
    requires AllZero(s) && val < Pow(10, |s|)
    ensures Recording(s, val, |s| - 1, val)
  {
    assert s[|s|..] == [] && Pow(10, 0) == 1;
  }

  lemma RecordStep(s: seq<nat>, v: nat, e: int, val: nat)
    requires 0 <= e < |s| && Recording(s, v, e, val)
    ensures Recording(s[e := v % 10], v / 10, e - 1, val)
  {
    var t := s[e := v % 10];
    assert t[e..] == [v % 10] + s[e + 1..];
    NumCons(v % 10, s[e + 1..], 10);
    PeelDigit(v, Pow(10, |s| - 1 - e), Num(s[e + 1..], 10));
    assert Pow(10, |s| - e) == 10 * Pow(10, |s| - 1 - e);
    assert Pow(10, e + 1) == 10 * Pow(10, e);
    forall i | 0 <= i < e ensures t[..e][i] == 0 { assert s[..e + 1][i] == 0; }
  }

  lemma RecordDone(s: seq<nat>, v: nat, e: int, val: nat)
    requires -1 <= e < |s| && Recording(s, v, e, val) && (v == 0 || e == -1)
    ensures Num(s, 10) == val && Below(s, 10)
  {
    assert v == 0 by { assert Pow(10, 0) == 1; }
    ZeroTimes(Pow(10, |s| - 1 - e));
    NumDropZeros(s, e + 1, 10);
  }

  lemma PeelDigit(v: nat, p: nat, n: nat)
    ensures v * p + n == (v / 10) * (10 * p) + ((v % 10) * p + n)
  {
    assert v == (v / 10) * 10 + v % 10;
    MulAssoc(v / 10, 10, p);
  }

  /** The number in the closed range [start, end], padded with zeros to step digits. */
  method RestoreDigital(digits: seq<nat>, start: nat, end: int, step: nat) returns (val: nat)
    requires start <= end + 1 <= start + step && end < |digits|
    ensures val == Num(digits[start..end + 1], 10) * Pow(10, start + step - 1 - end)
  {
    val := 0;
    var i := start;
    while i <= end
      invariant start <= i <= end + 1
      invariant val == Num(digits[start..i], 10)
    {
      assert digits[start..i + 1][..i - start] == digits[start..i];
      val := val * 10 + digits[i];
      i := i + 1;
    }
    ghost var n := val;
    assert Pow(10, 0) == 1;
    while i <= start + step - 1
      invariant end + 1 <= i <= start + step
      invariant val == n * Pow(10, i - end - 1)
    {
      PowAdd(10, i - end - 1, 1);
      assert Pow(10, 1) == 10 by { assert Pow(10, 0) == 1; }
      MulAssoc(n, Pow(10, i - end - 1), 10);
      val := val * 10;
      i := i + 1;
    }
  }

  // ----- my_decimal to digits

  /** The digits up to k*|w| spell the cells w; the rest of the array is zero. */
  ghost predicate Filled(s: seq<nat>, w: seq<nat>, k: nat)
  {
    && k * |w| <= |s|
    && Below(s, 10)
    && Num(s[..k * |w|], 10) == Num(w, Pow(10, k))
    && AllZero(s[k * |w|..])
  }

  lemma FilledEmpty(s: seq<nat>, k: nat)
    requires AllZero(s)
    ensures Filled(s, [], k)
  {
    assert s[..0] == [] && s[0..] == s;
  }

  lemma FillStep(s: seq<nat>, t: seq<nat>, w: seq<nat>, x: nat, k: nat)
    requires Filled(s, w, k) && k * |w| + k <= |s| == |t|
    requires t[..k * |w|] == s[..k * |w|] && t[k * |w| + k..] == s[k * |w| + k..]
    requires Num(t[k * |w|..k * |w| + k], 10) == x && Below(t[k * |w|..k * |w| + k], 10)
    ensures Filled(t, w + [x], k)
  {
    hide Num, Pow;
    var n := k * |w|;
    assert k * |w + [x]| == n + k;
    FillBounds(s, t, n, k);
    assert t[..n + k] == t[..n] + t[n..n + k];
    NumConcat(t[..n], t[n..n + k], 10);
    NumSnoc(w, x, Pow(10, k));
  }

  lemma FillBounds(s: seq<nat>, t: seq<nat>, n: nat, k: nat)
    requires n + k <= |s| == |t| && Below(s, 10) && AllZero(s[n..])
    requires t[..n] == s[..n] && t[n + k..] == s[n + k..] && Below(t[n..n + k], 10)
    ensures Below(t, 10) && AllZero(t[n + k..])
  {
    forall i | 0 <= i < |t| ensures t[i] < 10 {
      if i < n { assert t[i] == t[..n][i]; }
      else if i < n + k { assert t[i] == t[n..n + k][i - n]; }
      else { assert t[i] == t[n + k..][i - n - k]; }
    }
    var zeros := t[n + k..];
    forall i | 0 <= i < |zeros| ensures zeros[i] == 0 {
      assert zeros[i] == s[n..][i + k];
    }
  }

  /** Records one more cell of k digits after the cells w. */
  method RecordGroup(digits: array<nat>, ghost w: seq<nat>, x: nat, pos: nat, k: nat)
    requires Filled(digits[..], w, k) && pos == k * |w| && pos + k <= digits.Length && x < Pow(10, k)
    modifies digits
    ensures Filled(digits[..], w + [x], k)
  {
    ghost var s := digits[..];
    assert digits[pos..pos + k] == s[pos..][..k];
    RecordDigital(digits, x, pos, k);
    hide *;
    ghost var t := digits[..];
    assert t[..pos] == digits[..pos] == s[..pos];
    assert t[pos + k..] == digits[pos + k..] == s[pos + k..];
    assert t[pos..pos + k] == digits[pos..pos + k];
    FillStep(s, t, w, x, k);
  }

  lemma FilledValue(s: seq<nat>, w: seq<nat>, k: nat, e: int, point: int)
    requires Filled(s, w, k) && point == k * (e + 1)
    ensures CellSum(s, point - 1, 1) == CellSum(w, e, k)
  {
    hide Num, Pow, CellSum;
    var n := k * |w|;
    CellSumIsScaled(s, point - 1, 1);
    CellSumIsScaled(w, e, k);
    PowOne(10);
    NumTrimZeros(s, n, 10);
    ScaledShift(Num(s[..n], 10), |s| - n, point - |s|);
    assert point - n == k * (e - |w| + 1);
  }

  lemma PowOne(b: nat)
    ensures Pow(b, 1) == b
  {
    assert Pow(b, 0) == 1;
  }

  lemma LastGroup(s: seq<nat>, w: seq<nat>)
    requires Filled(s, w, 9) && w != [] && Below(w, Pow(10, 9))
    ensures Num(s[9 * |w| - 9..9 * |w|], 10) == w[|w| - 1]
  {
    hide Num, Pow;
    var n, m := 9 * |w|, 9 * |w| - 9;
    assert s[..n] == s[..m] + s[m..n];
    NumConcat(s[..m], s[m..n], 10);
    NumBound(s[m..n], 10);
    assert w == w[..|w| - 1] + [w[|w| - 1]];
    NumSnoc(w[..|w| - 1], w[|w| - 1], Pow(10, 9));
    DivModUnique(Num(s[..m], 10), Num(w[..|w| - 1], Pow(10, 9)), Num(s[m..n], 10), w[|w| - 1], Pow(10, 9));
  }

  lemma FirstGroup(s: seq<nat>, w: seq<nat>)
    requires Filled(s, w, 9) && w != [] && Below(w, Pow(10, 9))
    ensures Num(s[..9], 10) == w[0]
  {
    hide Num, Pow;
    var n := 9 * |w|;
    assert s[..n] == s[..9] + s[9..n];
    NumConcat(s[..9], s[9..n], 10);
    NumBound(s[9..n], 10);
    NumCons(w[0], w[1..], Pow(10, 9));
    assert w == [w[0]] + w[1..];
    NumBound(w[1..], Pow(10, 9));
    PowPow(10, 9, |w| - 1);
    DivModUnique(Num(s[..9], 10), w[0], Num(s[9..n], 10), Num(w[1..], Pow(10, 9)), Pow(10, 9 * (|w| - 1)));
  }

  lemma TrailingZeros(s: seq<nat>, k: nat)
    requires Below(s, 10) && k <= |s| && EndsInZeros(Num(s, 10), k)
    ensures AllZero(s[|s| - k..])
  {
    MultipleHasTrailingZeros(s, k, 10);
  }

  lemma FractionTail(m: MyDecimal, s: seq<nat>)
    requires m.WellFormed() && Filled(s, m.buf, 9)
    ensures 9 * m.IntWords() + m.frac <= |s|
    ensures AllZero(s[9 * m.IntWords() + m.frac..])
  {
    hide Num, Pow, EndsInZeros;
    var r := m.frac % 9;
    assert 9 * m.IntWords() + m.frac == 9 * |m.buf| - (if r == 0 then 0 else 9 - r);
    if r != 0 { LastWordTail(s, m.buf, r); }
  }

  lemma LastWordTail(s: seq<nat>, w: seq<nat>, r: nat)
    requires Filled(s, w, 9) && w != [] && Below(w, Pow(10, 9))
    requires 0 < r < 9 && EndsInZeros(w[|w| - 1], 9 - r)
    ensures AllZero(s[9 * |w| - (9 - r)..])
  {
    hide Num, Pow, EndsInZeros;
    var n := 9 * |w|;
    LastGroup(s, w);
    TrailingZeros(s[n - 9..n], 9 - r);
    assert s[n - 9..n][r..] == s[n - 9 + r..n];
    assert s[n - 9 + r..] == s[n - 9 + r..n] + s[n..];
  }

  lemma IntegerHead(m: MyDecimal, s: seq<nat>)
    requires m.WellFormed() && Filled(s, m.buf, 9)
    ensures m.intg <= 9 * m.IntWords() <= |s|
    ensures AllZero(s[..9 * m.IntWords() - m.intg])
  {
    hide Num, Pow, EndsInZeros;
    var r := m.intg % 9;
    if r != 0 {
      FirstGroup(s, m.buf);
      SmallHasLeadingZeros(s[..9], r, 10);
      assert 9 * m.IntWords() - m.intg == 9 - r;
      assert s[..9][..9 - r] == s[..9 - r];
    }
  }

  /** Digits outside [start, end] are zero; the point precedes position point; a padded
      cell after end stays inside the array. */
  ghost predicate Window(s: seq<nat>, start: nat, point: nat, end: int)
  {
    && Below(s, 10)
    && point - 1 <= end && end + 4 <= |s| && start < |s|
    && AllZero(s[..start])
    && AllZero(s[end + 1..])
    && start <= (if end > 0 then end else 0)
    && (start < end ==> s[start] != 0)
    && (end >= point ==> s[end] != 0)
  }

  /** Spells the integer words, then the fraction words, from the front of the array. */
  method RecordWords(m: MyDecimal, digits: array<nat>)
    requires m.WellFormed() && digits.Length == MAX_DIGITS && AllZero(digits[..])
    modifies digits
    ensures Filled(digits[..], m.buf, 9)
  {
    hide Num, Pow, CellSum, EndsInZeros;
    var i, pointLoc := 0, m.IntWords();
    FilledEmpty(digits[..], 9);
    assert m.buf[..0] == [];
    while i < pointLoc
      invariant 0 <= i <= pointLoc
      invariant Filled(digits[..], m.buf[..i], 9)
    {
      RecordGroup(digits, m.buf[..i], m.buf[i], i * DIG_PER_MYDEC, DIG_PER_MYDEC);
      assert m.buf[..i + 1] == m.buf[..i] + [m.buf[i]];
      i := i + 1;
    }
    if m.frac != 0 {
      var fracLoc := m.FracWords() + pointLoc;
      while i < fracLoc
        invariant pointLoc <= i <= fracLoc
        invariant Filled(digits[..], m.buf[..i], 9)
      {
        RecordGroup(digits, m.buf[..i], m.buf[i], i * DIG_PER_MYDEC, DIG_PER_MYDEC);
        assert m.buf[..i + 1] == m.buf[..i] + [m.buf[i]];
        i := i + 1;
      }
    }
    assert m.buf[..i] == m.buf;
  }

  method MyDecimalToDigital(m: MyDecimal, digits: array<nat>) returns (start: nat, point: nat, end: int)
    requires m.WellFormed() && digits.Length == MAX_DIGITS && AllZero(digits[..])
    requires 9 * m.IntWords() + m.frac + 3 <= MAX_DIGITS
    modifies digits
    ensures Window(digits[..], start, point, end)
    ensures CellSum(digits[..], point - 1, 1) == m.Magnitude()
    ensures point - start <= m.intg && end - point < m.frac
  {
    hide Num, Pow, CellSum, EndsInZeros;
    RecordWords(m, digits);
    var s := digits[..];
    point := m.IntWords() * DIG_PER_MYDEC;
    end := point + m.frac - 1;
    FilledValue(s, m.buf, 9, m.IntWords() - 1, point);
    FractionTail(m, s);
    IntegerHead(m, s);
    start, end := TrimDigits(s, point, end, m.intg);
  }

  /** Drops trailing fraction zeros, then leading zeros up to the last digit kept. */
  method TrimDigits(s: seq<nat>, point: nat, last: int, ghost intg: nat) returns (start: nat, end: int)
    requires intg <= point <= last + 1 && last + 4 <= |s| && (intg == 0 ==> point == 0)
    requires Below(s, 10) && AllZero(s[last + 1..]) && AllZero(s[..point - intg])
    ensures Window(s, start, point, end)
    ensures point - start <= intg && end <= last
  {
    hide AllZero, Below;
    start, end := 0, last;
    while end >= point && s[end] == 0
      invariant point - 1 <= end <= last
      invariant AllZero(s[end + 1..])
    {
      OneMoreZero(s, end);
      end := end - 1;
    }
    NoZeros(s);
    while start < end && s[start] == 0
      invariant start <= (if end > 0 then end else 0)
      invariant AllZero(s[..start])
    {
      OneMoreZero(s, start);
      start := start + 1;
    }
    if start < point - intg { HeadIsZero(s, start, point - intg); }
  }

  lemma OneMoreZero(s: seq<nat>, i: nat)
    requires i < |s| && s[i] == 0
    ensures AllZero(s[i + 1..]) ==> AllZero(s[i..])
    ensures AllZero(s[..i]) ==> AllZero(s[..i + 1])
  {
    assert s[i..] == [s[i]] + s[i + 1..];
    assert s[..i + 1] == s[..i] + [s[i]];
  }

  lemma NoZeros(s: seq<nat>)
    ensures AllZero(s[..0])
  {
  }

  lemma HeadIsZero(s: seq<nat>, i: nat, n: nat)
    requires i < n <= |s| && AllZero(s[..n])
    ensures s[i] == 0
  {
    assert s[..n][i] == 0;
  }

  // ----- digits to cells and words

  /** The cells w spell the digits [start, upto), and lie k*(e-|w|+1) digits above the
      point: the loop invariant of both packing directions. */
  ghost predicate Packed(s: seq<nat>, start: nat, upto: nat, point: int, w: seq<nat>, e: int, k: nat)
  {
    && start <= upto <= |s|
    && Below(w, Pow(10, k))
    && Num(w, Pow(10, k)) == Num(s[start..upto], 10)
    && k * (e - |w| + 1) == point - upto
  }

  lemma PackStep(s: seq<nat>, start: nat, upto: nat, point: int, w: seq<nat>, e: int, k: nat, x: nat)
    requires Packed(s, start, upto, point, w, e, k) && Below(s, 10)
    requires upto + k <= |s| && x == Num(s[upto..upto + k], 10)
    ensures Packed(s, start, upto + k, point, w + [x], e, k)
  {
    hide Num, Pow;
    var g := s[upto..upto + k];
    NumBound(g, 10);
    assert s[start..upto + k] == s[start..upto] + g;
    NumConcat(s[start..upto], g, 10);
    NumSnoc(w, x, Pow(10, k));
    MulPred(k, e - |w| + 1);
  }

  lemma PackedValue(s: seq<nat>, start: nat, upto: nat, point: int, w: seq<nat>, e: int, k: nat)
    requires Packed(s, start, upto, point, w, e, k)
    requires AllZero(s[..start]) && AllZero(s[upto..])
    ensures CellSum(w, e, k) == CellSum(s, point - 1, 1)
  {
    hide Num, Pow, CellSum;
    CellSumIsScaled(s, point - 1, 1);
    CellSumIsScaled(w, e, k);
    PowOne(10);
    NumTrimZeros(s, upto, 10);
    assert s[..upto][..start] == s[..start] && s[..upto][start..] == s[start..upto];
    NumDropZeros(s[..upto], start, 10);
    ScaledShift(Num(s[start..upto], 10), |s| - upto, point - |s|);
  }

  /** A short last group padded with zeros reads the same as a whole one. */
  lemma ZeroTail(s: seq<nat>, i: nat, j: nat)
    requires i <= j <= |s| && AllZero(s[i..])
    ensures AllZero(s[j..])
  {
    forall n | 0 <= n < |s[j..]| ensures s[j..][n] == 0 {
      assert s[j..][n] == s[i..][n + j - i];
    }
  }

  lemma PaddedGroup(s: seq<nat>, i: nat, end: int, k: nat)
    requires i <= end + 1 <= i + k <= |s| && AllZero(s[end + 1..])
    ensures Num(s[i..end + 1], 10) * Pow(10, i + k - 1 - end) == Num(s[i..i + k], 10)
  {
    var g := s[i..i + k];
    assert g[..end + 1 - i] == s[i..end + 1];
    var pad := g[end + 1 - i..];
    forall j | 0 <= j < |pad| ensures pad[j] == 0 {
      assert pad[j] == s[end + 1..][j];
    }
    NumTrimZeros(g, end + 1 - i, 10);
  }

  /** One group of k digits, of which those after end are known to be zero. */
  method ReadGroup(digits: seq<nat>, start: nat, end: int, k: nat) returns (val: nat)
    requires start <= end + 1 <= start + k <= |digits|
    requires end + 1 < start + k ==> AllZero(digits[end + 1..])
    ensures val == Num(digits[start..start + k], 10)
  {
    val := RestoreDigital(digits, start, end, k);
    if end + 1 == start + k {
      PowZeroTimes(Num(digits[start..start + k], 10));
    } else {
      PaddedGroup(digits, start, end, k);
    }
  }

  lemma PowZeroTimes(n: nat)
    ensures n * Pow(10, 0) == n
  {
  }

  lemma NonzeroDigit(s: seq<nat>, i: nat, b: nat)
    requires b > 0 && i < |s| && s[i] != 0
    ensures Num(s, b) != 0
  {
    if Num(s, b) == 0 { ZeroNumIsAllZero(s, b); }
  }

  /** cells extends w by the groups of k digits read in [from, upto), the last of which
      starts no later than end. */
  ghost predicate Grouped(s: seq<nat>, from: nat, upto: nat, end: int, w: seq<nat>, cells: seq<nat>, k: nat)
  {
    && from <= upto <= |s| && w <= cells
    && (upto == from ==> cells == w)
    && (upto != from ==>
          && |cells| > |w| && from + k <= upto && upto - k <= end
          && cells[|w|] == Num(s[from..from + k], 10)
          && cells[|cells| - 1] == Num(s[upto - k..upto], 10))
  }

  lemma GroupStep(s: seq<nat>, from: nat, upto: nat, end: int, w: seq<nat>, cells: seq<nat>, k: nat, x: nat)
    requires k > 0 && Grouped(s, from, upto, end, w, cells, k) && upto <= end && upto + k <= |s|
    requires x == Num(s[upto..upto + k], 10)
    ensures Grouped(s, from, upto + k, end, w, cells + [x], k)
  {
  }

  /** Appends one group of k digits after another while any digit up to end is unread. */
  method PackGroups(digits: seq<nat>, ghost start: nat, from: nat, end: int, ghost point: int,
                    w: seq<nat>, ghost e: int, k: nat) returns (cells: seq<nat>, ghost upto: nat)
    requires k > 0 && Below(digits, 10) && -1 <= end && end + k <= |digits| && AllZero(digits[end + 1..])
    requires Packed(digits, start, from, point, w, e, k)
    ensures Packed(digits, start, upto, point, cells, e, k)
    ensures Grouped(digits, from, upto, end, w, cells, k) && upto > end
  {
    cells, upto := w, from;
    var digidx := from;
    while digidx <= end
      invariant digidx == upto
      invariant Packed(digits, start, upto, point, cells, e, k)
      invariant Grouped(digits, from, upto, end, w, cells, k)
      decreases end + 1 - digidx
    {
      var x;
      if digidx + k <= end {
        x := ReadGroup(digits, digidx, digidx + k - 1, k);
      } else {
        x := ReadGroup(digits, digidx, end, k);
      }
      PackStep(digits, start, upto, point, cells, e, k, x);
      GroupStep(digits, from, upto, end, w, cells, k, x);
      cells, digidx, upto := cells + [x], digidx + k, upto + k;
    }
  }

  lemma WindowNonzero(s: seq<nat>, start: nat, point: nat, end: int)
    requires Window(s, start, point, end)
    requires !(start == end && s[start] == 0) && !(start == point && end < point)
    ensures start <= end && s[start] != 0 && Below(s, 10) && end + 4 <= |s|
    ensures AllZero(s[..start]) && AllZero(s[end + 1..])
  {
  }

  lemma WindowStart(s: seq<nat>, start: nat, point: nat, end: int)
    requires Window(s, start, point, end)
    ensures start < |s|
  {
  }

  lemma ZeroSum(s: seq<nat>, e: int)
    requires AllZero(s)
    ensures CellSum(s, e, 1) == 0.0
  {
    hide Num, Pow, CellSum;
    NumZero(s, 10);
    PowOne(10);
    CellSumIsScaled(s, e, 1);
  }

  lemma WindowZero(s: seq<nat>, start: nat, point: nat, end: int)
    requires Window(s, start, point, end)
    requires (start == end && s[start] == 0) || (start == point && end < point)
    ensures CellSum(s, point - 1, 1) == 0.0
  {
    hide Num, Pow, CellSum;
    forall i | 0 <= i < |s| ensures s[i] == 0 {
      if i < start { assert s[..start][i] == 0; }
      else if i > end { assert s[end + 1..][i - end - 1] == 0; }
    }
    ZeroSum(s, point - 1);
  }

  /** Number of digits in the first cell and the exponent, as the truncating C division
      computes them: the digits after the first cell come in fours from the point. */
  method FirstCellShape(expn0: int) returns (cell0Num: nat, e: int)
    ensures cell0Num <= 4 && (expn0 <= 0 ==> cell0Num >= 1)
    ensures cell0Num > 0 ==> 4 * e == expn0 - cell0Num
    ensures cell0Num == 0 ==> 4 * (e + 1) == expn0
  {
    var expn := expn0;
    if expn > 0 {
      cell0Num := expn % DIG_PER_DEC4;
      if cell0Num == 0 && expn >= DIG_PER_DEC4 { expn := expn - DIG_PER_DEC4; }
    } else {
      // the remainder takes the sign of the dividend
      cell0Num := DIG_PER_DEC4 - (-expn) % DIG_PER_DEC4;
      expn := expn - cell0Num;
    }
    e := if expn >= 0 then expn / DIG_PER_DEC4 else -((-expn) / DIG_PER_DEC4);
  }

  method DigitalToDec4(digits: seq<nat>, neg: bool, start: nat, point: nat, end: int) returns (d: Decimal)
    requires Window(digits, start, point, end)
    ensures d.neg == neg && Canonical(d, 4)
    ensures Magnitude(d, 4) == CellSum(digits, point - 1, 1)
    ensures FitsAround(d, point - start, end + 1 - point)
  {
    hide Num, Pow, CellSum, FitsAround, Canonical, Magnitude, Window, AllZero, Below;
    WindowStart(digits, start, point, end);
    if (start == end && digits[start] == 0) || (start == point && end < point) {
      WindowZero(digits, start, point, end);
      d := Decimal(neg, 0, []);
      ZeroDecimal(d, point - start, end + 1 - point);
      return;
    }
    WindowNonzero(digits, start, point, end);
    d := PackCells(digits, neg, start, point, end);
  }

  lemma ZeroDecimal(d: Decimal, i: int, f: int)
    requires d.expn == 0 && d.cells == []
    ensures Canonical(d, 4) && Magnitude(d, 4) == 0.0 && FitsAround(d, i, f)
  {
  }

  /** The packing of digits that start with a nonzero one. */
  method PackCells(digits: seq<nat>, neg: bool, start: nat, point: nat, end: nat) returns (d: Decimal)
    requires Below(digits, 10) && start <= end && end + 4 <= |digits| && digits[start] != 0
    requires AllZero(digits[..start]) && AllZero(digits[end + 1..])
    ensures d.neg == neg && Canonical(d, 4)
    ensures Magnitude(d, 4) == CellSum(digits, point - 1, 1)
    ensures FitsAround(d, point - start, end + 1 - point)
  {
    hide Num, Pow, CellSum, Packed, Grouped, FitsAround, Canonical, Magnitude, AllZero, Below;
    var cell0Num, e := FirstCellShape(point - start);
    var cells: seq<nat>, digidx := [], start;
    if cell0Num != 0 {
      var c := ReadGroup(digits, start, start + cell0Num - 1, cell0Num);
      cells, digidx := [c], start + cell0Num;
    }
    FirstCell(digits, start, point, cell0Num, cells, e);
    var nonZeroEnd := LastNonZero(digits, start, end);
    ghost var upto;
    ghost var w := cells;
    cells, upto := PackGroups(digits, start, digidx, nonZeroEnd, point, cells, e, DIG_PER_DEC4);
    d := Decimal(neg, e, cells);
    PackedIsCanonical(digits, start, digidx, nonZeroEnd, point, w, d, upto);
    FitsMonotone(d, point - start, nonZeroEnd + 1 - point, end + 1 - point);
  }

  /** At most ceil(i/4) cells before the point and ceil(f/4) after it. */
  predicate FitsAround(d: Decimal, i: int, f: int)
  {
    && (IntCells(d) == 0 || 4 * IntCells(d) <= i + 3)
    && (FracCells(d) == 0 || 4 * FracCells(d) <= f + 3)
  }

  lemma FitsMonotone(d: Decimal, i: int, f: int, g: int)
    requires FitsAround(d, i, f) && f <= g
    ensures FitsAround(d, i, g)
  {
  }

  method LastNonZero(digits: seq<nat>, ghost start: nat, end: nat) returns (last: nat)
    requires start <= end < |digits| && digits[start] != 0 && AllZero(digits[end + 1..])
    ensures start <= last <= end && digits[last] != 0 && AllZero(digits[last + 1..])
  {
    last := end;
    while last > 0 && digits[last] == 0
      invariant start <= last <= end
      invariant AllZero(digits[last + 1..])
    {
      assert digits[last..] == [digits[last]] + digits[last + 1..];
      last := last - 1;
    }
  }

  lemma PackedIsCanonical(s: seq<nat>, start: nat, from: nat, end: nat, point: nat, w: seq<nat>, d: Decimal, upto: nat)
    requires Below(s, 10) && start <= end < |s| && s[start] != 0 && s[end] != 0
    requires AllZero(s[..start]) && AllZero(s[end + 1..])
    requires |w| <= 1 && from <= start + 4 && (w == [] <==> from == start) && (w != [] ==> w[0] != 0)
    requires Packed(s, start, from, point, w, d.expn, 4)
    requires Packed(s, start, upto, point, d.cells, d.expn, 4)
    requires Grouped(s, from, upto, end, w, d.cells, 4) && upto > end
    ensures Canonical(d, 4) && Magnitude(d, 4) == CellSum(s, point - 1, 1)
    ensures FitsAround(d, point - start, end + 1 - point)
  {
    hide Num, Pow, CellSum;
    ZeroTail(s, end + 1, upto);
    PackedValue(s, start, upto, point, d.cells, d.expn, 4);
    if upto != from {
      NonzeroDigit(s[upto - 4..upto], end - (upto - 4), 10);
      if w == [] { NonzeroDigit(s[start..start + 4], 0, 10); }
    }
  }

  lemma FirstCell(s: seq<nat>, start: nat, point: nat, n: nat, w: seq<nat>, e: int)
    requires n <= 4 && start + n <= |s| && Below(s, 10) && start < |s| && s[start] != 0
    requires n == 0 ==> w == [] && 4 * (e + 1) == point - start
    requires n > 0 ==> w == [Num(s[start..start + n], 10)] && 4 * e == point - start - n
    ensures Packed(s, start, start + n, point, w, e, 4)
    ensures w != [] ==> w[0] != 0
  {
    hide Num;
    var g := s[start..start + n];
    if n > 0 {
      NumBound(g, 10);
      NonzeroDigit(g, 0, 10);
      if n < 4 { PowMonotone(10, n, 4); MulLess(1, 10, Pow(10, n)); }
      NumSingle(w[0], Pow(10, 4));
    } else {
      NumZero(g, 10);
      NumZero(w, Pow(10, 4));
    }
  }

  // ----- dec4 to digits and back to words

  /** Digits outside [start, end] are zero and no zero remains at either end. */
  ghost predicate Tight(s: seq<nat>, start: nat, point: nat, end: int)
  {
    && Below(s, 10)
    && start <= point <= end + 1 && end + 9 <= |s|
    && AllZero(s[..start]) && AllZero(s[end + 1..])
    && (start < point ==> s[start] != 0)
    && (end >= point ==> s[end] != 0)
  }

  function Zeros(n: nat): (z: seq<nat>)
    ensures |z| == n && AllZero(z)
  {
    seq(n, i => 0)
  }

  lemma {:induction false} CellSumZeros(n: nat, s: seq<nat>, e: int, k: nat)
    ensures CellSum(Zeros(n) + s, e, k) == CellSum(s, e - n, k)
  {
    if n == 0 {
      assert Zeros(0) + s == s;
    } else {
      assert (Zeros(n) + s)[1..] == Zeros(n - 1) + s;
      CellSumZeros(n - 1, s, e - 1, k);
    }
  }

  /** Spells the cells four digits at a time, the first one at group i0. */
  method RecordCells(d: Decimal, i0: nat, digits: array<nat>)
    requires Below(d.cells, Pow(10, 4)) && 4 * (i0 + |d.cells|) <= digits.Length && AllZero(digits[..])
    modifies digits
    ensures Filled(digits[..], Zeros(i0) + d.cells, 4)
  {
    hide Num, Pow, CellSum, EndsInZeros;
    var j := 0;
    assert Zeros(i0) + d.cells[..0] == Zeros(i0);
    NumZero(Zeros(i0), Pow(10, 4));
    NumZero(digits[..][..4 * i0], 10);
    while j < |d.cells|
      invariant 0 <= j <= |d.cells|
      invariant Filled(digits[..], Zeros(i0) + d.cells[..j], 4)
    {
      ghost var w := Zeros(i0) + d.cells[..j];
      RecordGroup(digits, w, d.cells[j], (i0 + j) * DIG_PER_DEC4, DIG_PER_DEC4);
      assert w + [d.cells[j]] == Zeros(i0) + d.cells[..j + 1];
      j := j + 1;
    }
    assert d.cells[..j] == d.cells;
  }

  method Dec4ToDigital(d: Decimal, digits: array<nat>) returns (start: nat, point: nat, end: int)
    requires Canonical(d, 4) && IntCells(d) + FracCells(d) <= MAX_CELLS
    requires digits.Length == MAX_DIGITS && AllZero(digits[..])
    modifies digits
    ensures Tight(digits[..], start, point, end)
    ensures CellSum(digits[..], point - 1, 1) == Magnitude(d, 4)
    ensures point - start <= 4 * IntCells(d) && end + 1 - point <= 4 * FracCells(d)
  {
    var i := 0;
    if d.expn >= 0 {
      point := if |d.cells| != 0 then (d.expn + 1) * DIG_PER_DEC4 else 0;
    } else {
      point, i := 0, -(d.expn + 1);
    }
    RecordCells(d, i, digits);
    end := (i + |d.cells|) * DIG_PER_DEC4 - 1;
    if d.expn > |d.cells| - 1 { end := point; }
    RecordedCells(d, i, point, end, digits[..]);
    start, end := TightenDigits(digits[..], point, end);
  }

  lemma RecordedCells(d: Decimal, i: nat, point: nat, end: int, s: seq<nat>)
    requires Canonical(d, 4) && Filled(s, Zeros(i) + d.cells, 4) && -1 <= end < |s|
    requires d.cells != [] ==> point == 4 * (d.expn + i + 1)
    requires d.cells == [] ==> i == point == 0
    requires end + 1 == 4 * (i + |d.cells|) || (end == point && 4 * (i + |d.cells|) <= point)
    ensures CellSum(s, point - 1, 1) == Magnitude(d, 4)
    ensures AllZero(s[end + 1..])
    ensures end == point && 4 * (i + |d.cells|) <= point ==> s[end] == 0
  {
    var w := Zeros(i) + d.cells;
    var tail := s[end + 1..];
    forall j | 0 <= j < |tail| ensures tail[j] == 0 {
      assert tail[j] == s[4 * |w|..][j + end + 1 - 4 * |w|];
    }
    if end == point && 4 * |w| <= point { assert s[end] == s[4 * |w|..][end - 4 * |w|]; }
    if d.cells != [] {
      CellSumZeros(i, d.cells, d.expn + i, 4);
      FilledValue(s, w, 4, d.expn + i, point);
    } else {
      assert s == s[4 * |w|..];
      ZeroSum(s, point - 1);
    }
  }

  method TightenDigits(digits: seq<nat>, point: nat, last: int) returns (start: nat, end: int)
    requires point <= last + 1 && last + 9 <= |digits|
    requires Below(digits, 10) && AllZero(digits[last + 1..])
    ensures Tight(digits, start, point, end) && end <= last
    ensures last == point && digits[point] == 0 ==> end == point - 1
  {
    end := last;
    while end >= point && digits[end] == 0
      invariant point - 1 <= end <= last
      invariant AllZero(digits[end + 1..])
    {
      assert digits[end..] == [digits[end]] + digits[end + 1..];
      end := end - 1;
    }
    start := 0;
    while start < point && digits[start] == 0
      invariant start <= point
      invariant AllZero(digits[..start])
    {
      assert digits[..start + 1] == digits[..start] + [digits[start]];
      start := start + 1;
    }
  }

  method DigitalToMyDecimal(digits: seq<nat>, neg: bool, start: nat, point: nat, end: int) returns (m: MyDecimal)
    requires Tight(digits, start, point, end)
    requires CeilDiv(point - start, 9) + CeilDiv(end + 1 - point, 9) <= MAX_WORDS
    ensures m.neg == neg && m.WellFormed() && m.Normal()
    ensures m.Magnitude() == CellSum(digits, point - 1, 1)
    ensures m.frac == end + 1 - point
    ensures m.intg == if point == start && m.frac == 0 then 1 else point - start
  {
    hide Num, Pow, CellSum, EndsInZeros;
    var intg, frac := point - start, end - point + 1;
    var buf: seq<nat>, digidx, buf0Num := [], start, intg % DIG_PER_MYDEC;
    if buf0Num != 0 {
      var x := ReadGroup(digits, start, start + buf0Num - 1, buf0Num);
      buf, digidx := [x], start + buf0Num;
    }
    FirstWord(digits, start, point, buf0Num, buf);
    hide Packed, Grouped;
    ghost var upto;
    ghost var w := buf;
    buf, upto := PackGroups(digits, start, digidx, end, point, buf, CeilDiv(intg, 9) - 1, DIG_PER_MYDEC);
    m := MyDecimal(neg, intg, frac, buf);
    if intg == 0 && frac == 0 {
      m := MyDecimal(neg, 1, 0, [0]);
      ZeroWord(m);
      NoDigits(digits, start, end);
    } else {
      PackedWords(digits, start, point, end, w, m, upto);
    }
  }

  lemma NoDigits(s: seq<nat>, point: nat, end: int)
    requires point == end + 1 <= |s| && AllZero(s[..point]) && AllZero(s[end + 1..])
    ensures CellSum(s, point - 1, 1) == 0.0
  {
    assert s == s[..point] + s[point..];
    ZeroSum(s, point - 1);
  }

  lemma ZeroWord(m: MyDecimal)
    requires m.intg == 1 && m.frac == 0 && m.buf == [0]
    ensures m.WellFormed() && m.Normal() && m.Magnitude() == 0.0
  {
    CellSumIsScaled(m.buf, 0, 9);
    NumZero(m.buf, Pow(10, 9));
  }

  /** The leading partial word r of the integer part. */
  ghost predicate LeadingWord(s: seq<nat>, start: nat, r: nat, w: seq<nat>)
  {
    if r == 0 then w == [] else
      && |w| == 1 && start + r <= |s| && w[0] == Num(s[start..start + r], 10)
      && Pow(10, r - 1) <= w[0] < Pow(10, r)
  }

  lemma FirstWord(s: seq<nat>, start: nat, point: nat, r: nat, w: seq<nat>)
    requires Below(s, 10) && start <= point <= |s| && r == (point - start) % 9 && (start < point ==> s[start] != 0)
    requires r == 0 ==> w == []
    requires r > 0 ==> w == [Num(s[start..start + r], 10)]
    ensures LeadingWord(s, start, r, w)
    ensures Packed(s, start, start + r, point, w, CeilDiv(point - start, 9) - 1, 9)
  {
    hide Num;
    if r > 0 {
      var g := s[start..start + r];
      NumBound(g, 10);
      NumLeading(g, 10);
      PowMonotone(10, r, 9);
      MulLess(1, 10, Pow(10, r));
      NumSingle(w[0], Pow(10, 9));
    } else {
      NumZero(s[start..start], 10);
      NumZero(w, Pow(10, 9));
    }
  }

  lemma PackedWords(s: seq<nat>, start: nat, point: nat, end: int, w: seq<nat>, m: MyDecimal, upto: nat)
    requires Tight(s, start, point, end)
    requires m.intg == point - start && m.frac == end + 1 - point
    requires m.IntWords() + m.FracWords() <= MAX_WORDS
    requires LeadingWord(s, start, m.intg % 9, w)
    requires Packed(s, start, upto, point, m.buf, m.IntWords() - 1, 9)
    requires Grouped(s, start + m.intg % 9, upto, end, w, m.buf, 9) && upto > end
    requires m.intg + m.frac > 0
    ensures m.Magnitude() == CellSum(s, point - 1, 1)
    ensures m.WellFormed() && m.Normal()
  {
    hide Num, Pow, CellSum, EndsInZeros;
    ZeroTail(s, end + 1, upto);
    PackedValue(s, start, upto, point, m.buf, m.IntWords() - 1, 9);
    WordCount(s, start, point, end, w, m, upto);
    if m.intg > 0 { WordHead(s, start, point, end, w, m, upto); }
    if m.frac > 0 { WordTail(s, point, end, m, upto); }
  }

  lemma WordHead(s: seq<nat>, start: nat, point: nat, end: int, w: seq<nat>, m: MyDecimal, upto: nat)
    requires Tight(s, start, point, end) && m.intg == point - start > 0 && |m.buf| > 0
    requires LeadingWord(s, start, m.intg % 9, w)
    requires Grouped(s, start + m.intg % 9, upto, end, w, m.buf, 9) && upto > start
    ensures m.intg % 9 != 0 ==> m.buf[0] < Pow(10, m.intg % 9)
    ensures m.buf[0] >= Pow(10, (m.intg - 1) % 9)
  {
    if m.intg % 9 == 0 {
      NumLeading(s[start..start + 9], 10);
    } else {
      assert (m.intg - 1) % 9 == m.intg % 9 - 1;
      assert m.buf[0] == w[0];
    }
  }

  lemma WordTail(s: seq<nat>, point: nat, end: int, m: MyDecimal, upto: nat)
    requires Below(s, 10) && point <= end < |s| && s[end] != 0 && AllZero(s[end + 1..])
    requires m.frac == end + 1 - point && upto == point + 9 * m.FracWords() <= |s|
    requires |m.buf| > 0 && m.buf[|m.buf| - 1] == Num(s[upto - 9..upto], 10)
    ensures m.frac % 9 != 0 ==> EndsInZeros(m.buf[|m.buf| - 1], 9 - m.frac % 9)
    ensures !EndsInZeros(m.buf[|m.buf| - 1], 9 - (m.frac - 1) % 9)
  {
    hide Num, Pow, EndsInZeros;
    var p := (m.frac - 1) % 9;
    assert end == upto - 9 + p;
    LastWord(s, upto, p);
    if m.frac % 9 != 0 { assert 9 - m.frac % 9 == 8 - p; }
  }

  lemma WordCount(s: seq<nat>, start: nat, point: nat, end: int, w: seq<nat>, m: MyDecimal, upto: nat)
    requires start <= point <= end + 1
    requires m.intg == point - start && m.frac == end + 1 - point
    requires Packed(s, start, upto, point, m.buf, m.IntWords() - 1, 9)
    requires Grouped(s, start + m.intg % 9, upto, end, w, m.buf, 9) && upto > end
    ensures |m.buf| == m.IntWords() + m.FracWords()
    ensures upto == point + 9 * m.FracWords()
  {
    assert 9 * (m.IntWords() - |m.buf|) == point - upto;
  }

  lemma LastWord(s: seq<nat>, upto: nat, p: nat)
    requires Below(s, 10) && 9 <= upto <= |s| && p < 9 && s[upto - 9 + p] != 0 && AllZero(s[upto - 8 + p..])
    ensures EndsInZeros(Num(s[upto - 9..upto], 10), 8 - p)
    ensures !EndsInZeros(Num(s[upto - 9..upto], 10), 9 - p)
  {
    var g := s[upto - 9..upto];
    var pad := g[p + 1..];
    forall i | 0 <= i < |pad| ensures pad[i] == 0 {
      assert pad[i] == s[upto - 8 + p..][i];
    }
    NumTrimZeros(g, p + 1, 10);
    var n, q := Num(g[..p + 1], 10), Pow(10, 8 - p);
    ModOfMultiple(n, q);
    if Num(g, 10) % Pow(10, 9 - p) == 0 {
      MultipleHasTrailingZeros(g, 9 - p, 10);
    }
  }

  lemma ModOfMultiple(n: nat, q: nat)
    requires q > 0
    ensures (n * q) % q == 0
  {
    DivModUnique((n * q) / q, n, (n * q) % q, 0, q);
  }

  // ----- the two conversions

  /** What the arrays of the two representations can hold. */
  predicate Fits(m: MyDecimal)
  {
    CeilDiv(m.intg, 4) + CeilDiv(m.frac, 4) <= MAX_CELLS
  }

  /** Every value of a DECIMAL(prec, scale) column, prec at most 65 and scale at most 30,
      fits both representations. */
  lemma ColumnFits(m: MyDecimal, prec: nat, scale: nat)
    requires scale <= 30 && scale <= prec <= 65 && m.intg == prec - scale && m.frac == scale
    ensures Fits(m) && m.IntWords() + m.FracWords() <= MAX_WORDS
  {
  }

  method MyDecimalToDec4(m: MyDecimal) returns (d: Decimal)
    requires m.WellFormed() && Fits(m)
    ensures d.neg == m.neg && Canonical(d, 4)
    ensures Magnitude(d, 4) == m.Magnitude()
    ensures IntCells(d) <= CeilDiv(m.intg, 4) && FracCells(d) <= CeilDiv(m.frac, 4)
    ensures |d.cells| <= CeilDiv(m.intg, 4) + CeilDiv(m.frac, 4)
  {
    hide Num, Pow, CellSum, EndsInZeros;
    var digits := new nat[MAX_DIGITS](i => 0);
    var start, point, end := MyDecimalToDigital(m, digits);
    d := DigitalToDec4(digits[..], m.neg, start, point, end);
  }

  lemma WordsForCells(i: nat, f: nat, ic: nat, fc: nat)
    requires i <= 4 * ic && f <= 4 * fc && ic + fc <= MAX_CELLS
    ensures CeilDiv(i, 9) + CeilDiv(f, 9) <= MAX_WORDS
    ensures CeilDiv(i, 4) + CeilDiv(f, 4) <= MAX_CELLS
    ensures CeilDiv(1, 4) + CeilDiv(0, 4) <= MAX_CELLS
  {
  }

  method Dec4ToMyDecimal(d: Decimal) returns (m: MyDecimal)
    requires Canonical(d, 4) && IntCells(d) + FracCells(d) <= MAX_CELLS
    ensures m.neg == d.neg && m.WellFormed() && m.Normal()
    ensures m.Magnitude() == Magnitude(d, 4)
    ensures Fits(m)
  {
    hide Num, Pow, CellSum, EndsInZeros;
    var digits := new nat[MAX_DIGITS](i => 0);
    var start, point, end := Dec4ToDigital(d, digits);
    WordsForCells(point - start, end + 1 - point, IntCells(d), FracCells(d));
    hide IntCells, FracCells, CeilDiv;
    m := DigitalToMyDecimal(digits[..], d.neg, start, point, end);
  }

  /** The engine's copy of a stored decimal survives a trip through the server. */
  method Dec4RoundTrip(d: Decimal) returns (m: MyDecimal, d': Decimal)
    requires Canonical(d, 4) && IntCells(d) + FracCells(d) <= MAX_CELLS
    ensures d' == d
  {
    hide Num, Pow, CellSum, EndsInZeros;
    m := Dec4ToMyDecimal(d);
    d' := MyDecimalToDec4(m);
    CanonicalUnique(d, d', 4);
  }

  /** A decimal comes back with the same sign and value, its superfluous zeros removed. */
  method MyDecimalRoundTrip(m: MyDecimal) returns (m': MyDecimal)
    requires m.WellFormed() && Fits(m)
    ensures m'.neg == m.neg && m'.Magnitude() == m.Magnitude() && m'.WellFormed() && m'.Normal()
  {
    hide Num, Pow, CellSum, EndsInZeros;
    var d := MyDecimalToDec4(m);
    m' := Dec4ToMyDecimal(d);
  }
}
