/** Decimal texts: what a text denotes, the parser to dec8 and the plain-text printer. */
module DecimalText {
  import opened Basics
  import opened Radix
  import DecimalRepack

  const MAX_EXPN: int := 99999999
  const MAX_DIGITS: nat := 72
  const TEXT_LIMIT: nat := 1048576

  // ----- what a text denotes

  predicate IsDigit(c: char) { '0' <= c <= '9' }

  predicate IsSign(c: char) { c == '-' || c == '+' }

  predicate AllDigits(s: string) { forall i :: 0 <= i < |s| ==> IsDigit(s[i]) }

  function DigitOf(c: char): (d: nat)
    requires IsDigit(c)
    ensures d < 10
  {
    c as int - '0' as int
  }

  function Digits(s: string): (r: seq<nat>)
    requires AllDigits(s)
    ensures |r| == |s| && Below(r, 10)
  {
    if s == [] then [] else Digits(s[..|s| - 1]) + [DigitOf(s[|s| - 1])]
  }

  function TrimLeft(s: string): (r: string)
    ensures |r| <= |s|
  {
    if s != [] && s[0] <= ' ' then TrimLeft(s[1..]) else s
  }

  function TrimRight(s: string): (r: string)
    ensures |r| <= |s|
  {
    if s != [] && s[|s| - 1] <= ' ' then TrimRight(s[..|s| - 1]) else s
  }

  /** The number num * 10^(expn - frac), negative or not. */
  datatype Number = Number(neg: bool, num: nat, frac: nat, expn: int)

  /** An optional sign and at least one digit. */
  function Exponent(s: string): Option<int>
  {
    var ds := if s != [] && IsSign(s[0]) then s[1..] else s;
    if ds == [] || !AllDigits(ds) then None
    else Some(if s[0] == '-' then 0 - Num(Digits(ds), 10) else Num(Digits(ds), 10))
  }

  /** The rest of a mantissa, of which num and frac are read so far; dot and any say whether
      a dot and a digit were. */
  function Mantissa(s: string, i: nat, neg: bool, num: nat, frac: nat, dot: bool, any: bool): Option<Number>
    requires i <= |s|
    decreases |s| - i
  {
    if i == |s| then
      if any then Some(Number(neg, num, frac, 0)) else None
    else if IsDigit(s[i]) then
      Mantissa(s, i + 1, neg, num * 10 + DigitOf(s[i]), if dot then frac + 1 else frac, dot, true)
    else if s[i] == '.' then
      if dot then None else Mantissa(s, i + 1, neg, num, frac, true, any)
    else if (s[i] == 'e' || s[i] == 'E') && any then
      match Exponent(s[i + 1..])
      case None => None
      case Some(e) => Some(Number(neg, num, frac, e))
    else None
  }

  function Denotes(text: string): Option<Number>
  {
    var s := TrimRight(TrimLeft(text));
    if s == [] || |s| >= TEXT_LIMIT then None
    else Mantissa(s, if IsSign(s[0]) then 1 else 0, s[0] == '-', 0, 0, false, false)
  }

  // ----- blanks and signs

  /** Blanks are the characters up to the space; text[i..j] is what they surround. */
  ghost predicate Core(text: string, i: nat, j: nat)
  {
    && i <= j <= |text|
    && (forall k :: 0 <= k < i || j <= k < |text| ==> text[k] <= ' ')
    && (i < j ==> text[i] > ' ' && text[j - 1] > ' ')
  }

  lemma {:induction false} LeftTrimmed(text: string, i: nat)
    requires i <= |text| && (forall k :: 0 <= k < i ==> text[k] <= ' ') && (i < |text| ==> text[i] > ' ')
    ensures TrimLeft(text) == text[i..]
  {
    if i > 0 { LeftTrimmed(text[1..], i - 1); }
  }

  lemma {:induction false} RightTrimmed(text: string, j: nat)
    requires j <= |text| && (forall k :: j <= k < |text| ==> text[k] <= ' ') && (j > 0 ==> text[j - 1] > ' ')
    ensures TrimRight(text) == text[..j]
  {
    if j < |text| { RightTrimmed(text[..|text| - 1], j); }
  }

  /** Just the blanks at the two ends are trimmed. */
  lemma {:induction false} TrimIs(text: string, i: nat, j: nat)
    requires Core(text, i, j)
    ensures TrimRight(TrimLeft(text)) == text[i..j]
  {
    if i < j {
      LeftTrimmed(text, i);
      RightTrimmed(text[i..], j - i);
    } else {
      LeftTrimmed(text, |text|);
    }
  }

  lemma {:induction false} HasCore(text: string) returns (i: nat, j: nat)
    ensures Core(text, i, j)
  {
    if text == [] {
      i, j := 0, 0;
    } else {
      var n := |text| - 1;
      i, j := HasCore(text[..n]);
      assert forall k :: 0 <= k < n ==> text[k] == text[..n][k];
      if text[n] > ' ' { i, j := if i == j then n else i, n + 1; }
    }
  }

  lemma CoreWithin(left: string, text: string, right: string, i: nat, j: nat)
    requires forall k :: 0 <= k < |left| ==> left[k] <= ' '
    requires forall k :: 0 <= k < |right| ==> right[k] <= ' '
    requires Core(text, i, j)
    ensures var whole, n := left + text + right, |left|;
            Core(whole, n + i, n + j) && whole[n + i..n + j] == text[i..j]
  {
    var whole, n := left + text + right, |left|;
    Within(left, text, right, i, j);
    forall k | 0 <= k < n + i || n + j <= k < |whole| ensures whole[k] <= ' ' {
      CharAt(left, text, right, k);
    }
    if i < j {
      CharAt(left, text, right, n + i);
      CharAt(left, text, right, n + j - 1);
    }
  }

  lemma CharAt(left: string, text: string, right: string, k: nat)
    requires k < |left| + |text| + |right|
    ensures (left + text + right)[k]
         == if k < |left| then left[k] else if k < |left| + |text| then text[k - |left|] else right[k - |left| - |text|]
  {
  }

  lemma Within(left: string, text: string, right: string, i: nat, j: nat)
    requires i <= j <= |text|
    ensures (left + text + right)[|left| + i..|left| + j] == text[i..j]
  {
    var whole := left + text + right;
    assert whole[|left|..|left| + |text|] == text;
    assert whole[|left| + i..|left| + j] == whole[|left|..|left| + |text|][i..j];
  }

  /** Blanks around a text do not matter. */
  lemma {:induction false} BlanksIgnored(left: string, text: string, right: string)
    requires forall k :: 0 <= k < |left| ==> left[k] <= ' '
    requires forall k :: 0 <= k < |right| ==> right[k] <= ' '
    ensures Denotes(left + text + right) == Denotes(text)
  {
    hide Mantissa, Core, TrimLeft, TrimRight, IsSign;
    var i, j := HasCore(text);
    CoreWithin(left, text, right, i, j);
    TrimIs(text, i, j);
    TrimIs(left + text + right, |left| + i, |left| + j);
  }

  /** One character of the mantissa. */
  lemma {:induction false} MantissaStep(s: string, i: nat, neg: bool, num: nat, frac: nat, dot: bool, any: bool)
    requires i < |s|
    ensures Mantissa(s, i, neg, num, frac, dot, any)
         == if IsDigit(s[i]) then Mantissa(s, i + 1, neg, num * 10 + DigitOf(s[i]), if dot then frac + 1 else frac, dot, true)
            else if s[i] == '.' && !dot then Mantissa(s, i + 1, neg, num, frac, true, any)
            else if (s[i] == 'e' || s[i] == 'E') && any && Exponent(s[i + 1..]).Some?
            then Some(Number(neg, num, frac, Exponent(s[i + 1..]).value)) else None
  {
    hide Exponent, DigitOf;
  }

  lemma MantissaEnd(s: string, neg: bool, num: nat, frac: nat, dot: bool, any: bool)
    ensures Mantissa(s, |s|, neg, num, frac, dot, any) == if any then Some(Number(neg, num, frac, 0)) else None
  {
  }

  lemma SameRest(c: char, s: string, i: nat)
    requires i < |s|
    ensures ([c] + s)[i + 1] == s[i] && ([c] + s)[i + 2..] == s[i + 1..]
  {
  }

  function Signed(m: Option<Number>, neg: bool): Option<Number>
  {
    if m.None? then None else Some(m.value.(neg := neg))
  }

  lemma {:induction false} MantissaShifted(c: char, s: string, i: nat, neg: bool, neg': bool, num: nat, frac: nat, dot: bool, any: bool)
    requires i <= |s|
    ensures Mantissa([c] + s, i + 1, neg', num, frac, dot, any) == Signed(Mantissa(s, i, neg, num, frac, dot, any), neg')
    decreases |s| - i
  {
    hide Mantissa, Exponent, DigitOf;
    var t := [c] + s;
    if i == |s| {
      MantissaEnd(s, neg, num, frac, dot, any);
      MantissaEnd(t, neg', num, frac, dot, any);
    } else {
      SameRest(c, s, i);
      MantissaStep(s, i, neg, num, frac, dot, any);
      MantissaStep(t, i + 1, neg', num, frac, dot, any);
      if IsDigit(s[i]) {
        MantissaShifted(c, s, i + 1, neg, neg', num * 10 + DigitOf(s[i]), if dot then frac + 1 else frac, dot, true);
      } else if s[i] == '.' && !dot {
        MantissaShifted(c, s, i + 1, neg, neg', num, frac, true, any);
      }
    }
  }

  /** A sign before a number without one: '+' changes nothing and '-' makes it negative. */
  lemma {:induction false} SignRead(c: char, s: string)
    requires IsSign(c) && Core(s, 0, |s|) && s != [] && !IsSign(s[0]) && |s| + 1 < TEXT_LIMIT
    ensures Denotes([c] + s) == Signed(Denotes(s), c == '-')
  {
    hide Mantissa;
    TrimIs(s, 0, |s|);
    TrimIs([c] + s, 0, |s| + 1);
    MantissaShifted(c, s, 0, false, c == '-', 0, 0, false, false);
  }

  // ----- the exponent

  /** Exponents too large to matter are not read to the end. */
  ghost predicate Agrees(e: int, v: int)
  {
    e == v || (e >= MAX_EXPN && v >= MAX_EXPN) || (e <= -MAX_EXPN && v <= -MAX_EXPN)
  }

  /** The first eight digits of a number, or all of fewer. */
  function Leading8(v: int): int
  {
    if v <= MAX_EXPN then v else Leading8(v / 10)
  }

  /** A positive exponent of nine digits or more is refused, unless its first eight are nines:
      then it was cut off at the bound itself. */
  predicate RefusedExponent(v: int)
  {
    v > MAX_EXPN && Leading8(v) != MAX_EXPN
  }

  /** What is kept of the exponent v, which stops growing at the bound. */
  ghost predicate Kept(e: int, v: int)
  {
    if v <= MAX_EXPN then e == v else MAX_EXPN <= e <= v && (e > MAX_EXPN <==> RefusedExponent(v))
  }

  lemma ZeroKept()
    ensures Kept(0, 0)
  {
  }

  lemma KeptDigit(e: nat, v: nat, d: nat)
    requires Kept(e, v) && d < 10
    ensures Kept(if e < MAX_EXPN then e * 10 + d else e, v * 10 + d)
  {
    assert (v * 10 + d) / 10 == v;
    if v * 10 + d > MAX_EXPN { assert Leading8(v * 10 + d) == Leading8(v); }
  }

  /** ct_cm_parse_num_expn after the sign. */
  method ReadExponentDigits(s: string, start: nat) returns (r: Option<nat>)
    requires start < |s|
    ensures r.None? <==> !AllDigits(s[start..])
    ensures r.Some? ==> Kept(r.value, Num(Digits(s[start..]), 10))
  {
    hide Num, Kept;
    NumZero([], 10);
    ZeroKept();
    var ds, i := s[start..], 0;
    var e: nat := 0;
    // skip leading zeros
    while i < |ds| && ds[i] == '0'
      invariant i <= |ds| && AllDigits(ds[..i]) && Num(Digits(ds[..i]), 10) == 0
    {
      ExponentStep(ds, i);
      i := i + 1;
    }
    while i < |ds|
      invariant i <= |ds| && AllDigits(ds[..i])
      invariant Kept(e, Num(Digits(ds[..i]), 10))
    {
      if !IsDigit(ds[i]) {
        return None;
      }
      ExponentStep(ds, i);
      KeptDigit(e, Num(Digits(ds[..i]), 10), DigitOf(ds[i]));
      if e < MAX_EXPN {
        e := e * 10 + DigitOf(ds[i]);
      }
      i := i + 1;
    }
    assert ds[..i] == ds;
    return Some(e);
  }

  lemma ExponentStep(s: string, i: nat)
    requires i < |s| && AllDigits(s[..i]) && IsDigit(s[i])
    ensures AllDigits(s[..i + 1])
    ensures Num(Digits(s[..i + 1]), 10) == Num(Digits(s[..i]), 10) * 10 + DigitOf(s[i])
  {
    hide Num;
    assert s[..i + 1][..i] == s[..i];
    NumSnoc(Digits(s[..i]), DigitOf(s[i]), 10);
  }

  /** ct_cm_parse_num_expn */
  method ParseExponent(s: string) returns (r: Option<int>)
    ensures Exponent(s).None? ==> r.None?
    ensures Exponent(s).Some? ==> (r.None? <==> RefusedExponent(Exponent(s).value))
    ensures Exponent(s).Some? && r.Some? ==> Agrees(r.value, Exponent(s).value)
  {
    hide Num;
    var i, neg := 0, false;
    if s != [] && IsSign(s[0]) {
      neg, i := s[0] == '-', 1;
    }
    if i >= |s| { return None; }
    assert s[0..] == s;
    var e := ReadExponentDigits(s, i);
    if e.None? || (!neg && e.value > MAX_EXPN) { return None; }
    return Some(if neg then 0 - e.value else e.value);
  }

  // ----- the mantissa

  /** num_part_t: the significant digits and the exponent of the first one. */
  datatype Part = Part(neg: bool, digits: seq<nat>, sci: int, doRound: bool)

  /** precision, the offsets of the dot and of the first significant digit, -1 if none, the
      digits kept and the rounding flag. */
  datatype Scan = Scan(precision: int, dotAt: int, precAt: int, digits: seq<nat>, doRound: bool)

  /** What the scan of s[..i] stands for: sig are all the significant digits read. */
  ghost predicate Scanned(i: nat, num: nat, frac: nat, sig: seq<nat>, sc: Scan)
  {
    && Below(sig, 10) && Num(sig, 10) == num && (sig != [] ==> sig[0] > 0)
    && (if sig == [] then -1 <= sc.precision <= 0 else sc.precision == |sig|)
    && sc.digits == (if |sig| <= MAX_DIGITS then sig else sig[..MAX_DIGITS])
    && (sc.doRound ==> |sig| > MAX_DIGITS)
    && -1 <= sc.dotAt < i && frac == (if sc.dotAt >= 0 then i - sc.dotAt - 1 else 0)
    && (sig != [] ==> 0 <= sc.precAt < i && sc.precAt != sc.dotAt
                      && |sig| == i - sc.precAt - if sc.dotAt > sc.precAt then 1 else 0)
  }

  /** ct_cm_record_digit */
  method RecordDigit(sc: Scan, pos: nat, d: nat, ghost num: nat, ghost frac: nat, ghost sig: seq<nat>)
      returns (r: Scan)
    requires Scanned(pos, num, frac, sig, sc) && d < 10 && (sig == [] ==> d > 0)
    ensures Scanned(pos + 1, num * 10 + d, if sc.dotAt >= 0 then frac + 1 else frac, sig + [d], r)
    ensures r.dotAt == sc.dotAt && r.precision >= 0
  {
    hide Num;
    NumSnoc(sig, d, 10);
    r := sc;
    if r.precision >= 0 {
      r := r.(precision := r.precision + 1);
      if r.precision > MAX_DIGITS + 1 {
        return;
      } else if r.precision == MAX_DIGITS + 1 {
        r := r.(doRound := d >= 5);
        return;
      }
    } else {
      r := r.(precision := 1);
    }
    if r.precision == 1 {
      r := r.(precAt := pos);
    }
    r := r.(digits := r.digits + [d]);
  }

  /** ct_cm_calc_significand_expn */
  function SignificandExpn(dotAt: int, precAt: int, precision: int): int
  {
    if dotAt >= 0 then
      var d := dotAt - precAt;
      if d > 0 then d - 1 else d
    else precision - 1
  }

  /** What the parts of a text denote; the parser gives up exactly on 72 significant digits or
      more and on a refused exponent. */
  ghost predicate SplitAs(r: Option<Part>, n: Number)
  {
    && n.frac < TEXT_LIMIT
    && (r.None? <==> n.num >= Pow(10, MAX_DIGITS - 1) || RefusedExponent(n.expn))
    && (r.Some? ==> if n.num == 0 then r.value.digits == [0] else PartOf(r.value, n))
  }

  ghost predicate PartOf(p: Part, n: Number)
  {
    && p.neg == n.neg && !p.doRound && 0 < |p.digits| < MAX_DIGITS && Below(p.digits, 10)
    && p.digits[0] > 0 && Num(p.digits, 10) == n.num
    && Agrees(p.sci - |p.digits| + 1 + n.frac, n.expn)
  }

  method SplitNumText(text: string) returns (r: Option<Part>)
    ensures Denotes(text).None? ==> r.None?
    ensures Denotes(text).Some? ==> SplitAs(r, Denotes(text).value)
  {
    var s, i := TrimRight(TrimLeft(text)), 0;
    if s == [] || |s| >= TEXT_LIMIT { return None; }
    var neg := s[0] == '-';
    if IsSign(s[0]) { i := 1; }
    if i >= |s| { return None; }
    r := ScanMantissa(s, i, neg);
  }

  lemma NothingScanned(i: nat)
    ensures Scanned(i, 0, 0, [], Scan(-1, -1, -1, [], false))
  {
  }

  lemma ScannedZero(i: nat, num: nat, frac: nat, sig: seq<nat>, sc: Scan)
    requires Scanned(i, num, frac, sig, sc) && sig == []
    ensures num == 0
    ensures Scanned(i + 1, num, if sc.dotAt >= 0 then frac + 1 else frac, sig, sc.(precision := 0))
  {
  }

  lemma ScannedDot(i: nat, num: nat, frac: nat, sig: seq<nat>, sc: Scan)
    requires Scanned(i, num, frac, sig, sc) && sc.dotAt < 0
    ensures Scanned(i + 1, num, frac, sig, sc.(dotAt := i))
  {
    hide Num;
  }

  lemma ScanDone(i: nat, num: nat, frac: nat, sig: seq<nat>, sc: Scan, expn: int, n: Number)
    requires Scanned(i, num, frac, sig, sc) && 0 <= sc.precision && i < TEXT_LIMIT
    requires n.num == num && n.frac == frac && Agrees(expn, n.expn) && !RefusedExponent(n.expn)
    ensures sc.precision == 0 ==> SplitAs(Some(Part(n.neg, [0], expn, false)), n)
    ensures sc.precision > 0 && |sc.digits| >= MAX_DIGITS ==> SplitAs(None, n)
    ensures sc.precision > 0 && |sc.digits| < MAX_DIGITS ==>
              SplitAs(Some(Part(n.neg, sc.digits, expn + SignificandExpn(sc.dotAt, sc.precAt, sc.precision), sc.doRound)), n)
  {
    hide Pow;
    PowPositive(10, MAX_DIGITS - 1);
    if sig == [] {
      assert num == 0;
    } else {
      hide Num;
      NumLeading(sig, 10);
      NumBound(sig, 10);
      PowPositive(10, |sig| - 1);
      if |sig| > MAX_DIGITS { PowMonotone(10, MAX_DIGITS - 1, |sig| - 1); }
      if |sig| < MAX_DIGITS - 1 { PowMonotone(10, |sig|, MAX_DIGITS - 1); }
      assert SignificandExpn(sc.dotAt, sc.precAt, sc.precision) == |sig| - 1 - frac;
    }
  }

  lemma FracBound(i: nat, num: nat, frac: nat, sig: seq<nat>, sc: Scan)
    requires Scanned(i, num, frac, sig, sc)
    ensures frac <= i
  {
  }

  lemma ExponentGivenUp(e: Option<int>, neg: bool, num: nat, frac: nat)
    requires (e.None? || RefusedExponent(e.value)) && frac < TEXT_LIMIT
    ensures e.Some? ==> SplitAs(None, Number(neg, num, frac, e.value))
  {
  }

  lemma PowPositive(b: nat, n: nat)
    requires b > 0
    ensures Pow(b, n) > 0
  {
  }

  /** One character of a mantissa. */
  lemma MantissaAt(s: string, i: nat, neg: bool, num: nat, frac: nat, dot: bool, any: bool)
    requires i < |s|
    ensures Mantissa(s, i, neg, num, frac, dot, any)
         == if IsDigit(s[i]) then
              Mantissa(s, i + 1, neg, num * 10 + DigitOf(s[i]), if dot then frac + 1 else frac, dot, true)
            else if s[i] == '.' then
              if dot then None else Mantissa(s, i + 1, neg, num, frac, true, any)
            else if (s[i] == 'e' || s[i] == 'E') && any && Exponent(s[i + 1..]).Some? then
              Some(Number(neg, num, frac, Exponent(s[i + 1..]).value))
            else None
  {
  }

  lemma MantissaEnds(s: string, neg: bool, num: nat, frac: nat, dot: bool, any: bool)
    ensures Mantissa(s, |s|, neg, num, frac, dot, any) == if any then Some(Number(neg, num, frac, 0)) else None
  {
  }

  lemma SmallAgrees()
    ensures Agrees(0, 0) && !RefusedExponent(0)
  {
  }

  method ScanMantissa(s: string, start: nat, neg: bool) returns (r: Option<Part>)
    requires start < |s| < TEXT_LIMIT
    ensures var m := Mantissa(s, start, neg, 0, 0, false, false);
            if m.None? then r.None? else SplitAs(r, m.value)
  {
    hide Num, Scanned, SplitAs, Mantissa, Exponent, Agrees, RefusedExponent;
    var sc, i, leading, expn := Scan(-1, -1, -1, [], false), start, true, 0;
    ghost var num: nat, frac: nat, sig: seq<nat>, v := 0, 0, [], 0;
    NothingScanned(start);
    SmallAgrees();
    while i < |s|
      invariant start <= i <= |s| && expn == v == 0 && Agrees(expn, v) && !RefusedExponent(v)
      invariant Scanned(i, num, frac, sig, sc) && (leading <==> sig == [])
      invariant Mantissa(s, start, neg, 0, 0, false, false)
             == Mantissa(s, i, neg, num, frac, sc.dotAt >= 0, sc.precision >= 0)
    {
      var c := s[i];
      MantissaAt(s, i, neg, num, frac, sc.dotAt >= 0, sc.precision >= 0);
      if leading && c == '0' {
        ScannedZero(i, num, frac, sig, sc);
        frac := if sc.dotAt >= 0 then frac + 1 else frac;
        sc := sc.(precision := 0);
      } else {
        if leading && c != '.' { leading := false; }
        if IsDigit(c) {
          var next := RecordDigit(sc, i, DigitOf(c), num, frac, sig);
          num, frac, sig := num * 10 + DigitOf(c), if sc.dotAt >= 0 then frac + 1 else frac, sig + [DigitOf(c)];
          sc := next;
        } else if c == '.' {
          if sc.dotAt >= 0 { return None; }
          ScannedDot(i, num, frac, sig, sc);
          sc := sc.(dotAt := i);
        } else {
          if !(c == 'e' || c == 'E') || sc.precision < 0 { return None; }
          var e := ParseExponent(s[i + 1..]);
          if e.None? {
            FracBound(i, num, frac, sig, sc);
            ExponentGivenUp(Exponent(s[i + 1..]), neg, num, frac);
            return None;
          }
          expn, v := e.value, Exponent(s[i + 1..]).value;
          break;
        }
      }
      i := i + 1;
    }
    if i == |s| { MantissaEnds(s, neg, num, frac, sc.dotAt >= 0, sc.precision >= 0); }
    if sc.precision < 0 { return None; }
    ScanDone(i, num, frac, sig, sc, expn, Number(neg, num, frac, v));
    if sc.precision == 0 {
      return Some(Part(neg, [0], expn, false));
    }
    if |sc.digits| >= MAX_DIGITS { return None; }
    return Some(Part(neg, sc.digits, expn + SignificandExpn(sc.dotAt, sc.precAt, sc.precision), sc.doRound));
  }

  // ----- digits to cells

  const MAX_CELLS: nat := 9

  datatype Outcome = Parsed(dec: Decimal) | Rejected | Overrun

  /** Zeros appended so that the digits end on a cell boundary. */
  function Padding(len: nat, sci: int): nat
  {
    (sci + 1 - len) % 8
  }

  /** A cell's digits as a number (cm_celltext2uint32). */
  method CellText(ds: seq<nat>) returns (v: nat)
    ensures v == Num(ds, 10)
  {
    v := 0;
    for i := 0 to |ds|
      invariant v == Num(ds[..i], 10)
    {
      assert ds[..i + 1][..i] == ds[..i];
      v := v * 10 + ds[i];
    }
    assert ds[..|ds|] == ds;
  }

  /** The first i digits are packed into cells of eight. */
  ghost predicate CellsOf(ds: seq<nat>, i: nat, cells: seq<nat>)
  {
    && i <= |ds| && (|ds| - i) % 8 == 0
    && Below(cells, Pow(10, 8)) && Num(cells, Pow(10, 8)) == Num(ds[..i], 10)
  }

  lemma CellsStep(ds: seq<nat>, i: nat, cells: seq<nat>, x: nat)
    requires CellsOf(ds, i, cells) && i < |ds| && Below(ds, 10)
    requires i + 8 <= |ds| && x == Num(ds[i..i + 8], 10)
    ensures CellsOf(ds, i + 8, cells + [x])
  {
    hide Num, Pow;
    assert ds[..i + 8] == ds[..i] + ds[i..i + 8];
    NumConcat(ds[..i], ds[i..i + 8], 10);
    NumSnoc(cells, x, Pow(10, 8));
    NumBound(ds[i..i + 8], 10);
  }

  lemma CellsStart(ds: seq<nat>, n: nat, x: nat)
    requires 0 < n <= 8 && n <= |ds| && (|ds| - n) % 8 == 0 && Below(ds, 10) && x == Num(ds[..n], 10)
    ensures CellsOf(ds, n, [x])
  {
    hide Num, Pow;
    NumBound(ds[..n], 10);
    if n < 8 { PowMonotone(10, n, 8); }
    NumSingle(x, Pow(10, 8));
  }

  /** Cells from exponent e on and digits of which first are in the first cell. */
  ghost predicate SameNumber(cells: seq<nat>, ds: seq<nat>, first: nat)
  {
    forall e :: CellSum(cells, e, 8) == Scaled(Num(ds, 10), 8 * e + first - |ds|)
  }

  /** cm_digitext_to_cell8s */
  method DigitsToCells(ds: seq<nat>, first: nat) returns (cells: seq<nat>)
    requires 0 < first <= 8 && first <= |ds| <= MAX_DIGITS && (|ds| - first) % 8 == 0
    requires Below(ds, 10) && ds[0] > 0
    ensures 0 < |cells| <= MAX_CELLS && Below(cells, Pow(10, 8)) && cells[0] > 0 && cells[|cells| - 1] > 0
    ensures SameNumber(cells, ds, first)
  {
    hide Num, Pow, CellSum, Scaled, SameNumber;
    var x: nat := CellText(ds[..first]);
    CellsStart(ds, first, x);
    FirstCellPositive(ds[..first]);
    cells := [x];
    var i := first;
    while i < |ds|
      invariant CellsOf(ds, i, cells) && i == first + 8 * (|cells| - 1) && |cells| > 0 && cells[0] == x
    {
      var y: nat := CellText(ds[i..i + 8]);
      CellsStep(ds, i, cells, y);
      cells := cells + [y];
      i := i + 8;
    }
    CellsValue(ds, first, cells);
    while cells[|cells| - 1] == 0
      invariant 0 < |cells| <= MAX_CELLS && cells[0] == x
      invariant Below(cells, Pow(10, 8))
      invariant SameNumber(cells, ds, first)
      decreases |cells|
    {
      DropZeroCell(cells, ds, first);
      assert |cells| > 1;
      cells := cells[..|cells| - 1];
    }
  }

  lemma DropZeroCell(cells: seq<nat>, ds: seq<nat>, first: nat)
    requires cells != [] && cells[|cells| - 1] == 0 && SameNumber(cells, ds, first)
    ensures SameNumber(cells[..|cells| - 1], ds, first)
  {
    hide CellSum, Scaled, Num;
    var kept := cells[..|cells| - 1];
    assert cells == kept + [0];
    forall e ensures CellSum(kept, e, 8) == Scaled(Num(ds, 10), 8 * e + first - |ds|) {
      DecimalRepack.CellSumTrailingZero(kept, e, 8);
    }
  }

  lemma FirstCellPositive(ds: seq<nat>)
    requires ds != [] && ds[0] > 0
    ensures Num(ds, 10) > 0
  {
    hide Num, Pow;
    NumLeading(ds, 10);
    PowPositive(10, |ds| - 1);
  }

  lemma CellsValue(ds: seq<nat>, first: nat, cells: seq<nat>)
    requires CellsOf(ds, |ds|, cells) && |ds| == first + 8 * (|cells| - 1)
    ensures SameNumber(cells, ds, first)
  {
    hide Num, Pow, CellSum, Scaled;
    assert ds[..|ds|] == ds;
    forall e ensures CellSum(cells, e, 8) == Scaled(Num(ds, 10), 8 * e + first - |ds|) {
      CellSumIsScaled(cells, e, 8);
    }
  }

  /** cm_digitext_to_dec8: the digits denote Num(digits) * 10^(sci + 1 - |digits|). Padding
      the digits beyond the buffer is what the source does not guard against. */
  method DigitsToDec8(p: Part) returns (r: Outcome)
    requires 0 < |p.digits| < MAX_DIGITS && Below(p.digits, 10) && p.digits[0] > 0 && -127 <= p.sci <= 127
    ensures r.Overrun? <==> |p.digits| + Padding(|p.digits|, p.sci) > MAX_DIGITS
    ensures !r.Overrun? ==> r.Parsed? && r.dec.neg == p.neg && Canonical(r.dec, 8) && 0 < |r.dec.cells| <= MAX_CELLS
    ensures !r.Overrun? ==> Magnitude(r.dec, 8) == Scaled(Num(p.digits, 10), p.sci + 1 - |p.digits|)
  {
    hide Num, Pow, CellSum, Scaled;
    var ds := p.digits;
    var first, dotPos := |ds| % 8, p.sci + 1;
    // the shift makes the operand of the remainder positive
    var delta := (dotPos - first + 8 * 65536) % 8;
    first := (first + delta) % 8;
    if first == 0 { first := 8; }
    PaddingBoundary(|ds|, p.sci, delta, first);
    if |ds| + delta > MAX_DIGITS { return Overrun; }
    var padded := Pad(ds, delta);
    var cells := DigitsToCells(padded, first);
    r := Parsed(Decimal(p.neg, (dotPos - first) / 8, cells));
    ScaledShift(Num(ds, 10), delta, dotPos - |ds| - delta);
    assert Magnitude(r.dec, 8) == Scaled(Num(padded, 10), dotPos - |padded|);
  }

  method Pad(ds: seq<nat>, n: nat) returns (r: seq<nat>)
    requires Below(ds, 10)
    ensures |r| == |ds| + n && Below(r, 10) && ds <= r && Num(r, 10) == Num(ds, 10) * Pow(10, n)
  {
    hide Num;
    r := ds;
    for i := 0 to n
      invariant |r| == |ds| + i && Below(r, 10) && ds <= r && Num(r, 10) == Num(ds, 10) * Pow(10, i)
    {
      NumSnoc(r, 0, 10);
      MulAssoc(Num(ds, 10), Pow(10, i), 10);
      r := r + [0];
    }
  }

  lemma PaddingBoundary(len: nat, sci: int, delta: int, first: int)
    requires delta == (sci + 1 - len % 8 + 8 * 65536) % 8
    requires first == (if (len % 8 + delta) % 8 == 0 then 8 else (len % 8 + delta) % 8)
    ensures delta == Padding(len, sci) && 0 <= delta < 8
    ensures (len + delta - first) % 8 == 0 && (sci + 1 - first) % 8 == 0
    ensures len > 0 ==> first <= len + delta
  {
  }

  // ----- the parser

  ghost function DigitCount(n: nat): (r: nat)
    ensures r > 0
  {
    if n < 10 then 1 else 1 + DigitCount(n / 10)
  }

  lemma {:induction false} CountOfDigits(ds: seq<nat>)
    requires ds != [] && ds[0] > 0 && Below(ds, 10)
    ensures DigitCount(Num(ds, 10)) == |ds|
  {
    var n := |ds| - 1;
    if n > 0 {
      CountOfDigits(ds[..n]);
      FirstCellPositive(ds[..n]);
      assert Num(ds, 10) / 10 == Num(ds[..n], 10);
    } else {
      assert ds[..0] == [];
    }
  }

  /** The exponent of the first significant digit. */
  ghost function SciOf(n: Number): int { DigitCount(n.num) - 1 - n.frac + n.expn }

  /** It places the number between two powers of ten. */
  lemma SciBrackets(n: Number)
    requires n.num > 0
    ensures Ten(SciOf(n)) <= Scaled(n.num, n.expn - n.frac) < Ten(SciOf(n) + 1)
  {
    hide Pow, Ten, DigitCount;
    var len, e := DigitCount(n.num), n.expn - n.frac;
    CountBounds(n.num);
    ScaledShift(1, len - 1, e);
    ScaledShift(1, len, e);
    ScaledMonotone(Pow(10, len - 1), n.num, e);
    ScaledMonotone(n.num, Pow(10, len), e);
  }

  lemma ScaledMonotone(m: nat, n: nat, e: int)
    ensures m <= n ==> Scaled(m, e) <= Scaled(n, e)
    ensures m < n ==> Scaled(m, e) < Scaled(n, e)
  {
  }

  lemma {:induction false} CountBounds(n: nat)
    requires n > 0
    ensures Pow(10, DigitCount(n) - 1) <= n < Pow(10, DigitCount(n))
  {
    if n >= 10 {
      CountBounds(n / 10);
      PowStep(DigitCount(n) - 1);
      PowStep(DigitCount(n));
    }
  }

  /** What parsing a text that denotes n must give. Beyond exponent 127 it is refused, below
      -127 it is zero, and otherwise the decimal is canonical and exactly n, unless its digits
      and their padding do not fit 72 places. */
  ghost predicate ParsedAs(r: Outcome, n: Number)
  {
    var len, sci := DigitCount(n.num), SciOf(n);
    if n.num == 0 then r == if RefusedExponent(n.expn) then Rejected else Parsed(DecimalRepack.ZERO)
    else if len >= MAX_DIGITS || sci > 127 then r.Rejected?
    else if sci < -127 then r == Parsed(DecimalRepack.ZERO)
    else if len + Padding(len, sci) > MAX_DIGITS then r.Overrun?
    else
      && r.Parsed? && r.dec.neg == n.neg && Canonical(r.dec, 8) && 0 < |r.dec.cells| <= MAX_CELLS
      && Magnitude(r.dec, 8) == Scaled(n.num, n.expn - n.frac)
  }

  /** ct_cm_numpart_to_dec8 */
  method PartToDec8(p: Part, ghost n: Number) returns (r: Outcome)
    requires SplitAs(Some(p), n)
    ensures ParsedAs(r, n)
  {
    hide Num, Pow, Scaled, Magnitude, Canonical, DigitCount;
    if p.digits == [0] {
      return Parsed(DecimalRepack.ZERO);
    }
    CountOfDigits(p.digits);
    if p.sci > 127 { return Rejected; }
    if p.sci < -127 { return Parsed(DecimalRepack.ZERO); }
    assert p.sci == SciOf(n);
    r := DigitsToDec8(p);
    // the source rounds here, for a flag that no accepted text sets
    if p.doRound { assert false; }
  }

  lemma GivenUp(n: Number)
    requires SplitAs(None, n)
    ensures ParsedAs(Rejected, n)
  {
    hide Num, Scaled, Magnitude, Canonical;
    if n.num >= Pow(10, MAX_DIGITS - 1) {
      ManyDigits(n.num, MAX_DIGITS);
    }
  }

  lemma {:induction false} ManyDigits(n: nat, k: nat)
    requires k > 0 && n >= Pow(10, k - 1)
    ensures DigitCount(n) >= k
  {
    if k > 1 {
      assert Pow(10, k - 1) == 10 * Pow(10, k - 2);
      PowPositive(10, k - 2);
      ManyDigits(n / 10, k - 1);
    }
  }

  /** ct_cm_text_to_dec8, for every text. */
  method TextToDec8(text: string) returns (r: Outcome)
    ensures Denotes(text).None? ==> r.Rejected?
    ensures Denotes(text).Some? ==> ParsedAs(r, Denotes(text).value)
  {
    hide SplitAs, ParsedAs, Denotes;
    var p := SplitNumText(text);
    if p.None? {
      if Denotes(text).Some? { GivenUp(Denotes(text).value); }
      return Rejected;
    }
    r := PartToDec8(p.value, Denotes(text).value);
  }

  /** Up to 65 significant digits the digit buffer always suffices. */
  lemma NoOverrun(r: Outcome, n: Number)
    requires ParsedAs(r, n) && DigitCount(n.num) <= 65
    ensures !r.Overrun?
  {
  }

  // ----- printing

  /** "%u" */
  function Decimals(n: nat): (r: seq<nat>)
    ensures r != [] && Below(r, 10) && Num(r, 10) == n && (n > 0 ==> r[0] > 0)
  {
    if n < 10 then
      NumSingle(n, 10);
      [n]
    else
      NumSnoc(Decimals(n / 10), n % 10, 10);
      Decimals(n / 10) + [n % 10]
  }

  /** "%0wu" for a number of at most w digits */
  function Padded(n: nat, w: nat): (r: seq<nat>)
    ensures |r| == w && Below(r, 10) && (n < Pow(10, w) ==> Num(r, 10) == n)
  {
    if w == 0 then []
    else
      NumSnoc(Padded(n / 10, w - 1), n % 10, 10);
      Padded(n / 10, w - 1) + [n % 10]
  }

  /** All digits of the cells, the first cell's without leading zeros. */
  function CellDigits(cells: seq<nat>): seq<nat>
    requires cells != []
  {
    var n := |cells| - 1;
    if n == 0 then Decimals(cells[0]) else CellDigits(cells[..n]) + Padded(cells[n], 8)
  }

  lemma {:induction false} CellDigitsValue(cells: seq<nat>)
    requires cells != [] && cells[0] > 0 && Below(cells, Pow(10, 8))
    ensures var ds := CellDigits(cells);
            && Below(ds, 10) && |ds| == |Decimals(cells[0])| + 8 * (|cells| - 1) && ds[0] > 0
            && Num(ds, 10) == Num(cells, Pow(10, 8))
  {
    var n := |cells| - 1;
    hide Num, Pow, Decimals, Padded;
    if n == 0 {
      NumSingle(cells[0], Pow(10, 8));
      assert cells == [cells[0]];
    } else {
      CellDigitsValue(cells[..n]);
      NumConcat(CellDigits(cells[..n]), Padded(cells[n], 8), 10);
      NumSnoc(cells[..n], cells[n], Pow(10, 8));
      assert cells == cells[..n] + [cells[n]];
    }
  }

  function DropZeros(s: seq<nat>): (r: seq<nat>)
    ensures r <= s && (r != [] ==> r[|r| - 1] != 0)
  {
    if s != [] && s[|s| - 1] == 0 then DropZeros(s[..|s| - 1]) else s
  }

  /** The significant digits without trailing zeros. */
  function Significand(cells: seq<nat>): seq<nat>
    requires cells != []
  {
    DropZeros(CellDigits(cells))
  }

  /** Dropping trailing zeros drops as many digits as the number has factors of ten. */
  lemma {:induction false} DroppedZeros(s: seq<nat>, m: nat, j: nat)
    requires Below(s, 10) && Num(s, 10) == m * Pow(10, j) && m % 10 != 0
    ensures j < |s| && |DropZeros(s)| == |s| - j && Num(DropZeros(s), 10) == m
  {
    PowStep(j);
    hide Pow, Num;
    if s == [] {
      PowPositive(10, j);
      MulLess(1, m, Pow(10, j));
      NumZero(s, 10);
      assert false;
    }
    var n := |s| - 1;
    NumSnoc(s[..n], s[n], 10);
    assert s == s[..n] + [s[n]];
    if j == 0 {
      LastNonzero(Num(s[..n], 10), s[n], m);
    } else {
      MulAssoc(m, 10, Pow(10, j - 1));
      MulAssoc(m, Pow(10, j - 1), 10);
      DivModUnique(Num(s[..n], 10), m * Pow(10, j - 1), s[n], 0, 10);
      DroppedZeros(s[..n], m, j - 1);
    }
  }

  lemma LastNonzero(p: nat, d: nat, m: nat)
    requires p * 10 + d == m && m % 10 != 0
    ensures d != 0
  {
  }

  /** cm_count_u32digits */
  function CountU32Digits(u: nat): nat
  {
    if u >= 100000 then
      if u >= 10000000 then
        if u < 100000000 then 8 else if u >= 1000000000 then 10 else 9
      else if u >= 1000000 then 7 else 6
    else if u >= 1000 then
      if u >= 10000 then 5 else 4
    else if u >= 100 then 3 else if u >= 10 then 2 else 1
  }

  /** The digits of a 32-bit number, as printed. */
  lemma CountsDigits(u: nat)
    requires u < 4294967296
    ensures CountU32Digits(u) == |Decimals(u)|
  {
    hide Decimals;
    ThreeDigits(u);
    ThreeDigits(u / 1000);
    ThreeDigits(u / 1000 / 1000);
    ThreeDigits(u / 1000 / 1000 / 1000);
  }

  lemma ThreeDigits(u: nat)
    ensures |Decimals(u)| == if u < 10 then 1 else if u < 100 then 2 else if u < 1000 then 3 else 3 + |Decimals(u / 1000)|
  {
    hide Num;
    assert u / 10 / 10 == u / 100 && u / 100 / 10 == u / 1000;
    if u >= 10 {
      assert |Decimals(u)| == 1 + |Decimals(u / 10)|;
      if u >= 100 {
        assert |Decimals(u / 10)| == 1 + |Decimals(u / 100)|;
        if u >= 1000 { assert |Decimals(u / 100)| == 1 + |Decimals(u / 1000)|; }
      }
    }
  }

  /** A number without its trailing zeros. */
  method StripTens(u0: nat) returns (u: nat, j: nat)
    requires u0 > 0
    ensures u0 == u * Pow(10, j) && u % 10 != 0
  {
    u, j := u0, 0;
    while u != 0 && u % 10 == 0
      invariant u > 0 && u0 == u * Pow(10, j)
    {
      MulAssoc(u / 10, 10, Pow(10, j));
      u, j := u / 10, j + 1;
    }
  }

  ghost predicate DigitCells(cells: seq<nat>)
  {
    0 < |cells| <= MAX_CELLS && Below(cells, Pow(10, 8)) && cells[0] > 0
  }

  /** cm_dec8_calc_prec */
  method CalcPrec(cells: seq<nat>) returns (prec: nat)
    requires DigitCells(cells)
    ensures prec == |Significand(cells)|
  {
    hide Num, Pow, Decimals, CellDigits, DigitCells;
    CellBounds(cells);
    var i := |cells| - 1;
    while i > 0 && cells[i] == 0
      invariant 0 <= i < |cells|
      invariant forall k :: i < k < |cells| ==> cells[k] == 0
    {
      i := i - 1;
    }
    var u, j := StripTens(cells[i]);
    PrecOfCell(cells, i, u, j);
    if i == 0 {
      prec := CountU32Digits(u);
    } else {
      prec := i * 8 - j + CountU32Digits(cells[0]);
    }
  }

  lemma CellBounds(cells: seq<nat>)
    requires DigitCells(cells)
    ensures 0 < |cells| <= MAX_CELLS && cells[0] > 0 && forall i :: 0 <= i < |cells| ==> cells[i] < 100000000
  {
  }

  /** The last nonzero cell decides how many digits are significant. */
  lemma PrecOfCell(cells: seq<nat>, i: nat, u: nat, j: nat)
    requires DigitCells(cells) && i < |cells| && cells[i] == u * Pow(10, j) && u % 10 != 0
    requires forall k :: i < k < |cells| ==> cells[k] == 0
    ensures |Significand(cells)| == if i == 0 then CountU32Digits(u) else i * 8 - j + CountU32Digits(cells[0])
  {
    hide Num, Pow, Decimals, CellDigits, DigitCells;
    CellBounds(cells);
    assert Below(cells, Pow(10, 8)) by { BelowCells(cells); }
    CellDigitsValue(cells);
    CountsDigits(cells[0]);
    var z := 8 * (|cells| - 1 - i);
    var m := TensInCells(cells, i, u, j);
    DroppedZeros(CellDigits(cells), m, j + z);
    if i == 0 {
      FirstCellPrec(cells[0], u, j);
    }
  }

  lemma BelowCells(cells: seq<nat>)
    requires DigitCells(cells)
    ensures Below(cells, Pow(10, 8))
  {
  }

  lemma FirstCellPrec(c: nat, u: nat, j: nat)
    requires c == u * Pow(10, j) && u % 10 != 0 && c < 100000000
    ensures j + CountU32Digits(u) == |Decimals(c)|
  {
    hide Num, Pow, Decimals;
    PowPositive(10, j);
    MulLess(1, Pow(10, j), u);
    CountsDigits(u);
    DroppedZeros(Decimals(c), u, j);
    ScaledDigits(u, j);
  }

  lemma {:induction false} ScaledDigits(u: nat, j: nat)
    requires u > 0
    ensures |Decimals(u * Pow(10, j))| == |Decimals(u)| + j
  {
    PowStep(j);
    hide Pow, Decimals;
    if j > 0 {
      ScaledDigits(u, j - 1);
      PowPositive(10, j - 1);
      MulLess(1, u, Pow(10, j - 1));
      MulAssoc(10, u, Pow(10, j - 1));
      MulAssoc(u, 10, Pow(10, j - 1));
      TimesTen(u * Pow(10, j - 1));
    }
  }

  lemma PowStep(j: nat)
    ensures Pow(10, j) == if j == 0 then 1 else 10 * Pow(10, j - 1)
  {
  }

  lemma TimesTen(v: nat)
    requires v > 0
    ensures |Decimals(10 * v)| == |Decimals(v)| + 1
  {
    assert 10 * v / 10 == v;
  }

  /** The cells' number as a multiple of ten's power. */
  lemma TensInCells(cells: seq<nat>, i: nat, u: nat, j: nat) returns (m: nat)
    requires i < |cells| && Below(cells, Pow(10, 8)) && cells[i] == u * Pow(10, j) && u % 10 != 0
    requires forall k :: i < k < |cells| ==> cells[k] == 0
    ensures m % 10 != 0 && Num(cells, Pow(10, 8)) == m * Pow(10, j + 8 * (|cells| - 1 - i))
  {
    hide Num, Pow;
    var b, rest := Pow(10, 8), |cells| - 1 - i;
    NumTrimZeros(cells, i + 1, b);
    PowPow(10, 8, rest);
    assert cells[..i + 1] == cells[..i] + [cells[i]];
    NumSnoc(cells[..i], cells[i], b);
    TensBelow(u, j);
    m := Num(cells[..i], b) * Pow(10, 8 - j) + u;
    PowAdd(10, 8 - j, j);
    Distribute(Num(cells[..i], b), Pow(10, 8 - j), u, Pow(10, j));
    PowAdd(10, j, 8 * rest);
    MulAssoc(m, Pow(10, j), Pow(10, 8 * rest));
    TenDivides(Num(cells[..i], b), 7 - j, u);
  }

  lemma Distribute(n: nat, p: nat, u: nat, q: nat)
    ensures (n * p + u) * q == n * (p * q) + u * q
  {
    MulAssoc(n, p, q);
  }

  lemma TensBelow(u: nat, j: nat)
    requires u > 0 && u * Pow(10, j) < Pow(10, 8)
    ensures j < 8
  {
    if j >= 8 {
      MulLess(1, u, Pow(10, j));
      if j > 8 { PowMonotone(10, 8, j); }
    }
  }

  lemma TenDivides(n: nat, k: nat, u: nat)
    requires u % 10 != 0
    ensures (n * Pow(10, k + 1) + u) % 10 != 0
  {
    assert Pow(10, k + 1) == 10 * Pow(10, k);
    hide Pow;
    MulAssoc(n, 10, Pow(10, k));
    MulAssoc(10, n, Pow(10, k));
    LastDigit(n * Pow(10, k), u);
  }

  lemma LastDigit(x: nat, u: nat)
    ensures (10 * x + u) % 10 == u % 10
  {
  }

  /** cm_cell8s_to_text */
  method CellsToText(cells: seq<nat>, maxLen: nat) returns (r: seq<nat>)
    requires DigitCells(cells) && maxLen > 0
    ensures var ds := CellDigits(cells); r == DropZeros(if maxLen < |ds| then ds[..maxLen] else ds)
  {
    hide Num, Pow, Decimals, Padded, DigitCells, DropZeros;
    CellBounds(cells);
    assert cells[..1][..0] == [] && cells[..1][0] == cells[0];
    r := Decimals(cells[0]);
    var i := 1;
    assert r == CellDigits(cells[..1]);
    while |r| < maxLen && i < |cells|
      invariant 1 <= i <= |cells| && r == CellDigits(cells[..i])
    {
      assert cells[..i + 1][..i] == cells[..i];
      r := r + Padded(cells[i], 8);
      i := i + 1;
    }
    CellDigitsGrow(cells, i);
    assert cells[..|cells|] == cells;
    hide CellDigits;
    if |r| > maxLen { r := r[..maxLen]; }
    ghost var ds := CellDigits(cells);
    assert r == if maxLen < |ds| then ds[..maxLen] else ds;
    r := TrimTail(r);
  }

  method TrimTail(s: seq<nat>) returns (r: seq<nat>)
    requires s != [] && s[0] > 0
    ensures r == DropZeros(s)
  {
    r := s;
    var i := |s| - 1;
    while i > 0 && r[i] == 0
      invariant 0 <= i == |r| - 1 && r <= s && DropZeros(s) == DropZeros(r)
    {
      r, i := r[..i], i - 1;
    }
  }

  lemma {:induction false} CellDigitsGrow(cells: seq<nat>, i: nat)
    requires 0 < i <= |cells| && DigitCells(cells)
    ensures CellDigits(cells[..i]) <= CellDigits(cells)
    ensures CellDigits(cells[..i])[0] > 0
    decreases |cells|
  {
    hide Num, Pow, Decimals, Padded;
    var n := |cells| - 1;
    if i == |cells| {
      CellDigitsValue(cells);
      assert cells[..i] == cells;
    } else {
      CellDigitsGrow(cells[..n], i);
      assert cells[..n][..i] == cells[..i];
    }
  }

  // ----- plain text

  function Chars(ds: seq<nat>): (r: string)
    requires Below(ds, 10)
    ensures |r| == |ds|
  {
    seq(|ds|, i requires 0 <= i < |ds| && Below(ds, 10) => ('0' as int + ds[i]) as char)
  }

  function ZeroChars(n: nat): (r: string)
    ensures |r| == n
  {
    seq(n, i => '0')
  }

  /** The digits ds with the point dotPos digits behind their start. */
  function Body(ds: seq<nat>, dotPos: int): string
    requires Below(ds, 10)
  {
    if |ds| <= dotPos then Chars(ds) + ZeroChars(dotPos - |ds|)
    else if dotPos >= 0 then Chars(ds[..dotPos]) + "." + Chars(ds[dotPos..])
    else "." + ZeroChars(-dotPos) + Chars(ds)
  }

  function PlainForm(neg: bool, ds: seq<nat>, dotPos: int): string
    requires Below(ds, 10)
  {
    Sign(neg) + Body(ds, dotPos)
  }

  /** Its length. */
  function PlainLength(neg: bool, n: nat, dotPos: int): int
  {
    (if neg then 1 else 0) + if n <= dotPos then dotPos else if dotPos >= 0 then n + 1 else n + 1 - dotPos
  }

  /** What it stands for. */
  function ShownAs(neg: bool, ds: seq<nat>, dotPos: int): Number
  {
    if |ds| <= dotPos then Number(neg, Num(ds, 10) * Pow(10, dotPos - |ds|), 0, 0)
    else Number(neg, Num(ds, 10), |ds| - dotPos, 0)
  }

  /** Reading a run of digits. */
  lemma {:induction false} MantissaDigits(s: string, i: nat, ds: seq<nat>, neg: bool, num: nat, frac: nat, dot: bool, any: bool)
    requires Below(ds, 10) && i + |ds| <= |s| && s[i..i + |ds|] == Chars(ds)
    ensures Mantissa(s, i, neg, num, frac, dot, any)
         == Mantissa(s, i + |ds|, neg, num * Pow(10, |ds|) + Num(ds, 10), if dot then frac + |ds| else frac, dot, any || ds != [])
    decreases |ds|
  {
    hide Num, Mantissa, Chars;
    if ds == [] {
      assert Num([], 10) == 0 by { NumZero([], 10); }
    } else {
      var d: nat, rest: seq<nat> := ds[0], ds[1..];
      FirstChar(s, i, ds);
      MantissaAt(s, i, neg, num, frac, dot, any);
      MantissaDigits(s, i + 1, rest, neg, num * 10 + d, if dot then frac + 1 else frac, dot, true);
      assert ds == [d] + rest;
      NumCons(d, rest, 10);
      PowStep(|ds|);
      Distribute(num, 10, d, Pow(10, |ds| - 1));
    }
  }

  lemma FirstChar(s: string, i: nat, ds: seq<nat>)
    requires ds != [] && Below(ds, 10) && i + |ds| <= |s| && s[i..i + |ds|] == Chars(ds)
    ensures IsDigit(s[i]) && DigitOf(s[i]) == ds[0] && Below(ds[1..], 10)
    ensures s[i + 1..i + 1 + |ds[1..]|] == Chars(ds[1..])
  {
    var cs := s[i..i + |ds|];
    assert s[i] == cs[0];
    assert s[i + 1..i + |ds|] == cs[1..];
    assert cs[1..] == Chars(ds[1..]);
  }

  lemma MantissaZeros(s: string, i: nat, n: nat, neg: bool, num: nat, frac: nat, dot: bool, any: bool)
    requires i + n <= |s| && s[i..i + n] == ZeroChars(n)
    ensures Mantissa(s, i, neg, num, frac, dot, any)
         == Mantissa(s, i + n, neg, num * Pow(10, n), if dot then frac + n else frac, dot, any || n > 0)
  {
    hide Num, Mantissa, Pow;
    var zs := seq<nat>(n, i => 0);
    assert Chars(zs) == ZeroChars(n);
    NumZero(zs, 10);
    MantissaDigits(s, i, zs, neg, num, frac, dot, any);
  }

  /** The plain form denotes the digits at that point. */
  lemma PlainDenotes(neg: bool, ds: seq<nat>, dotPos: int)
    requires ds != [] && Below(ds, 10) && PlainLength(neg, |ds|, dotPos) < TEXT_LIMIT
    ensures Denotes(PlainForm(neg, ds, dotPos))
         == Some(ShownAs(neg, ds, dotPos))
  {
    hide Num, Pow, Chars, ZeroChars, Sign, Denotes, Unsigned, TrimLeft, TrimRight;
    PlainTrimmed(neg, ds, dotPos);
    var s := PlainForm(neg, ds, dotPos);
    if |ds| <= dotPos {
      assert Chars(ds) + ZeroChars(dotPos - |ds|) + "" == Chars(ds) + ZeroChars(dotPos - |ds|);
      WholeDenotes(neg, ds, dotPos - |ds|, s);
    } else if dotPos >= 0 {
      PointInside(neg, ds[..dotPos], ds[dotPos..], s);
      NumSplit(ds, dotPos, 10);
    } else {
      PointBefore(neg, -dotPos, ds, s);
    }
    TrimmedDenotes(s, neg);
  }

  /** The mantissa of a text behind its sign. */
  function Unsigned(s: string, neg: bool): Option<Number>
    requires s != []
  {
    Mantissa(s, if neg then 1 else 0, neg, 0, 0, false, false)
  }

  lemma TrimmedDenotes(s: string, neg: bool)
    requires 0 < |s| < TEXT_LIMIT && TrimRight(TrimLeft(s)) == s && (s[0] == '-' <==> neg) && (IsSign(s[0]) <==> neg)
    ensures Denotes(s) == Unsigned(s, neg)
  {
  }

  lemma Slices(sign: string, a: string, b: string, c: string, s: string, i: nat, j: nat, k: nat)
    requires s == sign + (a + b + c) && i == |sign| && j == i + |a| && k == j + |b|
    ensures |s| == k + |c| && s[i..j] == a && s[j..k] == b && s[k..k + |c|] == c
  {
  }

  function Sign(neg: bool): (s: string)
    ensures |s| == if neg then 1 else 0
  {
    if neg then "-" else ""
  }

  lemma WholeDenotes(neg: bool, ds: seq<nat>, n: nat, s: string)
    requires Below(ds, 10) && ds != [] && s == Sign(neg) + (Chars(ds) + ZeroChars(n) + "")
    ensures s != [] && Unsigned(s, neg) == Some(Number(neg, Num(ds, 10) * Pow(10, n), 0, 0))
  {
    hide Mantissa, Num, Pow, Chars, Sign, ZeroChars;
    var i, j := |Sign(neg)|, |Sign(neg)| + |ds|;
    Slices(Sign(neg), Chars(ds), ZeroChars(n), "", s, i, j, j + n);
    MantissaDigits(s, i, ds, neg, 0, 0, false, false);
    ZeroTimes(Pow(10, |ds|));
    MantissaZeros(s, j, n, neg, Num(ds, 10), 0, false, true);
    MantissaEnds(s, neg, Num(ds, 10) * Pow(10, n), 0, false, true);
  }

  lemma PointInside(neg: bool, hi: seq<nat>, lo: seq<nat>, s: string)
    requires Below(hi, 10) && Below(lo, 10) && lo != [] && s == Sign(neg) + (Chars(hi) + "." + Chars(lo))
    ensures s != []
    ensures Unsigned(s, neg) == Some(Number(neg, Num(hi, 10) * Pow(10, |lo|) + Num(lo, 10), |lo|, 0))
  {
    hide Mantissa, Num, Pow, Chars, Sign;
    var i, j := |Sign(neg)|, |Sign(neg)| + |hi|;
    Slices(Sign(neg), Chars(hi), ".", Chars(lo), s, i, j, j + 1);
    assert s[j] == s[j..j + 1][0];
    InsideMantissa(s, i, j, hi, lo, neg);
  }

  lemma InsideMantissa(s: string, i: nat, j: nat, hi: seq<nat>, lo: seq<nat>, neg: bool)
    requires Below(hi, 10) && Below(lo, 10) && lo != [] && j == i + |hi| && |s| == j + 1 + |lo|
    requires s[i..j] == Chars(hi) && s[j] == '.' && s[j + 1..] == Chars(lo)
    ensures Mantissa(s, i, neg, 0, 0, false, false)
         == Some(Number(neg, Num(hi, 10) * Pow(10, |lo|) + Num(lo, 10), |lo|, 0))
  {
    hide Mantissa, Num, Pow, Chars;
    MantissaDigits(s, i, hi, neg, 0, 0, false, false);
    ZeroTimes(Pow(10, |hi|));
    MantissaAt(s, j, neg, Num(hi, 10), 0, false, hi != []);
    MantissaDigits(s, j + 1, lo, neg, Num(hi, 10), 0, true, hi != []);
    MantissaEnds(s, neg, Num(hi, 10) * Pow(10, |lo|) + Num(lo, 10), |lo|, true, true);
  }

  lemma PointBefore(neg: bool, n: nat, ds: seq<nat>, s: string)
    requires Below(ds, 10) && ds != [] && s == Sign(neg) + ("." + ZeroChars(n) + Chars(ds))
    ensures s != [] && Unsigned(s, neg) == Some(Number(neg, Num(ds, 10), n + |ds|, 0))
  {
    hide Mantissa, Num, Pow, Chars, Sign, ZeroChars;
    var i := |Sign(neg)|;
    Slices(Sign(neg), ".", ZeroChars(n), Chars(ds), s, i, i + 1, i + 1 + n);
    assert s[i] == s[i..i + 1][0];
    BeforeMantissa(s, i, n, ds, neg);
  }

  lemma BeforeMantissa(s: string, i: nat, n: nat, ds: seq<nat>, neg: bool)
    requires Below(ds, 10) && ds != [] && |s| == i + 1 + n + |ds|
    requires s[i] == '.' && s[i + 1..i + 1 + n] == ZeroChars(n) && s[i + 1 + n..] == Chars(ds)
    ensures Mantissa(s, i, neg, 0, 0, false, false) == Some(Number(neg, Num(ds, 10), n + |ds|, 0))
  {
    hide Mantissa, Num, Pow, Chars, ZeroChars;
    MantissaAt(s, i, neg, 0, 0, false, false);
    MantissaZeros(s, i + 1, n, neg, 0, 0, true, false);
    ZeroTimes(Pow(10, n));
    MantissaDigits(s, i + 1 + n, ds, neg, 0, n, true, n > 0);
    ZeroTimes(Pow(10, |ds|));
    MantissaEnds(s, neg, Num(ds, 10), n + |ds|, true, true);
  }

  lemma PlainTrimmed(neg: bool, ds: seq<nat>, dotPos: int)
    requires ds != [] && Below(ds, 10)
    ensures var s := PlainForm(neg, ds, dotPos);
            && |s| == PlainLength(neg, |ds|, dotPos) > 0 && TrimRight(TrimLeft(s)) == s
            && (s[0] == '-' <==> neg) && (IsSign(s[0]) <==> neg)
  {
    hide TrimLeft, TrimRight, Body;
    BodyEnds(ds, dotPos);
    NotTrimmed(PlainForm(neg, ds, dotPos));
  }

  lemma BodyEnds(ds: seq<nat>, dotPos: int)
    requires ds != [] && Below(ds, 10)
    ensures var s := Body(ds, dotPos);
            && |s| == PlainLength(false, |ds|, dotPos) > 0
            && (IsDigit(s[0]) || s[0] == '.') && IsDigit(s[|s| - 1])
  {
    CharsAreDigits(ds);
    if 0 <= dotPos < |ds| {
      CharsAreDigits(ds[..dotPos]);
      CharsAreDigits(ds[dotPos..]);
    }
    hide Chars;
  }

  lemma CharsAreDigits(ds: seq<nat>)
    requires Below(ds, 10)
    ensures AllDigits(Chars(ds))
  {
  }

  lemma NotTrimmed(s: string)
    requires s != [] && s[0] > ' ' && s[|s| - 1] > ' '
    ensures TrimRight(TrimLeft(s)) == s
  {
    assert TrimLeft(s) == s;
  }

  // ----- the printer

  const NUMBER_BUFFER: int := 128

  /** Where the point is, counted from the first digit. */
  function DotPos(d: Decimal): int
    requires d.cells != []
  {
    8 * d.expn + |Decimals(d.cells[0])|
  }

  ghost predicate Printable(d: Decimal)
  {
    Canonical(d, 8) && 0 < |d.cells| <= MAX_CELLS
  }

  lemma {:induction false} DroppedAreZero(s: seq<nat>)
    ensures AllZero(s[|DropZeros(s)|..])
  {
    if s != [] && s[|s| - 1] == 0 {
      DroppedAreZero(s[..|s| - 1]);
      var k := |DropZeros(s)|;
      forall i | 0 <= i < |s[k..]| ensures s[k..][i] == 0 {
        if k + i < |s| - 1 { assert s[..|s| - 1][k..][i] == s[k..][i]; }
      }
    }
  }

  /** The significand is nonempty, and the decimal is the significand at its point. */
  lemma PrintedValue(d: Decimal)
    requires Printable(d)
    ensures var ds := Significand(d.cells);
            && ds != [] && ds[0] > 0 && Below(ds, 10)
            && Magnitude(d, 8) == Scaled(Num(ds, 10), DotPos(d) - |ds|)
  {
    hide Num, Pow, Scaled, CellSum, Decimals, CellDigits, DropZeros;
    var all, ds := CellDigits(d.cells), Significand(d.cells);
    CellDigitsValue(d.cells);
    DroppedAreZero(all);
    assert all[..|ds|] == ds;
    NumTrimZeros(all, |ds|, 10);
    CellSumIsScaled(d.cells, d.expn, 8);
    var low := 8 * (d.expn - |d.cells| + 1);
    ScaledShift(Num(ds, 10), |all| - |ds|, low);
  }

  /** Fewer than eight zeros are dropped, since the last cell is not zero. */
  lemma FewDropped(d: Decimal)
    requires Printable(d)
    ensures var ds, all := Significand(d.cells), CellDigits(d.cells);
            |all| - 8 < |ds| <= |all| == |Decimals(d.cells[0])| + 8 * (|d.cells| - 1)
  {
    hide Num, Pow, Decimals, Padded, DropZeros;
    var cells, n := d.cells, |d.cells| - 1;
    var all, ds := CellDigits(cells), Significand(cells);
    CellDigitsValue(cells);
    PrintedValue(d);
    FirstCellDigits(cells[0]);
    if n > 0 && |ds| <= |all| - 8 {
      DroppedAreZero(all);
      var tail := Padded(cells[n], 8);
      assert tail == all[|all| - 8..];
      forall i | 0 <= i < |tail| ensures tail[i] == 0 {
        assert tail[i] == all[|ds|..][|all| - 8 - |ds| + i];
      }
      NumZero(tail, 10);
      assert false;
    }
  }

  lemma FirstCellDigits(c: nat)
    requires c < Pow(10, 8)
    ensures |Decimals(c)| <= 8
  {
    CountsDigits(c);
  }

  /** cm_dec8_round_to_text where it need not round. */
  method SignificandText(cells: seq<nat>, maxLen: int) returns (ds: seq<nat>)
    requires DigitCells(cells) && 0 < |Significand(cells)| <= maxLen
    ensures ds == Significand(cells)
  {
    hide CellDigits, DigitCells, DropZeros;
    CellBounds(cells);
    var prec := CalcPrec(cells);
    ds := CellsToText(cells, prec);
    DropTwice(CellDigits(cells));
  }

  lemma DropTwice(s: seq<nat>)
    ensures var r := DropZeros(s); s[..|r|] == r && DropZeros(r) == r
  {
  }

  method AppendZeros(text: string, n: int) returns (r: string)
    ensures r == text + ZeroChars(if n < 0 then 0 else n)
  {
    r := text;
    var i := 0;
    while i < n
      invariant 0 <= i && (i <= n || i == 0) && r == text + ZeroChars(i)
    {
      r, i := r + "0", i + 1;
    }
  }

  /** The plain form is no longer than the limit and the number buffer allow. */
  ghost predicate Fits(d: Decimal, limit: int)
    requires d.cells != []
  {
    var len := PlainLength(d.neg, |Significand(d.cells)|, DotPos(d));
    len <= limit && len < NUMBER_BUFFER
  }

  /** The decimals that ct_cm_dec8_to_text prints in scientific form. */
  ghost predicate Scientific(d: Decimal, limit: int)
    requires d.cells != []
  {
    var maxLen := if limit < NUMBER_BUFFER - 1 then limit else NUMBER_BUFFER - 1;
    var sci, sign := DotPos(d) - 1, if d.neg then 1 else 0;
    (sci < -6 && |Significand(d.cells)| - sci + sign > maxLen) || (sci > 0 && sci + 1 + sign > maxLen)
  }

  /** ct_cm_dec8_to_text, where nothing is rounded: the scientific printer fails on every
      decimal, since it takes the length that snprintf returns for an error. */
  method Dec8ToText(d: Decimal, limit: int) returns (text: Option<string>)
    requires d.cells == [] || (Printable(d) && (Fits(d, limit) || Scientific(d, limit)))
    ensures d.cells == [] ==> text == Some("0")
    ensures d.cells != [] && Scientific(d, limit) ==> text == None
    ensures d.cells != [] && Fits(d, limit) ==>
              Below(Significand(d.cells), 10) && text == Some(PlainForm(d.neg, Significand(d.cells), DotPos(d)))
  {
    hide Num, Pow, Decimals, CellDigits, Significand, PlainForm;
    if |d.cells| == 0 { return Some("0"); }
    PrintedValue(d);
    CountsDigits32(d);
    var maxLen := if limit < NUMBER_BUFFER - 1 then limit else NUMBER_BUFFER - 1;
    var sign := if d.neg then 1 else 0;
    var sci := 8 * d.expn + CountU32Digits(d.cells[0]) - 1;
    var prec := CalcPrec(d.cells);
    if (sci < -6 && prec - sci + sign > maxLen) || (sci > 0 && sci + 1 + sign > maxLen) {
      return None;
    }
    var plain := PlainText(d, maxLen, sci, prec);
    text := Some(plain);
  }

  /** cm_dec8_to_plain_text, where it need not round. */
  method PlainText(d: Decimal, maxLen: int, sci: int, prec: nat) returns (text: string)
    requires Printable(d) && DigitCells(d.cells) && Significand(d.cells) != [] && Below(Significand(d.cells), 10)
    requires prec == |Significand(d.cells)| && PlainLength(d.neg, prec, sci + 1) <= maxLen
    ensures text == PlainForm(d.neg, Significand(d.cells), sci + 1)
  {
    hide Num, Pow, CellDigits, Significand, Chars, ZeroChars, Sign, DigitCells, Canonical, Body, PlainForm;
    var sign, dotPos := if d.neg then 1 else 0, sci + 1;
    text := Sign(d.neg);
    if prec <= dotPos {
      var ds := SignificandText(d.cells, maxLen - sign);
      text := AppendZeros(text + Chars(ds), dotPos - prec);
      Assembled(d.neg, ds, dotPos);
    } else if dotPos == maxLen - sign || dotPos == maxLen - sign - 1 {
      assert false; // the digits behind the point are rounded away
    } else if dotPos >= 0 {
      var ds := SignificandText(d.cells, maxLen - sign - 1);
      text := text + Chars(ds[..dotPos]) + "." + Chars(ds[dotPos..]);
      Assembled(d.neg, ds, dotPos);
    } else {
      var ds := SignificandText(d.cells, maxLen - sign - 1 + dotPos);
      text := AppendZeros(text + ".", -dotPos);
      text := text + Chars(ds);
      Assembled(d.neg, ds, dotPos);
    }
  }

  lemma Assembled(neg: bool, ds: seq<nat>, dotPos: int)
    requires Below(ds, 10)
    ensures PlainForm(neg, ds, dotPos)
         == if |ds| <= dotPos then Sign(neg) + Chars(ds) + ZeroChars(dotPos - |ds|)
            else if dotPos >= 0 then Sign(neg) + Chars(ds[..dotPos]) + "." + Chars(ds[dotPos..])
            else Sign(neg) + "." + ZeroChars(-dotPos) + Chars(ds)
  {
    hide Chars, Sign, ZeroChars;
    if |ds| <= dotPos {
      Regroup(Sign(neg), Chars(ds), ZeroChars(dotPos - |ds|), "");
    } else if dotPos >= 0 {
      Regroup(Sign(neg), Chars(ds[..dotPos]), ".", Chars(ds[dotPos..]));
    } else {
      Regroup(Sign(neg), ".", ZeroChars(-dotPos), Chars(ds));
    }
  }

  lemma Regroup(a: string, b: string, c: string, d: string)
    ensures a + (b + c) == a + b + c && a + (b + c + d) == a + b + c + d
  {
  }

  lemma CountsDigits32(d: Decimal)
    requires Printable(d)
    ensures DigitCells(d.cells) && CountU32Digits(d.cells[0]) == |Decimals(d.cells[0])|
  {
    CountsDigits(d.cells[0]);
  }

  /** The digits that the plain form shows, from the first significant one on. */
  function Shown(d: Decimal): nat
    requires d.cells != []
  {
    if |Significand(d.cells)| <= DotPos(d) then DotPos(d) else |Significand(d.cells)|
  }

  /** Parsing a printed decimal gives it back, as long as fewer than 72 digits are shown. */
  method PrintThenParse(d: Decimal, limit: int) returns (text: string, r: Outcome)
    requires d.cells == [] || (Printable(d) && Fits(d, limit))
    ensures r == if d.cells == [] || Shown(d) < MAX_DIGITS then Parsed(DecimalRepack.Unsigned0(d)) else Rejected
  {
    hide ParsedAs, Denotes, Significand, PlainForm;
    var printed := Dec8ToText(d, limit);
    text := printed.value;
    r := TextToDec8(text);
    if d.cells == [] {
      ZeroText();
      ZeroParsed(r);
    } else {
      PrintedParsed(d, r);
    }
  }

  lemma ZeroText()
    ensures Denotes("0") == Some(Number(false, 0, 0, 0))
  {
    NotTrimmed("0");
    MantissaAt("0", 0, false, 0, 0, false, false);
    MantissaEnds("0", false, 0, 0, false, true);
  }

  lemma ZeroParsed(r: Outcome)
    requires ParsedAs(r, Number(false, 0, 0, 0))
    ensures r == Parsed(DecimalRepack.ZERO)
  {
  }

  lemma PrintedParsed(d: Decimal, r: Outcome)
    requires Printable(d) && Below(Significand(d.cells), 10)
    requires PlainLength(d.neg, |Significand(d.cells)|, DotPos(d)) < NUMBER_BUFFER
    requires var n := Denotes(PlainForm(d.neg, Significand(d.cells), DotPos(d)));
             n.Some? ==> ParsedAs(r, n.value)
    ensures r == if Shown(d) < MAX_DIGITS then Parsed(d) else Rejected
  {
    hide Num, Pow, Decimals, Significand, Scaled, CellSum, PlainForm, Denotes, ParsedAs, DotPos;
    var ds := Significand(d.cells);
    PrintedValue(d);
    PlainDenotes(d.neg, ds, DotPos(d));
    ShownNumber(d.neg, ds, DotPos(d));
    if Shown(d) < MAX_DIGITS { ShownFits(d); }
    ParsedBack(d, r, ShownAs(d.neg, ds, DotPos(d)));
  }

  lemma ShownNumber(neg: bool, ds: seq<nat>, dotPos: int)
    requires ds != [] && ds[0] > 0 && Below(ds, 10)
    ensures var n := ShownAs(neg, ds, dotPos);
            && n.neg == neg && n.num > 0 && DigitCount(n.num) == (if |ds| <= dotPos then dotPos else |ds|)
            && SciOf(n) == dotPos - 1 && Scaled(n.num, n.expn - n.frac) == Scaled(Num(ds, 10), dotPos - |ds|)
  {
    hide Num, Pow, Scaled, DigitCount;
    if |ds| <= dotPos {
      var k: nat := dotPos - |ds|;
      var zs := seq<nat>(k, i => 0);
      NumZero(zs, 10);
      NumConcat(ds, zs, 10);
      CountOfDigits(ds + zs);
      FirstCellPositive(ds + zs);
      ScaledShift(Num(ds, 10), k, 0);
    } else {
      CountOfDigits(ds);
      FirstCellPositive(ds);
    }
  }

  /** The shown digits and their padding to a cell boundary fit the digit buffer. */
  lemma ShownFits(d: Decimal)
    requires Printable(d) && Shown(d) < MAX_DIGITS
    ensures Shown(d) + Padding(Shown(d), DotPos(d) - 1) <= MAX_DIGITS
  {
    hide Decimals, Significand, CellDigits, Num, Pow;
    FewDropped(d);
    var all, ds := CellDigits(d.cells), Significand(d.cells);
    if |ds| > DotPos(d) {
      PaddingToCell(DotPos(d), |ds|, |all|, d.expn - |d.cells| + 1);
      FirstCellBound(d);
    }
  }

  lemma FirstCellBound(d: Decimal)
    requires Printable(d)
    ensures |Decimals(d.cells[0])| <= 8
  {
    FirstCellDigits(d.cells[0]);
  }

  lemma PaddingToCell(dotPos: int, n: int, all: int, k: int)
    requires all - 8 < n <= all && dotPos == all + 8 * k
    ensures (dotPos - n) % 8 == all - n
  {
  }

  lemma ParsedBack(d: Decimal, r: Outcome, n: Number)
    requires Printable(d) && ParsedAs(r, n) && n.neg == d.neg && n.num > 0
    requires DigitCount(n.num) == Shown(d) && SciOf(n) == DotPos(d) - 1 && -127 <= SciOf(n) <= 127
    requires Shown(d) < MAX_DIGITS ==> Shown(d) + Padding(Shown(d), DotPos(d) - 1) <= MAX_DIGITS
    requires Scaled(n.num, n.expn - n.frac) == Magnitude(d, 8)
    ensures r == if Shown(d) < MAX_DIGITS then Parsed(d) else Rejected
  {
    hide Num, Pow, Scaled, Magnitude, Significand, Decimals, DigitCount;
    if Shown(d) < MAX_DIGITS {
      CanonicalUnique(r.dec, d, 8);
    }
  }

  // ----- instances

  /** A zero with a written exponent denotes a zero with that exponent. */
  lemma ZeroDenotes(ds: string)
    requires ds != [] && AllDigits(ds) && |ds| < 100
    ensures Denotes("0e" + ds) == Some(Number(false, 0, 0, Num(Digits(ds), 10)))
  {
    hide Num, Digits, Mantissa, TrimLeft, TrimRight, Exponent;
    var s := "0e" + ds;
    assert s[|s| - 1] == ds[|ds| - 1];
    NotTrimmed(s);
    assert s[2..] == ds;
    PlainExponent(ds);
    MantissaAt(s, 0, false, 0, 0, false, false);
    MantissaAt(s, 1, false, 0, 0, false, true);
    TrimmedDenotes(s, false);
  }

  lemma PlainExponent(ds: string)
    requires ds != [] && AllDigits(ds)
    ensures Exponent(ds) == Some(Num(Digits(ds), 10))
  {
    hide Num, Digits;
  }

  lemma ThreeMore(ds: string, x: char, y: char, z: char)
    requires AllDigits(ds) && IsDigit(x) && IsDigit(y) && IsDigit(z)
    ensures AllDigits(ds + [x, y, z])
    ensures Num(Digits(ds + [x, y, z]), 10)
         == Num(Digits(ds), 10) * 1000 + DigitOf(x) * 100 + DigitOf(y) * 10 + DigitOf(z)
  {
    hide Num;
    var s, n := ds + [x, y, z], |ds|;
    assert s[..n] == ds && s[..n + 3] == s;
    ExponentStep(s, n);
    ExponentStep(s, n + 1);
    ExponentStep(s, n + 2);
  }

  lemma NineDigits(a: string, b: string, c: string)
    requires |a| == |b| == |c| == 3 && AllDigits(a) && AllDigits(b) && AllDigits(c)
    ensures AllDigits(a + b + c)
    ensures Num(Digits(a + b + c), 10)
         == (Three(a) * 1000 + Three(b)) * 1000 + Three(c)
  {
    hide Num, Digits;
    NoDigitText();
    OneThree([], a);
    assert [] + a == a;
    OneThree(a, b);
    OneThree(a + b, c);
  }

  lemma NoDigitText()
    ensures AllDigits([]) && Num(Digits([]), 10) == 0
  {
  }

  lemma OneThree(ds: string, a: string)
    requires AllDigits(ds) && |a| == 3 && AllDigits(a)
    ensures AllDigits(ds + a) && Num(Digits(ds + a), 10) == Num(Digits(ds), 10) * 1000 + Three(a)
  {
    hide Num, Digits;
    ThreeMore(ds, a[0], a[1], a[2]);
    assert a == [a[0], a[1], a[2]];
  }

  function Three(a: string): nat
    requires |a| == 3 && AllDigits(a)
  {
    DigitOf(a[0]) * 100 + DigitOf(a[1]) * 10 + DigitOf(a[2])
  }

  /** `0e100000000` is refused, although it denotes zero. */
  lemma HugeZeroRefused(r: Outcome)
    requires var n := Denotes("0e100000000"); n.Some? ==> ParsedAs(r, n.value)
    ensures Denotes("0e100000000") == Some(Number(false, 0, 0, 100000000)) && r == Rejected
  {
    hide Num, Denotes;
    NineDigits("100", "000", "000");
    assert "100" + "000" + "000" == "100000000";
    ZeroDenotes("100000000");
    assert "0e" + "100000000" == "0e100000000";
    assert Leading8(10000000) == 10000000;
  }

  /** `0e999999990` is zero, although its exponent is larger. */
  lemma LargerZeroAccepted(r: Outcome)
    requires var n := Denotes("0e999999990"); n.Some? ==> ParsedAs(r, n.value)
    ensures Denotes("0e999999990") == Some(Number(false, 0, 0, 999999990)) && r == Parsed(DecimalRepack.ZERO)
  {
    hide Num, Denotes;
    NineDigits("999", "999", "990");
    assert "999" + "999" + "990" == "999999990";
    ZeroDenotes("999999990");
    assert "0e" + "999999990" == "0e999999990";
    assert Leading8(99999999) == 99999999;
  }

  lemma SevenZeros()
    ensures Padding(66, 0) == 7
  {
  }

  /** 1.11...1 with 66 digits: seven zeros are appended and the buffer holds 72 places. */
  lemma LongTextOverruns(r: Outcome)
    requires var n := Denotes(PlainForm(false, seq(66, i => 1), 1)); n.Some? ==> ParsedAs(r, n.value)
    ensures r == Overrun
  {
    var ds := seq<nat>(66, i => 1);
    hide Num, Pow, Denotes, PlainForm, Scaled, Magnitude, DigitCount;
    PlainDenotes(false, ds, 1);
    ShownNumber(false, ds, 1);
    hide ShownAs, SciOf, Canonical;
    SevenZeros();
  }
}
