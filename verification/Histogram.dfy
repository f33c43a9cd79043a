/** Selectivity from a frequency histogram: endpoints with cumulative row counts, scanned for
    the two ends of a key range. Keys are integers, standing for any total order. */
module Histogram {
  import opened Basics
  import Radix

  /** ep is an endpoint value, cum the number of rows up to and including it. */
  datatype Bucket = Bucket(ep: int, cum: int)

  datatype CmpType = Open | Closed

  /** One end of a key range; absent means unbounded. */
  datatype End = End(key: int, typ: CmpType)

  datatype Column = Column(hist: seq<Bucket>, low: int, high: int, density: real) {
    /** Endpoints strictly increase, counts never decrease, some row exists, and the recorded
        low and high values bracket the endpoints. */
    ghost predicate Valid()
    {
      && hist != []
      && (forall i, j :: 0 <= i < j < |hist| ==> hist[i].ep < hist[j].ep && hist[i].cum <= hist[j].cum)
      && 0 <= hist[0].cum && Total() > 0
      && low <= hist[0].ep && hist[|hist| - 1].ep <= high
    }

    function Total(): int
      requires hist != []
    {
      hist[|hist| - 1].cum
    }
  }

  // ----- the rows a histogram stands for

  predicate AboveMin(k: int, min: Option<End>)
  {
    min.None? || min.value.key < k || (min.value.key == k && min.value.typ == Closed)
  }

  predicate BelowMax(k: int, max: Option<End>)
  {
    max.None? || k < max.value.key || (k == max.value.key && max.value.typ == Closed)
  }

  /** Rows with exactly the i-th endpoint value. */
  function Freq(h: seq<Bucket>, i: nat): int
    requires i < |h|
  {
    if i == 0 then h[0].cum else h[i].cum - h[i - 1].cum
  }

  /** Rows among the first n endpoints whose value lies in the range. */
  function RowsIn(h: seq<Bucket>, n: nat, min: Option<End>, max: Option<End>): int
    requires n <= |h|
  {
    if n == 0 then 0
    else RowsIn(h, n - 1, min, max)
         + if AboveMin(h[n - 1].ep, min) && BelowMax(h[n - 1].ep, max) then Freq(h, n - 1) else 0
  }

  /** The fraction of the column's rows in the range. */
  ghost function Fraction(c: Column, min: Option<End>, max: Option<End>): real
    requires c.Valid()
  {
    RowsIn(c.hist, |c.hist|, min, max) as real / c.Total() as real
  }

  // ----- facts about counting

  /** If exactly the endpoints in [a, b) are in range, the rows are counted by the ends. */
  lemma {:induction false} RowsInWindow(h: seq<Bucket>, n: nat, min: Option<End>, max: Option<End>, a: nat, b: nat)
    requires a <= b && n <= |h| && b <= |h|
    requires forall i :: 0 <= i < n ==> (AboveMin(h[i].ep, min) && BelowMax(h[i].ep, max) <==> a <= i < b)
    ensures RowsIn(h, n, min, max) == if n <= a then 0 else CumBefore(h, if n < b then n else b) - CumBefore(h, a)
  {
    if n > 0 { RowsInWindow(h, n - 1, min, max, a, b); }
  }

  lemma {:induction false} RowsInNone(h: seq<Bucket>, n: nat, min: Option<End>, max: Option<End>)
    requires n <= |h| && forall i :: 0 <= i < n ==> !(AboveMin(h[i].ep, min) && BelowMax(h[i].ep, max))
    ensures RowsIn(h, n, min, max) == 0
  {
    if n > 0 { RowsInNone(h, n - 1, min, max); }
  }

  function CumBefore(h: seq<Bucket>, i: nat): int
    requires i <= |h|
  {
    if i == 0 then 0 else h[i - 1].cum
  }

  lemma CumMonotone(c: Column, i: nat, j: nat)
    requires c.Valid() && i <= j <= |c.hist|
    ensures 0 <= CumBefore(c.hist, i) <= CumBefore(c.hist, j) <= c.Total()
  {
  }

  lemma {:induction false} RowsInBounds(c: Column, n: nat, min: Option<End>, max: Option<End>)
    requires c.Valid() && n <= |c.hist|
    ensures 0 <= RowsIn(c.hist, n, min, max) <= CumBefore(c.hist, n)
  {
    if n > 0 {
      RowsInBounds(c, n - 1, min, max);
      CumMonotone(c, n - 1, n);
    }
  }

  /** A fraction is a fraction. */
  lemma FractionInUnit(c: Column, min: Option<End>, max: Option<End>)
    requires c.Valid()
    ensures 0.0 <= Fraction(c, min, max) <= 1.0
  {
    RowsInBounds(c, |c.hist|, min, max);
    QuotientInUnit(RowsIn(c.hist, |c.hist|, min, max), c.Total());
  }

  lemma QuotientInUnit(n: int, t: int)
    requires 0 <= n <= t && t > 0
    ensures 0.0 <= n as real / t as real <= 1.0
  {
  }

  lemma QuotientSum(x: int, y: int, t: int)
    requires t > 0
    ensures (x + y) as real / t as real == x as real / t as real + y as real / t as real
  {
  }

  lemma QuotientOrder(x: int, y: int, t: int)
    requires x <= y && t > 0
    ensures x as real / t as real <= y as real / t as real
  {
  }

  // ----- the scans

  /** The rows above the lower end; a is the first endpoint that passes it. */
  method ScanLow(h: seq<Bucket>, min: End) returns (low: int, ghost a: nat)
    requires h != [] && forall i, j :: 0 <= i < j < |h| ==> h[i].ep < h[j].ep
    ensures low == RowsIn(h, |h|, Some(min), None)
    ensures a <= |h| && low == h[|h| - 1].cum - CumBefore(h, a)
    ensures forall i :: 0 <= i < |h| ==> (AboveMin(h[i].ep, Some(min)) <==> a <= i)
  {
    low, a := 0, |h|;
    var total := h[|h| - 1].cum;
    for i := 0 to |h|
      invariant low == 0 && a == |h| && forall k :: 0 <= k < i ==> !AboveMin(h[k].ep, Some(min))
    {
      if (min.typ == Closed && h[i].ep >= min.key) || (min.typ == Open && h[i].ep > min.key) {
        if i > 0 { low := h[i - 1].cum; }
        low, a := total - low, i;
        break;
      }
    }
    RowsInWindow(h, |h|, Some(min), None, a, |h|);
  }

  /** The rows below the upper end; b is the first endpoint behind it. */
  method ScanHigh(h: seq<Bucket>, max: End) returns (high: int, ghost b: nat)
    requires h != [] && forall i, j :: 0 <= i < j < |h| ==> h[i].ep < h[j].ep
    ensures high == RowsIn(h, |h|, None, Some(max))
    ensures b <= |h| && high == CumBefore(h, b)
    ensures forall i :: 0 <= i < |h| ==> (BelowMax(h[i].ep, Some(max)) <==> i < b)
  {
    high, b := h[|h| - 1].cum, |h|;
    for i := 0 to |h|
      invariant high == h[|h| - 1].cum && b == |h| && forall k :: 0 <= k < i ==> BelowMax(h[k].ep, Some(max))
    {
      if (max.typ == Open && h[i].ep >= max.key) || (max.typ == Closed && h[i].ep > max.key) {
        high, b := if i == 0 then 0 else h[i - 1].cum, i;
        break;
      }
    }
    RowsInWindow(h, |h|, None, Some(max), 0, b);
  }

  function EvalDensity(d: real): real
  {
    if d < 0.0 then 0.0 else if d > 1.0 then 1.0 else d
  }

  /** No share of rows is nearer to d. */
  lemma EvalDensityNearest(d: real, x: real)
    requires 0.0 <= x <= 1.0
    ensures 0.0 <= EvalDensity(d) <= 1.0
    ensures x <= d ==> x <= EvalDensity(d) <= (if d <= 1.0 then d else 1.0)
    ensures d <= x ==> (if d >= 0.0 then d else 0.0) <= EvalDensity(d) <= x
  {
  }

  method BetweenFrequency(c: Column, min: End, max: End) returns (density: real)
    requires c.Valid()
    ensures EvalDensity(density) == Fraction(c, Some(min), Some(max))
  {
    var total := c.Total();
    ghost var a, b;
    var low, high;
    low, a := ScanLow(c.hist, min);
    high, b := ScanHigh(c.hist, max);
    density := (low + high - total) as real / total as real;
    if a <= b {
      RowsInWindow(c.hist, |c.hist|, Some(min), Some(max), a, b);
      CumMonotone(c, a, b);
      QuotientInUnit(low + high - total, total);
    } else {
      RowsInNone(c.hist, |c.hist|, Some(min), Some(max));
      CumMonotone(c, b, a);
      QuotientOrder(low + high - total, 0, total);
    }
  }

  method FrequencyEqual(c: Column, val: int) returns (density: real)
    requires c.Valid()
    ensures density == Fraction(c, Some(End(val, Closed)), Some(End(val, Closed)))
  {
    var result := 0;
    density := c.density;
    ghost var e := Some(End(val, Closed));
    ghost var at := |c.hist|;
    for i := 0 to |c.hist|
      invariant result == 0 && at == |c.hist| && forall k :: 0 <= k < i ==> c.hist[k].ep < val
    {
      if c.hist[i].ep == val {
        result := if i == 0 then c.hist[i].cum else c.hist[i].cum - c.hist[i - 1].cum;
        at := i;
        break;
      } else if c.hist[i].ep > val {
        break;
      }
    }
    if at < |c.hist| {
      RowsInWindow(c.hist, |c.hist|, e, e, at, at + 1);
      CumMonotone(c, at, at + 1);
    } else {
      RowsInNone(c.hist, |c.hist|, e, e);
    }
    if result > 0 && c.Total() > 0 {
      density := result as real / c.Total() as real;
    } else if result == 0 {
      density := 0.0;
    }
  }

  /** The density of a key range on one column: an absent end is replaced by the recorded
      low or high value, closed. */
  method DensityByCond(c: Column, min: Option<End>, max: Option<End>) returns (density: real, goOn: bool)
    requires c.Valid()
    ensures EvalDensity(density) == Fraction(c, min, max)
    ensures goOn == SameKey(c, min, max)
  {
    var lo := if min.None? then End(c.low, Closed) else min.value;
    var hi := if max.None? then End(c.high, Closed) else max.value;
    SameRange(c, min, max, lo, hi);
    FractionInUnit(c, Some(lo), Some(hi));
    goOn := hi.key == lo.key;
    if hi.key < c.low || lo.key > c.high || hi.key < lo.key {
      RowsInNone(c.hist, |c.hist|, Some(lo), Some(hi));
      density := 0.0;
    } else if hi.key == lo.key && lo.typ == Closed && hi.typ == Closed {
      density := FrequencyEqual(c, hi.key);
    } else {
      density := BetweenFrequency(c, lo, hi);
    }
  }

  lemma SameRange(c: Column, min: Option<End>, max: Option<End>, lo: End, hi: End)
    requires c.Valid()
    requires lo == if min.None? then End(c.low, Closed) else min.value
    requires hi == if max.None? then End(c.high, Closed) else max.value
    ensures Fraction(c, min, max) == Fraction(c, Some(lo), Some(hi))
  {
    SameRows(c, |c.hist|, min, max, lo, hi);
  }

  lemma {:induction false} SameRows(c: Column, n: nat, min: Option<End>, max: Option<End>, lo: End, hi: End)
    requires c.Valid() && n <= |c.hist|
    requires lo == if min.None? then End(c.low, Closed) else min.value
    requires hi == if max.None? then End(c.high, Closed) else max.value
    ensures RowsIn(c.hist, n, min, max) == RowsIn(c.hist, n, Some(lo), Some(hi))
  {
    if n > 0 { SameRows(c, n - 1, min, max, lo, hi); }
  }

  // ----- consequences

  function Flip(t: CmpType): CmpType { if t == Open then Closed else Open }

  /** Splitting a range at a key loses and repeats nothing. */
  lemma FractionAdditive(c: Column, min: Option<End>, cut: End, max: Option<End>)
    requires c.Valid()
    requires min.Some? ==> min.value.key < cut.key
    requires max.Some? ==> cut.key < max.value.key
    ensures Fraction(c, min, max)
         == Fraction(c, min, Some(cut)) + Fraction(c, Some(End(cut.key, Flip(cut.typ))), max)
  {
    var right := Some(End(cut.key, Flip(cut.typ)));
    RowsAdditive(c.hist, |c.hist|, min, cut, max);
    hide RowsIn;
    QuotientSum(RowsIn(c.hist, |c.hist|, min, Some(cut)), RowsIn(c.hist, |c.hist|, right, max), c.Total());
  }

  lemma {:induction false} RowsAdditive(h: seq<Bucket>, n: nat, min: Option<End>, cut: End, max: Option<End>)
    requires n <= |h|
    requires min.Some? ==> min.value.key < cut.key
    requires max.Some? ==> cut.key < max.value.key
    ensures RowsIn(h, n, min, max)
         == RowsIn(h, n, min, Some(cut)) + RowsIn(h, n, Some(End(cut.key, Flip(cut.typ))), max)
  {
    if n > 0 { RowsAdditive(h, n - 1, min, cut, max); }
  }

  /** A wider range is at least as dense. */
  lemma FractionMonotone(c: Column, min: Option<End>, max: Option<End>, min': Option<End>, max': Option<End>)
    requires c.Valid()
    requires forall k :: AboveMin(k, min) && BelowMax(k, max) ==> AboveMin(k, min') && BelowMax(k, max')
    ensures Fraction(c, min, max) <= Fraction(c, min', max')
  {
    RowsMonotone(c, |c.hist|, min, max, min', max');
    hide RowsIn;
    QuotientOrder(RowsIn(c.hist, |c.hist|, min, max), RowsIn(c.hist, |c.hist|, min', max'), c.Total());
  }

  lemma {:induction false} RowsMonotone(c: Column, n: nat, min: Option<End>, max: Option<End>, min': Option<End>, max': Option<End>)
    requires c.Valid() && n <= |c.hist|
    requires forall k :: AboveMin(k, min) && BelowMax(k, max) ==> AboveMin(k, min') && BelowMax(k, max')
    ensures RowsIn(c.hist, n, min, max) <= RowsIn(c.hist, n, min', max')
  {
    if n > 0 {
      RowsMonotone(c, n - 1, min, max, min', max');
      CumMonotone(c, n - 1, n);
    }
  }

  // ----- an index of several columns

  /** What an index scan asks of a column: a range, or to be NULL or not, where nulls of the
      table's rows are. */
  datatype KeyPart =
    | InRange(col: Column, min: Option<End>, max: Option<End>)
    | IsNull(nulls: nat, rows: nat)
    | IsNotNull(nulls: nat, rows: nat)
  {
    ghost predicate Valid() { if InRange? then col.Valid() else rows > 0 }

    /** The exact fraction of rows in a range, or the recorded share of NULLs. */
    ghost function Share(): real
      requires Valid()
    {
      match this
      case InRange(col, min, max) => Fraction(col, min, max)
      case IsNull(nulls, rows) => EvalDensity(nulls as real / rows as real)
      case IsNotNull(nulls, rows) => EvalDensity(1.0 - nulls as real / rows as real)
    }

    /** The next column of the index still matters. */
    predicate Pinned() { InRange? ==> SameKey(col, min, max) }
  }

  /** Both ends name the same key. */
  predicate SameKey(c: Column, min: Option<End>, max: Option<End>)
  {
    (if min.None? then c.low else min.value.key) == (if max.None? then c.high else max.value.key)
  }

  ghost predicate PartsValid(parts: seq<KeyPart>) { forall i :: 0 <= i < |parts| ==> parts[i].Valid() }

  /** The product of the shares, up to and including the first true range. */
  ghost function Selectivity(parts: seq<KeyPart>): real
    requires PartsValid(parts)
  {
    if parts == [] then 1.0
    else if parts[0].Pinned() then parts[0].Share() * Selectivity(parts[1..])
    else parts[0].Share()
  }

  const PREFER_RANGE_DENSITY: real := 0.8

  lemma Assoc(x: real, y: real, z: real)
    ensures x * (y * z) == (x * y) * z
  {
  }

  lemma ProductInUnit(x: real, y: real)
    requires 0.0 <= x <= 1.0 && 0.0 <= y <= 1.0
    ensures 0.0 <= x * y <= 1.0
  {
    NonNegative(x, y);
    NonNegative(1.0 - x, y);
    Complement(x, y);
  }

  lemma NonNegative(x: real, y: real)
    requires x >= 0.0 && y >= 0.0
    ensures x * y >= 0.0
  {
  }

  lemma Complement(x: real, y: real)
    ensures (1.0 - x) * y == y - x * y
  {
  }

  // ----- the two keys of an index range

  /** How the server marks the end of a range. */
  datatype Flag = KeyExact | BeforeKey | AfterKey | OtherFlag

  /** A key's bytes: what a column reads as at an offset, and whether a nullable one is NULL. */
  datatype KeyBytes = KeyBytes(value: nat -> int, isNull: nat -> bool)

  /** A key of the server's: the columns it covers as a bit map, its length and its bytes. */
  datatype ServerKey = ServerKey(flag: Flag, colMap: nat, len: nat, bytes: KeyBytes)

  /** The connector's key; no type means that the end is not known. */
  datatype RangeKey = RangeKey(colMap: nat, len: nat, typ: Option<CmpType>, bytes: Option<KeyBytes>) {
    /** handle_null_and_single_boundary and extract_boundary_value */
    function EndFor(off: nat, nullable: bool, t: Option<CmpType>): Option<End>
    {
      if t.None? || bytes.None? || NullAt(off, nullable) then None
      else Some(End(bytes.value.value(off), t.value))
    }

    predicate NullAt(off: nat, nullable: bool) { nullable && bytes.Some? && bytes.value.isNull(off) }
  }

  /** The type of the end that a flag marks. */
  function OwnType(flag: Flag, isMin: bool): Option<CmpType>
  {
    match flag
    case KeyExact => Some(Closed)
    case BeforeKey => Some(Open)
    case AfterKey => Some(if isMin then Open else Closed)
    case OtherFlag => None
  }

  /** set_ctc_range_key */
  function RangeKeyOf(k: Option<ServerKey>, isMin: bool): RangeKey
  {
    if k.None? then RangeKey(0, 0, None, None)
    else RangeKey(k.value.colMap, k.value.len, OwnType(k.value.flag, isMin), Some(k.value.bytes))
  }

  /** The two keys of a call: the shorter one's type is cleared. */
  function RangeOf(min: Option<ServerKey>, max: Option<ServerKey>): IndexRange
  {
    var lo, hi := RangeKeyOf(min, true), RangeKeyOf(max, false);
    if hi.len < lo.len then IndexRange(lo, hi.(typ := None))
    else if hi.len > lo.len then IndexRange(lo.(typ := None), hi)
    else IndexRange(lo, hi)
  }

  datatype IndexRange = IndexRange(min: RangeKey, max: RangeKey) {
    /** The larger of the two maps decides which columns are looked at. */
    function ValidMap(): nat { if min.colMap < max.colMap then max.colMap else min.colMap }

    /** A column both keys cover and one goes beyond. */
    predicate Inner(id: nat)
    {
      && Bit(min.colMap, id) && Bit(max.colMap, id)
      && (Bit(min.colMap, id + 1) || Bit(max.colMap, id + 1))
    }

    /** set_key_boundary_types */
    function EndType(k: RangeKey, id: nat): Option<CmpType>
    {
      if Inner(id) then Some(Closed) else k.typ
    }

    /** calculate_column_selectivity: what the keys ask of the column at an offset. */
    function PartAt(c: IndexColumn, rows: nat, id: nat, off: nat): KeyPart
    {
      if min.NullAt(off, c.nullable) && (max.bytes.None? || off >= max.len) then IsNotNull(c.nulls, rows)
      else if min.NullAt(off, c.nullable) && max.NullAt(off, c.nullable) then IsNull(c.nulls, rows)
      else InRange(c.col, min.EndFor(off, c.nullable, EndType(min, id)), max.EndFor(off, c.nullable, EndType(max, id)))
    }
  }

  /** A column of the index: its statistics, its bytes in a key and its NULLs in the table. */
  datatype IndexColumn = IndexColumn(col: Column, isVirtual: bool, nullable: bool, width: nat, nulls: nat)

  function Bit(colMap: nat, i: nat): bool
  {
    colMap / Radix.Pow(2, i) % 2 == 1
  }

  /** The type that a key of n columns with an end of type own states for a column: closed
      before its last column, and none behind it. */
  function Stated(own: Option<CmpType>, n: nat, id: nat): Option<CmpType>
  {
    if id >= n || own.None? then None else if id == n - 1 then own else Some(Closed)
  }

  /** The map of the first n columns. */
  function FirstColumns(n: nat): nat { Radix.Pow(2, n) - 1 }

  lemma FirstColumnsBit(n: nat, i: nat)
    ensures Bit(FirstColumns(n), i) <==> i < n
  {
    var p, all := Radix.Pow(2, i), Radix.Pow(2, n);
    if i < n {
      Radix.PowAdd(2, i, n - i);
      var h: nat := Radix.Pow(2, n - i - 1);
      assert Radix.Pow(2, n - i) == 2 * h;
      hide Radix.Pow;
      OddQuotient(p, h);
    } else {
      if n < i { Radix.PowMonotone(2, n, i); }
      hide Radix.Pow;
      Radix.DivisionUnique(all - 1, p, 0, all - 1);
    }
  }

  lemma OddQuotient(p: nat, h: nat)
    requires p > 0 && h > 0
    ensures (p * (2 * h) - 1) / p % 2 == 1
  {
    assert p * (2 * h) - 1 == p * (2 * h - 1) + (p - 1);
    Radix.DivisionUnique(p * (2 * h) - 1, p, 2 * h - 1, p - 1);
  }

  /** A server key of the first n columns, absent if n is zero. */
  predicate KeyOfColumns(k: Option<ServerKey>, n: nat)
  {
    (k.None? <==> n == 0) && (k.Some? ==> k.value.colMap == FirstColumns(n))
  }

  /** Every column has the types of end that the keys state. */
  ghost predicate AllAsStated(min: Option<ServerKey>, max: Option<ServerKey>, m: nat, n: nat)
  {
    var r := RangeOf(min, max);
    forall id: nat :: id < m || id < n ==>
      && r.EndType(r.min, id) == Stated(RangeKeyOf(min, true).typ, m, id)
      && r.EndType(r.max, id) == Stated(RangeKeyOf(max, false).typ, n, id)
  }

  /** A shorter key of m columns beside one of n must be closed, and the longer one too unless
      it is just one column longer. */
  predicate ShorterRight(own: Option<CmpType>, other: Option<CmpType>, m: nat, n: nat)
  {
    (m > 0 ==> own == Some(Closed) && other.Some?) && (n == m + 1 || other != Some(Open))
  }

  /** The ends taken from the server's keys of m and n columns are the ones they state exactly
      under this condition. */
  predicate EndsRight(a: Option<CmpType>, b: Option<CmpType>, m: nat, n: nat)
  {
    if m < n then ShorterRight(a, b, m, n)
    else if n < m then ShorterRight(b, a, n, m)
    else m <= 1 || (a.Some? && b.Some?)
  }

  /** For all keys the server can give: a longer key has more bytes. */
  lemma BoundaryCondition(min: Option<ServerKey>, max: Option<ServerKey>, m: nat, n: nat)
    requires KeyOfColumns(min, m) && KeyOfColumns(max, n)
    requires var lo, hi := RangeKeyOf(min, true), RangeKeyOf(max, false);
             (lo.len < hi.len <==> m < n) && (hi.len < lo.len <==> n < m)
    ensures AllAsStated(min, max, m, n)
       <==> EndsRight(RangeKeyOf(min, true).typ, RangeKeyOf(max, false).typ, m, n)
  {
    var r, a, b := RangeOf(min, max), RangeKeyOf(min, true).typ, RangeKeyOf(max, false).typ;
    RangeFacts(min, max, m, n);
    hide IndexRange.Inner, FirstColumns, RangeKeyOf, RangeOf;
    forall id: nat
      ensures r.EndType(r.min, id) == Stated(a, m, id) <==> EndRight(a, r.min.typ, m, n, id)
      ensures r.EndType(r.max, id) == Stated(b, n, id) <==> EndRight(b, r.max.typ, n, m, id)
    {
      InnerColumn(r, m, n, id);
    }
    Combined(a, b, r.min.typ, r.max.typ, m, n);
  }

  lemma RangeFacts(min: Option<ServerKey>, max: Option<ServerKey>, m: nat, n: nat)
    requires KeyOfColumns(min, m) && KeyOfColumns(max, n)
    requires var lo, hi := RangeKeyOf(min, true), RangeKeyOf(max, false);
             (lo.len < hi.len <==> m < n) && (hi.len < lo.len <==> n < m)
    ensures var r, a, b := RangeOf(min, max), RangeKeyOf(min, true).typ, RangeKeyOf(max, false).typ;
            && r.min.colMap == FirstColumns(m) && r.max.colMap == FirstColumns(n)
            && (m == 0 ==> a.None?) && (n == 0 ==> b.None?)
            && r.min.typ == (if m < n then None else a) && r.max.typ == if n < m then None else b
  {
  }

  /** When a key of m columns beside one of n gives the end it states: own is its type, used
      the one left after clearing. */
  predicate EndRight(own: Option<CmpType>, used: Option<CmpType>, m: nat, n: nat, id: nat)
  {
    var taken := if id < m && id < n && (id + 1 < m || id + 1 < n) then Some(Closed) else used;
    taken == Stated(own, m, id)
  }

  /** The columns that decide. */
  lemma Combined(a: Option<CmpType>, b: Option<CmpType>, a': Option<CmpType>, b': Option<CmpType>, m: nat, n: nat)
    requires (m == 0 ==> a.None?) && (n == 0 ==> b.None?)
    requires a' == (if m < n then None else a) && b' == if n < m then None else b
    ensures (forall id: nat :: id < m || id < n ==> EndRight(a, a', m, n, id) && EndRight(b, b', n, m, id))
       <==> EndsRight(a, b, m, n)
  {
    if m < n {
      OneShorter(a, b, m, n);
    } else if n < m {
      OneShorter(b, a, n, m);
    } else if m > 1 && !(a.Some? && b.Some?) {
      assert !(EndRight(a, a', m, n, 0) && EndRight(b, b', n, m, 0));
    }
  }

  lemma OneShorter(a: Option<CmpType>, b: Option<CmpType>, m: nat, n: nat)
    requires m < n && (m == 0 ==> a.None?)
    ensures (forall id: nat :: id < n ==> EndRight(a, None, m, n, id) && EndRight(b, b, n, m, id))
       <==> ShorterRight(a, b, m, n)
  {
    if ShorterRight(a, b, m, n) {
      forall id: nat | id < n ensures EndRight(a, None, m, n, id) && EndRight(b, b, n, m, id) {
        assert b.Some? ==> b.value.Open? || b.value.Closed?;
      }
    } else {
      var id: nat := if m > 0 && !(a == Some(Closed) && b.Some?) then m - 1 else m;
      assert id < n && !(EndRight(a, None, m, n, id) && EndRight(b, b, n, m, id));
    }
  }

  lemma InnerColumn(r: IndexRange, m: nat, n: nat, id: nat)
    requires r.min.colMap == FirstColumns(m) && r.max.colMap == FirstColumns(n)
    ensures r.Inner(id) <==> id < m && id < n && (id + 1 < m || id + 1 < n)
  {
    hide Bit, FirstColumns;
    FirstColumnsBit(m, id);
    FirstColumnsBit(n, id);
    FirstColumnsBit(m, id + 1);
    FirstColumnsBit(n, id + 1);
  }

  /** `a = x AND b >= y`: both columns get the ends they state. */
  lemma EqualityThenRange(lo: ServerKey, hi: ServerKey)
    requires lo.flag == KeyExact && lo.colMap == FirstColumns(2) && hi.flag == AfterKey && hi.colMap == FirstColumns(1)
    requires hi.len < lo.len
    ensures AllAsStated(Some(lo), Some(hi), 2, 1)
  {
    BoundaryCondition(Some(lo), Some(hi), 2, 1);
  }

  /** `a >= x AND a < z AND b >= y`: the open end of the first column is taken as closed. */
  lemma OpenShorterKey(lo: ServerKey, hi: ServerKey)
    requires lo.flag == KeyExact && lo.colMap == FirstColumns(2) && hi.flag == BeforeKey && hi.colMap == FirstColumns(1)
    requires hi.len < lo.len
    ensures var r := RangeOf(Some(lo), Some(hi));
            && r.EndType(r.max, 0) == Some(Closed) && Stated(OwnType(hi.flag, false), 1, 0) == Some(Open)
            && !AllAsStated(Some(lo), Some(hi), 2, 1)
  {
    var r := RangeOf(Some(lo), Some(hi));
    InnerColumn(r, 2, 1, 0);
    BoundaryCondition(Some(lo), Some(hi), 2, 1);
  }

  // ----- the estimate

  /** What the keys ask of the columns from id on: columns behind the covered ones do not count,
      and virtual ones are passed over without moving on in the keys. */
  function Parts(r: IndexRange, cols: seq<IndexColumn>, rows: nat, id: nat): (ps: seq<KeyPart>)
    requires id <= |cols|
    ensures rows > 0 && (forall i :: 0 <= i < |cols| ==> cols[i].col.Valid()) ==> PartsValid(ps)
    decreases |cols| - id
  {
    if id == |cols| || !Bit(r.ValidMap(), id) then []
    else if cols[id].isVirtual then Parts(r, cols, rows, id + 1)
    else [r.PartAt(cols[id], rows, id, ReadOffset(cols, id))] + Parts(r, cols, rows, id + 1)
  }

  /** The offset at which column id is read, and the one at which the server has put it. */
  function ReadOffset(cols: seq<IndexColumn>, id: nat): nat
    requires id <= |cols|
  {
    if id == 0 then 0 else ReadOffset(cols, id - 1) + if cols[id - 1].isVirtual then 0 else cols[id - 1].width
  }

  function KeyOffset(cols: seq<IndexColumn>, id: nat): nat
    requires id <= |cols|
  {
    if id == 0 then 0 else KeyOffset(cols, id - 1) + cols[id - 1].width
  }

  /** The two agree exactly when no virtual column comes before. */
  lemma {:induction false} OffsetCondition(cols: seq<IndexColumn>, id: nat)
    requires id <= |cols| && forall i :: 0 <= i < |cols| ==> cols[i].width > 0
    ensures ReadOffset(cols, id) <= KeyOffset(cols, id)
    ensures ReadOffset(cols, id) == KeyOffset(cols, id) <==> forall i :: 0 <= i < id ==> !cols[i].isVirtual
  {
    if id > 0 { OffsetCondition(cols, id - 1); }
  }

  // ----- what the keys of the server ask

  predicate ReadsNull(k: Option<ServerKey>, c: IndexColumn, off: nat)
  {
    k.Some? && c.nullable && k.value.bytes.isNull(off)
  }

  function LowerEnd(k: ServerKey, off: nat): Option<End>
  {
    match k.flag
    case KeyExact => Some(End(k.bytes.value(off), Closed))
    case BeforeKey => Some(End(k.bytes.value(off), Open))
    case AfterKey => Some(End(k.bytes.value(off), Open))
    case OtherFlag => None
  }

  function UpperEnd(k: ServerKey, off: nat): Option<End>
  {
    match k.flag
    case KeyExact => Some(End(k.bytes.value(off), Closed))
    case BeforeKey => Some(End(k.bytes.value(off), Open))
    case AfterKey => Some(End(k.bytes.value(off), Closed))
    case OtherFlag => None
  }

  /** A key of the first n columns of the index, none if n is zero. */
  predicate OnColumns(k: Option<ServerKey>, cols: seq<IndexColumn>, n: nat)
  {
    && n <= |cols| && (k.None? <==> n == 0)
    && (k.Some? ==> k.value.colMap == FirstColumns(n) && k.value.len == KeyOffset(cols, n))
  }

  /** Keys of m and n columns that fix the first j to values and bound the next: `a = 1 AND
      b = 2 AND c > 3` has j == 2, m == 3 and n == 2. */
  ghost predicate AfterEqualities(min: Option<ServerKey>, max: Option<ServerKey>, cols: seq<IndexColumn>, j: nat, m: nat, n: nat)
  {
    && j <= m <= j + 1 && j <= n <= j + 1 && (m > j || n > j)
    && OnColumns(min, cols, m) && OnColumns(max, cols, n)
    && (forall i :: 0 <= i < |cols| ==> cols[i].width > 0 && !cols[i].isVirtual)
    && forall i: nat :: i < j ==> SameValue(min.value, max.value, cols[i], KeyOffset(cols, i))
  }

  /** Both keys hold the same value at the offset. */
  predicate SameValue(lo: ServerKey, hi: ServerKey, c: IndexColumn, off: nat)
  {
    && !ReadsNull(Some(lo), c, off) && !ReadsNull(Some(hi), c, off)
    && lo.bytes.value(off) == hi.bytes.value(off)
  }

  /** The rows whose first j columns have the values of the key. */
  ghost function EqualShare(k: Option<ServerKey>, cols: seq<IndexColumn>, i: nat, j: nat): real
    requires i <= j <= |cols| && (j > 0 ==> k.Some?) && forall i :: 0 <= i < |cols| ==> cols[i].col.Valid()
    decreases j - i
  {
    if i == j then 1.0
    else
      var e := Some(End(k.value.bytes.value(KeyOffset(cols, i)), Closed));
      Fraction(cols[i].col, e, e) * EqualShare(k, cols, i + 1, j)
  }

  /** The rows that the last column leaves: IS NOT NULL is a NULL lower key and no upper one,
      IS NULL two NULL keys, and a range has the ends that bytes and flags state. */
  ghost function LastShare(min: Option<ServerKey>, max: Option<ServerKey>, lower: bool, upper: bool, c: IndexColumn, rows: nat, off: nat): real
    requires c.col.Valid() && rows > 0 && (lower ==> min.Some?) && (upper ==> max.Some?)
  {
    if ReadsNull(min, c, off) && !upper then EvalDensity(1.0 - c.nulls as real / rows as real)
    else if ReadsNull(min, c, off) && ReadsNull(max, c, off) then EvalDensity(c.nulls as real / rows as real)
    else Fraction(c.col, if lower && !ReadsNull(min, c, off) then LowerEnd(min.value, off) else None,
                         if upper && !ReadsNull(max, c, off) then UpperEnd(max.value, off) else None)
  }

  ghost function AskedShare(min: Option<ServerKey>, max: Option<ServerKey>, cols: seq<IndexColumn>, rows: nat, j: nat, m: nat, n: nat): real
    requires AfterEqualities(min, max, cols, j, m, n) && rows > 0 && forall i :: 0 <= i < |cols| ==> cols[i].col.Valid()
  {
    EqualShare(min, cols, 0, j) * LastShare(min, max, m > j, n > j, cols[j], rows, KeyOffset(cols, j))
  }

  lemma {:induction false} OffsetsIncrease(cols: seq<IndexColumn>, i: nat, j: nat)
    requires i <= j <= |cols| && forall k :: 0 <= k < |cols| ==> cols[k].width > 0 && !cols[k].isVirtual
    ensures ReadOffset(cols, i) == KeyOffset(cols, i) <= KeyOffset(cols, j)
    ensures i < j ==> KeyOffset(cols, i) < KeyOffset(cols, j)
    decreases j - i
  {
    OffsetCondition(cols, i);
    if i < j { OffsetsIncrease(cols, i + 1, j); }
  }

  lemma KeyFacts(k: Option<ServerKey>, isMin: bool, cols: seq<IndexColumn>, n: nat)
    requires OnColumns(k, cols, n)
    ensures var key := RangeKeyOf(k, isMin); key.len == KeyOffset(cols, n) && key.colMap == FirstColumns(n)
  {
    assert Radix.Pow(2, 0) == 1;
  }

  /** The range built from the keys: a key that does not reach the last column loses its type. */
  lemma AskedKeys(min: Option<ServerKey>, max: Option<ServerKey>, cols: seq<IndexColumn>, j: nat, m: nat, n: nat)
    requires j <= m <= j + 1 && j <= n <= j + 1 && (m > j || n > j)
    requires OnColumns(min, cols, m) && OnColumns(max, cols, n) && KeyOffset(cols, j) < KeyOffset(cols, j + 1)
    ensures var r := RangeOf(min, max);
            && r.min.colMap == FirstColumns(m) && r.max.colMap == FirstColumns(n)
            && r.min == RangeKeyOf(min, true).(typ := if m > j then RangeKeyOf(min, true).typ else None)
            && r.max == RangeKeyOf(max, false).(typ := if n > j then RangeKeyOf(max, false).typ else None)
  {
    KeyFacts(min, true, cols, m);
    KeyFacts(max, false, cols, n);
    hide RangeKeyOf, KeyOffset, FirstColumns, OnColumns;
  }

  lemma AskedMap(r: IndexRange, j: nat, m: nat, n: nat, id: nat)
    requires j <= m <= j + 1 && j <= n <= j + 1 && (m > j || n > j)
    requires r.min.colMap == FirstColumns(m) && r.max.colMap == FirstColumns(n)
    ensures (Bit(r.ValidMap(), id) <==> id <= j) && (r.Inner(id) <==> id < j)
  {
    hide Bit, IndexRange.Inner;
    InnerColumn(r, m, n, id);
    assert Radix.Pow(2, j + 1) == 2 * Radix.Pow(2, j);
    assert r.ValidMap() == FirstColumns(j + 1);
    FirstColumnsBit(j + 1, id);
  }

  /** A column that both keys fix: the rows with that value, and the next column matters. */
  lemma EqualPart(r: IndexRange, lo: ServerKey, hi: ServerKey, c: IndexColumn, rows: nat, id: nat, off: nat)
    requires r.min.bytes == Some(lo.bytes) && r.max.bytes == Some(hi.bytes) && r.Inner(id)
    requires SameValue(lo, hi, c, off) && c.col.Valid() && rows > 0
    ensures var p, e := r.PartAt(c, rows, id, off), Some(End(lo.bytes.value(off), Closed));
            p.Valid() && p.Pinned() && p.Share() == Fraction(c.col, e, e)
  {
    hide Fraction, EvalDensity, Column.Valid, IndexRange.Inner;
  }

  /** The end that a key gives for the last column: what it states, if it reaches the column. */
  lemma LastEnd(k: Option<ServerKey>, isMin: bool, reaches: bool, c: IndexColumn, off: nat)
    requires reaches ==> k.Some?
    ensures var key := RangeKeyOf(k, isMin);
            && key.EndFor(off, c.nullable, if reaches then key.typ else None)
               == (if !reaches || ReadsNull(k, c, off) then None
                   else if isMin then LowerEnd(k.value, off) else UpperEnd(k.value, off))
            && (key.NullAt(off, c.nullable) <==> ReadsNull(k, c, off))
  {
  }

  /** The last column that a key reaches. */
  lemma LastPart(min: Option<ServerKey>, max: Option<ServerKey>, cols: seq<IndexColumn>, rows: nat, j: nat, m: nat, n: nat)
    requires j <= m <= j + 1 && j <= n <= j + 1 && (m > j || n > j) && rows > 0
    requires OnColumns(min, cols, m) && OnColumns(max, cols, n) && KeyOffset(cols, j) < KeyOffset(cols, j + 1)
    requires cols[j].col.Valid() && !RangeOf(min, max).Inner(j)
    ensures var p := RangeOf(min, max).PartAt(cols[j], rows, j, KeyOffset(cols, j));
            p.Valid() && p.Share() == LastShare(min, max, m > j, n > j, cols[j], rows, KeyOffset(cols, j))
  {
    var r, off, c := RangeOf(min, max), KeyOffset(cols, j), cols[j];
    AskedKeys(min, max, cols, j, m, n);
    KeyFacts(max, false, cols, n);
    LastEnd(min, true, m > j, c, off);
    LastEnd(max, false, n > j, c, off);
    assert r.max.bytes.None? || off >= r.max.len <==> n == j;
    hide Fraction, EvalDensity, Column.Valid, IndexRange.Inner, KeyOffset, FirstColumns, RangeOf, RangeKeyOf, RangeKey.EndFor,
         RangeKey.NullAt, ReadsNull, LowerEnd, UpperEnd, OnColumns;
    SameEnds(RangeKeyOf(min, true), r.min, off, c.nullable);
    SameEnds(RangeKeyOf(max, false), r.max, off, c.nullable);
  }

  /** The end read from a key does not depend on the type it carries itself. */
  lemma SameEnds(k: RangeKey, k': RangeKey, off: nat, nullable: bool)
    requires k' == k.(typ := k'.typ)
    ensures forall t :: k.EndFor(off, nullable, t) == k'.EndFor(off, nullable, t)
    ensures k.NullAt(off, nullable) == k'.NullAt(off, nullable)
  {
  }

  lemma PartsHead(r: IndexRange, cols: seq<IndexColumn>, rows: nat, id: nat)
    requires id < |cols| && !cols[id].isVirtual && Bit(r.ValidMap(), id)
    ensures Parts(r, cols, rows, id) == [r.PartAt(cols[id], rows, id, ReadOffset(cols, id))] + Parts(r, cols, rows, id + 1)
    ensures !Bit(r.ValidMap(), id + 1) ==> Parts(r, cols, rows, id + 1) == []
  {
  }

  lemma WithinIndex(k: Option<ServerKey>, cols: seq<IndexColumn>, n: nat)
    requires OnColumns(k, cols, n)
    ensures n <= |cols|
  {
  }

  /** The facts about column id that its part needs. */
  lemma AskedColumn(min: Option<ServerKey>, max: Option<ServerKey>, cols: seq<IndexColumn>, j: nat, m: nat, n: nat, id: nat)
    requires AfterEqualities(min, max, cols, j, m, n) && id <= j
    ensures var r := RangeOf(min, max);
            && KeyOffset(cols, j) < KeyOffset(cols, j + 1) && ReadOffset(cols, id) == KeyOffset(cols, id)
            && (r.Inner(id) <==> id < j) && Bit(r.ValidMap(), id) && !Bit(r.ValidMap(), j + 1)
  {
    hide SameValue, KeyOffset, ReadOffset, RangeOf, RangeKeyOf, IndexRange.Inner, IndexRange.ValidMap, FirstColumns, Bit, OnColumns;
    var r := RangeOf(min, max);
    WithinIndex(min, cols, m);
    WithinIndex(max, cols, n);
    OffsetsIncrease(cols, id, j);
    OffsetsIncrease(cols, j, j + 1);
    AskedKeys(min, max, cols, j, m, n);
    AskedMap(r, j, m, n, id);
    AskedMap(r, j, m, n, j + 1);
  }

  lemma {:induction false} AskedFrom(min: Option<ServerKey>, max: Option<ServerKey>, cols: seq<IndexColumn>, rows: nat, j: nat, m: nat, n: nat, id: nat)
    requires AfterEqualities(min, max, cols, j, m, n) && rows > 0 && id <= j
    requires forall i :: 0 <= i < |cols| ==> cols[i].col.Valid()
    ensures Selectivity(Parts(RangeOf(min, max), cols, rows, id))
         == EqualShare(min, cols, id, j) * LastShare(min, max, m > j, n > j, cols[j], rows, KeyOffset(cols, j))
    decreases j - id
  {
    hide Parts, Selectivity, KeyPart.Share, KeyPart.Pinned, IndexRange.PartAt, IndexRange.Inner, LastShare, Fraction,
         IndexRange.ValidMap, Bit, Column.Valid, KeyOffset, ReadOffset, RangeOf, FirstColumns;
    var r, off := RangeOf(min, max), KeyOffset(cols, id);
    AskedColumn(min, max, cols, j, m, n, id);
    PartsHead(r, cols, rows, id);
    var p, rest := r.PartAt(cols[id], rows, id, off), Parts(r, cols, rows, id + 1);
    var last := LastShare(min, max, m > j, n > j, cols[j], rows, KeyOffset(cols, j));
    if id < j {
      AskedKeys(min, max, cols, j, m, n);
      EqualPart(r, min.value, max.value, cols[id], rows, id, off);
      AskedFrom(min, max, cols, rows, j, m, n, id + 1);
      SelectivityCons(p, rest);
      Assoc(p.Share(), EqualShare(min, cols, id + 1, j), last);
    } else {
      LastPart(min, max, cols, rows, j, m, n);
      SelectivityCons(p, rest);
      NoParts();
    }
  }

  /** Equalities on leading columns and a range on the next: the product of the shares. */
  lemma AskedSelectivity(min: Option<ServerKey>, max: Option<ServerKey>, cols: seq<IndexColumn>, rows: nat, j: nat, m: nat, n: nat)
    requires AfterEqualities(min, max, cols, j, m, n) && rows > 0 && forall i :: 0 <= i < |cols| ==> cols[i].col.Valid()
    ensures Selectivity(Parts(RangeOf(min, max), cols, rows, 0)) == AskedShare(min, max, cols, rows, j, m, n)
  {
    hide Parts, Selectivity, EqualShare, LastShare, RangeOf, KeyOffset, Column.Valid, AfterEqualities;
    AskedFrom(min, max, cols, rows, j, m, n, 0);
  }

  lemma AllAsked(rows: nat, r: IndexRange, cols: seq<IndexColumn>)
    requires rows > 0 && forall i :: 0 <= i < |cols| ==> cols[i].col.Valid()
    ensures forall min, max, j, m, n :: r == RangeOf(min, max) && AfterEqualities(min, max, cols, j, m, n) ==>
              Selectivity(Parts(r, cols, rows, 0)) == AskedShare(min, max, cols, rows, j, m, n)
  {
    hide Parts, Selectivity, RangeOf, Column.Valid, AfterEqualities, AskedShare;
    forall min, max, j, m, n | r == RangeOf(min, max) && AfterEqualities(min, max, cols, j, m, n)
      ensures Selectivity(Parts(r, cols, rows, 0)) == AskedShare(min, max, cols, rows, j, m, n)
    {
      AskedSelectivity(min, max, cols, rows, j, m, n);
    }
  }

  /** On an index of one column: two NULL keys take the share of NULLs, a NULL lower key alone
      the share of the others, and keys that are not NULL the rows between the ends they state. */
  lemma OneColumnAsked(min: Option<ServerKey>, max: Option<ServerKey>, c: IndexColumn, rows: nat, m: nat, n: nat)
    requires AfterEqualities(min, max, [c], 0, m, n) && rows > 0 && c.col.Valid()
    ensures var share := AskedShare(min, max, [c], rows, 0, m, n);
            var nulls := c.nulls as real / rows as real;
            && (ReadsNull(min, c, 0) && ReadsNull(max, c, 0) ==> share == EvalDensity(nulls))
            && (ReadsNull(min, c, 0) && max.None? ==> share == EvalDensity(1.0 - nulls))
            && (!ReadsNull(min, c, 0) && !ReadsNull(max, c, 0) ==>
                  share == Fraction(c.col, if min.None? then None else LowerEnd(min.value, 0),
                                           if max.None? then None else UpperEnd(max.value, 0)))
  {
    hide Fraction, EvalDensity, Column.Valid;
    assert [c][0] == c && KeyOffset([c], 0) == 0;
    assert EqualShare(min, [c], 0, 0) == 1.0;
  }

  /** calculate_column_selectivity */
  method ColumnSelectivity(part: KeyPart) returns (density: real, goOn: bool)
    requires part.Valid()
    ensures EvalDensity(density) == part.Share() && goOn == part.Pinned()
  {
    match part
    case InRange(col, min, max) => density, goOn := DensityByCond(col, min, max);
    case IsNull(nulls, rows) => density, goOn := nulls as real / rows as real, true;
    case IsNotNull(nulls, rows) => density, goOn := 1.0 - nulls as real / rows as real, true;
  }

  lemma ShareInUnit(p: KeyPart)
    requires p.Valid()
    ensures 0.0 <= p.Share() <= 1.0
  {
    if p.InRange? { FractionInUnit(p.col, p.min, p.max); }
  }

  lemma SelectivityCons(p: KeyPart, rest: seq<KeyPart>)
    requires p.Valid() && PartsValid(rest)
    ensures PartsValid([p] + rest)
    ensures Selectivity([p] + rest) == if p.Pinned() then p.Share() * Selectivity(rest) else p.Share()
  {
    hide KeyPart.Share, KeyPart.Pinned, KeyPart.Valid;
    assert ([p] + rest)[1..] == rest;
  }

  /** The estimate for an index range: the product of the shares, always in [0, 1], so the final
      safeguard never fires. */
  method DensityOneTable(rows: nat, r: IndexRange, cols: seq<IndexColumn>) returns (density: real)
    requires forall i :: 0 <= i < |cols| ==> cols[i].col.Valid()
    ensures rows == 0 ==> density == 0.0
    ensures rows > 0 ==> density == Selectivity(Parts(r, cols, rows, 0))
    ensures forall min, max, j, m, n :: rows > 0 && r == RangeOf(min, max) && AfterEqualities(min, max, cols, j, m, n) ==>
              density == AskedShare(min, max, cols, rows, j, m, n)
    ensures 0.0 <= density <= 1.0
  {
    hide KeyPart.Share, KeyPart.Pinned, Column.Valid, EvalDensity, Selectivity, Bit, IndexRange.PartAt, IndexRange.ValidMap, RangeOf, AfterEqualities, AskedShare;
    if rows == 0 { return 0.0; }
    density := 1.0;
    var goOn := true;
    var id: nat, off: nat := 0, 0;
    ghost var all := Selectivity(Parts(r, cols, rows, 0));
    while id < |cols| && goOn
      invariant id <= |cols| && 0.0 <= density <= 1.0
      invariant if goOn then all == density * Selectivity(Parts(r, cols, rows, id)) else all == density
      invariant off == ReadOffset(cols, id)
    {
      if !Bit(r.ValidMap(), id) { break; }
      if cols[id].isVirtual {
        id := id + 1;
        continue;
      }
      var part := r.PartAt(cols[id], rows, id, off);
      PartValid(r, cols[id], rows, id, off);
      var raw;
      raw, goOn := ColumnSelectivity(part);
      ghost var rest := Parts(r, cols, rows, id + 1);
      SelectivityCons(part, rest);
      ShareInUnit(part);
      ProductInUnit(density, part.Share());
      Assoc(density, part.Share(), Selectivity(rest));
      density := density * EvalDensity(raw);
      off, id := off + cols[id].width, id + 1;
    }
    NoParts();
    if density < 0.0 || density > 1.0 { density := PREFER_RANGE_DENSITY; }
    AllAsked(rows, r, cols);
  }

  lemma PartValid(r: IndexRange, c: IndexColumn, rows: nat, id: nat, off: nat)
    requires c.col.Valid() && rows > 0
    ensures r.PartAt(c, rows, id, off).Valid()
  {
  }

  lemma NoParts()
    ensures Selectivity([]) == 1.0
  {
  }

  /** A share of the rows, at least one, since the optimizer takes none for certain. */
  function Estimate(n: nat, d: real): (rows: nat)
    ensures rows >= 1
  {
    var share := n as real * d;
    if share < 1.0 then 1 else share.Floor
  }

  /** records_in_range */
  method RecordsInRange(analyzed: bool, estimateRows: nat, min: Option<ServerKey>, max: Option<ServerKey>, cols: seq<IndexColumn>)
      returns (rows: nat)
    requires forall i :: 0 <= i < |cols| ==> cols[i].col.Valid()
    ensures !analyzed ==> rows == 1
    ensures analyzed && estimateRows > 0 ==> rows == Estimate(estimateRows, Selectivity(Parts(RangeOf(min, max), cols, estimateRows, 0)))
    ensures forall j, m, n :: analyzed && estimateRows > 0 && AfterEqualities(min, max, cols, j, m, n) ==>
              rows == Estimate(estimateRows, AskedShare(min, max, cols, estimateRows, j, m, n))
    ensures 1 <= rows && (estimateRows > 0 ==> rows <= estimateRows)
  {
    hide Selectivity, Parts, RangeOf, Column.Valid, Estimate, AfterEqualities, AskedShare;
    if !analyzed { return 1; }
    var density := DensityOneTable(estimateRows, RangeOf(min, max), cols);
    rows := WholeRows(estimateRows, density);
  }

  method WholeRows(n: nat, d: real) returns (rows: nat)
    requires 0.0 <= d <= 1.0
    ensures rows == Estimate(n, d) && (n > 0 ==> rows <= n)
  {
    var share := n as real * d;
    ShareBounds(n, d);
    FloorBounds(share, n);
    rows := share.Floor;
    if rows == 0 { rows := 1; }
  }

  lemma FloorBounds(x: real, n: nat)
    requires 0.0 <= x <= n as real
    ensures 0 <= x.Floor <= n && (x.Floor == 0 <==> x < 1.0)
  {
  }

  lemma ShareBounds(n: nat, d: real)
    requires 0.0 <= d <= 1.0
    ensures 0.0 <= n as real * d <= n as real
  {
    NonNegative(n as real, d);
    NonNegative(1.0 - d, n as real);
    Complement(d, n as real);
  }
}
