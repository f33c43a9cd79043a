/** Repacking between the engine's stored dec4 (cells of four digits) and its arithmetic
    dec8 (cells of eight digits). */
module DecimalRepack {
  import opened Basics
  import opened Radix
  import DecimalDigits

  const DEC4_CELL_MASK: nat := 10000
  const DEC8_CELL_SIZE: nat := 9
  const DEC4_CELL_SIZE: nat := 18

  const ZERO: Decimal := Decimal(false, 0, [])

  /** Both headers are cleared for zero, so the sign of a zero is dropped. */
  function Unsigned0(d: Decimal): Decimal
  {
    if d.cells == [] then ZERO else d
  }

  /** Cells of eight digits a decimal with cells of four needs. */
  function Cells8(d: Decimal): nat
  {
    if d.expn % 2 == 0 then 1 + |d.cells| / 2 else (|d.cells| + 1) / 2
  }

  /** w packs the cells s two by two, at the same distance from the point. */
  ghost predicate Paired(s: seq<nat>, e: int, w: seq<nat>, f: int)
  {
    && Below(w, Pow(10, 8))
    && Num(w, Pow(10, 8)) == Num(s, Pow(10, 4))
    && 2 * (f - |w| + 1) == e - |s| + 1
  }

  lemma SquareRadix()
    ensures Pow(10, 4) == DEC4_CELL_MASK && Pow(10, 8) == DEC4_CELL_MASK * DEC4_CELL_MASK
  {
    PowAdd(10, 4, 4);
  }

  lemma PairStep(s: seq<nat>, e: int, w: seq<nat>, f: int, x: nat, y: nat)
    requires Paired(s, e, w, f) && x < Pow(10, 4) && y < Pow(10, 4)
    ensures Paired(s + [x, y], e, w + [x * DEC4_CELL_MASK + y], f)
  {
    SquareRadix();
    assert s + [x, y] == s + [x] + [y];
    hide Num, Pow;
    var b := Pow(10, 4);
    NumSnoc(s, x, b);
    NumSnoc(s + [x], y, b);
    NumSnoc(w, x * b + y, Pow(10, 8));
    BoundStep(x, b, b, y);
    MulAssoc(Num(s, b), b, b);
  }

  lemma PairedValue(s: seq<nat>, e: int, w: seq<nat>, f: int)
    requires Paired(s, e, w, f)
    ensures CellSum(s, e, 4) == CellSum(w, f, 8)
  {
    hide Num, Pow, CellSum;
    CellSumIsScaled(s, e, 4);
    CellSumIsScaled(w, f, 8);
  }

  /** A trailing zero cell changes nothing. */
  lemma CellSumTrailingZero(s: seq<nat>, e: int, k: nat)
    ensures CellSum(s + [0], e, k) == CellSum(s, e, k)
  {
    hide Num, Pow, CellSum, Scaled;
    CellSumIsScaled(s + [0], e, k);
    CellSumIsScaled(s, e, k);
    NumSnoc(s, 0, Pow(10, k));
    MulPred(k, e - |s| + 1);
    ScaledShift(Num(s, Pow(10, k)), k, k * (e - |s|));
  }

  lemma SingleCell(c: nat, e: int, f: int)
    requires c < Pow(10, 4) && 2 * f == e
    ensures Paired([c], e, [c], f)
  {
    SquareRadix();
    hide Num, Pow;
    NumSingle(c, Pow(10, 4));
    NumSingle(c, Pow(10, 8));
  }

  lemma PairedEmpty(e: int, f: int)
    ensures 2 * (f + 1) == e + 1 ==> Paired([], e, [], f)
  {
  }

  /** The cells before i4 are packed (a missing odd cell counts as zero), the first packed
      cell is nonzero, and so is the last once all are packed. */
  ghost predicate Packing4(d: Decimal, i4: nat, s: seq<nat>, w: seq<nat>, f: int)
  {
    && i4 <= |d.cells| + 1
    && s == (if i4 <= |d.cells| then d.cells[..i4] else d.cells + [0])
    && Paired(s, d.expn, w, f)
    && (if i4 == 0 then w == [] else |w| > 0 && w[0] != 0)
    && (i4 >= |d.cells| > 0 ==> |w| > 0 && w[|w| - 1] != 0)
  }

  lemma Packing4Step(d: Decimal, i4: nat, s: seq<nat>, w: seq<nat>, f: int, x: nat, y: nat)
    requires Canonical(d, 4) && Packing4(d, i4, s, w, f) && i4 < |d.cells|
    requires x == d.cells[i4] && y == if i4 + 1 < |d.cells| then d.cells[i4 + 1] else 0
    ensures Packing4(d, i4 + 2, s + [x, y], w + [x * DEC4_CELL_MASK + y], f)
  {
    hide Num, Pow, Paired;
    assert x < Pow(10, 4) && y < Pow(10, 4) by { SquareRadix(); }
    PairStep(s, d.expn, w, f, x, y);
    if i4 + 1 < |d.cells| {
      assert s + [x, y] == d.cells[..i4 + 2];
    } else {
      assert s + [x, y] == d.cells + [0];
    }
  }

  /** r is d in cells of eight digits. */
  ghost predicate RepackedTo8(d: Decimal, r: Decimal)
  {
    && Canonical(r, 8) && |r.cells| == (if d.cells == [] then 0 else Cells8(d))
    && Magnitude(r, 8) == Magnitude(d, 4) && r.neg == Unsigned0(d).neg
    && 2 * r.expn <= d.expn <= 2 * r.expn + 1
  }

  /** ct_cm_dec_4_to_8. None: a tenth cell is written behind the nine there are. */
  method Dec4To8(d: Decimal) returns (r: Option<Decimal>)
    requires Canonical(d, 4)
    ensures r.None? <==> d.cells != [] && Cells8(d) > DEC8_CELL_SIZE
    ensures r.Some? ==> RepackedTo8(d, r.value)
  {
    if |d.cells| == 0 { return Some(ZERO); }
    var i4: nat, cells: seq<nat>, expn: int := FirstCell8(d);
    ghost var s: seq<nat>, lone := d.cells[..i4], i4;
    hide Num, Pow, CellSum, Paired, Canonical, Cells8, RepackedTo8, Packing4;
    while i4 < |d.cells|
      invariant 2 * |cells| == i4 + lone && |cells| <= DEC8_CELL_SIZE && i4 <= |d.cells| + 1
      invariant Packing4(d, i4, s, cells, expn)
    {
      if |cells| == DEC8_CELL_SIZE {
        CellCount(d, i4, lone, |cells|);
        return None;
      }
      var x: nat, y: nat := d.cells[i4], if i4 + 1 < |d.cells| then d.cells[i4 + 1] else 0;
      Packing4Step(d, i4, s, cells, expn, x, y);
      s, cells, i4 := s + [x, y], cells + [x * DEC4_CELL_MASK + y], i4 + 2;
    }
    var packed := Decimal(d.neg, expn, cells);
    CellCount(d, i4, lone, |cells|);
    Repacked(d, i4, s, packed);
    r := Some(packed);
  }

  /** An even exponent leaves the first cell alone. */
  lemma CellCount(d: Decimal, i4: nat, lone: nat, n: nat)
    requires lone == (if d.expn % 2 == 0 then 1 else 0) && 2 * n == i4 + lone && i4 <= |d.cells| + 1
    ensures i4 >= |d.cells| ==> Cells8(d) == n
    ensures i4 < |d.cells| ==> Cells8(d) > n
  {
  }

  lemma Repacked(d: Decimal, i4: nat, s: seq<nat>, r: Decimal)
    requires Canonical(d, 4) && d.cells != [] && Packing4(d, i4, s, r.cells, r.expn) && i4 >= |d.cells|
    requires |r.cells| == Cells8(d) && r.neg == d.neg && 2 * r.expn <= d.expn <= 2 * r.expn + 1
    ensures RepackedTo8(d, r)
  {
    hide Num, Pow, CellSum, Canonical, Packing4;
    Packed4Done(d, i4, s, r);
  }

  /** Of the decimals that dec4 can hold, only those of 18 cells and an even exponent need ten. */
  lemma Cells8Condition(d: Decimal)
    requires |d.cells| <= DEC4_CELL_SIZE
    ensures Cells8(d) > DEC8_CELL_SIZE <==> |d.cells| == DEC4_CELL_SIZE && d.expn % 2 == 0
  {
  }

  /** A column's values never do. */
  method ColumnToDec8(m: DecimalDigits.MyDecimal, prec: nat, scale: nat) returns (r: Decimal)
    requires scale <= 30 && scale <= prec <= 65 && m.intg == prec - scale && m.frac == scale && m.WellFormed()
    ensures Canonical(r, 8) && |r.cells| <= DEC8_CELL_SIZE && Magnitude(r, 8) == m.Magnitude()
    ensures r.neg ==> m.neg
  {
    hide Num, Pow, CellSum, Canonical, Magnitude, DecimalDigits.EndsInZeros;
    DecimalDigits.ColumnFits(m, prec, scale);
    var d := DecimalDigits.MyDecimalToDec4(m);
    ColumnCells(prec, scale);
    var o := Dec4To8(d);
    r := o.value;
  }

  lemma ColumnCells(prec: nat, scale: nat)
    requires scale <= 30 && scale <= prec <= 65
    ensures DecimalDigits.CeilDiv(prec - scale, 4) + DecimalDigits.CeilDiv(scale, 4) <= 17
  {
  }

  /** The exponent, and the cell that an even exponent leaves alone at the front. */
  method FirstCell8(d: Decimal) returns (i4: nat, cells: seq<nat>, expn: int)
    requires Canonical(d, 4) && d.cells != []
    ensures i4 == |cells| == (if d.expn % 2 == 0 then 1 else 0) && 2 * expn + 1 - i4 == d.expn
    ensures Packing4(d, i4, d.cells[..i4], cells, expn)
  {
    // division truncates toward zero
    expn := if d.expn < 0 then -((1 - d.expn) / 2) else d.expn / 2;
    i4, cells := 0, [];
    if d.expn % 2 == 0 {
      cells, i4 := [d.cells[0]], 1;
      SingleCell(d.cells[0], d.expn, expn);
    } else {
      PairedEmpty(d.expn, expn);
    }
    hide Num, Pow, Paired;
    assert d.cells[..i4] == cells;
  }

  lemma Packed4Done(d: Decimal, i4: nat, s: seq<nat>, r: Decimal)
    requires d.cells != [] && Packing4(d, i4, s, r.cells, r.expn) && i4 >= |d.cells|
    ensures Canonical(r, 8) && Magnitude(r, 8) == Magnitude(d, 4)
  {
    hide Num, Pow, CellSum;
    CellSumTrailingZero(d.cells, d.expn, 4);
    assert d.cells[..|d.cells|] == d.cells;
    PairedValue(s, d.expn, r.cells, r.expn);
  }

  /** The cells before i8 are split; the first piece is nonzero, and once all are split one
      of the last two is. */
  ghost predicate Splitting8(d: Decimal, i8: nat, w: seq<nat>, e: int)
  {
    && i8 <= |d.cells|
    && Paired(w, e, d.cells[..i8], d.expn)
    && Below(w, Pow(10, 4))
    && (if i8 == 0 then w == [] else |w| > 0 && w[0] != 0)
    && (i8 == |d.cells| > 0 ==> w[|w| - 1] != 0 || (|w| > 1 && w[|w| - 2] != 0))
  }

  lemma Splitting8Step(d: Decimal, i8: nat, w: seq<nat>, e: int, x: nat, y: nat)
    requires Canonical(d, 8) && Splitting8(d, i8, w, e) && i8 < |d.cells|
    requires x == d.cells[i8] / DEC4_CELL_MASK && y == d.cells[i8] % DEC4_CELL_MASK
    requires i8 == 0 ==> d.cells[0] >= DEC4_CELL_MASK
    ensures Splitting8(d, i8 + 1, w + [x, y], e)
  {
    SquareRadix();
    hide Num, Pow, Paired;
    var c := d.cells[i8];
    assert c == x * DEC4_CELL_MASK + y && y < DEC4_CELL_MASK;
    assert x < DEC4_CELL_MASK;
    if i8 == 0 { assert x > 0; }
    PairStep(w, e, d.cells[..i8], d.expn, x, y);
    assert d.cells[..i8 + 1] == d.cells[..i8] + [x * DEC4_CELL_MASK + y];
  }

  method Dec8To4(d: Decimal) returns (r: Decimal)
    requires Canonical(d, 8) && |d.cells| <= DEC8_CELL_SIZE && -64 <= d.expn <= 63
    ensures Canonical(r, 4) && |r.cells| <= DEC4_CELL_SIZE && -128 <= r.expn <= 127
    ensures Magnitude(r, 4) == Magnitude(d, 8)
    ensures r.neg == Unsigned0(d).neg
    ensures d.cells != [] ==> Cells8(r) <= |d.cells|
  {
    if |d.cells| == 0 { return ZERO; }
    SquareRadix();
    var expn, i8: nat, cells: seq<nat> := d.expn * 2 + 1, 0, [];
    if d.cells[0] < DEC4_CELL_MASK {
      cells, expn, i8 := [d.cells[0]], expn - 1, 1;
      SingleCell(d.cells[0], expn, d.expn);
    } else {
      PairedEmpty(expn, d.expn);
    }
    assert d.cells[..i8] == cells;
    hide Num, Pow, CellSum, Paired;
    while i8 < |d.cells|
      invariant Splitting8(d, i8, cells, expn)
      invariant |cells| == 2 * i8 - (if expn % 2 == 0 then 1 else 0)
      invariant i8 == 0 ==> d.cells[0] >= DEC4_CELL_MASK
    {
      var x: nat, y: nat := d.cells[i8] / DEC4_CELL_MASK, d.cells[i8] % DEC4_CELL_MASK;
      Splitting8Step(d, i8, cells, expn, x, y);
      cells, i8 := cells + [x, y], i8 + 1;
    }
    Split8Done(d, cells, expn);
    if cells[|cells| - 1] == 0 {
      cells := cells[..|cells| - 1];
    }
    r := Decimal(d.neg, expn, cells);
  }

  lemma Split8Done(d: Decimal, w: seq<nat>, e: int)
    requires d.cells != [] && Splitting8(d, |d.cells|, w, e)
    ensures CellSum(w, e, 4) == Magnitude(d, 8)
    ensures w[|w| - 1] == 0 ==> CellSum(w[..|w| - 1], e, 4) == Magnitude(d, 8)
  {
    hide Num, Pow, CellSum;
    assert d.cells[..|d.cells|] == d.cells;
    PairedValue(w, e, d.cells, d.expn);
    if w[|w| - 1] == 0 {
      CellSumTrailingZero(w[..|w| - 1], e, 4);
      assert w == w[..|w| - 1] + [0];
    }
  }

  /** The two repackings undo each other on canonical decimals. */
  method RepackRoundTrip4(d: Decimal) returns (d': Decimal)
    requires Canonical(d, 4) && Cells8(d) <= DEC8_CELL_SIZE && -128 <= d.expn <= 127
    ensures d' == Unsigned0(d)
  {
    var o := Dec4To8(d);
    var r := o.value;
    CanonicalZero(d, 4);
    CanonicalZero(r, 8);
    d' := Dec8To4(r);
    CanonicalUnique(d, d', 4);
  }

  method RepackRoundTrip8(d: Decimal) returns (d': Decimal)
    requires Canonical(d, 8) && |d.cells| <= DEC8_CELL_SIZE && -64 <= d.expn <= 63
    ensures d' == Unsigned0(d)
  {
    var r := Dec8To4(d);
    CanonicalZero(d, 8);
    CanonicalZero(r, 4);
    var o := Dec4To8(r);
    d' := o.value;
    CanonicalUnique(d, d', 8);
  }
}
