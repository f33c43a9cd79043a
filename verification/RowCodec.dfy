/** The row codec: a record's stored columns are laid out behind an 8-byte head and a bitmap
    of two bits per column. NULL columns take no bytes, virtual generated columns no bits. */
module RowCodec {
  import opened Basics
  import DecimalDigits

  /** maxLen and len are the field's row_pack_length. A value of a LOB column, or of a VARCHAR
      wide enough to be kept as one, is its locator. */
  datatype ColumnType =
    | Fixed4 | Fixed8
    | VarChar(maxLen: nat)
    | Char(len: nat, pad: byte)
    | Enum(size: nat)
    | Numeric(prec: nat, scale: nat)
    | Lob

  /** A generated column is virtual or stored with the row. */
  datatype Column = Column(ty: ColumnType, nullable: bool, isVirtual: bool, isStoredGenerated: bool)

  /** Untouched: the decoder leaves the column of the MySQL record as it was. */
  datatype Value = Null | Data(bytes: seq<byte>) | Untouched

  /** What a stored column becomes: its two bits and its bytes. */
  datatype Cell = Cell(code: nat, payload: seq<byte>)

  const ROW_HEAD: nat := 8
  const BITMAP_AT: nat := 5
  const SPARSE_COLUMNS: nat := 1024
  const MAX_VARCHAR: nat := 8000
  const MAX_LOCATOR: nat := 4012

  function RoundUp4(n: nat): (r: nat)
    ensures n <= r < n + 4 && r % 4 == 0
  {
    (n / 4 + if n % 4 != 0 then 1 else 0) * 4
  }

  function Align16(n: nat): (r: nat)
    ensures n <= r < n + 16 && r == 16 * ((n + 15) / 16)
  {
    if n % 16 == 0 then n else n + 16 - n % 16
  }

  /** col_bitmap_ex_size: bytes of bitmap behind the three in the head. */
  function BitmapExtension(cols: nat): (r: nat)
    ensures cols <= 12 + 4 * r
  {
    if cols >= SPARSE_COLUMNS then Align16(cols - 4) / 4
    else if cols <= 12 then 0 else Align16(cols - 12) / 4
  }

  /** They are the least, four bytes at a time, that have room for all: beside twelve columns
      in the head below 1024 columns, and beside four from there on. */
  lemma BitmapLeast(cols: nat)
    ensures var r, inHead := BitmapExtension(cols), if cols < SPARSE_COLUMNS then 12 else 4;
            r % 4 == 0 && cols <= inHead + 4 * r && (r > 0 ==> inHead + 4 * (r - 4) < cols)
  {
    var inHead := if cols < SPARSE_COLUMNS then 12 else 4;
    if cols > 12 {
      var q := (cols - inHead + 15) / 16;
      hide Align16;
      assert Align16(cols - inHead) == 16 * q && 16 * q / 4 == 4 * q;
    }
  }

  function Base(cols: nat): nat { ROW_HEAD + BitmapExtension(cols) }

  // ----- the bitmap

  /** A bitmap byte is four base-4 digits, the first column's lowest. */
  function Digit(x: int, j: nat): (r: nat)
    requires j < 4
    ensures r < 4
    decreases j
  {
    if j == 0 then x % 4 else Digit(x / 4, j - 1)
  }

  function Push(d: nat, y: nat): (r: nat)
    requires d < 4
    ensures r % 4 == d && r / 4 == y && r <= 3 + 4 * y
  {
    d + 4 * y
  }

  lemma DigitOfPush(d: nat, y: nat)
    requires d < 4
    ensures Digit(Push(d, y), 0) == d
    ensures forall j: nat :: j < 3 ==> Digit(Push(d, y), j + 1) == Digit(y, j)
  {
  }

  function Pack(d0: nat, d1: nat, d2: nat, d3: nat): (r: byte)
    requires d0 < 4 && d1 < 4 && d2 < 4 && d3 < 4
    ensures Digit(r, 0) == d0 && Digit(r, 1) == d1 && Digit(r, 2) == d2 && Digit(r, 3) == d3
  {
    hide Push, Digit;
    var y3 := Push(d3, 0);
    var y2 := Push(d2, y3);
    var y1 := Push(d1, y2);
    var y0 := Push(d0, y1);
    DigitOfPush(d3, 0);
    DigitOfPush(d2, y3);
    DigitOfPush(d1, y2);
    DigitOfPush(d0, y1);
    assert Digit(y0, 0 + 1) == d1 && Digit(y0, 1 + 1) == Digit(y1, 0 + 1) && Digit(y0, 2 + 1) == Digit(y1, 1 + 1) == Digit(y2, 0 + 1);
    y0
  }

  /** Erase the two bits, then set them. */
  function WithDigit(x: byte, j: nat, code: nat): byte
    requires j < 4 && code < 4
  {
    Pack(if j == 0 then code else Digit(x, 0), if j == 1 then code else Digit(x, 1),
         if j == 2 then code else Digit(x, 2), if j == 3 then code else Digit(x, 3))
  }

  lemma DigitsAfter(x: byte, j: nat, code: nat, i: nat)
    requires j < 4 && code < 4 && i < 4
    ensures Digit(WithDigit(x, j, code), i) == if i == j then code else Digit(x, i)
  {
    hide Digit, Pack;
    assert i == 0 || i == 1 || i == 2 || i == 3;
  }

  function U16(lo: int, hi: int): int { lo + 256 * hi }

  /** row_get_column_bits2 */
  function ColumnBits(b: seq<byte>, k: nat): nat
    requires BITMAP_AT + k / 4 < |b|
  {
    Digit(b[BITMAP_AT + k / 4], k % 4)
  }

  function ColumnCount(b: seq<byte>): int
    requires |b| >= ROW_HEAD
  {
    U16(b[2], b[3] % 4)
  }

  predicate Migrated(b: seq<byte>)
    requires |b| >= ROW_HEAD
  {
    b[3] / 16 % 2 == 1
  }

  /** The row is in compact stream format. */
  predicate Compact(b: seq<byte>)
    requires |b| >= ROW_HEAD
  {
    b[3] / 128 % 2 == 1
  }

  // ----- columns and cells

  predicate AsBlob(maxLen: nat) { maxLen > MAX_VARCHAR }

  function DecimalBytes(prec: nat, scale: nat): nat
    requires scale <= prec
  {
    2 * (1 + DecimalDigits.CeilDiv(prec - scale, 4) + DecimalDigits.CeilDiv(scale, 4))
  }

  predicate TypeOk(ty: ColumnType)
  {
    match ty
    case VarChar(maxLen) => maxLen < 65536
    case Char(len, pad) => len <= MAX_VARCHAR
    case Enum(size) => size <= 8
    case Numeric(prec, scale) => scale <= prec <= 65 && scale <= 30
    case _ => true
  }

  /** The most bytes a value of the type has; values of all but three types have just as many. */
  function MaxBytes(ty: ColumnType): nat
    requires TypeOk(ty)
  {
    match ty
    case Fixed4 => 4
    case Fixed8 => 8
    case VarChar(maxLen) => if AsBlob(maxLen) then MAX_LOCATOR else maxLen
    case Char(len, pad) => len
    case Enum(size) => size
    case Numeric(prec, scale) => DecimalBytes(prec, scale)
    case Lob => MAX_LOCATOR
  }

  /** The bytes a value of the type can have. */
  predicate BytesOk(ty: ColumnType, p: seq<byte>)
  {
    TypeOk(ty) && if ty.VarChar? || ty.Numeric? || ty.Lob? then |p| <= MaxBytes(ty) else |p| == MaxBytes(ty)
  }

  predicate ValueOk(c: Column, v: Value)
  {
    if c.isVirtual then true
    else match v
      case Null => c.nullable
      case Data(p) => BytesOk(c.ty, p)
      case Untouched => false
  }

  predicate RowOk(table: seq<Column>, row: seq<Value>)
  {
    |row| <= |table| && forall i :: 0 <= i < |row| ==> ValueOk(table[i], row[i])
  }

  function Code(ty: ColumnType): nat
  {
    match ty
    case Fixed4 => 1
    case Fixed8 => 2
    case _ => 3
  }

  /** CHAR values lose their trailing pad characters. */
  function Strip(p: seq<byte>, pad: byte): (r: seq<byte>)
    ensures |r| <= |p|
  {
    if p != [] && p[|p| - 1] == pad then Strip(p[..|p| - 1], pad) else p
  }

  function Repeat(n: nat, x: byte): seq<byte> { seq(n, i => x) }

  function Shrink(ty: ColumnType, p: seq<byte>): (r: seq<byte>)
    ensures |r| <= |p|
  {
    if ty.Char? then Strip(p, ty.pad) else p
  }

  function Restore(ty: ColumnType, p: seq<byte>): seq<byte>
  {
    if ty.Char? && |p| < ty.len then p + Repeat(ty.len - |p|, ty.pad) else p
  }

  function CellOf(c: Column, v: Value): Cell
  {
    if v.Data? then Cell(Code(c.ty), Shrink(c.ty, v.bytes)) else Cell(0, [])
  }

  predicate CellOk(c: Cell)
  {
    match c.code
    case 0 => c.payload == []
    case 1 => |c.payload| == 4
    case 2 => |c.payload| == 8
    case _ => c.code == 3 && |c.payload| <= MAX_VARCHAR
  }

  function Width(c: Cell): nat
  {
    if c.code == 3 then RoundUp4(|c.payload| + 2) else |c.payload|
  }

  function Widths(cs: seq<Cell>): nat
  {
    if cs == [] then 0 else Widths(cs[..|cs| - 1]) + Width(cs[|cs| - 1])
  }

  /** The cells of the first n columns. */
  function Cells(table: seq<Column>, row: seq<Value>, n: nat): seq<Cell>
    requires n <= |row| <= |table|
  {
    if n == 0 then []
    else if table[n - 1].isVirtual then Cells(table, row, n - 1)
    else Cells(table, row, n - 1) + [CellOf(table[n - 1], row[n - 1])]
  }

  lemma CellFits(c: Column, v: Value)
    requires ValueOk(c, v) && !c.isVirtual
    ensures CellOk(CellOf(c, v))
  {
  }

  function EncodedSize(cs: seq<Cell>): nat { Base(|cs|) + Widths(cs) }

  // ----- what a record holds

  /** One cell's bytes at the offset; padding is arbitrary. */
  predicate HoldsCell(b: seq<byte>, off: nat, c: Cell)
  {
    && off + Width(c) <= |b|
    && if c.code == 3 then
         && U16(b[off], b[off + 1]) == |c.payload|
         && b[off + 2..off + 2 + |c.payload|] == c.payload
       else b[off..off + |c.payload|] == c.payload
  }

  predicate HoldsCells(b: seq<byte>, base: nat, cs: seq<Cell>)
  {
    cs == [] || (var n := |cs| - 1;
                 HoldsCells(b, base, cs[..n]) && HoldsCell(b, base + Widths(cs[..n]), cs[n]))
  }

  predicate HoldsBits(b: seq<byte>, cs: seq<Cell>)
  {
    && BITMAP_AT + (|cs| + 3) / 4 <= |b|
    && forall k :: 0 <= k < |cs| ==> ColumnBits(b, k) == cs[k].code
  }

  predicate IsRecord(b: seq<byte>, cs: seq<Cell>)
  {
    && |b| >= ROW_HEAD && ColumnCount(b) == |cs| % SPARSE_COLUMNS && !Migrated(b) && !Compact(b)
    && U16(b[0], b[1]) == EncodedSize(cs) % 65536
    && HoldsBits(b, cs) && HoldsCells(b, Base(|cs|), cs)
  }

  lemma {:induction false} HoldsCellsFrame(b: seq<byte>, b': seq<byte>, base: nat, cs: seq<Cell>)
    requires HoldsCells(b, base, cs) && |b| == |b'|
    requires forall i :: base <= i < base + Widths(cs) && i < |b| ==> b[i] == b'[i]
    ensures HoldsCells(b', base, cs)
  {
    if cs != [] {
      var n := |cs| - 1;
      HoldsCellsFrame(b, b', base, cs[..n]);
      HoldsCellFrame(b, b', base + Widths(cs[..n]), cs[n]);
    }
  }

  lemma HoldsCellFrame(b: seq<byte>, b': seq<byte>, off: nat, c: Cell)
    requires HoldsCell(b, off, c) && |b| == |b'|
    requires forall i :: off <= i < off + Width(c) && i < |b| ==> b[i] == b'[i]
    ensures HoldsCell(b', off, c)
  {
    var at := if c.code == 3 then off + 2 else off;
    assert b[at..at + |c.payload|] == b'[at..at + |c.payload|];
  }

  lemma {:induction false} CellAt(b: seq<byte>, base: nat, cs: seq<Cell>, k: nat)
    requires HoldsCells(b, base, cs) && k < |cs|
    ensures HoldsCell(b, base + Widths(cs[..k]), cs[k])
  {
    var n := |cs| - 1;
    if k < n {
      CellAt(b, base, cs[..n], k);
      assert cs[..n][..k] == cs[..k];
    }
  }

  // ----- encoding

  method WriteBytes(buf: array<byte>, off: nat, p: seq<byte>)
    requires off + |p| <= buf.Length
    modifies buf
    ensures buf[off..off + |p|] == p
    ensures forall i :: 0 <= i < buf.Length && !(off <= i < off + |p|) ==> buf[i] == old(buf[i])
  {
    var j := 0;
    while j < |p|
      invariant 0 <= j <= |p|
      invariant forall i :: 0 <= i < j ==> buf[off + i] == p[i]
      invariant forall i :: 0 <= i < buf.Length && !(off <= i < off + j) ==> buf[i] == old(buf[i])
    {
      buf[off + j] := p[j];
      j := j + 1;
    }
  }

  /** A 16-bit number, low byte first. */
  method TwoBytes(n: nat) returns (lo: byte, hi: byte)
    requires n < 65536
    ensures U16(lo, hi) == n
  {
    lo, hi := n % 256, n / 256;
  }

  /** Length prefix, bytes, and the step to the next 4-byte boundary. */
  method WriteCell(buf: array<byte>, off: nat, c: Cell) returns (next: nat)
    requires CellOk(c) && off + Width(c) <= buf.Length
    modifies buf
    ensures next == off + Width(c)
    ensures HoldsCell(buf[..], off, c)
    ensures forall i :: 0 <= i < buf.Length && !(off <= i < next) ==> buf[i] == old(buf[i])
  {
    hide RoundUp4, U16;
    var at := off;
    if c.code == 3 {
      var lo, hi := TwoBytes(|c.payload|);
      buf[off], buf[off + 1] := lo, hi;
      at := off + 2;
    }
    WriteBytes(buf, at, c.payload);
    assert buf[..][at..at + |c.payload|] == buf[at..at + |c.payload|];
    next := off + Width(c);
  }

  /** row_set_column_bits2 */
  method SetColumnBits(buf: array<byte>, k: nat, code: nat)
    requires BITMAP_AT + k / 4 < buf.Length && code < 4
    modifies buf
    ensures ColumnBits(buf[..], k) == code
    ensures forall j: nat :: j != k && BITMAP_AT + j / 4 < buf.Length ==> ColumnBits(buf[..], j) == ColumnBits(old(buf[..]), j)
    ensures forall i :: 0 <= i < buf.Length && i != BITMAP_AT + k / 4 ==> buf[i] == old(buf[i])
  {
    hide WithDigit, Digit;
    var x := buf[BITMAP_AT + k / 4];
    buf[BITMAP_AT + k / 4] := WithDigit(x, k % 4, code);
    DigitsAfter(x, k % 4, code, k % 4);
    forall j: nat | j != k && BITMAP_AT + j / 4 < buf.Length
      ensures ColumnBits(buf[..], j) == ColumnBits(old(buf[..]), j)
    {
      if j / 4 == k / 4 {
        assert j % 4 != k % 4;
        DigitsAfter(x, k % 4, code, j % 4);
      }
    }
  }

  function Virtuals(table: seq<Column>, n: nat): nat
    requires n <= |table|
  {
    if n == 0 then 0 else Virtuals(table, n - 1) + if table[n - 1].isVirtual then 1 else 0
  }

  lemma {:induction false} CellCount(table: seq<Column>, row: seq<Value>, n: nat)
    requires n <= |row| <= |table|
    ensures |Cells(table, row, n)| + Virtuals(table, n) == n
  {
    if n > 0 { CellCount(table, row, n - 1); }
  }

  lemma {:induction false} CellsGrow(table: seq<Column>, row: seq<Value>, m: nat, n: nat)
    requires m <= n <= |row| <= |table|
    ensures Cells(table, row, m) <= Cells(table, row, n)
    ensures Widths(Cells(table, row, m)) <= Widths(Cells(table, row, n))
  {
    hide Width, Widths, CellOf;
    if m < n {
      CellsGrow(table, row, m, n - 1);
      WidthsSnoc(Cells(table, row, n - 1), CellOf(table[n - 1], row[n - 1]));
    }
  }

  lemma WidthsSnoc(cs: seq<Cell>, c: Cell)
    ensures Widths(cs + [c]) == Widths(cs) + Width(c)
  {
    assert (cs + [c])[..|cs|] == cs;
  }

  /** The bitmap and the bytes of the cells written so far. */
  predicate Written(b: seq<byte>, base: nat, next: nat, cs: seq<Cell>)
  {
    next == base + Widths(cs) && HoldsBits(b, cs) && HoldsCells(b, base, cs)
  }

  /** One pass of the column loop for a stored column. */
  method AppendCell(buf: array<byte>, base: nat, off: nat, k: nat, c: Cell, ghost cs: seq<Cell>) returns (next: nat)
    requires Written(buf[..], base, off, cs) && k == |cs| && CellOk(c)
    requires off + Width(c) <= buf.Length && BITMAP_AT + k / 4 < base
    modifies buf
    ensures Written(buf[..], base, next, cs + [c]) && off <= next
    ensures forall i :: next <= i < buf.Length ==> buf[i] == old(buf[i])
  {
    hide Digit, HoldsCell, Width;
    next := WriteCell(buf, off, c);
    ghost var mid := buf[..];
    SetColumnBits(buf, k, c.code);
    HoldsCellsFrame(old(buf[..]), buf[..], base, cs);
    HoldsCellFrame(mid, buf[..], off, c);
    WidthsSnoc(cs, c);
    assert (cs + [c])[..|cs|] == cs;
    forall j | 0 <= j < |cs| + 1 ensures ColumnBits(buf[..], j) == (cs + [c])[j].code {
      if j < |cs| {
        assert ColumnBits(mid, j) == ColumnBits(old(buf[..]), j);
      }
    }
  }

  /** cal_gcol_cnts_for_update */
  method CountVirtuals(table: seq<Column>, n: nat) returns (count: nat)
    requires n <= |table|
    ensures count == Virtuals(table, n)
  {
    count := 0;
    for i := 0 to n
      invariant count == Virtuals(table, i)
    {
      if table[i].isVirtual { count := count + 1; }
    }
  }

  /** mysql_record_to_cantian_record on the insert path. The buffer's old contents do not
      matter and nothing behind the record is written. */
  method EncodeRow(table: seq<Column>, row: seq<Value>, buf: array<byte>) returns (size: nat)
    requires |row| == |table| && RowOk(table, row) && EncodedSize(Cells(table, row, |row|)) <= buf.Length
    modifies buf
    ensures size == EncodedSize(Cells(table, row, |row|)) && IsRecord(buf[..], Cells(table, row, |row|))
    ensures StoresRow(buf[..], table, row)
    ensures buf[size..] == old(buf[size..])
  {
    hide Written, HoldsCells, HoldsBits, IsRecord, Widths, ValueOk, CellOk, BitmapExtension, CellOf, Width, StoresRow;
    var virtuals := CountVirtuals(table, |table|);
    CellCount(table, row, |row|);
    var base := Base(|table| - virtuals);
    NothingWritten(buf[..], base);
    size, virtuals := base, 0;
    for i := 0 to |table|
      invariant virtuals == Virtuals(table, i)
      invariant Written(buf[..], base, size, Cells(table, row, i))
      invariant forall x :: size <= x < buf.Length ==> buf[x] == old(buf[x])
    {
      CellCount(table, row, i);
      if table[i].isVirtual {
        virtuals := virtuals + 1;
      } else {
        CellsGrow(table, row, i + 1, |row|);
        var c := CellOf(table[i], row[i]);
        CellFits(table[i], row[i]);
        BitmapRoom(i - virtuals, |Cells(table, row, |row|)|);
        WidthsSnoc(Cells(table, row, i), c);
        WrittenSize(buf[..], base, size, Cells(table, row, i));
        size := AppendCell(buf, base, size, i - virtuals, c, Cells(table, row, i));
      }
    }
    WrittenSize(buf[..], base, size, Cells(table, row, |row|));
    FillHead(buf, size, |table| - virtuals, Cells(table, row, |row|));
    RecordStores(table, row, buf[..]);
  }

  lemma NothingWritten(b: seq<byte>, base: nat)
    requires |b| >= ROW_HEAD
    ensures Written(b, base, base, [])
  {
  }

  lemma WrittenSize(b: seq<byte>, base: nat, next: nat, cs: seq<Cell>)
    requires Written(b, base, next, cs)
    ensures next == base + Widths(cs)
  {
  }

  /** The size is kept in 16 bits, the column count in 10 with the flags above it. */
  method FillHead(buf: array<byte>, size: nat, count: nat, ghost cs: seq<Cell>)
    requires count == |cs| && Written(buf[..], Base(count), size, cs) && buf.Length >= ROW_HEAD
    modifies buf
    ensures IsRecord(buf[..], cs)
    ensures forall i :: 4 <= i < buf.Length ==> buf[i] == old(buf[i])
  {
    hide Written, IsRecord, BitmapExtension;
    var size16 := size % 65536;
    buf[0], buf[1] := size16 % 256, size16 / 256;
    var count10 := count % SPARSE_COLUMNS;
    buf[2], buf[3] := count10 % 256, count10 / 256;
    HeadFields(buf[..], size16, count10);
    HeadOnly(old(buf[..]), buf[..], size, cs);
  }

  lemma HeadOnly(b: seq<byte>, b': seq<byte>, size: nat, cs: seq<Cell>)
    requires Written(b, Base(|cs|), size, cs) && |b'| == |b| >= ROW_HEAD
    requires forall i :: 4 <= i < |b| ==> b'[i] == b[i]
    requires U16(b'[0], b'[1]) == size % 65536 && ColumnCount(b') == |cs| % SPARSE_COLUMNS && !Migrated(b') && !Compact(b')
    ensures IsRecord(b', cs)
  {
    hide HoldsCells, Widths, Digit, BitmapExtension, ColumnCount, Migrated, Compact, U16;
    HoldsCellsFrame(b, b', Base(|cs|), cs);
    assert HoldsBits(b', cs) by {
      forall k | 0 <= k < |cs| ensures ColumnBits(b', k) == ColumnBits(b, k) {}
    }
  }

  lemma HeadFields(b: seq<byte>, size: nat, count: nat)
    requires |b| >= ROW_HEAD && size < 65536 && count < SPARSE_COLUMNS
    requires b[0] == size % 256 && b[1] == size / 256 && b[2] == count % 256 && b[3] == count / 256
    ensures U16(b[0], b[1]) == size && ColumnCount(b) == count && !Migrated(b) && !Compact(b)
  {
  }

  lemma BitmapRoom(k: nat, count: nat)
    requires k < count
    ensures BITMAP_AT + k / 4 < Base(count)
  {
  }

  // ----- decoding

  /** The bytes from off on that code calls for, and the offset behind them. */
  function ReadCell(b: seq<byte>, off: nat, code: nat): Option<(seq<byte>, nat)>
  {
    if code == 3 then
      if off + 2 > |b| then None
      else
        var len := U16(b[off], b[off + 1]);
        var aligned := (RoundUp4(len + 2) - 2) % 65536;
        if off + 2 + len > |b| then None else Some((b[off + 2..off + 2 + len], off + 2 + aligned))
    else
      var len := if code == 1 then 4 else 8;
      if off + len > |b| then None else Some((b[off..off + len], off + len))
  }

  /** Columns col.. of cantian_record_to_mysql_record; k counts the stored columns before col.
      None: the loop would read behind the record. */
  function DecodeFrom(table: seq<Column>, b: seq<byte>, maxCol: nat, col: nat, k: nat, off: nat): Option<seq<Value>>
    requires col <= |table| && |b| >= ROW_HEAD
    decreases |table| - col
  {
    if col == |table| || col > maxCol then Some([])
    else if table[col].isVirtual then
      Then(Untouched, DecodeFrom(table, b, maxCol, col + 1, k, off))
    else if k < ColumnCount(b) && BITMAP_AT + k / 4 >= |b| then None
    else
      var code := if k >= ColumnCount(b) then 0 else ColumnBits(b, k);
      if code == 0 then
        Then(if table[col].nullable then Null else Untouched, DecodeFrom(table, b, maxCol, col + 1, k + 1, off))
      else match ReadCell(b, off, code)
        case None => None
        case Some((p, next)) =>
          Then(Data(Restore(table[col].ty, p)), DecodeFrom(table, b, maxCol, col + 1, k + 1, next))
  }

  function Then(v: Value, rest: Option<seq<Value>>): Option<seq<Value>>
  {
    if rest.Some? then Some([v] + rest.value) else None
  }

  function FirstOffset(b: seq<byte>): nat
    requires |b| >= ROW_HEAD
  {
    Base(ColumnCount(b)) + if Migrated(b) then 8 else 0
  }

  /** Rows in compact stream format are refused, and so are sparse rows, which have no columns. */
  function Decode(table: seq<Column>, b: seq<byte>, maxCol: nat): Option<seq<Value>>
  {
    if |b| < ROW_HEAD || Compact(b) || ColumnCount(b) == 0 then None
    else DecodeFrom(table, b, maxCol, 0, 0, FirstOffset(b))
  }

  method DecodeRow(table: seq<Column>, b: seq<byte>, maxCol: nat) returns (r: Option<seq<Value>>)
    ensures r == Decode(table, b, maxCol)
  {
    hide ReadCell, Restore, Base, Digit;
    if |b| < ROW_HEAD || Compact(b) || ColumnCount(b) == 0 { return None; }
    var off, virtuals, col := FirstOffset(b), 0, 0;
    var values: seq<Value> := [];
    while col < |table|
      invariant col <= |table| && virtuals <= col
      invariant Decode(table, b, maxCol) == After(values, DecodeFrom(table, b, maxCol, col, col - virtuals, off))
    {
      if col > maxCol {
        assert values + [] == values;
        return Some(values);
      }
      ghost var done := values;
      if table[col].isVirtual {
        virtuals := virtuals + 1;
        values := values + [Untouched];
      } else {
        var k := col - virtuals;
        if k < ColumnCount(b) && BITMAP_AT + k / 4 >= |b| { return None; }
        var code := if k >= ColumnCount(b) then 0 else ColumnBits(b, k);
        if code == 0 {
          values := values + [if table[col].nullable then Null else Untouched];
        } else {
          var cell := ReadCell(b, off, code);
          if cell.None? { return None; }
          values := values + [Data(Restore(table[col].ty, cell.value.0))];
          off := cell.value.1;
        }
      }
      col := col + 1;
      AfterOne(done, values[|done|], DecodeFrom(table, b, maxCol, col, col - virtuals, off));
    }
    assert values + [] == values;
    return Some(values);
  }

  lemma AfterOne(done: seq<Value>, v: Value, rest: Option<seq<Value>>)
    ensures After(done, Then(v, rest)) == After(done + [v], rest)
  {
    assert [] + [v] == [v];
    if rest.Some? { assert done + ([v] + rest.value) == done + [v] + rest.value; }
  }

  function After(done: seq<Value>, rest: Option<seq<Value>>): Option<seq<Value>>
  {
    if rest.None? then None else if done == [] then rest else Some(done + rest.value)
  }

  // ----- migrated rows

  /** A row with other flags in its head; one that is marked as migrated has eight more bytes
      before its first column. */
  function Flagged(b: seq<byte>, flags: byte, moved: seq<byte>): seq<byte>
    requires |b| >= ROW_HEAD && Base(ColumnCount(b)) <= |b|
  {
    b[..Base(ColumnCount(b))][3 := flags] + moved + b[Base(ColumnCount(b))..]
  }

  lemma SameShifted(b: seq<byte>, b': seq<byte>, base: nat, n: nat, x: nat, y: nat)
    requires base <= x <= y <= |b| && |b'| == |b| + n && b'[base + n..] == b[base..]
    ensures b'[x + n..y + n] == b[x..y]
  {
    forall i | x <= i < y ensures b'[i + n] == b[i] {
      assert b'[base + n..][i - base] == b[base..][i - base];
    }
  }

  lemma ReadShifted(b: seq<byte>, b': seq<byte>, base: nat, n: nat, off: nat, code: nat)
    requires base <= off && base <= |b| && |b'| == |b| + n && b'[base + n..] == b[base..]
    ensures var r, r' := ReadCell(b, off, code), ReadCell(b', off + n, code);
            (r.None? <==> r'.None?) && (r.Some? ==> r'.value == (r.value.0, r.value.1 + n) && off <= r.value.1)
  {
    hide RoundUp4;
    if code == 3 && off + 2 <= |b| {
      SameShifted(b, b', base, n, off, off + 2);
      assert b[off..off + 2][0] == b[off] && b[off..off + 2][1] == b[off + 1];
      assert b'[off + n..off + 2 + n][0] == b'[off + n] && b'[off + n..off + 2 + n][1] == b'[off + n + 1];
    }
    var r := ReadCell(b, off, code);
    if r.Some? {
      var at := if code == 3 then off + 2 else off;
      SameShifted(b, b', base, n, at, at + |r.value.0|);
    }
  }

  lemma {:induction false} DecodeShifted(table: seq<Column>, b: seq<byte>, b': seq<byte>, n: nat, maxCol: nat, col: nat, k: nat, off: nat)
    requires col <= |table| && |b| >= ROW_HEAD && |b'| == |b| + n
    requires ColumnCount(b') == ColumnCount(b)
    requires var base := Base(ColumnCount(b));
             base <= off && base <= |b| && b'[BITMAP_AT..base] == b[BITMAP_AT..base] && b'[base + n..] == b[base..]
    ensures DecodeFrom(table, b', maxCol, col, k, off + n) == DecodeFrom(table, b, maxCol, col, k, off)
    decreases |table| - col
  {
    hide ReadCell, Restore, Digit, BitmapExtension, Then;
    if col < |table| && col <= maxCol {
      if table[col].isVirtual {
        DecodeShifted(table, b, b', n, maxCol, col + 1, k, off);
      } else {
        var code := 0;
        if k < ColumnCount(b) {
          BitmapRoom(k, ColumnCount(b));
          var base, at := Base(ColumnCount(b)), BITMAP_AT + k / 4;
          assert b'[at] == b'[BITMAP_AT..base][k / 4] == b[BITMAP_AT..base][k / 4] == b[at];
          code := ColumnBits(b, k);
        }
        ReadShifted(b, b', Base(ColumnCount(b)), n, off, code);
        var r := ReadCell(b, off, code);
        if code == 0 {
          DecodeShifted(table, b, b', n, maxCol, col + 1, k + 1, off);
        } else if r.Some? {
          DecodeShifted(table, b, b', n, maxCol, col + 1, k + 1, r.value.1);
        }
      }
    }
  }

  /** Any bytes decode as before when flags are set in the head, with eight bytes put in if the
      row becomes a migrated one. */
  lemma {:induction false} MigratedSame(table: seq<Column>, b: seq<byte>, flags: byte, moved: seq<byte>, maxCol: nat)
    requires |b| >= ROW_HEAD && Base(ColumnCount(b)) <= |b| && !Migrated(b) && !Compact(b)
    requires flags % 4 == b[3] % 4 && flags < 128 && |moved| == if flags / 16 % 2 == 1 then 8 else 0
    ensures Decode(table, Flagged(b, flags, moved), maxCol) == Decode(table, b, maxCol)
  {
    hide DecodeFrom, BitmapExtension;
    var b', base := Flagged(b, flags, moved), Base(ColumnCount(b));
    assert b'[2] == b[2] && b'[3] == flags;
    assert b'[BITMAP_AT..base] == b[BITMAP_AT..base] && b'[base + |moved|..] == b[base..];
    DecodeShifted(table, b, b', |moved|, maxCol, 0, 0, base);
  }

  // ----- the bytes of a column

  /** A stripped value is the value up to its last byte that is no padding. */
  lemma {:induction false} StripExact(p: seq<byte>, pad: byte)
    ensures var r := Strip(p, pad);
            && r <= p && (forall j :: |r| <= j < |p| ==> p[j] == pad) && (r != [] ==> r[|r| - 1] != pad)
  {
    if p != [] && p[|p| - 1] == pad { StripExact(p[..|p| - 1], pad); }
  }

  /** Column k of the record is v, its bytes being at the offset: NULL has bits 00 and no bytes,
      4 and 8 bytes have bits 01 and 10, and bits 11 tell of a length and that many bytes. A
      CHAR value is kept up to its last byte that is no padding. */
  predicate Stores(b: seq<byte>, k: nat, off: nat, ty: ColumnType, v: Value)
    requires BITMAP_AT + k / 4 < |b|
  {
    match v
    case Null => ColumnBits(b, k) == 0
    case Untouched => false
    case Data(p) =>
      match ty
      case Fixed4 => ColumnBits(b, k) == 1 && off + 4 <= |b| && b[off..off + 4] == p
      case Fixed8 => ColumnBits(b, k) == 2 && off + 8 <= |b| && b[off..off + 8] == p
      case Char(_, pad) =>
        && ColumnBits(b, k) == 3 && off + 2 <= |b|
        && var n: int := b[off] as int + 256 * b[off + 1] as int;
           && off + 2 + n <= |b| && n <= |p| && b[off + 2..off + 2 + n] == p[..n]
           && (forall j :: n <= j < |p| ==> p[j] == pad) && (n > 0 ==> p[n - 1] != pad)
      case _ =>
        && ColumnBits(b, k) == 3 && off + 2 + |p| <= |b|
        && b[off] as int + 256 * b[off + 1] as int == |p| && b[off + 2..off + 2 + |p|] == p
  }

  lemma CellStores(b: seq<byte>, k: nat, off: nat, c: Column, v: Value)
    requires BITMAP_AT + k / 4 < |b| && ValueOk(c, v) && !c.isVirtual
    requires ColumnBits(b, k) == CellOf(c, v).code && HoldsCell(b, off, CellOf(c, v))
    ensures Stores(b, k, off, c.ty, v)
  {
    hide ColumnBits;
    if v.Data? && c.ty.Char? { StripExact(v.bytes, c.ty.pad); }
  }

  /** Every stored column of a row is in its record, one behind the other. */
  ghost predicate StoresRow(b: seq<byte>, table: seq<Column>, row: seq<Value>)
    requires |row| <= |table|
  {
    var all := Cells(table, row, |row|);
    forall i :: 0 <= i < |row| && !table[i].isVirtual ==>
      var before := Cells(table, row, i);
      BITMAP_AT + |before| / 4 < |b| && Stores(b, |before|, Base(|all|) + Widths(before), table[i].ty, row[i])
  }

  lemma RecordStores(table: seq<Column>, row: seq<Value>, b: seq<byte>)
    requires RowOk(table, row) && IsRecord(b, Cells(table, row, |row|))
    ensures StoresRow(b, table, row)
  {
    hide Cells, Stores, Widths, BitmapExtension, ValueOk, CellOf, HoldsCells, HoldsCell;
    var all := Cells(table, row, |row|);
    forall i | 0 <= i < |row| && !table[i].isVirtual
      ensures var before := Cells(table, row, i);
              BITMAP_AT + |before| / 4 < |b| && Stores(b, |before|, Base(|all|) + Widths(before), table[i].ty, row[i])
    {
      var before := Cells(table, row, i);
      CellInRecord(table, row, i);
      CellAt(b, Base(|all|), all, |before|);
      CellStores(b, |before|, Base(|all|) + Widths(before), table[i], row[i]);
    }
  }

  // ----- the round trip

  lemma {:induction false} StripThenPad(p: seq<byte>, pad: byte)
    ensures Strip(p, pad) + Repeat(|p| - |Strip(p, pad)|, pad) == p
  {
    if p != [] && p[|p| - 1] == pad {
      var q := p[..|p| - 1];
      StripThenPad(q, pad);
      assert Repeat(|p| - |Strip(q, pad)|, pad) == Repeat(|q| - |Strip(q, pad)|, pad) + [pad];
      assert p == q + [pad];
    }
  }

  lemma ShrinkThenRestore(ty: ColumnType, p: seq<byte>)
    requires BytesOk(ty, p)
    ensures Restore(ty, Shrink(ty, p)) == p
  {
    if ty.Char? {
      StripThenPad(p, ty.pad);
    }
  }

  lemma ReadHeldCell(b: seq<byte>, off: nat, c: Cell)
    requires HoldsCell(b, off, c) && CellOk(c) && c.code != 0
    ensures ReadCell(b, off, c.code) == Some((c.payload, off + Width(c)))
  {
    hide RoundUp4, U16;
  }

  /** What decoding gives for column i of a table of which the record holds the first |row|
      columns: a column added to the table since then is NULL. */
  function Expected(table: seq<Column>, row: seq<Value>, i: nat): Value
    requires i < |table|
  {
    if table[i].isVirtual then Untouched
    else if i < |row| then row[i]
    else if table[i].nullable then Null else Untouched
  }

  function ExpectedFrom(table: seq<Column>, row: seq<Value>, maxCol: nat, col: nat): (r: seq<Value>)
    requires col <= |table|
    ensures |r| == if maxCol + 1 <= col then 0 else (if maxCol < |table| then maxCol + 1 else |table|) - col
    ensures forall i :: 0 <= i < |r| ==> r[i] == Expected(table, row, col + i)
    decreases |table| - col
  {
    if col == |table| || col > maxCol then []
    else [Expected(table, row, col)] + ExpectedFrom(table, row, maxCol, col + 1)
  }

  lemma {:induction false} DecodeAdded(table: seq<Column>, row: seq<Value>, b: seq<byte>, maxCol: nat,
                                       col: nat, k: nat, off: nat)
    requires |row| <= col <= |table| && |b| >= ROW_HEAD && ColumnCount(b) <= k
    ensures DecodeFrom(table, b, maxCol, col, k, off) == Some(ExpectedFrom(table, row, maxCol, col))
    decreases |table| - col
  {
    if col < |table| && col <= maxCol {
      DecodeAdded(table, row, b, maxCol, col + 1, if table[col].isVirtual then k else k + 1, off);
    }
  }

  /** Decoding from column col on, the earlier columns' cells being behind it. */
  function DecodeAt(table: seq<Column>, row: seq<Value>, b: seq<byte>, maxCol: nat, col: nat): Option<seq<Value>>
    requires col <= |row| <= |table| && |b| >= ROW_HEAD
  {
    var cs := Cells(table, row, col);
    DecodeFrom(table, b, maxCol, col, |cs|, FirstOffset(b) + Widths(cs))
  }

  lemma {:induction false} DecodeWritten(table: seq<Column>, row: seq<Value>, b: seq<byte>, maxCol: nat, col: nat)
    requires RowOk(table, row) && col <= |row| && IsRecord(b, Cells(table, row, |row|))
    requires |Cells(table, row, |row|)| < SPARSE_COLUMNS
    ensures DecodeAt(table, row, b, maxCol, col) == Some(ExpectedFrom(table, row, maxCol, col))
    decreases |row| - col
  {
    hide IsRecord, Cells, FirstOffset, DecodeFrom, ColumnCount, Widths, ValueOk;
    var cs := Cells(table, row, col);
    RecordCount(b, Cells(table, row, |row|));
    if col == |row| {
      DecodeAdded(table, row, b, maxCol, col, |cs|, FirstOffset(b) + Widths(cs));
    } else if col <= maxCol {
      DecodeWritten(table, row, b, maxCol, col + 1);
      hide DecodeAt;
      if table[col].isVirtual {
        VirtualColumn(table, row, b, maxCol, col);
      } else {
        StoredColumn(table, row, b, maxCol, col);
      }
    } else {
      NothingWanted(table, row, b, maxCol, col);
    }
  }

  lemma {:induction false} NothingWanted(table: seq<Column>, row: seq<Value>, b: seq<byte>, maxCol: nat, col: nat)
    requires maxCol < col <= |row| <= |table| && |b| >= ROW_HEAD
    ensures DecodeAt(table, row, b, maxCol, col) == Some([])
  {
  }

  lemma {:induction false} VirtualColumn(table: seq<Column>, row: seq<Value>, b: seq<byte>, maxCol: nat, col: nat)
    requires col < |row| <= |table| && |b| >= ROW_HEAD && col <= maxCol && table[col].isVirtual
    ensures DecodeAt(table, row, b, maxCol, col) == Then(Untouched, DecodeAt(table, row, b, maxCol, col + 1))
  {
    hide Widths;
  }

  lemma {:induction false} StoredColumn(table: seq<Column>, row: seq<Value>, b: seq<byte>, maxCol: nat, col: nat)
    requires col < |row| <= |table| && col <= maxCol && !table[col].isVirtual && ValueOk(table[col], row[col])
    requires |b| >= ROW_HEAD && IsRecord(b, Cells(table, row, |row|)) && |Cells(table, row, |row|)| < SPARSE_COLUMNS
    ensures DecodeAt(table, row, b, maxCol, col) == Then(row[col], DecodeAt(table, row, b, maxCol, col + 1))
  {
    hide IsRecord, Widths, Width, FirstOffset, CellOf, ReadCell, DecodeFrom, Cells, ColumnCount, ColumnBits, ValueOk, CellOk, HoldsCell;
    var cs, c, all := Cells(table, row, col), CellOf(table[col], row[col]), Cells(table, row, |row|);
    CellInRecord(table, row, col);
    RecordCell(b, all, |cs|);
    CellFits(table[col], row[col]);
    if c.code != 0 { ReadStored(b, all, |cs|); }
    DecodeColumn(table, b, maxCol, col, |cs|, FirstOffset(b) + Widths(cs), row[col]);
  }

  /** One pass of the decoding loop over a stored column whose bits and bytes are v's. */
  lemma {:induction false} DecodeColumn(table: seq<Column>, b: seq<byte>, maxCol: nat, col: nat, k: nat, off: nat, v: Value)
    requires col < |table| && col <= maxCol && !table[col].isVirtual && ValueOk(table[col], v)
    requires |b| >= ROW_HEAD && k < ColumnCount(b) && BITMAP_AT + k / 4 < |b|
    requires var c := CellOf(table[col], v);
             && ColumnBits(b, k) == c.code
             && (c.code != 0 ==> ReadCell(b, off, c.code) == Some((c.payload, off + Width(c))))
    ensures DecodeFrom(table, b, maxCol, col, k, off)
            == Then(v, DecodeFrom(table, b, maxCol, col + 1, k + 1, off + Width(CellOf(table[col], v))))
  {
    CellBack(table[col], v);
    hide ReadCell, Restore, ColumnBits, ColumnCount, CellOf, ValueOk, Width;
  }

  lemma RecordCount(b: seq<byte>, cs: seq<Cell>)
    requires IsRecord(b, cs)
    ensures |b| >= ROW_HEAD && !Compact(b) && (|cs| < SPARSE_COLUMNS ==> ColumnCount(b) == |cs|)
  {
    hide HoldsCells, HoldsBits, EncodedSize, Base, ColumnCount, Migrated, Compact, U16;
  }

  /** The record's bytes for a stored column, as the decoder reads them. */
  lemma ReadStored(b: seq<byte>, all: seq<Cell>, k: nat)
    requires IsRecord(b, all) && k < |all| < SPARSE_COLUMNS && CellOk(all[k]) && all[k].code != 0
    ensures |b| >= ROW_HEAD
    ensures var off := FirstOffset(b) + Widths(all[..k]);
            ReadCell(b, off, all[k].code) == Some((all[k].payload, off + Width(all[k])))
  {
    hide *;
    RecordCell(b, all, k);
    ReadHeldCell(b, FirstOffset(b) + Widths(all[..k]), all[k]);
  }

  lemma {:induction false} CellInRecord(table: seq<Column>, row: seq<Value>, col: nat)
    requires col < |row| <= |table| && !table[col].isVirtual
    ensures var cs, c, all := Cells(table, row, col), CellOf(table[col], row[col]), Cells(table, row, |row|);
            && |cs| < |all| && all[|cs|] == c && all[..|cs|] == cs
            && |Cells(table, row, col + 1)| == |cs| + 1 && Widths(Cells(table, row, col + 1)) == Widths(cs) + Width(c)
  {
    hide Widths, Width, CellOf;
    WidthsSnoc(Cells(table, row, col), CellOf(table[col], row[col]));
    CellsGrow(table, row, col + 1, |row|);
  }

  lemma RecordCell(b: seq<byte>, all: seq<Cell>, k: nat)
    requires IsRecord(b, all) && k < |all| < SPARSE_COLUMNS
    ensures |b| >= ROW_HEAD && ColumnCount(b) == |all| && BITMAP_AT + k / 4 < |b| && ColumnBits(b, k) == all[k].code
    ensures HoldsCell(b, FirstOffset(b) + Widths(all[..k]), all[k])
  {
    hide HoldsCells, HoldsCell, Widths, Digit, BitmapExtension, U16;
    CellAt(b, Base(|all|), all, k);
  }

  lemma CellBack(c: Column, v: Value)
    requires ValueOk(c, v) && !c.isVirtual
    ensures CellOf(c, v).code == 0 ==> v == Null && c.nullable && Width(CellOf(c, v)) == 0
    ensures CellOf(c, v).code != 0 ==> v.Data? && Restore(c.ty, CellOf(c, v).payload) == v.bytes
  {
    if v.Data? { ShrinkThenRestore(c.ty, v.bytes); }
  }

  /** Decoding an encoded row gives every stored column and NULL flag back, up to the bound,
      also when columns were added to the table since the row was written. */
  lemma {:induction false} RoundTrip(table: seq<Column>, row: seq<Value>, b: seq<byte>, maxCol: nat)
    requires RowOk(table, row) && 0 < |Cells(table, row, |row|)| < SPARSE_COLUMNS
    requires IsRecord(b, Cells(table, row, |row|))
    ensures var r := Decode(table, b, maxCol);
            && r.Some? && |r.value| == (if maxCol < |table| then maxCol + 1 else |table|)
            && forall i :: 0 <= i < |r.value| ==> r.value[i] == Expected(table, row, i)
  {
    hide IsRecord, DecodeFrom, FirstOffset, ValueOk, Compact, ColumnCount;
    RecordCount(b, Cells(table, row, |row|));
    DecodeWritten(table, row, b, maxCol, 0);
  }

  lemma RecordRoom(b: seq<byte>, cs: seq<Cell>)
    requires IsRecord(b, cs) && 0 < |cs| < SPARSE_COLUMNS
    ensures |b| >= ROW_HEAD && ColumnCount(b) == |cs| && Base(|cs|) <= |b| && !Migrated(b) && !Compact(b)
  {
    hide HoldsCells, HoldsCell, Widths, Digit, BitmapExtension, U16, Migrated, Compact;
    CellAt(b, Base(|cs|), cs, 0);
    HeldWithin(b, Base(|cs|) + Widths(cs[..0]), cs[0]);
  }

  lemma HeldWithin(b: seq<byte>, off: nat, c: Cell)
    requires HoldsCell(b, off, c)
    ensures off <= |b|
  {
  }

  /** A record that the engine has moved since it was written decodes as before, for every
      table and bound: its head is marked and the eight bytes before the first column are
      passed over. */
  lemma {:induction false} MigratedRecord(table: seq<Column>, cs: seq<Cell>, b: seq<byte>, flags: byte, moved: seq<byte>, maxCol: nat)
    requires IsRecord(b, cs) && 0 < |cs| < SPARSE_COLUMNS
    requires flags % 4 == b[3] % 4 && flags / 16 % 2 == 1 && flags < 128 && |moved| == 8
    ensures Base(|cs|) <= |b|
    ensures Decode(table, b[..Base(|cs|)][3 := flags] + moved + b[Base(|cs|)..], maxCol) == Decode(table, b, maxCol)
  {
    RecordRoom(b, cs);
    hide IsRecord, DecodeFrom, Decode, Base, ColumnCount, Migrated, Compact;
    MigratedSame(table, b, flags, moved, maxCol);
  }

  /** The highest bit of the head's flags means a row in compact stream format. */
  lemma CompactRefused(table: seq<Column>, b: seq<byte>, maxCol: nat)
    requires |b| >= ROW_HEAD && b[3] >= 128
    ensures Decode(table, b, maxCol) == None
  {
    assert b[3] / 128 == 1;
  }

  /** A row of a multiple of 1024 columns is taken for a sparse one and refused. */
  lemma SparseRefused(table: seq<Column>, cs: seq<Cell>, b: seq<byte>, maxCol: nat)
    requires IsRecord(b, cs) && |cs| % SPARSE_COLUMNS == 0
    ensures Decode(table, b, maxCol) == None
  {
  }

  /** A bounded decode of any bytes is the unbounded one cut behind the bound. */
  lemma {:induction false} BoundAgreesFrom(table: seq<Column>, b: seq<byte>, m: nat, col: nat, k: nat, off: nat)
    requires col <= |table| && |b| >= ROW_HEAD && DecodeFrom(table, b, |table|, col, k, off).Some?
    ensures var full, bounded := DecodeFrom(table, b, |table|, col, k, off), DecodeFrom(table, b, m, col, k, off);
            bounded.Some? && bounded.value <= full.value
            && |bounded.value| == (if m < col then 0 else if m < |table| then m + 1 - col else |table| - col)
    decreases |table| - col
  {
    if col < |table| && col <= m {
      if table[col].isVirtual {
        BoundAgreesFrom(table, b, m, col + 1, k, off);
      } else {
        var code := if k >= ColumnCount(b) then 0 else ColumnBits(b, k);
        var next := if code == 0 then off else ReadCell(b, off, code).value.1;
        BoundAgreesFrom(table, b, m, col + 1, k + 1, next);
      }
    }
  }

  lemma {:induction false} BoundAgrees(table: seq<Column>, b: seq<byte>, m: nat)
    requires Decode(table, b, |table|).Some?
    ensures var full, bounded := Decode(table, b, |table|), Decode(table, b, m);
            && bounded.Some? && bounded.value <= full.value
            && |bounded.value| == (if m < |table| then m + 1 else |table|)
  {
    BoundAgreesFrom(table, b, m, 0, 0, FirstOffset(b));
  }

  /** Writing a row into any buffer and reading it back. */
  method StoreAndLoad(table: seq<Column>, row: seq<Value>, buf: array<byte>, maxCol: nat) returns (r: seq<Value>)
    requires |row| == |table| && RowOk(table, row) && 0 < |Cells(table, row, |row|)| < SPARSE_COLUMNS
    requires EncodedSize(Cells(table, row, |row|)) <= buf.Length
    modifies buf
    ensures |r| == if maxCol < |table| then maxCol + 1 else |table|
    ensures forall i :: 0 <= i < |r| && !table[i].isVirtual ==> r[i] == row[i]
  {
    var _ := EncodeRow(table, row, buf);
    RoundTrip(table, row, buf[..], maxCol);
    var o := DecodeRow(table, buf[..], maxCol);
    r := o.value;
  }

  // ----- the size bound

  /** The length get_cantian_record_length reckons with. */
  function Declared(ty: ColumnType): nat
    requires TypeOk(ty)
  {
    match ty
    case Fixed4 => 4
    case Fixed8 => 8
    case VarChar(maxLen) => maxLen
    case Char(len, pad) => len
    case Enum(size) => size
    case Numeric(prec, scale) => DecimalBytes(prec, scale)
    case Lob => 44
  }

  /** The bytes it allows a column, kept in 16 bits. */
  function Budget(ty: ColumnType): nat
    requires TypeOk(ty)
  {
    if Code(ty) == 3 then RoundUp4(Declared(ty) + 2) % 65536 else Declared(ty)
  }

  /** The budget is the widest cell, except that a LOB gets 48 bytes, and a VARCHAR kept as one
      the space of all its bytes, less 65536 from 65531 bytes on. */
  lemma BudgetIs(ty: ColumnType)
    requires TypeOk(ty)
    ensures match ty
            case Lob => Budget(ty) == 48
            case VarChar(n) =>
              if n <= MAX_VARCHAR then Budget(ty) == Widest(ty)
              else Budget(ty) % 4 == 0 && n + 2 <= Budget(ty) + (if n > 65530 then 65536 else 0) < n + 6
            case _ => Budget(ty) == Widest(ty)
  {
    if ty.Numeric? { DecimalBytesBound(ty.prec, ty.scale); }
    hide RoundUp4, DecimalBytes;
    if Code(ty) == 3 { Wrapped(Declared(ty) + 2); }
    if ty.Lob? { RoundedLob(); }
  }

  lemma RoundedLob()
    ensures RoundUp4(46) == 48 && RoundUp4(MAX_LOCATOR + 2) == 4016
  {
  }

  lemma Wrapped(n: nat)
    requires n <= 65537
    ensures RoundUp4(n) == RoundUp4(n) % 65536 + (if n > 65532 then 65536 else 0)
    ensures RoundUp4(n) % 65536 % 4 == 0
  {
  }

  /** Two bytes of head and two for each group of four digits, before and behind the point. */
  lemma DecimalBytesAre(prec: nat, scale: nat, i: nat, f: nat)
    requires scale <= prec && 4 * i - 3 <= prec - scale <= 4 * i && 4 * f - 3 <= scale <= 4 * f
    ensures DecimalBytes(prec, scale) == 2 + 2 * i + 2 * f
  {
  }

  lemma DecimalBytesBound(prec: nat, scale: nat)
    requires scale <= prec <= 65
    ensures DecimalBytes(prec, scale) <= 40
  {
  }

  predicate TypesOk(table: seq<Column>) { forall i :: 0 <= i < |table| ==> TypeOk(table[i].ty) }

  function Budgets(table: seq<Column>, n: nat): nat
    requires n <= |table| && TypesOk(table)
  {
    if n == 0 then 0 else Budgets(table, n - 1) + Budget(table[n - 1].ty)
  }

  function RecordLength(table: seq<Column>): nat
    requires TypesOk(table)
  {
    Base(|table|) + Budgets(table, |table|)
  }

  /** LOB columns are budgeted as if always out of line, and the budget of a VARCHAR of more
      than 65530 bytes wraps around. */
  predicate BudgetSuffices(ty: ColumnType)
  {
    !ty.Lob? && (ty.VarChar? ==> ty.maxLen <= 65530)
  }

  /** The widest cell of a column. */
  function Widest(ty: ColumnType): nat
    requires TypeOk(ty)
  {
    if Code(ty) == 3 then RoundUp4(MaxBytes(ty) + 2) else MaxBytes(ty)
  }

  lemma CellAtMostWidest(ty: ColumnType, p: seq<byte>)
    requires BytesOk(ty, p)
    ensures Width(Cell(Code(ty), Shrink(ty, p))) <= Widest(ty)
  {
    RoundUpMonotone(|Shrink(ty, p)| + 2, MaxBytes(ty) + 2);
  }

  /** A value with the widest cell: full length, not ending in padding. */
  function WidestValue(ty: ColumnType): (p: seq<byte>)
    requires TypeOk(ty)
    ensures BytesOk(ty, p) && Width(Cell(Code(ty), Shrink(ty, p))) == Widest(ty)
  {
    Repeat(MaxBytes(ty), if ty.Char? && ty.pad == 0 then 1 else 0)
  }

  lemma WidestBudget(ty: ColumnType)
    requires TypeOk(ty)
    ensures BudgetSuffices(ty) <==> Widest(ty) <= Budget(ty)
  {
    hide RoundUp4, Budget, DecimalBytes;
    BudgetIs(ty);
    RoundedLob();
  }

  /** Every value of the column fits its budget exactly under that condition. */
  lemma ColumnBudget(ty: ColumnType)
    requires TypeOk(ty)
    ensures BudgetSuffices(ty)
        <==> forall p :: BytesOk(ty, p) ==> Width(Cell(Code(ty), Shrink(ty, p))) <= Budget(ty)
  {
    hide BytesOk, Width, Shrink, Widest, Budget, BudgetSuffices;
    WidestBudget(ty);
    forall p | BytesOk(ty, p) ensures Width(Cell(Code(ty), Shrink(ty, p))) <= Widest(ty) {
      CellAtMostWidest(ty, p);
    }
    assert BytesOk(ty, WidestValue(ty));
  }

  lemma RoundUpMonotone(m: nat, n: nat)
    requires m <= n
    ensures RoundUp4(m) <= RoundUp4(n)
  {
  }

  lemma BaseMonotone(m: nat, n: nat)
    requires m <= n
    ensures Base(m) <= Base(n)
  {
    if 12 < m {
      AlignMonotone(m - 12, n - 12);
      AlignMonotone(m - 4, n - 4);
      if m < SPARSE_COLUMNS <= n {
        AlignMonotone(m - 12, 1011);
        AlignMonotone(1020, n - 4);
      }
    }
  }

  lemma AlignMonotone(m: nat, n: nat)
    requires m <= n
    ensures Align16(m) / 4 <= Align16(n) / 4
  {
  }

  /** The widest cells of the stored columns among the first n. */
  function WidestSum(table: seq<Column>, n: nat): nat
    requires n <= |table| && TypesOk(table)
  {
    if n == 0 then 0
    else WidestSum(table, n - 1) + if table[n - 1].isVirtual then 0 else Widest(table[n - 1].ty)
  }

  function WidestRow(table: seq<Column>): (row: seq<Value>)
    requires TypesOk(table)
    ensures |row| == |table| && RowOk(table, row)
    ensures forall i :: 0 <= i < |table| ==> row[i] == Data(WidestValue(table[i].ty))
  {
    seq(|table|, i requires 0 <= i < |table| && TypesOk(table) => Data(WidestValue(table[i].ty)))
  }

  lemma {:induction false} WidthsAtMost(table: seq<Column>, row: seq<Value>, n: nat)
    requires n <= |row| == |table| && TypesOk(table) && RowOk(table, row)
    ensures Widths(Cells(table, row, n)) <= WidestSum(table, n)
  {
    hide Width, Widest, ValueOk, CellOf;
    if n > 0 {
      WidthsAtMost(table, row, n - 1);
      var c, v := table[n - 1], row[n - 1];
      if !c.isVirtual {
        WidthsSnoc(Cells(table, row, n - 1), CellOf(c, v));
        ValueAtMost(c, v);
      }
    }
  }

  lemma {:induction false} WidestRowStep(table: seq<Column>, n: nat)
    requires n < |table| && TypesOk(table)
    ensures var row := WidestRow(table);
            Widths(Cells(table, row, n + 1))
            == Widths(Cells(table, row, n)) + if table[n].isVirtual then 0 else Widest(table[n].ty)
  {
    hide Width, Widths, Widest, ValueOk, CellOf, WidestRow;
    var row, c := WidestRow(table), table[n];
    if !c.isVirtual {
      WidthsSnoc(Cells(table, row, n), CellOf(c, row[n]));
      ValueAtMost(c, row[n]);
    }
  }

  lemma {:induction false} WidestRowWidths(table: seq<Column>, n: nat)
    requires n <= |table| && TypesOk(table)
    ensures Widths(Cells(table, WidestRow(table), n)) == WidestSum(table, n)
  {
    hide Widest, RowOk, WidestRow;
    if n > 0 {
      hide Widths, Cells;
      WidestRowWidths(table, n - 1);
      WidestRowStep(table, n - 1);
    }
  }

  lemma ValueAtMost(c: Column, v: Value)
    requires ValueOk(c, v) && !c.isVirtual && TypeOk(c.ty)
    ensures Width(CellOf(c, v)) <= Widest(c.ty)
    ensures v == Data(WidestValue(c.ty)) ==> Width(CellOf(c, v)) == Widest(c.ty)
  {
    if v.Data? { CellAtMostWidest(c.ty, v.bytes); }
  }

  /** The size of the table's widest row. */
  function WidestSize(table: seq<Column>): nat
    requires TypesOk(table)
  {
    Base(StoredCount(table)) + WidestSum(table, |table|)
  }

  function StoredCount(table: seq<Column>): nat
  {
    VirtualsBound(table, |table|);
    |table| - Virtuals(table, |table|)
  }

  lemma {:induction false} VirtualsBound(table: seq<Column>, n: nat)
    requires n <= |table|
    ensures Virtuals(table, n) <= n
  {
    if n > 0 { VirtualsBound(table, n - 1); }
  }

  /** Every row of a table fits the record length if and only if its widest row does. */
  lemma {:induction false} RowsFitCondition(table: seq<Column>)
    requires TypesOk(table)
    ensures (forall row :: |row| == |table| && RowOk(table, row) ==>
               EncodedSize(Cells(table, row, |row|)) <= RecordLength(table))
       <==> WidestSize(table) <= RecordLength(table)
  {
    hide Widths, WidestSum, Base, Budgets, RowOk, Cells, WidestRow;
    forall row | |row| == |table| && RowOk(table, row)
      ensures EncodedSize(Cells(table, row, |row|)) <= WidestSize(table)
    {
      WidthsAtMost(table, row, |row|);
      CellCount(table, row, |row|);
    }
    var full := WidestRow(table);
    WidestRowWidths(table, |table|);
    CellCount(table, full, |table|);
    assert |full| == |table| && RowOk(table, full);
  }

  lemma {:induction false} WidestWithinBudgets(table: seq<Column>, n: nat)
    requires n <= |table| && TypesOk(table)
    requires forall i :: 0 <= i < |table| && !table[i].isVirtual ==> BudgetSuffices(table[i].ty)
    ensures WidestSum(table, n) <= Budgets(table, n)
  {
    hide Widest, Budget;
    if n > 0 {
      WidestWithinBudgets(table, n - 1);
      WidestBudget(table[n - 1].ty);
    }
  }

  /** Without LOB columns and without such wide VARCHARs every row fits the record length. */
  lemma {:induction false} RowFits(table: seq<Column>, row: seq<Value>)
    requires |row| == |table| && TypesOk(table) && RowOk(table, row)
    requires forall i :: 0 <= i < |table| && !table[i].isVirtual ==> BudgetSuffices(table[i].ty)
    ensures EncodedSize(Cells(table, row, |row|)) <= RecordLength(table)
  {
    hide Widths, WidestSum, Base, Budgets, RowOk, Cells, BudgetSuffices;
    WidestWithinBudgets(table, |table|);
    BaseMonotone(StoredCount(table), |table|);
    RowsFitCondition(table);
  }

  /** A one-column VARCHAR table of 65532 bytes gets a record length that holds the head only. */
  lemma WideVarcharOverflows(p: seq<byte>)
    requires 0 < |p| <= MAX_LOCATOR
    ensures var table := [Column(VarChar(65532), false, false, false)];
            && TypesOk(table) && RowOk(table, [Data(p)]) && RecordLength(table) == ROW_HEAD
            && EncodedSize(Cells(table, [Data(p)], 1)) > RecordLength(table)
  {
    var table, row, c := [Column(VarChar(65532), false, false, false)], [Data(p)], Cell(3, p);
    assert Cells(table, row, 0) == [];
    assert Cells(table, row, 1) == [] + [c];
    WidthsSnoc([], c);
    assert Budgets(table, 0) == 0;
    assert Budgets(table, 1) == 0;
  }

  /** The bytes of a DECIMAL(prec, scale) value, header and cells (cm_dec4_stor_sz), are
      within what the column declares. */
  method DecimalPayload(m: DecimalDigits.MyDecimal, prec: nat, scale: nat) returns (size: nat)
    requires TypeOk(Numeric(prec, scale)) && m.WellFormed() && m.intg == prec - scale && m.frac == scale
    ensures 2 <= size <= DecimalBytes(prec, scale)
  {
    DecimalDigits.ColumnFits(m, prec, scale);
    var d := DecimalDigits.MyDecimalToDec4(m);
    size := 2 * (1 + |d.cells|);
  }

  method ComputeRecordLength(table: seq<Column>) returns (total: nat)
    requires TypesOk(table)
    ensures total == RecordLength(table)
  {
    total := Base(|table|);
    for i := 0 to |table|
      invariant total == Base(|table|) + Budgets(table, i)
    {
      total := total + Budget(table[i].ty);
    }
  }

  // ----- column numbers

  /** The table columns that are stored, in order: the engine's column k is the k-th. */
  function StoredColumns(table: seq<Column>, n: nat): (r: seq<nat>)
    requires n <= |table|
    ensures |r| + Virtuals(table, n) == n
    ensures forall k :: 0 <= k < |r| ==> r[k] < n && !table[r[k]].isVirtual
  {
    if n == 0 then []
    else if table[n - 1].isVirtual then StoredColumns(table, n - 1)
    else StoredColumns(table, n - 1) + [n - 1]
  }

  lemma {:induction false} StoredRank(table: seq<Column>, c: nat, n: nat)
    requires c < n <= |table| && !table[c].isVirtual
    ensures 0 <= c - Virtuals(table, c) < |StoredColumns(table, n)|
    ensures StoredColumns(table, n)[c - Virtuals(table, c)] == c
  {
    assert |StoredColumns(table, n - 1)| + Virtuals(table, n - 1) == n - 1;
    if c < n - 1 { StoredRank(table, c, n - 1); }
  }

  /** Column k of the record is stored column k of the table. */
  lemma {:induction false} CellsAreStored(table: seq<Column>, row: seq<Value>, n: nat)
    requires n <= |row| <= |table|
    ensures var cs, ids := Cells(table, row, n), StoredColumns(table, n);
            |cs| == |ids| && forall k :: 0 <= k < |cs| ==> cs[k] == CellOf(table[ids[k]], row[ids[k]])
  {
    hide CellOf;
    if n > 0 {
      CellsAreStored(table, row, n - 1);
      var cs, ids := Cells(table, row, n), StoredColumns(table, n);
      CellCount(table, row, n);
      forall k | 0 <= k < |cs| ensures cs[k] == CellOf(table[ids[k]], row[ids[k]]) {
        if k < |Cells(table, row, n - 1)| {
          assert cs[k] == Cells(table, row, n - 1)[k] && ids[k] == StoredColumns(table, n - 1)[k];
        }
      }
    }
  }

  function Kept(table: seq<Column>, fields: seq<nat>): (r: seq<nat>)
    requires forall i :: 0 <= i < |fields| ==> fields[i] < |table|
  {
    if fields == [] then []
    else
      var n := |fields| - 1;
      Kept(table, fields[..n]) + if table[fields[n]].isVirtual then [] else [fields[n]]
  }

  /** The numbers r are the places of the columns cs among the stored ones. */
  ghost predicate PlacesOf(r: seq<nat>, cs: seq<nat>, ids: seq<nat>)
  {
    |r| == |cs| && forall j :: 0 <= j < |r| ==> r[j] < |ids| && ids[r[j]] == cs[j]
  }

  lemma KeptStep(table: seq<Column>, fields: seq<nat>, i: nat)
    requires i < |fields| && forall j :: 0 <= j < |fields| ==> fields[j] < |table|
    ensures Kept(table, fields[..i + 1])
         == if table[fields[i]].isVirtual then Kept(table, fields[..i]) else Kept(table, fields[..i]) + [fields[i]]
  {
    assert fields[..i + 1][..i] == fields[..i];
  }

  /** The update path's field list: virtual columns are erased from it in place and the others
      get the engine's column numbers. */
  method RenumberFields(table: seq<Column>, fields: seq<nat>) returns (r: seq<nat>)
    requires forall i :: 0 <= i < |fields| ==> fields[i] < |table|
    ensures PlacesOf(r, Kept(table, fields), StoredColumns(table, |table|))
  {
    hide Kept, StoredColumns, Virtuals;
    r := fields;
    var n, cnt := |r|, 0;
    ghost var seen := 0;
    NothingKept(table, fields);
    while cnt < n
      invariant 0 <= cnt <= n == |r| && seen + (n - cnt) == |fields|
      invariant r[cnt..] == fields[seen..]
      invariant PlacesOf(r[..cnt], Kept(table, fields[..seen]), StoredColumns(table, |table|))
      decreases n - cnt
    {
      var f: nat := r[cnt];
      assert f == r[cnt..][0] == fields[seen] && r[cnt + 1..] == fields[seen + 1..];
      KeptStep(table, fields, seen);
      if table[f].isVirtual {
        ghost var done := r[..cnt];
        r := r[..cnt] + r[cnt + 1..];
        assert r[..cnt] == done;
        n := n - 1;
      } else {
        StoredRank(table, f, |table|);
        var before := CountVirtuals(table, f);
        ghost var done := r[..cnt];
        r := r[cnt := f - before];
        assert r[..cnt + 1] == done + [f - before];
        cnt := cnt + 1;
      }
      seen := seen + 1;
    }
    assert fields[..seen] == fields && r[..cnt] == r;
  }

  lemma NothingKept(table: seq<Column>, fields: seq<nat>)
    requires forall i :: 0 <= i < |fields| ==> fields[i] < |table|
    ensures Kept(table, fields[..0]) == []
  {
  }

  /** The generated columns before column n, of either kind. */
  function Generated(table: seq<Column>, n: nat): nat
    requires n <= |table|
  {
    if n == 0 then 0
    else Generated(table, n - 1) + if table[n - 1].isVirtual || table[n - 1].isStoredGenerated then 1 else 0
  }

  /** The number a pushed condition gives the engine for column c. */
  method PushedColumnNumber(table: seq<Column>, c: nat) returns (k: int)
    requires c < |table|
    ensures k == c - Generated(table, c)
  {
    var generated := 0;
    for i := 0 to c
      invariant generated == Generated(table, i)
    {
      if table[i].isVirtual || table[i].isStoredGenerated { generated := generated + 1; }
    }
    k := c - generated;
  }

  lemma {:induction false} GeneratedAndVirtual(table: seq<Column>, n: nat)
    requires n <= |table|
    ensures Virtuals(table, n) <= Generated(table, n) <= n
    ensures Virtuals(table, n) == Generated(table, n)
        <==> forall i :: 0 <= i < n ==> table[i].isVirtual || !table[i].isStoredGenerated
  {
    if n > 0 { GeneratedAndVirtual(table, n - 1); }
  }

  lemma {:induction false} StoredOnce(table: seq<Column>, n: nat, j: nat, k: nat)
    requires n <= |table| && j < k < |StoredColumns(table, n)|
    ensures StoredColumns(table, n)[j] < StoredColumns(table, n)[k]
  {
    if table[n - 1].isVirtual || k < |StoredColumns(table, n)| - 1 {
      StoredOnce(table, n - 1, j, k);
    } else {
      assert StoredColumns(table, n)[j] == StoredColumns(table, n - 1)[j];
    }
  }

  /** It is the column's place in the row exactly when no stored generated column precedes it. */
  lemma {:induction false} PushedColumnCondition(table: seq<Column>, c: nat)
    requires c < |table| && !table[c].isVirtual
    ensures var k, ids := c - Generated(table, c), StoredColumns(table, |table|);
            (0 <= k < |ids| && ids[k] == c)
            <==> forall i :: 0 <= i < c ==> table[i].isVirtual || !table[i].isStoredGenerated
  {
    GeneratedAndVirtual(table, c);
    StoredRank(table, c, |table|);
    var k, r := c - Generated(table, c), c - Virtuals(table, c);
    if 0 <= k < r {
      StoredOnce(table, |table|, k, r);
    }
  }

  /** Behind one stored generated column, a condition on the second column asks for the first. */
  lemma PushedColumnMisses(ty: ColumnType)
    ensures var table := [Column(ty, true, false, true), Column(ty, true, false, false)];
            StoredColumns(table, 2) == [0, 1] && 1 - Generated(table, 1) == 0
  {
    var table := [Column(ty, true, false, true), Column(ty, true, false, false)];
    assert StoredColumns(table, 0) == [] && StoredColumns(table, 1) == [0];
    assert Generated(table, 0) == 0;
  }
}
