# A verified model of the CTC storage-engine connector

The connector stores MySQL tables in the Cantian engine. It translates between two record
formats, two decimal formats and two calendars, hands part of a WHERE clause to the engine,
reads rows through caches and parallel workers, and keeps the other nodes' dictionary caches
in step. This project models those parts in Dafny and proves what they promise.

| file | models |
|---|---|
| `Basics.dfy` | the option type and bytes |
| `Radix.dfy` | numbers written in cells around a point; the canonical form is unique |
| `DecimalDigits.dfy` | `my_decimal` to `dec4` and back, through the digit array |
| `DecimalRepack.dfy` | `dec4` to `dec8` and back |
| `DecimalText.dfy` | decimal texts: what they denote, the parser, the plain-text printer |
| `Calendar.dfy` | the date codec against the proleptic Gregorian calendar of section 3.2.1 of ISO 8601:2004 |
| `RowCodec.dfy` | the row format: bitmap, fixed and variable columns, NULLs, virtual columns, sizes |
| `Pushdown.dfy` | splitting a condition, its meaning in three-valued logic, its serialisation |
| `PushGrammar.dfy` | which conditions are pushed, as a grammar, and how strong the pushed part, the remainder and the serialised tree are |
| `CondTree.dfy` | the buffers of a serialised condition under allocation failure |
| `Prefetch.dfy` | the two-level read cache behind `rnd_next` and `index_fetch` |
| `ParallelScan.dfy`, `ThreadBudget.dfy` | the parallel reader as a state machine, and its thread budget |
| `Histogram.dfy` | selectivity from a frequency histogram |
| `CursorLedger.dfy` | the session's cursors and the arrays in which they are freed |
| `Invalidation.dfy` | batching, decoding and applying dictionary invalidations |

`dafny verify dfyconfig.toml` checks the whole project with Dafny 4.11.

## How the proofs are organised

Each operation that works in place is a method with its loops, proved against a value that is
defined without it: a sum of cells times powers of ten, a calendar counted day by day, the
cursor's remaining rows, a multiset of rows over the whole system, the fraction of rows in an
interval. The main results are about all inputs, all interleavings or all runs.

- The decimal conversions are read through `Radix.CellSum`, the weighted sum of cells.
  `Radix.CanonicalUnique` says a canonical decimal is determined by its value, which turns
  every preserved value into a round trip.
- The text parser is proved against `DecimalText.Denotes`, which reads a text digit by digit
  without limits; printing and parsing meet in `DecimalText.PrintThenParse`.
- What is pushed is proved twice over: `Pushdown.PushdownSound` says that the split means the
  same as the condition, whatever the guards, and `PushGrammar` says which conditions pass
  the guards, without naming one, and that no more is kept back than that. Conditions are read
  in SQL's three-valued logic (`PushGrammar.ComparisonReads`, `PushGrammar.JunctionReads`).
- The parallel reader's steps are the critical sections of its mutexes. `ParallelScan.EveryRun`
  and `ParallelScan.AllDelivered` hold for every interleaving of any number of callers.

## What the code turned out to do

- The comment in the guard for `XOR`, and the checks it returns before, are about `XOR` of
  comparisons. Those are never pushed, since a comparison is refused below a function, but
  `XOR` of two values is: `Pushdown.XorPushed` gives the exact condition,
  `Pushdown.XorOfColumnIsPushed` an instance.
- The guard that weakens `<` and `<>` against a DATE literal asks for some part of the time of
  day to be zero. For date literals as the server builds them no row is lost
  (`Pushdown.NoRowLost`); for a DATE value that carries a time of day,
  `Pushdown.DateClockCondition` says exactly when one is.
- The parser's rounding can never happen: 72 significant digits are refused before it would.
  With 66 to 71 digits the zeros appended to reach a cell boundary may go beyond the 72-byte
  digit buffer; `DecimalText.TextToDec8` says exactly when (`Overrun`), and
  `DecimalText.LongTextOverruns` gives a text.
- A zero such as `0e100000000` is refused, since its exponent is checked before its digits,
  while `0e999999990` is zero: an exponent stops growing at 99999999.
  `DecimalText.RefusedExponent` is the exact condition, `DecimalText.HugeZeroRefused` and
  `DecimalText.LargerZeroAccepted` are the instances.
- `get_cantian_record_length` keeps a column's length in 16 bits, so a VARCHAR of 65531 bytes
  or more counts as nearly nothing: `RowCodec.RowsFitCondition` says exactly for which tables
  every row fits, `RowCodec.ColumnBudget` which columns are safe in any table, and
  `RowCodec.WideVarcharOverflows` is an instance.
- A pushed condition numbers a column by leaving out all generated columns before it, the row
  format only the virtual ones. `RowCodec.PushedColumnCondition` says when the two agree,
  `RowCodec.PushedColumnMisses` gives a table on which they do not.
- The broadcast buffer is not initialised, and a name of 127 bytes is not terminated in the
  first batch unless the untouched byte happens to be zero. Longer names are cut, and are read
  back only when the bytes behind the cut happen to continue them, and never for sure as second
  name, where the read leaves the receiver's block: `Invalidation.FieldCarried` and
  `Invalidation.WireReadBack` say exactly when a name of any length is read back whatever lies
  behind that block.
- A second `deinitialize` gives the same threads back again: `ThreadBudget.ReleaseCondition`,
  `ThreadBudget.DoubleRelease`.
- Where two keys of an index range cover different numbers of columns, the shorter one's end is
  taken as closed although it may be open (`a >= 1 AND a < 3 AND b >= 5`), and an open longer key
  is open on its inner columns too: `Histogram.BoundaryCondition` says exactly, for all keys the
  server can give, when each column gets the types of end that the keys state;
  `Histogram.OpenShorterKey` is an instance. Behind a virtual column of an index the keys are
  read at the wrong place (`Histogram.OffsetCondition`).
- A date function that is pushed becomes a constant, evaluated once when the condition is
  pushed, even if it depends on a column. Comparisons let only literals through
  (`Pushdown.ComparisonDates`), but `XOR` does not look at its operands: a date function of a
  column XOR 0 is pushed and can lose rows (`Pushdown.DateXorZeroLoses`). `Pushdown.XorKept` and
  `Pushdown.XorDateCondition` say exactly which pushed XORs keep every row.
- A `dec4` of 18 cells with an even exponent needs ten cells of eight digits, one more than there
  are: `DecimalRepack.Cells8Condition`. No DECIMAL column has such a value
  (`DecimalRepack.ColumnToDec8`).
- A zero loses its sign in the 4/8 repacking (`DecimalRepack.Unsigned0`), and the test of
  `dec4->cells` against 0 compares an address, so zero is handled by `ncells` alone.

## Model

| member | source | states |
|---|---|---|
| Radix.CanonicalUnique | storage/ctc/decimal_convert.h:121-152 | two decimals in the engine's canonical form (cells below the radix, first and last nonzero) with the same magnitude have the same exponent and cells |
| Radix.CanonicalZero | storage/ctc/decimal_convert.h:121-152 | a canonical decimal is nonnegative in magnitude and is zero exactly when it has no cells |
| Radix.CellSumIsScaled | storage/ctc/decimal_convert.h:121-152 | the sum of cells[i] times the radix to the expn - i is the number the cells spell, scaled by the last cell's weight |
| DecimalDigits.RecordDigital | storage/ctc/datatype_cnvrtr.cc:362-371 | a value is written as step digits that spell it, and no other digit changes |
| DecimalDigits.RestoreDigital | storage/ctc/datatype_cnvrtr.cc:373-388 | the number spelled by the digits from start to end, padded on the right to step digits |
| DecimalDigits.MyDecimalToDigital | storage/ctc/datatype_cnvrtr.cc:390-417 | the digit array and the three positions describe the same value, with no superfluous zero at either end |
| DecimalDigits.DigitalToDec4 | storage/ctc/datatype_cnvrtr.cc:419-470 | the cells grouped around the point are canonical and keep the value, and no more are used than each side of the point needs |
| DecimalDigits.Dec4ToDigital | storage/ctc/datatype_cnvrtr.cc:472-507 | the digits of a canonical dec4 keep its value, with leading and trailing zeros trimmed |
| DecimalDigits.DigitalToMyDecimal | storage/ctc/datatype_cnvrtr.cc:509-540 | words below 10^9, integer part right-aligned and fraction left-aligned on the point, same value |
| DecimalDigits.ColumnFits | storage/ctc/datatype_cnvrtr.cc:1525-1540 | a DECIMAL of precision at most 65 and scale at most 30 fits both representations |
| DecimalDigits.MyDecimalToDec4 | storage/ctc/datatype_cnvrtr.cc:542-548 | the dec4 has the same sign and exactly the same value, is canonical, and has at most ceil(intg/4) + ceil(frac/4) cells |
| DecimalDigits.Dec4ToMyDecimal | storage/ctc/datatype_cnvrtr.cc:550-556 | same sign and value, well-formed words, no leading integer zero and no trailing fraction zero |
| DecimalDigits.Dec4RoundTrip | storage/ctc/datatype_cnvrtr.cc:542-556 | a canonical dec4 survives a trip through my_decimal unchanged |
| DecimalDigits.MyDecimalRoundTrip | storage/ctc/datatype_cnvrtr.cc:542-556 | a my_decimal comes back with the same sign and value in normal form |
| DecimalRepack.Dec4To8 | storage/ctc/decimal_convert.h:296-326 | the value is kept for odd, even, negative and nonnegative exponents, the result is canonical and its number of cells is exact; it leaves its nine cells if and only if more are needed |
| DecimalRepack.Cells8Condition | storage/ctc/decimal_convert.h:296-326 | of the decimals dec4 can hold, exactly those of 18 cells and an even exponent need ten cells |
| DecimalRepack.ColumnToDec8 | storage/ctc/decimal_convert.h:296-326 | every value of a DECIMAL column fits nine cells and keeps its value |
| DecimalRepack.Dec8To4 | storage/ctc/decimal_convert.h:327-356 | the value is kept, the result is canonical and fits 18 cells and the 8-bit exponent |
| DecimalRepack.RepackRoundTrip4 | storage/ctc/decimal_convert.h:296-356 | dec4 to dec8 to dec4 is the identity, up to the sign of zero |
| DecimalRepack.RepackRoundTrip8 | storage/ctc/decimal_convert.h:296-356 | dec8 to dec4 to dec8 is the identity, up to the sign of zero |
| DecimalText.ParseExponent | storage/ctc/decimal_convert.cc:162-202 | an exponent is refused if and only if its syntax is bad or it has nine digits or more of which the first eight are not all nines; otherwise it agrees with the number written unless both are beyond 99999999 |
| DecimalText.RecordDigit | storage/ctc/decimal_convert.cc:118-138 | the scan state keeps describing all significant digits read, of which 72 are stored |
| DecimalText.ScanMantissa | storage/ctc/decimal_convert.cc:255-310 | for every text, refusal exactly where the mantissa denotes nothing or is given up, otherwise the digits and the exponent of the first significant one |
| DecimalText.SplitNumText | storage/ctc/decimal_convert.cc:219-310 | as above with sign, blanks and length limits |
| DecimalText.TrimIs | storage/ctc/decimal_convert.h:225-260 | what is left of a text is what its blanks surround, blanks being the characters up to the space |
| DecimalText.BlanksIgnored | storage/ctc/decimal_convert.cc:241-243 | any blanks around any text leave what it denotes unchanged |
| DecimalText.SignRead | storage/ctc/decimal_convert.cc:246-254 | before a text without a sign, `+` changes nothing and `-` makes the number negative |
| DecimalText.DigitsToCells | storage/ctc/decimal_convert.cc:313-336 | cells of eight digits with the digits' value at every exponent, first and last nonzero |
| DecimalText.DigitsToDec8 | storage/ctc/decimal_convert.cc:345-367 | the canonical dec8 whose value is the digits' number at its exponent; the exact condition under which padding leaves the buffer |
| DecimalText.PartToDec8 | storage/ctc/decimal_convert.cc:385-405 | overflow above exponent 127, zero below -127, exact in between; the rounding branch is dead |
| DecimalText.TextToDec8 | storage/ctc/decimal_convert.cc:59-74 | for every text: refused, zero, beyond the digit buffer, or canonical and exactly the number the text denotes, each under its exact condition |
| DecimalText.HugeZeroRefused | storage/ctc/decimal_convert.cc:186-200 | `0e100000000` denotes zero and is refused |
| DecimalText.LargerZeroAccepted | storage/ctc/decimal_convert.cc:186-200 | `0e999999990` is zero |
| DecimalText.LongTextOverruns | storage/ctc/decimal_convert.cc:353-362 | a text of 66 digits whose padding leaves the buffer |
| DecimalText.SciBrackets | storage/ctc/decimal_convert.cc:204-218 | the scientific exponent places the number between two consecutive powers of ten |
| DecimalText.NoOverrun | storage/ctc/decimal_convert.cc:345-362 | texts of at most 65 significant digits never leave the digit buffer |
| DecimalText.CountsDigits | storage/ctc/decimal_convert.h:261-273 | the binary search counts the decimal digits of every 32-bit number |
| DecimalText.CalcPrec | storage/ctc/decimal_convert.cc:83-115 | the number of significant digits of the cells without trailing zeros |
| DecimalText.CellsToText | storage/ctc/decimal_convert.cc:421-448 | the first digits of the cells up to the limit, trailing zeros dropped |
| DecimalText.PrintedValue | storage/ctc/decimal_convert.cc:83-115 | the significand is nonempty and, at the point, has exactly the decimal's value |
| DecimalText.PlainText | storage/ctc/decimal_convert.cc:648-722 | where nothing must be rounded: sign, digits, point and zeros in their places |
| DecimalText.Dec8ToText | storage/ctc/decimal_convert.cc:730-756 | a decimal whose plain form fits is printed in that form, and the scientific form always fails |
| DecimalText.PlainDenotes | storage/ctc/decimal_convert.cc:648-722 | the plain form denotes its digits at its point |
| DecimalText.PrintThenParse | storage/ctc/decimal_convert.cc:59-74 | parsing the printed text gives the same sign, exponent and cells back exactly when fewer than 72 digits are shown, and is refused otherwise |
| Calendar.MonthTable | storage/ctc/datatype_cnvrtr.cc:59-64 | the twelve months of every year, with the Gregorian leap rule |
| Calendar.YearStartClosedForm | storage/ctc/datatype_cnvrtr.cc:287-291 | the closed form is the number of days of all earlier years |
| Calendar.DayNumberFollowsCalendar | storage/ctc/datatype_cnvrtr.cc:293-311 | the next calendar day has the next day number |
| Calendar.EpochIsZero | storage/ctc/datatype_cnvrtr.cc:43-43 | on 2000-01-01 the encoding is the time of day |
| Calendar.TotalDays | storage/ctc/datatype_cnvrtr.cc:293-311 | the day number relative to the base day |
| Calendar.EncodeDate | storage/ctc/datatype_cnvrtr.cc:316-349 | the timestamp counted from the calendar, and the sentinel for the all-zero date |
| Calendar.DecodeLeap | storage/ctc/datatype_cnvrtr.cc:171-201 | peeling 400-, 100-, 4- and 1-year blocks finds the year in which the day lies |
| Calendar.DecodeDays | storage/ctc/datatype_cnvrtr.cc:261-283 | the valid date with that day number |
| Calendar.DecodeDate | storage/ctc/datatype_cnvrtr.cc:221-284 | the valid date and time with that timestamp, for every microsecond of the years 1 to 9999 |
| Calendar.EarlierIsSmaller | storage/ctc/datatype_cnvrtr.cc:316-349 | encoding is strictly increasing in calendar order |
| Calendar.TimestampInjective | storage/ctc/datatype_cnvrtr.cc:316-349 | different valid dates have different encodings |
| Calendar.TimestampRange | storage/ctc/datatype_cnvrtr.h:67-67 | the encoding's range, which no valid date leaves and the all-zero sentinel is outside of |
| Calendar.SentinelIsYearZero | storage/ctc/datatype_cnvrtr.h:67-67 | the all-zero sentinel is where the year 0 would begin |
| Calendar.DecodeAfterEncode | storage/ctc/datatype_cnvrtr.cc:221-349 | decoding inverts encoding |
| Calendar.EncodeAfterDecode | storage/ctc/datatype_cnvrtr.cc:221-349 | encoding inverts decoding |
| RowCodec.BitmapExtension | storage/ctc/datatype_cnvrtr.cc:824-831 | below 1024 columns the extension leaves room for every column's two bits |
| RowCodec.BitmapLeast | storage/ctc/datatype_cnvrtr.cc:824-831 | for every number of columns no smaller extension in steps of four bytes has room, beside twelve columns in the head below 1024 and four from there on |
| RowCodec.SetColumnBits | storage/ctc/datatype_cnvrtr.cc:797-811 | the column's two bits are set whatever they were, and no other column's change |
| RowCodec.CountVirtuals | storage/ctc/datatype_cnvrtr.cc:833-842 | the number of virtual columns before a column |
| RowCodec.AppendCell | storage/ctc/datatype_cnvrtr.cc:1735-1766 | one pass of the column loop extends the record by one column |
| RowCodec.EncodeRow | storage/ctc/datatype_cnvrtr.cc:1682-1774 | in any buffer and for any number of columns, a record holding every stored column, its column count in 10 bits, its size in 16 and no flags: NULL as bits 00, 4 and 8 bytes under bits 01 and 10, anything else under bits 11 as a length and its bytes, a CHAR up to its last byte that is no padding; nothing behind the record is written |
| RowCodec.StripExact | storage/ctc/datatype_cnvrtr.cc:1515-1524 | a CHAR value loses exactly its trailing padding: what is kept is a prefix that does not end in padding, and the rest is all padding |
| RowCodec.RecordStores | storage/ctc/datatype_cnvrtr.cc:1515-1766 | column by column, the bits and bytes that any record of a row holds |
| RowCodec.DecodeRow | storage/ctc/datatype_cnvrtr.cc:2006-2061 | the decoding loop computes the specified value of any bytes, refusing compact and sparse rows |
| RowCodec.MigratedSame | storage/ctc/datatype_cnvrtr.cc:2030-2037 | for any bytes, table and bound: setting flags in the head, and putting eight bytes before the first column if the row becomes a migrated one, changes nothing in what is decoded |
| RowCodec.MigratedRecord | storage/ctc/datatype_cnvrtr.cc:2030-2037 | a record with the migration flag set and any eight bytes inserted behind its bitmap decodes as before |
| RowCodec.ShrinkThenRestore | storage/ctc/datatype_cnvrtr.cc:1837-1860 | CHAR padding stripped on the way in is restored on the way out |
| RowCodec.RoundTrip | storage/ctc/datatype_cnvrtr.cc:1682-2061 | decoding an encoded row restores every stored column and its NULL flag, for any mix of columns, up to any bound, and gives NULL for columns added since |
| RowCodec.CompactRefused | storage/ctc/datatype_cnvrtr.cc:2017-2020 | a row with the flag of the compact stream format is refused |
| RowCodec.SparseRefused | storage/ctc/datatype_cnvrtr.cc:2022-2025 | a row of a multiple of 1024 columns is refused by the decoder |
| RowCodec.StoreAndLoad | storage/ctc/datatype_cnvrtr.cc:1682-2061 | writing a row into any buffer and reading it back |
| RowCodec.BoundAgrees | storage/ctc/datatype_cnvrtr.cc:2042-2046 | for any bytes, a bounded decode is the full one cut behind the bound |
| RowCodec.ComputeRecordLength | storage/ctc/datatype_cnvrtr.cc:2115-2169 | the record length is the head, the bitmap and every column's 16-bit budget |
| RowCodec.BudgetIs | storage/ctc/datatype_cnvrtr.cc:2122-2164 | a column is allowed its widest cell, a LOB 48 bytes, and a VARCHAR above 8000 bytes all of them, less 65536 from 65531 bytes on |
| RowCodec.DecimalBytesAre | storage/ctc/datatype_cnvrtr.cc:2147-2155 | a DECIMAL declares two bytes and two for each group of four digits on either side of the point |
| RowCodec.ColumnBudget | storage/ctc/datatype_cnvrtr.cc:2115-2169 | every value of a column fits its budget if and only if it is no LOB and no VARCHAR above 65530 bytes |
| RowCodec.RowsFitCondition | storage/ctc/ha_ctc.cc:2747-2747 | every row of a table fits the record length if and only if the head, the bitmap of the stored columns and their widest cells do |
| RowCodec.RowFits | storage/ctc/ha_ctc.cc:2747-2747 | every row of a table of safe columns fits the record length |
| RowCodec.WideVarcharOverflows | storage/ctc/datatype_cnvrtr.cc:2143-2146 | a table of one VARCHAR of 65532 bytes gets the head's length only, and any value is larger |
| RowCodec.DecimalPayload | storage/ctc/datatype_cnvrtr.cc:565-578 | a DECIMAL value's stored bytes are within the column's declared bytes |
| RowCodec.CellsAreStored | storage/ctc/datatype_cnvrtr.cc:1698-1713 | column k of the record is the k-th column of the table that is not virtual |
| RowCodec.RenumberFields | storage/ctc/datatype_cnvrtr.cc:1698-1758 | the update path's list keeps the fields that are stored, in order, under the engine's numbers |
| RowCodec.PushedColumnNumber | storage/ctc/ctc_util.cc:486-494 | the column less all generated columns before it |
| RowCodec.PushedColumnCondition | storage/ctc/ctc_util.cc:486-494 | that number is the column's place in the row if and only if no stored generated column precedes it |
| RowCodec.PushedColumnMisses | storage/ctc/ctc_util.cc:486-494 | behind one stored generated column, a condition on the second column names the first |
| Pushdown.CondPushTerm | storage/ctc/ctc_util.cc:1185-1193 | the recursive split of any term under any parent, of which `PushGrammar` says what it pushes |
| Pushdown.PushFuncItem | storage/ctc/ctc_util.cc:1038-1056 | a function is pushed whole exactly when every argument is |
| Pushdown.CondPushBooleanTerm | storage/ctc/ctc_util.cc:1058-1161 | the AND and OR split with its early exit and single-term lists |
| Pushdown.PushdownSound | storage/ctc/ctc_util.cc:1038-1193 | for every term and row: a true condition makes the pushed part true, and pushed and remainder are both true exactly when the condition is |
| Pushdown.PushedValueShape | storage/ctc/ctc_util.cc:621-644 | below a function the split is all or nothing and contains no AND, OR, XOR or comparison |
| Pushdown.PushedBoolShape | storage/ctc/ctc_util.cc:895-949 | the pushed tree is AND and OR over leaves, and an empty remainder means the whole term was pushed |
| Pushdown.PushedOperand | storage/ctc/ctc_util.cc:693-1026 | an operand is pushed if and only if the grammar derives it: constants, integer caches, stored columns of a comparable type with a known context, date functions and integer arithmetic of two operands |
| Pushdown.XorPushed | storage/ctc/ctc_util.cc:734-752 | XOR is pushed if and only if it joins two value operands; never over a condition |
| Pushdown.XorOfColumnIsPushed | storage/ctc/ctc_util.cc:734-752 | a column XOR a constant is pushed |
| PushGrammar.LeafExact | storage/ctc/ctc_util.cc:646-949 | a condition other than AND and OR is pushed if and only if the grammar derives it: the comparisons of every pair of operands and every class of column, LIKE, IS [NOT] NULL and XOR |
| PushGrammar.ColumnWithConstant | storage/ctc/ctc_util.cc:786-838 | in either order a column is compared with a constant by the engine if and only if it is stored, in no prefix key, of a supported type, not zero-padded, its context known, and the constant suits its class |
| PushGrammar.PushedColumns | storage/ctc/ctc_util.cc:981-1026 | no column anywhere in what is pushed is generated, in a prefix key, of an unsupported type or zero-padded |
| PushGrammar.SplitExact | storage/ctc/ctc_util.cc:1058-1161 | for every condition and row: something is pushed if and only if an operand of each AND and every operand of each OR allows it, all of it if and only if every leaf does, and the pushed part and the remainder are as strong and as weak as that permits |
| PushGrammar.SentExactly | storage/ctc/ctc_util.cc:262-345 | the engine evaluates exactly the condition in which < and <> against a DATE literal have become <= and IS NOT NULL, and nothing else has changed |
| Pushdown.SerialisedWeaker | storage/ctc/ctc_util.cc:262-275 | a pushed tree whose dates are literals without a time of day stays true after serialisation |
| Pushdown.NoRowLost | storage/ctc/ctc_util.cc:549-619 | no row that satisfies a condition whose dates are such literals is filtered out by the serialised pushed part, whatever else is evaluated at push time |
| Pushdown.ComparisonDates | storage/ctc/ctc_util.cc:786-911 | below a pushed comparison every date function is a literal |
| Pushdown.XorKept | storage/ctc/ctc_util.cc:554-561 | a pushed XOR keeps every row under every evaluation at push time and later if and only if its date functions are literals or no row satisfies it |
| Pushdown.XorDateCondition | storage/ctc/ctc_util.cc:554-561 | with at most one date function that is no literal: if and only if there is none or the other operand is a NULL constant |
| Pushdown.DateXorZeroLoses | storage/ctc/ctc_util.cc:913-918 | a date function of a column XOR 0 is pushed whole and can lose a row |
| Pushdown.DateClockCondition | storage/ctc/ctc_util.cc:262-275 | comparing with a DATE literal that carries a time of day keeps every row if and only if the comparison is not < or <> or some part of the time is zero |
| CondTree.AddChild | storage/ctc/ctc_util.cc:566-579 | the new node is linked last and counted, or nothing changes when memory is short |
| CondTree.Fill | storage/ctc/ctc_util.cc:1195-1215 | whatever fails, the live buffers are the old ones and those of a tree without repetitions, each list counting its elements; on success the tree is the item's serialisation `Pushdown.Serialise`, with every date function frozen, and the parent's function is what the item makes of it |
| CondTree.FillArgs | storage/ctc/ctc_util.cc:549-619 | the argument loop keeps that at every exit, and the node's function type is overwritten argument by argument |
| CondTree.FillDate | storage/ctc/ctc_util.cc:277-345 | a date function gives its list back, may fail before or after its bytes are there, and changes nothing but its parent's function, as the weakening says |
| CondTree.FreeCond | storage/ctc/ha_ctc.cc:3176-3202 | every buffer of the tree is freed while live, once, and nothing else |
| CondTree.FillThenFree | storage/ctc/ha_ctc.cc:3176-3209 | filling, with any failure, and freeing leaves the live buffers as they were |
| Prefetch.Cursor.Prefetch | storage/ctc/ha_ctc.cc:2281-2300 | any batch the engine may return: a prefix of the remaining rows within the limits, with room to spare only at the end |
| Prefetch.Convert | storage/ctc/ha_ctc.cc:2329-2355 | the next records by byte offset, in order, up to the count |
| Prefetch.Handler.PrefetchAndFill | storage/ctc/ha_ctc.cc:2281-2327 | the next row of the cursor, or end of file |
| Prefetch.Handler.FillRecordToRecBuffer | storage/ctc/ha_ctc.cc:2329-2355 | the record buffer holds the next chunk of the batch |
| Prefetch.Handler.RndNext | storage/ctc/ha_ctc.cc:3306-3360 | the plain cursor's next row, or end of file, whatever the batch sizes and the buffer's capacity; the engine is asked once at most, and not at all while the batch has rows or after a batch that left room |
| Prefetch.Handler.Position | storage/ctc/ha_ctc.cc:3386-3396 | the rowid of the row returned last |
| Prefetch.Scan | storage/ctc/ha_ctc.cc:3306-3396 | repeated reads give exactly the cursor's rows, in order, each once, with their rowids, then end of file |
| ParallelScan.FirstIndex | storage/ctc/ha_ctc_pq.cc:295-315 | the first work tuple that qualifies, or none does |
| ParallelScan.InvStep | storage/ctc/ha_ctc_pq.cc:385-460 | every step of every caller keeps the invariant |
| ParallelScan.RowsStep | storage/ctc/ha_ctc_pq.cc:317-460 | no step loses or repeats a row |
| ParallelScan.FramesStep | storage/ctc/ha_ctc_pq.cc:506-515 | no step loses or repeats a frame buffer |
| ParallelScan.EveryRun | storage/ctc/ha_ctc_pq.cc:94-131 | over every interleaving: delivered, leftover, unread and unfetched rows are the table's; each range is taken at most once, in order; no tuple has two callers; free and lent frames partition the original ones |
| ParallelScan.AllDelivered | storage/ctc/ha_ctc_pq.cc:385-460 | when every caller has seen end of file, every row has been delivered |
| ParallelScan.CallEnds | storage/ctc/ha_ctc_pq.cc:418-447 | over every interleaving a call takes at most three steps of its own for each range left, and four, before it writes its tuple back |
| ParallelScan.NeverStuck | storage/ctc/ha_ctc_pq.cc:385-460 | a call in progress always has an enabled step, whatever the other callers do |
| ThreadBudget.BudgetKept | storage/ctc/ha_ctc_pq.cc:134-169 | over every paired run the count is what the live handlers hold, nonnegative and within the limits in force |
| ThreadBudget.BudgetReturned | storage/ctc/ha_ctc_pq.cc:249-252 | when all handlers are gone the count is zero |
| ThreadBudget.Granted | storage/ctc/ha_ctc_pq.cc:134-163 | how many threads a handler gets: the expected ones up to 256, or else the session's, within the global limit, all or none |
| ThreadBudget.ReleaseCondition | storage/ctc/ha_ctc_pq.cc:165-169 | a release keeps the count right if and only if the handler is live or got no threads |
| ThreadBudget.DoubleRelease | storage/ctc/ha_ctc_pq.cc:165-169 | one initialize and two deinitializes leave the count below zero |
| Histogram.ScanLow | storage/ctc/ctc_cbo.cc:404-415 | the number of rows above the open or closed lower end |
| Histogram.ScanHigh | storage/ctc/ctc_cbo.cc:417-426 | the number of rows below the open or closed upper end |
| Histogram.BetweenFrequency | storage/ctc/ctc_cbo.cc:390-434 | clamped, the exact fraction of rows in the open or closed interval, also when it is empty |
| Histogram.FrequencyEqual | storage/ctc/ctc_cbo.cc:306-330 | the exact fraction of rows with that value |
| Histogram.DensityByCond | storage/ctc/ctc_cbo.cc:624-672 | clamped, the exact fraction for ends that may be absent, and whether the next column counts |
| Histogram.FractionAdditive | storage/ctc/ctc_cbo.cc:390-434 | the density is additive over adjacent intervals |
| Histogram.FractionMonotone | storage/ctc/ctc_cbo.cc:390-434 | a wider range is at least as dense |
| Histogram.FractionInUnit | storage/ctc/ctc_cbo.cc:285-303 | the density lies in [0, 1] |
| Histogram.BoundaryCondition | storage/ctc/ha_ctc.cc:4183-4237 | for all keys of m and n columns the server can give: every column gets the types of end they state if and only if, for m = n, both have a type or there is one column at most; and otherwise the shorter key is closed or absent and the longer one is not open or just one column longer |
| Histogram.EqualityThenRange | storage/ctc/ctc_cbo.cc:709-733 | an equality followed by a range gets the ends it states |
| Histogram.OpenShorterKey | storage/ctc/ctc_cbo.cc:709-733 | the open end of a shorter key is taken as closed |
| Histogram.OffsetCondition | storage/ctc/ctc_cbo.cc:766-769 | a column's key bytes are read at their place if and only if no virtual column comes before it |
| Histogram.ColumnSelectivity | storage/ctc/ctc_cbo.cc:685-707 | clamped, the exact fraction of a range or the recorded share of NULLs, and whether the next column counts |
| Histogram.EvalDensityNearest | storage/ctc/ctc_cbo.cc:285-303 | a density is replaced by the nearest share of rows |
| Histogram.AskedSelectivity | storage/ctc/ctc_cbo.cc:685-785 | after equalities on any number of leading columns: the fraction of rows with those values, times the share of NULLs if both keys are NULL there, of the others if the lower one is and the upper one ends before, or else the fraction between the ends that bytes and flags state |
| Histogram.OneColumnAsked | storage/ctc/ctc_cbo.cc:691-704 | on one column: IS NULL gets nulls / rows, IS NOT NULL the rest, and keys that are not NULL the rows between their ends |
| Histogram.DensityOneTable | storage/ctc/ctc_cbo.cc:735-796 | for any two keys, NULLs and virtual columns included: the product of the shares asked for, up to the first true range or uncovered column, always in [0, 1]; for equalities followed by a range, IS NULL or IS NOT NULL, the share that the bytes and flags of the server's keys state |
| Histogram.RecordsInRange | storage/ctc/ha_ctc.cc:4224-4264 | that share of the estimated rows, at least one and at most all, also stated by the bytes and flags of the two keys |
| CursorLedger.InOnePlace | storage/ctc/ha_ctc.cc:1149-1204 | every opening of a cursor is active for one handler, waiting once or freed once, and only one of these |
| CursorLedger.Opening | storage/ctc/ha_ctc.cc:1166-1185 | replacing a handler's cursor keeps the books balanced |
| CursorLedger.Released | storage/ctc/ha_ctc.cc:1149-1164 | handing cursors back keeps the books balanced |
| CursorLedger.Session.CopyCursorsToFree | storage/ctc/ha_ctc.cc:1149-1164 | the array is filled to its length, with the invalid and, unless told otherwise, the active cursors, none twice |
| CursorLedger.Session.Register | storage/ctc/ha_ctc.cc:1166-1204 | the handler's new cursor is active, the old one waits, and the early free keeps the balance |
| CursorLedger.Session.FreeAll | storage/ctc/ha_ctc.cc:1546-1561 | commit and rollback hand back every cursor |
| CursorLedger.Session.FreeCursorsNoAutocommit | storage/ctc/ha_ctc.cc:1466-1488 | above the limit every cursor is handed back, otherwise none |
| CursorLedger.Session.Run | storage/ctc/ha_ctc.cc:1637-1671 | over any sequence of operations closed by an end of transaction, in which the engine gives a handler its own cursor again or an address the session does not hold, the cursors freed are exactly the openings, each once |
| CursorLedger.KeptOpen | storage/ctc/ha_ctc.cc:1466-1488 | over any run without an end of transaction that stays below the limits, no cursor is freed: all that were held or opened are still held |
| CursorLedger.WaitingBounded | storage/ctc/ha_ctc.cc:1187-1204 | over any run, cursors wait only while the session has fewer than 16384 |
| CursorLedger.ReusedAddress | storage/ctc/ha_ctc.cc:1174-1178 | asking again for one's own cursor opens nothing, and an address freed before may be opened and freed again |
| Invalidation.FieldCarried | storage/ctc/ha_ctc.cc:1382-1386 | a copied name of any length is read back if and only if it has at most 126 bytes, or 127 and its field ended in a zero, or is longer and is continued by chance behind the cut |
| Invalidation.EntryCarried | storage/ctc/ctc_meta_data.cc:466-468 | the same for a whole entry as the receiver copies it, whatever lies behind the copy |
| Invalidation.PackEntry | storage/ctc/ha_ctc.cc:1382-1386 | an entry is written in place and nothing else |
| Invalidation.Reload | storage/ctc/ha_ctc.cc:1350-1356 | a full batch goes out and the buffer is zeroed |
| Invalidation.InvalidateRemote | storage/ctc/ha_ctc.cc:1358-1411 | for any uninitialised buffer: batches within 3072 bytes, the last one marked, whose entries are, kind by kind, those that the objects call for, in order, each exactly when it arrives; a reset from 1000 objects on |
| Invalidation.WireReadBack | storage/ctc/ctc_meta_data.cc:461-502 | the receiver decodes exactly what was sent if and only if every entry arrives |
| Invalidation.AlwaysArrives | storage/ctc/ha_ctc.cc:1362-1372 | names of up to 126 bytes arrive whatever the buffer held, and of 127 bytes in a later batch |
| Invalidation.TruncatedLost | storage/ctc/ha_ctc.cc:1382-1386 | behind a zero byte a name of 128 bytes or more never arrives |
| Invalidation.LongSecondLost | storage/ctc/ctc_meta_data.cc:466-468 | a second name of 128 bytes or more is never sure to be read back |
| Invalidation.LongNameByChance | storage/ctc/ha_ctc.cc:1382-1386 | a schema name of 128 bytes arrives when the untouched byte is its last one |
| Invalidation.LongNameLost | storage/ctc/ha_ctc.cc:1382-1386 | a table whose database name has 127 bytes is not recognised when the buffer held ones |
| Invalidation.Receiver.Receive | storage/ctc/ctc_meta_data.cc:448-510 | one message's entries are applied in order, and routines and schemas released at the end mark |
| Invalidation.Receiver.ReleaseRoutineAndSchema | storage/ctc/ctc_meta_data.cc:518-557 | every waiting routine and schema is invalidated and the lists are emptied |
| Invalidation.ExactlyOnce | storage/ctc/ctc_meta_data.cc:461-557 | by the end of the last batch each table, tablespace, routine and schema entry was invalidated once, wherever batches split and whatever the earlier first bytes |
| Invalidation.TouchedSent | storage/ctc/ha_ctc.cc:1375-1400 | of the objects touched, exactly the tables, routines, schemas and tablespaces reach a receiver as something to invalidate, the last two without a second name |
| Invalidation.Broadcast | storage/ctc/ha_ctc.cc:1358-1411 | sending and receiving together: where every entry arrives, a node has invalidated each touched table, routine, schema and tablespace once and nothing else |

## Left out

- Communication with the engine process (shared memory, semaphores, message packing), SQL proxying, the DDL rewriter, logging, statistics and system variables.
- MDL acquisition and THD lifecycle: an invalidation is one abstract event.
- The bytes of numeric, date, BIT and floating-point columns and the transfer of LOB pieces: a column's value in the row codec is its stored bytes, a LOB's its locator.
- `serial_column_offset`, index-only records and the single-process mode that reads precomputed offsets.
- The update path's bitmap: its extension is sized from other columns than it stores, so only its column numbers are stated (`RowCodec.RenumberFields`).
- Decoding rows of more than 1024 stored columns, whose column count wraps around; the round trip is promised below 1024.
- Rounding while printing: the source copies decimals of up to seven cells only before it rounds, so the digits of longer ones come from uninitialised memory.
- DecimalText.Dec8ToText: states the result where the plain form fits the limit or the scientific form is chosen, because in between the source rounds.
- DecimalText.PlainText: states the text where nothing must be rounded, for the same reason.
- Nanoseconds and the time-zone offset of a date, which the two codecs do not touch.
- Height-balanced histograms, string collation and the epsilon comparison of reals: keys are integers standing for a total order.
- Engine errors in the prefetch path and the parallel reader, and allocation failure outside the condition tree.
- ParallelScan.EveryRun: assumes that a caller returns its frame before it asks for another, as its users do.
- `index_fetch` differs from `rnd_next` only in the engine call behind its prefetch, so both are `Prefetch.Handler.RndNext`.
- The record buffer of the server (Record_buffer) and MAX_PREFETCH_REC_NUM are not part of this model; the first is a sequence, the second a parameter.
- What date functions, arithmetic and string comparison evaluate to: three-valued evaluation takes them as unknown functions of their arguments, and what a date function is at push time as unknown.
- A date that is no operand of a function: the source would follow a null address to weaken its parent, the model does nothing.
- CondTree.Fill: counts elements without the 16-bit bound of the source's counter, which the argument counts never reach.
- The codes of the object kinds in an invalidation entry come from a server header that is not part of this model; any injective coding serves.
- Broadcasts of access-control changes, and the receiver's check of the sender's instance.
- The cursors that a closing session leaves to the engine.
