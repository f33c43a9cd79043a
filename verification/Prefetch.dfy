/** The handler's two-level read cache: a batch prefetched from the engine, converted chunk by
    chunk into a record buffer, behind rnd_next and index_fetch. */
module Prefetch {
  import opened Basics
  import Radix

  const INVALID_MAX_UINT32: nat := 0xFFFFFFFF

  /** A row as the engine hands it over: converted content, rowid and stored size. */
  datatype Rec = Rec(row: int, rowid: nat, size: nat)

  function Bytes(b: seq<Rec>): nat
  {
    if b == [] then 0 else b[0].size + Bytes(b[1..])
  }

  function Rows(b: seq<Rec>): (r: seq<int>)
    ensures |r| == |b| && forall i :: 0 <= i < |b| ==> r[i] == b[i].row
  {
    seq(|b|, i requires 0 <= i < |b| => b[i].row)
  }

  lemma {:induction false} BytesStep(b: seq<Rec>, i: nat)
    requires i < |b|
    ensures Bytes(b[..i + 1]) == Bytes(b[..i]) + b[i].size
  {
    if i > 0 {
      assert b[..i + 1][1..] == b[1..][..i] && b[..i][1..] == b[1..][..i - 1];
      BytesStep(b[1..], i - 1);
    }
  }

  /** The record that starts at a byte offset of the prefetch buffer. */
  function RecordAt(b: seq<Rec>, off: nat): Option<Rec>
  {
    if b == [] then None
    else if off == 0 then Some(b[0])
    else if off < b[0].size then None
    else RecordAt(b[1..], off - b[0].size)
  }

  lemma {:induction false} RecordAtPrefix(b: seq<Rec>, k: nat)
    requires k < |b| && forall i :: 0 <= i < |b| ==> b[i].size > 0
    ensures RecordAt(b, Bytes(b[..k])) == Some(b[k])
  {
    if k > 0 {
      assert b[..k][1..] == b[1..][..k - 1];
      RecordAtPrefix(b[1..], k - 1);
    }
  }

  lemma BytesOne(b: seq<Rec>)
    requires b != []
    ensures Bytes(b[..1]) == b[0].size
  {
    BytesStep(b, 0);
  }

  /** The engine's limits: rows per batch, bytes of the transfer buffer, largest record. */
  datatype Limits = Limits(maxRows: nat, bufBytes: nat, recLen: nat) {
    predicate Sane() { 1 <= maxRows < INVALID_MAX_UINT32 && 1 <= recLen <= bufBytes }

    /** Room for another row: the engine leaves it only when the cursor is exhausted. The
        handler evaluates the same test on the bytes it has converted so far. */
    predicate Room(n: nat, bytes: nat) { bytes + recLen <= bufBytes && n < maxRows }
  }

  /** An open cursor; rest are the rows it has still to deliver. */
  class Cursor {
    const limits: Limits
    var rest: seq<Rec>
    ghost var calls: nat                 // batches asked for

    ghost predicate Valid()
      reads this
    {
      && limits.Sane()
      && forall k :: 0 <= k < |rest| ==> 0 < rest[k].size <= limits.recLen
    }

    constructor (limits: Limits, rows: seq<Rec>)
      requires limits.Sane() && forall k :: 0 <= k < |rows| ==> 0 < rows[k].size <= limits.recLen
      ensures Valid() && rest == rows && this.limits == limits
    {
      this.limits, rest, calls := limits, rows, 0;
    }

    /** Any batch the engine may return: it fills up while there is surely room, and may
        stop or go on once there may not be. */
    method Prefetch() returns (batch: seq<Rec>)
      requires Valid()
      modifies this
      ensures Valid()
      ensures old(rest) == batch + rest && calls == old(calls) + 1
      ensures |batch| <= limits.maxRows && Bytes(batch) <= limits.bufBytes
      ensures limits.Room(|batch|, Bytes(batch)) ==> rest == []
      ensures batch == [] ==> rest == []
      ensures forall k :: 0 <= k < |batch| ==> batch[k].size > 0
    {
      batch, calls := [], calls + 1;
      while rest != [] && |batch| < limits.maxRows && Bytes(batch) + rest[0].size <= limits.bufBytes
        invariant Valid() && old(rest) == batch + rest && calls == old(calls) + 1
        invariant forall k :: 0 <= k < |batch| ==> batch[k].size > 0
        invariant |batch| <= limits.maxRows && Bytes(batch) <= limits.bufBytes
        decreases |rest|
      {
        var stop: bool := *;
        if stop && batch != [] && !limits.Room(|batch|, Bytes(batch)) { break; }
        ghost var was, whole := batch, batch + rest;
        batch, rest := batch + [rest[0]], rest[1..];
        BytesStep(batch, |was|);
        assert batch[..|was|] == was && batch[..|was| + 1] == batch;
        assert batch + rest == whole;
      }
    }
  }

  function Min(a: nat, b: nat): nat { if a <= b then a else b }

  /** Converts up to count records of the batch from index from, which starts at byte off. */
  method Convert(batch: seq<Rec>, from: nat, off: nat, count: nat)
    returns (recs: seq<int>, fill: nat, end: nat)
    requires from <= |batch| && off == Bytes(batch[..from])
    requires forall k :: 0 <= k < |batch| ==> batch[k].size > 0
    ensures fill == Min(|batch|, from + count)
    ensures recs == Rows(batch[from..fill]) && end == Bytes(batch[..fill])
  {
    recs, fill, end := [], from, off;
    hide Bytes;
    for i := 0 to count
      invariant fill == Min(|batch|, from + i)
      invariant recs == Rows(batch[from..fill]) && end == Bytes(batch[..fill])
    {
      if fill == |batch| { break; }
      RecordAtPrefix(batch, fill);
      var r := RecordAt(batch, end).value;
      BytesStep(batch, fill);
      assert batch[from..fill + 1] == batch[from..fill] + [r];
      recs, fill, end := recs + [r.row], fill + 1, end + batch[fill].size;
    }
  }

  class Handler {
    const cursor: Cursor
    const maxRecords: nat                // capacity of the record buffer
    var recBuf: seq<int>                 // converted rows waiting in the record buffer
    var outOfRange: bool
    var prefetchBuf: seq<Rec>
    var curPosInBuf: nat
    var curFillBufIndex: nat
    var curOffInPrefetchBuf: nat
    var actualFetchedNums: nat
    ghost var last: Option<Rec>          // the row returned last

    /** The position is inside the batch, at the row returned last, and the batch is one
        the engine could have sent. */
    ghost predicate InBatch()
      reads this, cursor
    {
      && curPosInBuf < |prefetchBuf| && last == Some(prefetchBuf[curPosInBuf])
      && actualFetchedNums == |prefetchBuf| <= cursor.limits.maxRows
      && (forall k :: 0 <= k < |prefetchBuf| ==> prefetchBuf[k].size > 0)
      && (cursor.limits.Room(|prefetchBuf|, Bytes(prefetchBuf)) ==> cursor.rest == [])
    }

    /** The record buffer holds the chunk of the batch from c on. */
    ghost predicate Buffered(c: nat)
      reads this, cursor
    {
      && c < |prefetchBuf| && curFillBufIndex == Min(|prefetchBuf|, c + maxRecords)
      && recBuf == Rows(prefetchBuf[c..curFillBufIndex])
      && curOffInPrefetchBuf == Bytes(prefetchBuf[..curFillBufIndex])
      && outOfRange == cursor.limits.Room(actualFetchedNums, curOffInPrefetchBuf)
    }

    ghost predicate Valid()
      reads this, cursor
    {
      && cursor.Valid() && maxRecords > 0
      && (curPosInBuf != INVALID_MAX_UINT32 ==>
            && InBatch()
            && if recBuf == [] then curPosInBuf == |prefetchBuf| - 1
               else Buffered(curPosInBuf - Slot(curPosInBuf, maxRecords) + 1))
      && (curPosInBuf == INVALID_MAX_UINT32 && recBuf != [] ==>
            1 <= actualFetchedNums <= cursor.limits.maxRows && (outOfRange ==> cursor.rest == []))
    }

    /** The rows a caller has still to see. */
    ghost function Rest(): seq<Rec>
      reads this, cursor
    {
      (if curPosInBuf < |prefetchBuf| && curPosInBuf != INVALID_MAX_UINT32
       then prefetchBuf[curPosInBuf + 1..] else []) + cursor.rest
    }

    constructor (cursor: Cursor, maxRecords: nat)
      requires cursor.Valid() && maxRecords > 0
      ensures Valid() && Rest() == cursor.rest && this.cursor == cursor
    {
      this.cursor, this.maxRecords := cursor, maxRecords;
      recBuf, outOfRange, prefetchBuf := [], false, [];
      curPosInBuf, actualFetchedNums := INVALID_MAX_UINT32, INVALID_MAX_UINT32;
      curFillBufIndex, curOffInPrefetchBuf := 0, 0;
      last := None;
    }

    /** A fresh batch: its first row goes straight to the caller, the next ones to the
        record buffer. */
    method PrefetchAndFill() returns (row: Option<int>)
      requires Valid()
      requires curPosInBuf == INVALID_MAX_UINT32 || recBuf == []
      modifies this, cursor
      ensures Valid()
      ensures Next(row, old(Rest())) && cursor.calls == old(cursor.calls) + 1
    {
      hide Slot, Bytes, Rows;
      ghost var before := Rest();
      assert before == cursor.rest;
      var batch := cursor.Prefetch();
      if |batch| == 0 {
        return None;
      }
      assert before[0] == batch[0] && before[1..] == batch[1..] + cursor.rest;
      row := Load(batch);
    }

    /** Takes over a batch; row is its first one. */
    method Load(batch: seq<Rec>) returns (row: Option<int>)
      requires cursor.Valid() && maxRecords > 0 && 0 < |batch| <= cursor.limits.maxRows
      requires forall k :: 0 <= k < |batch| ==> batch[k].size > 0
      requires cursor.limits.Room(|batch|, Bytes(batch)) ==> cursor.rest == []
      modifies this
      ensures Valid() && prefetchBuf == batch && curPosInBuf == 0
      ensures last == Some(batch[0]) && row == Some(batch[0].row)
    {
      hide Slot, Bytes, Rows, Cursor.Valid;
      prefetchBuf, actualFetchedNums := batch, |batch|;
      curPosInBuf := 0;
      row, last := Some(batch[0].row), Some(batch[0]);
      BytesOne(batch);
      ChunkStep(0, maxRecords);
      var filled := if |batch| <= maxRecords + 1 then |batch| else maxRecords + 1;
      recBuf, curFillBufIndex, curOffInPrefetchBuf := Convert(batch, 1, batch[0].size, filled - 1);
      outOfRange := cursor.limits.Room(actualFetchedNums, curOffInPrefetchBuf);
    }

    /** What one read returns and leaves, for a caller with the given rows to come. */
    ghost predicate Next(row: Option<int>, before: seq<Rec>)
      reads this, cursor
    {
      if before == [] then row == None && Rest() == []
      else && row == Some(before[0].row) && Rest() == before[1..]
           && last == Some(before[0]) && curPosInBuf != INVALID_MAX_UINT32
    }

    method FillRecordToRecBuffer()
      requires InBatch() && curFillBufIndex == curPosInBuf + 1 && maxRecords > 0
      requires curOffInPrefetchBuf == Bytes(prefetchBuf[..curFillBufIndex])
      modifies this`recBuf, this`curFillBufIndex, this`curOffInPrefetchBuf, this`outOfRange
      ensures InBatch()
      ensures if recBuf == [] then curPosInBuf == |prefetchBuf| - 1 else Buffered(curPosInBuf + 1)
    {
      hide Slot, Bytes;
      recBuf, curFillBufIndex, curOffInPrefetchBuf :=
        Convert(prefetchBuf, curFillBufIndex, curOffInPrefetchBuf, maxRecords);
      outOfRange := cursor.limits.Room(actualFetchedNums, curOffInPrefetchBuf);
    }

    /** Takes the next row from the record buffer. */
    method TakeBuffered() returns (row: Option<int>)
      requires Valid() && recBuf != [] && curPosInBuf < actualFetchedNums - 1
      modifies this
      ensures Valid()
      ensures Next(row, old(Rest()))
    {
      hide Slot, Bytes, Rows;
      ChunkStep(curPosInBuf, maxRecords);
      ghost var before, at := Rest(), curPosInBuf + 1;
      assert before[0] == prefetchBuf[at] && before[1..] == prefetchBuf[at + 1..] + cursor.rest;
      row := Some(recBuf[Slot(curPosInBuf, maxRecords)]);
      curPosInBuf := curPosInBuf + 1;
      last := Some(prefetchBuf[curPosInBuf]);
      if Slot(curPosInBuf, maxRecords) == 0 {
        FillRecordToRecBuffer();
      }
    }

    /** What the next read needs is here: a row of the batch, or the knowledge that there is
        none, because the engine left room for another in its buffer. */
    ghost predicate Answered()
      reads this, cursor
    {
      && recBuf != [] && curPosInBuf < |prefetchBuf| && curPosInBuf != INVALID_MAX_UINT32
      && (curPosInBuf + 1 < |prefetchBuf|
          || (|prefetchBuf| < cursor.limits.maxRows
              && Bytes(prefetchBuf) + cursor.limits.recLen <= cursor.limits.bufBytes))
    }

    /** rnd_next and index_fetch: the plain cursor's next row, or end of file; the engine is
        asked once, or not at all if the answer is here. */
    method RndNext() returns (row: Option<int>)
      requires Valid()
      modifies this, cursor
      ensures Valid()
      ensures Next(row, old(Rest()))
      ensures cursor.calls <= old(cursor.calls) + 1 && (old(Answered()) ==> cursor.calls == old(cursor.calls))
    {
      hide Slot, Bytes, Rows;
      if |recBuf| != 0 {
        if curPosInBuf >= actualFetchedNums - 1 {
          AllFilled();
          curPosInBuf := INVALID_MAX_UINT32;
          if outOfRange { return None; }
        } else {
          row := TakeBuffered();
          return;
        }
      }
      row := PrefetchAndFill();
    }

    /** Once the last row of the batch is out, the whole batch has been converted, so the
        end-of-range flag speaks for the whole batch. */
    lemma AllFilled()
      requires Valid() && recBuf != [] && curPosInBuf >= actualFetchedNums - 1
      ensures curPosInBuf != INVALID_MAX_UINT32 ==> curPosInBuf == |prefetchBuf| - 1
      ensures outOfRange ==> cursor.rest == []
      ensures Answered() ==> outOfRange
    {
      if curPosInBuf != INVALID_MAX_UINT32 {
        ChunkStep(curPosInBuf, maxRecords);
        assert prefetchBuf[..|prefetchBuf|] == prefetchBuf;
      }
    }

    /** The rowid of the row returned last. */
    method Position() returns (rowid: Option<nat>)
      requires Valid()
      ensures curPosInBuf != INVALID_MAX_UINT32 ==> last.Some? && rowid == Some(last.value.rowid)
    {
      if curPosInBuf == INVALID_MAX_UINT32 { return None; }
      rowid := Some(prefetchBuf[curPosInBuf].rowid);
    }
  }

  /** Index in the record buffer of a position in the batch. */
  function Slot(pos: nat, max: nat): (r: nat)
    requires max > 0
    ensures r < max && r <= pos
  {
    pos % max
  }

  lemma ChunkStep(pos: nat, max: nat)
    requires max > 0
    ensures Slot(0, max) == 0
    ensures Slot(pos + 1, max) == if Slot(pos, max) == max - 1 then 0 else Slot(pos, max) + 1
  {
    var q, r := pos / max, pos % max;
    assert pos == q * max + r;
    if r == max - 1 {
      assert pos + 1 == max * (q + 1) + 0;
      Radix.DivisionUnique(pos + 1, max, q + 1, 0);
    } else {
      Radix.DivisionUnique(pos + 1, max, q, r + 1);
    }
  }

  /** A whole scan: exactly the cursor's rows, in order, each once, each with its rowid. */
  method Scan(h: Handler) returns (rows: seq<int>, rowids: seq<nat>)
    requires h.Valid()
    modifies h, h.cursor
    ensures h.Valid() && h.Rest() == []
    ensures rows == Rows(old(h.Rest()))
    ensures |rowids| == |rows| && forall k :: 0 <= k < |rows| ==> rowids[k] == old(h.Rest())[k].rowid
  {
    hide Handler.Valid, Handler.Rest, Handler.InBatch, Handler.Buffered, Slot, Bytes, Rows;
    rows, rowids := [], [];
    ghost var all := h.Rest();
    assert all[0..] == all;
    while true
      invariant h.Valid() && |rows| == |rowids| <= |all| && h.Rest() == all[|rows|..]
      invariant forall k :: 0 <= k < |rows| ==> rows[k] == all[k].row && rowids[k] == all[k].rowid
      decreases |h.Rest()|
    {
      var row := h.RndNext();
      if row.None? { break; }
      var id := h.Position();
      assert all[|rows|..][1..] == all[|rows| + 1..];
      rows, rowids := rows + [row.value], rowids + [id.value];
    }
    assert |rows| == |all|;
  }
}
