/** Dictionary-cache invalidation: the objects a statement touched are packed into fixed-size
    records, broadcast batch by batch, and invalidated by the receiving node. */
module Invalidation {
  import opened Basics

  type Name = seq<byte>

  datatype Kind =
    | Table | Event | ColumnStatistics | Procedure | StoredFunction
    | Schema | Tablespace | ResourceGroup | SpatialReference
    | Charset | Collation

  datatype Object = Object(kind: Kind, first: Name, second: Name)

  datatype Message = Message(buff: seq<byte>, len: nat)

  const FIELD_SIZE: nat := 128
  const ENTRY_SIZE: nat := 257
  const RECORD_LENGTH: nat := 3072
  const PER_BATCH: nat := 11
  const RESET_THRESHOLD: nat := 1000
  const END_MARK: byte := 49

  // ----- fields and entries

  function Code(k: Kind): (c: byte)
    ensures KindOf(c) == k
  {
    match k
    case Table => 0
    case Event => 1
    case ColumnStatistics => 2
    case Procedure => 3
    case StoredFunction => 4
    case Schema => 5
    case Tablespace => 6
    case ResourceGroup => 7
    case SpatialReference => 8
    case Charset => 9
    case Collation => 10
  }

  function KindOf(c: int): Kind
  {
    if c == 0 then Table else if c == 1 then Event else if c == 2 then ColumnStatistics
    else if c == 3 then Procedure else if c == 4 then StoredFunction else if c == 5 then Schema
    else if c == 6 then Tablespace else if c == 7 then ResourceGroup else if c == 8 then SpatialReference
    else if c == 9 then Charset else Collation
  }

  function Zeros(n: nat): (z: seq<byte>)
    ensures |z| == n && forall i :: 0 <= i < n ==> z[i] == 0
  {
    seq(n, i => 0)
  }

  /** strncpy(field, name, 127): the last byte of the field keeps what it held. */
  function Copied(name: Name, last: byte): (r: seq<byte>)
    ensures |r| == FIELD_SIZE
  {
    (if |name| < 127 then name + Zeros(127 - |name|) else name[..127]) + [last]
  }

  /** Marks a string that no zero ends: the read runs on behind the receiver's block, and what
      it finds there is not known. No name contains a zero. */
  const RUN_ON: Name := [0]

  /** The C string at the start of b. */
  function CString(b: seq<byte>): Name
  {
    if b == [] then RUN_ON else if b[0] == 0 then [] else [b[0]] + CString(b[1..])
  }

  predicate NameOk(name: Name) { forall i :: 0 <= i < |name| ==> name[i] != 0 }

  /** A name is read back as written exactly when it leaves room for its terminator, or finds
      one in the byte that the copy does not touch, or is longer and the rest of it happens to
      stand in that byte and in what follows the field within the entry. */
  predicate Carried(name: Name, last: byte, rest: seq<byte>)
  {
    || |name| < 127
    || (|name| == 127 && last == 0)
    || (|name| > 127 && last == name[127] && CString(rest) == name[FIELD_SIZE..])
  }

  lemma {:induction false} CStringPrefix(name: Name, rest: seq<byte>)
    requires forall i :: 0 <= i < |name| ==> name[i] != 0
    ensures CString(name + rest) == name + CString(rest)
  {
    if name == [] {
      assert name + rest == rest;
    } else {
      CStringPrefix(name[1..], rest);
      assert (name + rest)[1..] == name[1..] + rest;
      assert name == [name[0]] + name[1..];
    }
  }

  lemma FieldCarried(name: Name, last: byte, rest: seq<byte>)
    requires NameOk(name)
    ensures CString(Copied(name, last) + rest) == name <==> Carried(name, last, rest)
  {
    if |name| < 127 {
      var tail := Zeros(127 - |name|) + [last] + rest;
      assert Copied(name, last) + rest == name + tail;
      CStringPrefix(name, tail);
      assert CString(tail) == [];
    } else {
      var head, tail := name[..127], [last] + rest;
      assert Copied(name, last) + rest == head + tail;
      CStringPrefix(head, tail);
      assert tail[1..] == rest;
      assert name == head + name[127..];
      TailCarried(head, name[127..], last, rest);
    }
  }

  /** Behind the first 127 bytes, the copy holds last and what follows the field. */
  lemma TailCarried(head: Name, more: Name, last: byte, rest: seq<byte>)
    requires forall i :: 0 <= i < |more| ==> more[i] != 0
    ensures head + CString([last] + rest) == head + more
       <==> (more == [] && last == 0) || (more != [] && last == more[0] && CString(rest) == more[1..])
  {
    var s := CString([last] + rest);
    assert ([last] + rest)[1..] == rest;
    assert s == if last == 0 then [] else [last] + CString(rest);
    assert head + s == head + more <==> s == more by {
      assert (head + s)[|head|..] == s && (head + more)[|head|..] == more;
    }
    if more != [] {
      assert more == [more[0]] + more[1..];
      if s == more { assert s[1..] == CString(rest); }
    }
  }

  /** An entry as packed into a place where the two fields' last bytes were l1 and l2. */
  function Packed(o: Object, l1: byte, l2: byte): (r: seq<byte>)
    ensures |r| == ENTRY_SIZE
  {
    [Code(o.kind)] + Copied(o.first, l1) + Copied(o.second, l2)
  }

  function Unpacked(e: seq<byte>): Object
    requires |e| == ENTRY_SIZE
  {
    Object(KindOf(e[0]), CString(e[1..]), CString(e[1 + FIELD_SIZE..]))
  }

  predicate EntryArrives(o: Object, l1: byte, l2: byte)
  {
    Carried(o.first, l1, Copied(o.second, l2)) && Carried(o.second, l2, [])
  }

  lemma EntryCarried(o: Object, l1: byte, l2: byte)
    requires NameOk(o.first) && NameOk(o.second)
    ensures Unpacked(Packed(o, l1, l2)) == o <==> EntryArrives(o, l1, l2)
  {
    var e := Packed(o, l1, l2);
    assert e[1..] == Copied(o.first, l1) + Copied(o.second, l2);
    assert e[1 + FIELD_SIZE..] == Copied(o.second, l2) + [];
    FieldCarried(o.first, l1, Copied(o.second, l2));
    FieldCarried(o.second, l2, []);
  }

  // ----- batches

  /** The n-th entry of a record. */
  function EntryAt(b: seq<byte>, n: nat): (e: seq<byte>)
    requires 1 + ENTRY_SIZE * (n + 1) <= |b|
    ensures |e| == ENTRY_SIZE
  {
    b[1 + ENTRY_SIZE * n..1 + ENTRY_SIZE * (n + 1)]
  }

  /** The first n entries. */
  function Entries(b: seq<byte>, n: nat): (r: seq<Object>)
    requires 1 + ENTRY_SIZE * n <= |b|
    ensures |r| == n
  {
    if n == 0 then [] else Entries(b, n - 1) + [Unpacked(EntryAt(b, n - 1))]
  }

  predicate MessageOk(m: Message)
  {
    |m.buff| == RECORD_LENGTH && 1 <= m.len <= RECORD_LENGTH && (m.len - 1) % ENTRY_SIZE == 0
  }

  function Contents(m: Message): seq<Object>
    requires MessageOk(m)
  {
    Entries(m.buff, (m.len - 1) / ENTRY_SIZE)
  }

  predicate MessagesOk(ms: seq<Message>) { forall i :: 0 <= i < |ms| ==> MessageOk(ms[i]) }

  function AllContents(ms: seq<Message>): seq<Object>
    requires MessagesOk(ms)
  {
    if ms == [] then [] else AllContents(ms[..|ms| - 1]) + Contents(ms[|ms| - 1])
  }

  lemma {:induction false} EntriesFrame(b: seq<byte>, b': seq<byte>, n: nat)
    requires |b| == |b'| && 1 + ENTRY_SIZE * n <= |b|
    requires forall i :: 1 <= i < 1 + ENTRY_SIZE * n ==> b[i] == b'[i]
    ensures Entries(b, n) == Entries(b', n)
  {
    if n > 0 {
      EntriesFrame(b, b', n - 1);
      assert EntryAt(b, n - 1) == EntryAt(b', n - 1);
    }
  }

  // ----- what is sent

  predicate TwoNames(k: Kind)
  {
    k.Table? || k.Event? || k.ColumnStatistics? || k.Procedure? || k.StoredFunction?
  }

  predicate OneName(k: Kind) { k.Schema? || k.Tablespace? || k.ResourceGroup? || k.SpatialReference? }

  /** What goes on the wire for an object, kind by kind. */
  function SentAs(o: Object): seq<Object>
  {
    match o.kind
    case Table => [o]
    case Event => [o]
    case ColumnStatistics => [o]
    case Procedure => [o]
    case StoredFunction => [o]
    case Schema => [o.(second := [])]
    case Tablespace => [o.(second := [])]
    case ResourceGroup => [o.(second := [])]
    case SpatialReference => [o.(second := [])]
    case Charset => []
    case Collation => []
  }

  /** The entries that go on the wire, in order. */
  function Wire(os: seq<Object>): seq<Object>
  {
    if os == [] then [] else Wire(os[..|os| - 1]) + SentAs(os[|os| - 1])
  }

  predicate NamesOk(os: seq<Object>)
  {
    forall i :: 0 <= i < |os| ==> NameOk(os[i].first) && NameOk(os[i].second)
  }

  /** Entry j of the wire comes through: only the first batch meets the buffer's old bytes. */
  predicate Arrives(o: Object, g: seq<byte>, j: nat)
    requires |g| == RECORD_LENGTH
  {
    if j < PER_BATCH then
      var at := 1 + ENTRY_SIZE * j;
      EntryArrives(o, g[at + FIELD_SIZE], g[at + 2 * FIELD_SIZE])
    else EntryArrives(o, 0, 0)
  }

  /** While sending: msgs are out, n entries are in the buffer b that started as g. */
  ghost predicate Sending(g: seq<byte>, b: seq<byte>, n: nat, msgs: seq<Message>, wire: seq<Object>)
  {
    && |g| == |b| == RECORD_LENGTH && n <= PER_BATCH && MessagesOk(msgs)
    && |AllContents(msgs)| == PER_BATCH * |msgs|
    && (forall x :: 1 + ENTRY_SIZE * n <= x < RECORD_LENGTH ==> b[x] == if msgs == [] then g[x] else 0)
    && Faithful(AllContents(msgs) + Entries(b, n), wire, g)
  }

  /** Entry by entry, what is read back is what was sent exactly when it arrives. */
  ghost predicate Faithful(read: seq<Object>, wire: seq<Object>, g: seq<byte>)
    requires |g| == RECORD_LENGTH
  {
    |read| == |wire| && forall j :: 0 <= j < |wire| ==> (read[j] == wire[j] <==> Arrives(wire[j], g, j))
  }

  lemma BatchSize(g: seq<byte>, b: seq<byte>, n: nat, msgs: seq<Message>, wire: seq<Object>)
    requires Sending(g, b, n, msgs, wire)
    ensures n <= PER_BATCH
  {
  }

  lemma Reloaded(g: seq<byte>, b: seq<byte>, msgs: seq<Message>, wire: seq<Object>, m: Message)
    requires Sending(g, b, PER_BATCH, msgs, wire) && m == Message(b, 1 + ENTRY_SIZE * PER_BATCH)
    ensures Sending(g, Zeros(RECORD_LENGTH), 0, msgs + [m], wire)
  {
    hide Faithful, Entries;
    assert Contents(m) == Entries(b, PER_BATCH);
    assert (msgs + [m])[..|msgs|] == msgs;
    assert Entries(Zeros(RECORD_LENGTH), 0) == [];
    assert AllContents(msgs + [m]) == AllContents(msgs) + Entries(b, PER_BATCH);
    assert AllContents(msgs + [m]) + [] == AllContents(msgs + [m]);
  }

  lemma Appended(g: seq<byte>, b: seq<byte>, b': seq<byte>, n: nat, msgs: seq<Message>, wire: seq<Object>, o: Object)
    requires Sending(g, b, n, msgs, wire) && n < PER_BATCH && NameOk(o.first) && NameOk(o.second)
    requires |b'| == |b| && var at := 1 + ENTRY_SIZE * n;
             && b'[at..at + ENTRY_SIZE] == Packed(o, b[at + FIELD_SIZE], b[at + 2 * FIELD_SIZE])
             && forall x :: 0 <= x < |b| && !(at <= x < at + ENTRY_SIZE) ==> b'[x] == b[x]
    ensures Sending(g, b', n + 1, msgs, wire + [o])
  {
    hide Faithful, Packed, Unpacked;
    var at := 1 + ENTRY_SIZE * n;
    EntriesFrame(b, b', n);
    EntryCarried(o, b[at + FIELD_SIZE], b[at + 2 * FIELD_SIZE]);
    assert EntryAt(b', n) == b'[at..at + ENTRY_SIZE];
    var x := Unpacked(EntryAt(b', n));
    assert x == o <==> Arrives(o, g, |wire|) by { ArrivesHere(g, b, n, msgs, wire, o); }
    assert AllContents(msgs) + Entries(b', n + 1) == AllContents(msgs) + Entries(b, n) + [x];
    FaithfulSnoc(AllContents(msgs) + Entries(b, n), wire, g, x, o);
  }

  lemma ArrivesHere(g: seq<byte>, b: seq<byte>, n: nat, msgs: seq<Message>, wire: seq<Object>, o: Object)
    requires Sending(g, b, n, msgs, wire) && n < PER_BATCH
    ensures var at := 1 + ENTRY_SIZE * n;
            Arrives(o, g, |wire|) <==> EntryArrives(o, b[at + FIELD_SIZE], b[at + 2 * FIELD_SIZE])
  {
    hide Entries, AllContents;
    if msgs != [] { assert |wire| >= PER_BATCH; }
  }

  lemma FaithfulSnoc(read: seq<Object>, wire: seq<Object>, g: seq<byte>, x: Object, o: Object)
    requires |g| == RECORD_LENGTH && Faithful(read, wire, g) && (x == o <==> Arrives(o, g, |wire|))
    ensures Faithful(read + [x], wire + [o], g)
  {
    hide Arrives;
  }

  /** strncpy into the field at the offset. */
  method CopyName(buff: array<byte>, at: nat, name: Name)
    requires at + FIELD_SIZE <= buff.Length
    modifies buff
    ensures buff[at..at + FIELD_SIZE] == Copied(name, old(buff[at + FIELD_SIZE - 1]))
    ensures forall x :: 0 <= x < buff.Length && !(at <= x < at + FIELD_SIZE) ==> buff[x] == old(buff[x])
  {
    ghost var last := buff[at + FIELD_SIZE - 1];
    for i := 0 to FIELD_SIZE - 1
      invariant forall x :: 0 <= x < i ==> buff[at + x] == Copied(name, last)[x]
      invariant forall x :: 0 <= x < buff.Length && !(at <= x < at + i) ==> buff[x] == old(buff[x])
    {
      buff[at + i] := if i < |name| then name[i] else 0;
    }
    forall x | 0 <= x < FIELD_SIZE ensures buff[at..at + FIELD_SIZE][x] == Copied(name, last)[x] {}
  }

  method PackEntry(buff: array<byte>, at: nat, o: Object)
    requires at + ENTRY_SIZE <= buff.Length
    modifies buff
    ensures buff[at..at + ENTRY_SIZE] == Packed(o, old(buff[at + FIELD_SIZE]), old(buff[at + 2 * FIELD_SIZE]))
    ensures forall x :: 0 <= x < buff.Length && !(at <= x < at + ENTRY_SIZE) ==> buff[x] == old(buff[x])
  {
    hide Copied, Code;
    buff[at] := Code(o.kind);
    CopyName(buff, at + 1, o.first);
    ghost var f := buff[at + 1..at + 1 + FIELD_SIZE];
    CopyName(buff, at + 1 + FIELD_SIZE, o.second);
    ghost var s := buff[at + 1 + FIELD_SIZE..at + ENTRY_SIZE];
    assert buff[at + 1..at + 1 + FIELD_SIZE] == f;
    assert buff[at..at + ENTRY_SIZE] == [Code(o.kind)] + f + s;
  }

  /** broadcast_and_reload_buffer */
  method Reload(buff: array<byte>, len: nat, msgs: seq<Message>, ghost g: seq<byte>, ghost n: nat, ghost wire: seq<Object>)
      returns (len': nat, msgs': seq<Message>, ghost n': nat)
    requires buff.Length == RECORD_LENGTH && len == 1 + ENTRY_SIZE * n && Sending(g, buff[..], n, msgs, wire)
    modifies buff
    ensures len' == 1 + ENTRY_SIZE * n' && n' < PER_BATCH && Sending(g, buff[..], n', msgs', wire)
  {
    hide Sending;
    BatchSize(g, buff[..], n, msgs, wire);
    len', msgs', n' := len, msgs, n;
    if len + ENTRY_SIZE > RECORD_LENGTH {
      msgs' := msgs + [Message(buff[..], len)];
      Reloaded(g, buff[..], msgs, wire, Message(buff[..], len));
      for i := 0 to RECORD_LENGTH
        invariant forall x :: 0 <= x < i ==> buff[x] == 0
      {
        buff[i] := 0;
      }
      assert buff[..] == Zeros(RECORD_LENGTH);
      len', n' := 1, 0;
    }
  }

  method SendEntry(buff: array<byte>, len: nat, msgs: seq<Message>, o: Object, ghost g: seq<byte>, ghost n: nat, ghost wire: seq<Object>)
      returns (len': nat, msgs': seq<Message>, ghost n': nat)
    requires buff.Length == RECORD_LENGTH && NameOk(o.first) && NameOk(o.second)
    requires len == 1 + ENTRY_SIZE * n && Sending(g, buff[..], n, msgs, wire)
    modifies buff
    ensures len' == 1 + ENTRY_SIZE * n' && Sending(g, buff[..], n', msgs', wire + [o])
  {
    hide Sending, Packed;
    len', msgs', n' := Reload(buff, len, msgs, g, n, wire);
    ghost var b := buff[..];
    RoomForEntry(n');
    PackEntry(buff, len', o);
    assert b[len' + FIELD_SIZE] == b[1 + ENTRY_SIZE * n' + FIELD_SIZE];
    Appended(g, b, buff[..], n', msgs', wire, o);
    len', n' := len' + ENTRY_SIZE, n' + 1;
  }

  lemma WireEmpty()
    ensures Wire([]) == []
  {
  }

  lemma WireStep(os: seq<Object>, i: nat)
    requires i < |os|
    ensures Wire(os[..i + 1]) == Wire(os[..i]) + SentAs(os[i])
    ensures SentAs(os[i]) == [] ==> Wire(os[..i + 1]) == Wire(os[..i])
  {
    assert os[..i + 1][..i] == os[..i];
  }

  /** invalidate_remote_dd; the buffer is not initialised. */
  method InvalidateRemote(os: seq<Object>, buff: array<byte>) returns (msgs: seq<Message>)
    requires buff.Length == RECORD_LENGTH && NamesOk(os)
    modifies buff
    ensures |os| >= RESET_THRESHOLD ==> |msgs| == 1 && msgs[0].len == 0
    ensures |os| < RESET_THRESHOLD ==>
              && msgs != [] && MessagesOk(msgs) && msgs[|msgs| - 1].buff[0] == END_MARK
              && Faithful(AllContents(msgs), Wire(os), old(buff[..]))
  {
    hide Sending, Wire, Faithful, AllContents, MessageOk;
    if |os| >= RESET_THRESHOLD { return [Message(buff[..], 0)]; }
    ghost var g: seq<byte>, n: nat := buff[..], 0;
    var len: nat := 1;
    msgs := [];
    NothingSent(g);
    assert os[..0] == [];
    WireEmpty();
    for i := 0 to |os|
      invariant len == 1 + ENTRY_SIZE * n && Sending(g, buff[..], n, msgs, Wire(os[..i]))
    {
      var o := os[i];
      WireStep(os, i);
      if TwoNames(o.kind) {
        len, msgs, n := SendEntry(buff, len, msgs, o, g, n, Wire(os[..i]));
      } else if OneName(o.kind) {
        len, msgs, n := SendEntry(buff, len, msgs, o.(second := []), g, n, Wire(os[..i]));
      }
    }
    assert os[..|os|] == os;
    ghost var b := buff[..];
    buff[0] := END_MARK;
    LastBatch(g, b, buff[..], n, msgs, Wire(os));
    msgs := msgs + [Message(buff[..], len)];
  }

  lemma NothingSent(g: seq<byte>)
    requires |g| == RECORD_LENGTH
    ensures Sending(g, g, 0, [], [])
  {
  }

  lemma RoomForEntry(n: nat)
    requires n < PER_BATCH
    ensures 1 + ENTRY_SIZE * n + ENTRY_SIZE <= RECORD_LENGTH
  {
  }

  lemma LastBatch(g: seq<byte>, b: seq<byte>, b': seq<byte>, n: nat, msgs: seq<Message>, wire: seq<Object>)
    requires Sending(g, b, n, msgs, wire) && |b'| == |b| && forall x :: 0 < x < |b| ==> b'[x] == b[x]
    ensures MessagesOk(msgs + [Message(b', 1 + ENTRY_SIZE * n)])
    ensures Faithful(AllContents(msgs + [Message(b', 1 + ENTRY_SIZE * n)]), wire, g)
  {
    hide Faithful, Entries;
    var m := Message(b', 1 + ENTRY_SIZE * n);
    EntriesFrame(b, b', n);
    assert (msgs + [m])[..|msgs|] == msgs;
    assert Contents(m) == Entries(b', n);
  }

  /** The receiver reads what was sent if and only if every entry arrives. */
  lemma WireReadBack(read: seq<Object>, wire: seq<Object>, g: seq<byte>)
    requires |g| == RECORD_LENGTH && Faithful(read, wire, g)
    ensures read == wire <==> forall j :: 0 <= j < |wire| ==> Arrives(wire[j], g, j)
  {
    hide Arrives;
  }

  /** Names of up to 126 bytes arrive whatever the buffer held, and names of up to 127 bytes
      in a buffer of zeros or in a later batch. */
  lemma AlwaysArrives(o: Object, g: seq<byte>, j: nat)
    requires |g| == RECORD_LENGTH && |o.first| < FIELD_SIZE && |o.second| < FIELD_SIZE
    requires (|o.first| < 127 && |o.second| < 127) || j >= PER_BATCH || forall i :: 0 <= i < |g| ==> g[i] == 0
    ensures Arrives(o, g, j)
  {
  }

  /** Behind a zero byte a name of 128 bytes or more never arrives. */
  lemma TruncatedLost(name: Name, rest: seq<byte>)
    requires NameOk(name) && |name| >= FIELD_SIZE
    ensures !Carried(name, 0, rest)
  {
  }

  /** A second name of 128 bytes or more is never sure to arrive: the read leaves the block. */
  lemma LongSecondLost(o: Object, l1: byte, l2: byte)
    requires NameOk(o.second) && |o.second| >= FIELD_SIZE
    ensures !EntryArrives(o, l1, l2)
  {
    if |o.second| > FIELD_SIZE { assert o.second[FIELD_SIZE..][0] == o.second[FIELD_SIZE]; }
  }

  /** A schema of 128 bytes arrives if the byte its copy leaves alone is its last one. */
  lemma LongNameByChance(name: Name)
    requires |name| == FIELD_SIZE
    ensures EntryArrives(Object(Schema, name, []), name[127], 0)
  {
    assert Copied([], 0)[0] == 0;
    assert name[FIELD_SIZE..] == [];
  }

  /** One table with a database name of 127 bytes is lost when the buffer holds ones. */
  lemma LongNameLost(o: Object, g: seq<byte>)
    requires |g| == RECORD_LENGTH && (forall i :: 0 <= i < |g| ==> g[i] == 1) && o.kind.Table? && |o.first| == 127
    ensures !Arrives(Wire([o])[0], g, 0)
  {
    assert Wire([]) == [];
    assert [o][..0] == [];
    assert Wire([o]) == [o];
  }

  // ----- the receiver

  /** Invalidations done, and routines and schemas waiting for the last batch. */
  datatype Cache = Cache(done: seq<Object>, routines: seq<Object>, schemas: seq<Object>)

  function Handled(c: Cache, o: Object): Cache
  {
    if o.kind.Table? || o.kind.Tablespace? then c.(done := c.done + [o])
    else if o.kind.Procedure? || o.kind.StoredFunction? then c.(routines := c.routines + [o])
    else if o.kind.Schema? then c.(schemas := c.schemas + [o])
    else c
  }

  function HandledAll(c: Cache, os: seq<Object>): Cache
  {
    if os == [] then c else Handled(HandledAll(c, os[..|os| - 1]), os[|os| - 1])
  }

  function Released(c: Cache): Cache { Cache(c.done + c.routines + c.schemas, [], []) }

  function After(c: Cache, m: Message): Cache
    requires MessageOk(m)
  {
    var c' := HandledAll(c, Contents(m));
    if m.buff[0] == END_MARK then Released(c') else c'
  }

  function AfterAll(c: Cache, ms: seq<Message>): Cache
    requires MessagesOk(ms)
  {
    if ms == [] then c else After(AfterAll(c, ms[..|ms| - 1]), ms[|ms| - 1])
  }

  class Receiver {
    var cache: Cache
    var wasReset: bool

    constructor ()
      ensures cache == Cache([], [], []) && !wasReset
    {
      cache, wasReset := Cache([], [], []), false;
    }

    /** ctc_invalidate_mysql_dd_cache_impl for a message of another node. */
    method Receive(m: Message)
      requires m.len == 0 || MessageOk(m)
      modifies this
      ensures m.len == 0 ==> wasReset && cache == old(cache)
      ensures m.len > 0 ==> cache == After(old(cache), m) && wasReset == old(wasReset)
    {
      if m.len == 0 {
        wasReset := true;
        return;
      }
      hide Entries, HandledAll, Handled, Unpacked, Released;
      var isEnd := m.buff[0] == END_MARK;
      NoEntry(cache, m);
      var offset := 1;
      ghost var n: nat := 0;
      while offset < m.len
        invariant offset == 1 + ENTRY_SIZE * n <= m.len && wasReset == old(wasReset)
        invariant cache == HandledAll(old(cache), Entries(m.buff, n))
      {
        NextEntry(m, n);
        var o := Unpacked(m.buff[offset..offset + ENTRY_SIZE]);
        HandledOne(old(cache), Entries(m.buff, n), o);
        cache := Handled(cache, o);
        offset, n := offset + ENTRY_SIZE, n + 1;
      }
      LastEntry(m, n);
      if isEnd {
        ReleaseRoutineAndSchema();
      }
    }

    method ReleaseRoutineAndSchema()
      modifies this`cache
      ensures cache == Released(old(cache))
    {
      var done := cache.done;
      for i := 0 to |cache.routines|
        invariant cache == old(cache) && done == cache.done + cache.routines[..i]
      {
        done := done + [cache.routines[i]];
      }
      assert done == cache.done + cache.routines;
      for i := 0 to |cache.schemas|
        invariant cache == old(cache) && done == cache.done + cache.routines + cache.schemas[..i]
      {
        done := done + [cache.schemas[i]];
      }
      assert cache.schemas[..|cache.schemas|] == cache.schemas;
      cache := Cache(done, [], []);
    }
  }

  lemma NoEntry(c: Cache, m: Message)
    requires MessageOk(m)
    ensures HandledAll(c, Entries(m.buff, 0)) == c
  {
  }

  lemma LastEntry(m: Message, n: nat)
    requires MessageOk(m) && 1 + ENTRY_SIZE * n == m.len
    ensures Contents(m) == Entries(m.buff, n)
  {
  }

  lemma NextEntry(m: Message, n: nat)
    requires MessageOk(m) && 1 + ENTRY_SIZE * n < m.len
    ensures 1 + ENTRY_SIZE * (n + 1) <= m.len
    ensures EntryAt(m.buff, n) == m.buff[1 + ENTRY_SIZE * n..1 + ENTRY_SIZE * n + ENTRY_SIZE]
    ensures Entries(m.buff, n + 1) == Entries(m.buff, n) + [Unpacked(EntryAt(m.buff, n))]
  {
  }

  lemma HandledOne(c: Cache, os: seq<Object>, o: Object)
    ensures HandledAll(c, os + [o]) == Handled(HandledAll(c, os), o)
  {
    assert (os + [o])[..|os|] == os;
  }

  // ----- exactly once

  predicate Invalidates(k: Kind)
  {
    k.Table? || k.Tablespace? || k.Procedure? || k.StoredFunction? || k.Schema?
  }

  /** The objects that a receiver has something to invalidate for. */
  function Relevant(os: seq<Object>): seq<Object>
  {
    if os == [] then []
    else Relevant(os[..|os| - 1]) + if Invalidates(os[|os| - 1].kind) then [os[|os| - 1]] else []
  }

  ghost function Total(c: Cache): multiset<Object>
  {
    multiset(c.done) + multiset(c.routines) + multiset(c.schemas)
  }

  lemma {:induction false} HandledTotal(c: Cache, os: seq<Object>)
    ensures Total(HandledAll(c, os)) == Total(c) + multiset(Relevant(os))
  {
    if os != [] {
      var front, o := os[..|os| - 1], os[|os| - 1];
      HandledTotal(c, front);
      var more := if Invalidates(o.kind) then multiset{o} else multiset{};
      assert multiset(Relevant(os)) == multiset(Relevant(front)) + more;
      hide HandledAll, Relevant, Total;
      OneHandled(HandledAll(c, front), o);
      Regrouped(Total(c), multiset(Relevant(front)), more);
      LastHandled(c, os);
    }
  }

  lemma LastHandled(c: Cache, os: seq<Object>)
    requires os != []
    ensures HandledAll(c, os) == Handled(HandledAll(c, os[..|os| - 1]), os[|os| - 1])
  {
  }

  lemma Regrouped(a: multiset<Object>, b: multiset<Object>, c: multiset<Object>)
    ensures (a + b) + c == a + (b + c)
  {
  }

  /** An object that is handled joins one of the three lists, or none. */
  lemma OneHandled(c: Cache, o: Object)
    ensures Total(Handled(c, o)) == Total(c) + if Invalidates(o.kind) then multiset{o} else multiset{}
  {
    if o.kind.Table? || o.kind.Tablespace? {
      OneMore(c.done, o, multiset(c.routines), multiset(c.schemas));
    } else if o.kind.Procedure? || o.kind.StoredFunction? {
      OneMore(c.routines, o, multiset(c.done), multiset(c.schemas));
    } else if o.kind.Schema? {
      OneMore(c.schemas, o, multiset(c.done), multiset(c.routines));
    }
  }

  lemma OneMore(s: seq<Object>, o: Object, a: multiset<Object>, b: multiset<Object>)
    ensures multiset(s + [o]) == multiset(s) + multiset{o}
    ensures multiset(s + [o]) + a + b == multiset(s) + a + b + multiset{o}
    ensures a + multiset(s + [o]) + b == a + multiset(s) + b + multiset{o}
    ensures a + b + multiset(s + [o]) == a + b + multiset(s) + multiset{o}
  {
  }

  lemma {:induction false} RelevantConcat(os: seq<Object>, ps: seq<Object>)
    ensures Relevant(os + ps) == Relevant(os) + Relevant(ps)
  {
    if ps == [] {
      assert os + ps == os;
    } else {
      var n := |ps| - 1;
      RelevantConcat(os, ps[..n]);
      assert (os + ps)[..|os + ps| - 1] == os + ps[..n];
    }
  }

  lemma {:induction false} AllTotal(c: Cache, ms: seq<Message>)
    requires MessagesOk(ms)
    ensures Total(AfterAll(c, ms)) == Total(c) + multiset(Relevant(AllContents(ms)))
  {
    if ms != [] {
      var n := |ms| - 1;
      AllTotal(c, ms[..n]);
      HandledTotal(AfterAll(c, ms[..n]), Contents(ms[n]));
      RelevantConcat(AllContents(ms[..n]), Contents(ms[n]));
    }
  }

  /** By the end of the last batch, each relevant entry was invalidated once and nothing waits,
      wherever the batches were split and whatever the first bytes of the earlier ones. */
  lemma {:induction false} ExactlyOnce(ms: seq<Message>)
    requires MessagesOk(ms) && ms != [] && ms[|ms| - 1].buff[0] == END_MARK
    ensures var c := AfterAll(Cache([], [], []), ms);
            c.routines == [] && c.schemas == [] && multiset(c.done) == multiset(Relevant(AllContents(ms)))
  {
    hide HandledAll, Relevant, AllContents, AfterAll, Total;
    var empty := Cache([], [], []);
    AllTotal(empty, ms);
    NothingWaits(empty, ms);
    OnlyDone(empty);
    OnlyDone(AfterAll(empty, ms));
  }

  lemma NothingWaits(c: Cache, ms: seq<Message>)
    requires MessagesOk(ms) && ms != [] && ms[|ms| - 1].buff[0] == END_MARK
    ensures AfterAll(c, ms).routines == [] && AfterAll(c, ms).schemas == []
  {
    hide HandledAll;
  }

  lemma OnlyDone(c: Cache)
    requires c.routines == [] && c.schemas == []
    ensures Total(c) == multiset(c.done)
  {
  }

  /** What a node has to invalidate for an object: tables and routines by both names, schemas
      and tablespaces by one. */
  function ToInvalidate(o: Object): multiset<Object>
  {
    match o.kind
    case Table => multiset{o}
    case Procedure => multiset{o}
    case StoredFunction => multiset{o}
    case Schema => multiset{o.(second := [])}
    case Tablespace => multiset{o.(second := [])}
    case _ => multiset{}
  }

  function Touched(os: seq<Object>): multiset<Object>
  {
    if os == [] then multiset{} else Touched(os[..|os| - 1]) + ToInvalidate(os[|os| - 1])
  }

  /** It is all on the wire, and nothing else on the wire matters. */
  lemma {:induction false} TouchedSent(os: seq<Object>)
    ensures multiset(Relevant(Wire(os))) == Touched(os)
  {
    if os != [] {
      var front, o := os[..|os| - 1], os[|os| - 1];
      TouchedSent(front);
      assert Wire(os) == Wire(front) + SentAs(o);
      hide Wire, Relevant, SentAs, ToInvalidate;
      RelevantConcat(Wire(front), SentAs(o));
      RelevantOne(o);
    }
  }

  lemma RelevantSingle(o: Object)
    ensures multiset(Relevant([o])) == if Invalidates(o.kind) then multiset{o} else multiset{}
    ensures Relevant([]) == []
  {
    assert [o][..0] == [];
  }

  lemma RelevantOne(o: Object)
    ensures multiset(Relevant(SentAs(o))) == ToInvalidate(o)
  {
    RelevantSingle(o);
    RelevantSingle(o.(second := []));
    hide Relevant;
    assert SentAs(o) == [o] || SentAs(o) == [o.(second := [])] || SentAs(o) == [];
  }

  /** A whole broadcast to a node with an empty waiting list. */
  method Broadcast(os: seq<Object>, buff: array<byte>) returns (r: Receiver)
    requires buff.Length == RECORD_LENGTH && NamesOk(os)
    requires forall j :: 0 <= j < |Wire(os)| ==> Arrives(Wire(os)[j], buff[..], j)
    modifies buff
    ensures |os| >= RESET_THRESHOLD ==> r.wasReset
    ensures |os| < RESET_THRESHOLD ==>
              && r.cache.routines == [] && r.cache.schemas == []
              && multiset(r.cache.done) == Touched(os)
  {
    ghost var g := buff[..];
    r := new Receiver();
    var msgs := InvalidateRemote(os, buff);
    if |os| >= RESET_THRESHOLD {
      r.Receive(msgs[0]);
      return;
    }
    hide Arrives, Wire, Relevant, After, AllContents;
    for i := 0 to |msgs|
      invariant r.cache == AfterAll(Cache([], [], []), msgs[..i])
    {
      assert msgs[..i + 1][..i] == msgs[..i];
      r.Receive(msgs[i]);
    }
    assert msgs[..|msgs|] == msgs;
    ExactlyOnce(msgs);
    WireReadBack(AllContents(msgs), Wire(os), g);
    TouchedSent(os);
  }
}