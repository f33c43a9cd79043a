/** The cursors a session owes the engine: one per handler in use, those a handler has
    replaced, and the arrays in which they are handed back to be freed. The engine may give
    out an address again once it was freed. */
module CursorLedger {

  const SESSION_CURSOR_NUM: nat := 16384
  const INVALID_VALUE64: int := 0xFFFF_FFFF_FFFF_FFFF

  ghost predicate Distinct(s: seq<int>)
  {
    forall i, j :: 0 <= i < j < |s| ==> s[i] != s[j]
  }

  ghost predicate Injective(m: map<int, int>)
  {
    forall h, k :: h in m && k in m && m[h] == m[k] ==> h == k
  }

  ghost predicate Active(m: map<int, int>, c: int)
  {
    exists h :: h in m && m[h] == c
  }

  /** The cursors a session holds: one per handler, and those waiting to be freed. */
  datatype Book = Book(active: map<int, int>, invalid: seq<int>, hasInvalid: bool) {
    /** No cursor is held twice. */
    ghost predicate Sound()
    {
      && Injective(active) && Distinct(invalid) && (!hasInvalid ==> invalid == [])
      && forall c :: c in invalid ==> !Active(active, c)
    }

    ghost predicate Holds(c: int) { Active(active, c) || c in invalid }
  }

  const EMPTY := Book(map[], [], false)

  /** Every opening of a cursor is held now or was freed, once. */
  ghost predicate Balanced(b: Book, freed: multiset<int>, openings: multiset<int>)
  {
    b.Sound() && forall c :: openings[c] == freed[c] + if b.Holds(c) then 1 else 0
  }

  // ----- one operation

  datatype Operation =
    | Open(handler: int, addr: int)
    | EndTransaction
    | EndStatement(inTransaction: bool, maxCursors: int)

  /** The engine gives the handler's own cursor again, or one that the session does not hold. */
  ghost predicate Allowed(b: Book, op: Operation)
  {
    op.Open? && op.addr != INVALID_VALUE64 ==> Current(b, op) || !b.Holds(op.addr)
  }

  predicate Current(b: Book, op: Operation)
    requires op.Open?
  {
    op.handler in b.active && b.active[op.handler] == op.addr
  }

  /** The cursors an operation opens. */
  function Opened(b: Book, op: Operation): multiset<int>
  {
    if op.Open? && op.addr != INVALID_VALUE64 && !Current(b, op) then multiset{op.addr} else multiset{}
  }

  function Replaced(b: Book, h: int, addr: int): Book
  {
    if h in b.active then Book(b.active[h := addr], b.invalid + [b.active[h]], true)
    else b.(active := b.active[h := addr])
  }

  /** Enough cursors for the waiting ones to be freed in advance. */
  predicate Full(b: Book)
  {
    b.hasInvalid && |b.active| + |b.invalid| >= SESSION_CURSOR_NUM
  }

  /** What an operation leaves in the book. */
  function Next(b: Book, op: Operation): Book
  {
    match op
    case Open(h, addr) =>
      if addr == INVALID_VALUE64 || Current(b, op) then b
      else
        var b' := Replaced(b, h, addr);
        if Full(b') then b'.(invalid := []) else b'
    case EndTransaction => b.(active := map[], invalid := [])
    case EndStatement(inTransaction, maxCursors) =>
      if inTransaction && |b.active| + |b.invalid| > maxCursors then b.(active := map[], invalid := []) else b
  }

  lemma Opening(b: Book, freed: multiset<int>, openings: multiset<int>, h: int, addr: int)
    requires Balanced(b, freed, openings) && !b.Holds(addr)
    ensures Balanced(Replaced(b, h, addr), freed, openings + multiset{addr})
  {
    var b' := Replaced(b, h, addr);
    assert h in b'.active && b'.active[h] == addr;
    forall c | Active(b'.active, c) ensures c == addr || Active(b.active, c) {
      var k :| k in b'.active && b'.active[k] == c;
    }
    forall c | Active(b.active, c) ensures Active(b'.active, c) || (h in b.active && c == b.active[h]) {
      var k :| k in b.active && b.active[k] == c;
      if k != h { assert k in b'.active && b'.active[k] == c; }
    }
    if h in b.active {
      assert Active(b.active, b.active[h]);
      forall k | k in b'.active ensures b'.active[k] != b.active[h] {}
    }
  }

  /** Handing back the waiting cursors and, unless left is set, the active ones. */
  lemma Released(b: Book, freed: multiset<int>, openings: multiset<int>, left: bool, cs: seq<int>)
    requires Balanced(b, freed, openings) && Distinct(cs)
    requires forall c :: c in cs <==> c in b.invalid || (!left && Active(b.active, c))
    ensures Balanced(Book(if left then b.active else map[], [], b.hasInvalid), freed + multiset(cs), openings)
  {
    forall c ensures multiset(cs)[c] == if c in cs then 1 else 0 {
      DistinctOnce(cs, c);
    }
  }

  /** Counted over the three places, every opening of a cursor is in one of them. */
  lemma InOnePlace(b: Book, freed: multiset<int>, openings: multiset<int>, c: int)
    requires Balanced(b, freed, openings)
    ensures openings[c] == freed[c] + multiset(b.invalid)[c] + if Active(b.active, c) then 1 else 0
    ensures forall h, k :: h in b.active && k in b.active && b.active[h] == c && b.active[k] == c ==> h == k
  {
    DistinctOnce(b.invalid, c);
  }

  lemma {:induction false} DistinctOnce(s: seq<int>, c: int)
    requires Distinct(s)
    ensures multiset(s)[c] == if c in s then 1 else 0
  {
    if s != [] {
      var n := |s| - 1;
      assert s == s[..n] + [s[n]];
      DistinctOnce(s[..n], c);
      assert s[n] !in s[..n];
    }
  }

  lemma Joined(s: seq<int>, t: seq<int>)
    requires Distinct(s) && Distinct(t) && forall c :: c in s ==> c !in t
    ensures Distinct(s + t) && forall c :: c in s + t <==> c in s || c in t
  {
    forall i, j | 0 <= i < j < |s + t| ensures (s + t)[i] != (s + t)[j] {
      if i < |s| <= j { assert s[i] in s && t[j - |s|] in t; }
    }
  }

  // ----- a run of operations

  /** Each operation is allowed where it happens. */
  ghost predicate Legal(b: Book, ops: seq<Operation>)
    decreases |ops|
  {
    ops == [] || (Allowed(b, ops[0]) && Legal(Next(b, ops[0]), ops[1..]))
  }

  /** All openings of a run. */
  ghost function Openings(b: Book, ops: seq<Operation>): multiset<int>
    decreases |ops|
  {
    if ops == [] then multiset{} else Opened(b, ops[0]) + Openings(Next(b, ops[0]), ops[1..])
  }

  // ----- when cursors are freed

  /** The book at the end of a run. */
  function After(b: Book, ops: seq<Operation>): Book
    decreases |ops|
  {
    if ops == [] then b else After(Next(b, ops[0]), ops[1..])
  }

  function Count(b: Book): nat { |b.active| + |b.invalid| }

  /** No transaction ends in the run, and each statement in one may leave n cursors open. */
  predicate Quiet(ops: seq<Operation>, n: nat)
  {
    forall i :: 0 <= i < |ops| ==>
      match ops[i]
      case Open(_, _) => true
      case EndTransaction => false
      case EndStatement(inTransaction, maxCursors) => inTransaction ==> n <= maxCursors
  }

  lemma OpenKeeps(b: Book, h: int, addr: int)
    requires Count(b) + 1 < SESSION_CURSOR_NUM
    ensures var b' := Next(b, Open(h, addr));
            && Count(b') <= Count(b) + 1
            && (forall c :: b.Holds(c) ==> b'.Holds(c))
            && (addr != INVALID_VALUE64 ==> b'.Holds(addr))
  {
    var b' := Next(b, Open(h, addr));
    if b' != b {
      assert b' == Replaced(b, h, addr) && b'.active[h] == addr;
      MapUpdateSize(b.active, h, addr);
      forall c | b.Holds(c) ensures b'.Holds(c) {
        if c !in b.invalid {
          var k :| k in b.active && b.active[k] == c;
          if k != h { assert k in b'.active && b'.active[k] == c; }
        }
      }
    }
  }

  lemma MapUpdateSize(m: map<int, int>, h: int, c: int)
    ensures |m[h := c]| == |m| + if h in m then 0 else 1
  {
    KeyCount(m);
    KeyCount(m[h := c]);
    assert m[h := c].Keys == m.Keys + {h};
  }

  /** Below the limits no cursor is freed before the transaction ends: at the end of the run
      the session still holds all it held or has opened. */
  lemma {:induction false} KeptOpen(b: Book, ops: seq<Operation>, n: nat)
    requires Quiet(ops, n) && Count(b) + |ops| <= n < SESSION_CURSOR_NUM
    ensures forall c :: b.Holds(c) || Openings(b, ops)[c] > 0 ==> After(b, ops).Holds(c)
    decreases |ops|
  {
    if ops != [] {
      var b', rest := Next(b, ops[0]), ops[1..];
      forall i | 0 <= i < |rest| ensures rest[i] == ops[i + 1] {}
      if ops[0].Open? { OpenKeeps(b, ops[0].handler, ops[0].addr); } else { assert b' == b; }
      hide Next, Book.Holds;
      KeptOpen(b', rest, n);
    }
  }

  /** Cursors wait only while there are fewer than 16384 in all. */
  predicate Bounded(b: Book)
  {
    (!b.hasInvalid ==> b.invalid == []) && (b.invalid == [] || Count(b) < SESSION_CURSOR_NUM)
  }

  lemma {:induction false} WaitingBounded(b: Book, ops: seq<Operation>)
    requires Bounded(b)
    ensures Bounded(After(b, ops))
    decreases |ops|
  {
    if ops != [] { WaitingBounded(Next(b, ops[0]), ops[1..]); }
  }

  class Session {
    var book: Book
    ghost var freed: multiset<int>
    ghost var openings: multiset<int>

    ghost predicate Valid()
      reads this
    {
      Balanced(book, freed, openings)
    }

    constructor ()
      ensures Valid() && book == EMPTY && freed == openings == multiset{}
    {
      book, freed, openings := EMPTY, multiset{}, multiset{};
    }

    /** ctc_copy_cursors_to_free: every slot of the array is filled, with each invalid cursor
        and, unless left is set, each active one. */
    method CopyCursorsToFree(cursors: array<int>, left: bool)
      requires book.Sound() && cursors.Length == |book.invalid| + if left then 0 else |book.active|
      modifies this`book, cursors
      ensures book == Book(if left then old(book).active else map[], [], old(book).hasInvalid)
      ensures Distinct(cursors[..])
      ensures forall c :: c in cursors[..] <==> c in old(book).invalid || (!left && Active(old(book).active, c))
    {
      var n, invalid := |book.invalid|, book.invalid;
      for i := 0 to n
        invariant book == old(book)
        invariant forall k :: 0 <= k < i ==> cursors[k] == invalid[k]
      {
        cursors[i] := invalid[i];
      }
      assert cursors[..n] == invalid;
      book := book.(invalid := []);
      if !left {
        CopyActive(cursors, n);
        Joined(invalid, cursors[n..]);
        assert cursors[..] == invalid + cursors[n..];
        book := book.(active := map[]);
      } else {
        assert cursors[..] == invalid;
      }
    }

    /** The active cursors, in the map's own order, from start on. */
    method CopyActive(cursors: array<int>, start: nat)
      requires Injective(book.active) && cursors.Length == start + |book.active|
      modifies cursors
      ensures cursors[..start] == old(cursors[..start]) && Distinct(cursors[start..])
      ensures forall c :: c in cursors[start..] <==> Active(book.active, c)
    {
      var active := book.active;
      var idx, todo := start, active.Keys;
      KeyCount(active);
      CopyStart(active);
      assert cursors[start..idx] == [];
      while todo != {}
        invariant start <= idx && idx + |todo| == cursors.Length && todo <= active.Keys
        invariant cursors[..start] == old(cursors[..start])
        invariant Copied(active, todo, cursors[start..idx])
        decreases |todo|
      {
        SomeMember(todo);
        var h :| h in todo;
        CopyStep(active, todo, h, cursors[start..idx]);
        cursors[idx] := active[h];
        assert cursors[start..idx + 1] == cursors[start..idx] + [active[h]];
        idx, todo := idx + 1, todo - {h};
      }
      CopyDone(active, todo, cursors[start..idx]);
      assert cursors[start..idx] == cursors[start..];
    }

    /** update_sess_ctx_cursor_by_tch: the handler's cursor is now addr. */
    method Register(handler: int, addr: int)
      requires Valid() && Allowed(book, Open(handler, addr))
      modifies this
      ensures Valid() && book == Next(old(book), Open(handler, addr))
      ensures openings == old(openings) + Opened(old(book), Open(handler, addr)) && old(freed) <= freed
    {
      if addr == INVALID_VALUE64 { return; }
      var active, invalid, hasInvalid := book.active, book.invalid, book.hasInvalid;
      if handler in active {
        var current := active[handler];
        if current == addr { return; }
        hasInvalid := true;
        invalid := invalid + [current];
      }
      Opening(book, freed, openings, handler, addr);
      book := Book(active[handler := addr], invalid, hasInvalid);
      openings := openings + multiset{addr};
      if !hasInvalid { return; }
      if |book.active| + |book.invalid| >= SESSION_CURSOR_NUM {
        ghost var before := book;
        var cursors := new int[|book.invalid|];
        CopyCursorsToFree(cursors, true);
        Released(before, freed, openings, true, cursors[..]);
        freed := freed + multiset(cursors[..]);
      }
    }

    /** The cursors that commit, rollback and rollback to savepoint hand back. */
    method FreeAll()
      requires Valid()
      modifies this
      ensures Valid() && book == Next(old(book), EndTransaction)
      ensures openings == old(openings) && old(freed) <= freed
    {
      var total := |book.active| + if book.hasInvalid then |book.invalid| else 0;
      var cursors := new int[total];
      CopyCursorsToFree(cursors, false);
      Released(old(book), freed, openings, false, cursors[..]);
      freed := freed + multiset(cursors[..]);
    }

    /** ctc_free_cursors_no_autocommit, at the end of a statement. */
    method FreeCursorsNoAutocommit(inTransaction: bool, maxCursors: int)
      requires Valid()
      modifies this
      ensures Valid() && book == Next(old(book), EndStatement(inTransaction, maxCursors))
      ensures openings == old(openings) && old(freed) <= freed
      ensures inTransaction && maxCursors >= 0 ==> |book.active| + |book.invalid| <= maxCursors
    {
      if !inTransaction { return; }
      var total := |book.active| + if book.hasInvalid then |book.invalid| else 0;
      if total <= maxCursors { return; }
      FreeAll();
    }

    /** Any legal run of operations, closed by the end of the transaction: what was freed is
        every opening, once. */
    method Run(ops: seq<Operation>)
      requires book == EMPTY && freed == openings == multiset{} && Legal(EMPTY, ops)
      modifies this
      ensures Valid() && book.active == map[] && book.invalid == []
      ensures freed == Openings(EMPTY, ops)
    {
      hide Balanced, Legal, Openings, Next, Allowed;
      assert ops[0..] == ops;
      AtStart();
      for i := 0 to |ops|
        invariant Valid() && Legal(book, ops[i..])
        invariant openings + Openings(book, ops[i..]) == Openings(EMPTY, ops)
      {
        RunStep(book, ops, i, openings);
        match ops[i] {
          case Open(h, addr) => Register(h, addr);
          case EndTransaction => FreeAll();
          case EndStatement(inTransaction, maxCursors) => FreeCursorsNoAutocommit(inTransaction, maxCursors);
        }
      }
      AtEnd(book);
      assert ops[|ops|..] == [];
      FreeAll();
      AllFreed(book, freed, openings);
    }
  }

  lemma AtStart()
    ensures Balanced(EMPTY, multiset{}, multiset{})
  {
  }

  lemma AtEnd(b: Book)
    ensures Openings(b, []) == multiset{}
    ensures Next(b, EndTransaction).active == map[] && Next(b, EndTransaction).invalid == []
  {
  }

  lemma RunStep(b: Book, ops: seq<Operation>, i: nat, openings: multiset<int>)
    requires i < |ops| && Legal(b, ops[i..])
    ensures Allowed(b, ops[i]) && Legal(Next(b, ops[i]), ops[i + 1..])
    ensures openings + Openings(b, ops[i..]) == (openings + Opened(b, ops[i])) + Openings(Next(b, ops[i]), ops[i + 1..])
  {
    assert ops[i..][0] == ops[i] && ops[i..][1..] == ops[i + 1..];
  }

  lemma AllFreed(b: Book, freed: multiset<int>, openings: multiset<int>)
    requires Balanced(b, freed, openings) && b.active == map[] && b.invalid == []
    ensures freed == openings
  {
    forall c ensures freed[c] == openings[c] {
      assert !b.Holds(c);
    }
  }

  /** A handler that asks again for its own cursor opens nothing, and an address that was freed
      may be opened again: the run frees it twice. */
  lemma ReusedAddress(h: int, addr: int)
    requires addr != INVALID_VALUE64
    ensures var ops := [Open(h, addr), Open(h, addr), EndTransaction, Open(h, addr)];
            Legal(EMPTY, ops) && Openings(EMPTY, ops) == multiset{addr, addr}
  {
    hide Legal, Openings, Next, Allowed, Opened;
    var open := Open(h, addr);
    var b1, b2 := Next(EMPTY, open), Next(EMPTY, EndTransaction);
    FirstOpening(h, addr);
    assert [open] + [] == [open] && [EndTransaction] + [open] == [EndTransaction, open];
    assert [open] + [EndTransaction, open] == [open, EndTransaction, open];
    assert [open] + [open, EndTransaction, open] == [open, open, EndTransaction, open];
    RunCons(b2, open, []);
    RunCons(b1, EndTransaction, [open]);
    RunCons(b1, open, [EndTransaction, open]);
    RunCons(EMPTY, open, [open, EndTransaction, open]);
  }

  lemma FirstOpening(h: int, addr: int)
    requires addr != INVALID_VALUE64
    ensures var open, b1 := Open(h, addr), Next(EMPTY, Open(h, addr));
            && Allowed(EMPTY, open) && Opened(EMPTY, open) == multiset{addr} && Next(EMPTY, EndTransaction) == EMPTY
            && Allowed(b1, open) && Opened(b1, open) == multiset{} && Next(b1, open) == b1
            && Next(b1, EndTransaction) == EMPTY && Allowed(b1, EndTransaction) && Opened(b1, EndTransaction) == multiset{}
  {
    assert !EMPTY.Holds(addr);
  }

  lemma RunCons(b: Book, op: Operation, rest: seq<Operation>)
    ensures Legal(b, [op] + rest) <==> Allowed(b, op) && Legal(Next(b, op), rest)
    ensures Openings(b, [op] + rest) == Opened(b, op) + Openings(Next(b, op), rest)
    ensures Legal(Next(b, op), []) && Openings(Next(b, op), []) == multiset{}
  {
    assert ([op] + rest)[1..] == rest;
  }

  /** s are the cursors of the handlers not yet to do. */
  ghost predicate Copied(m: map<int, int>, todo: set<int>, s: seq<int>)
  {
    Distinct(s) && forall c :: c in s <==> exists h :: h in m && h !in todo && m[h] == c
  }

  lemma NoMember(s: set<int>)
    requires forall h: int :: h !in s
    ensures s == {}
  {
    assert forall h <- s :: h in {};
  }

  lemma SomeMember(s: set<int>)
    requires s != {}
    ensures exists h: int :: h in s
  {
    if forall h: int :: h !in s {
      NoMember(s);
      assert false;
    }
  }

  lemma KeyCount(m: map<int, int>)
    ensures |m.Keys| == |m|
  {
  }

  lemma CopyStart(m: map<int, int>)
    ensures Copied(m, m.Keys, [])
  {
  }

  lemma CopyDone(m: map<int, int>, todo: set<int>, s: seq<int>)
    requires Copied(m, todo, s) && todo == {}
    ensures Distinct(s) && forall c :: c in s <==> Active(m, c)
  {
    forall h | h in m ensures m[h] in s {
      var c := m[h];
      assert exists k :: k in m && k !in todo && m[k] == c;
    }
  }

  lemma CopyStep(m: map<int, int>, todo: set<int>, h: int, s: seq<int>)
    requires Injective(m) && Copied(m, todo, s) && todo <= m.Keys && h in todo
    ensures Copied(m, todo - {h}, s + [m[h]])
  {
    var s', rest := s + [m[h]], todo - {h};
    if m[h] in s {
      var k :| k in m && k !in todo && m[k] == m[h];
      assert false;
    }
    forall c | c in s ensures exists k :: k in m && k !in rest && m[k] == c {
      var k :| k in m && k !in todo && m[k] == c;
      assert k !in rest;
    }
    assert h in m && h !in rest;
    forall k | k in m && k !in rest ensures m[k] in s' {
      if k != h {
        assert k !in todo && m[k] in s;
      }
    }
  }
}
