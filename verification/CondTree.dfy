/** The serialised condition: a tree of buffers linked through lists, built while any
    allocation may fail and released by one walk from the root. */
module CondTree {
  import opened Basics
  import opened Pushdown

  /** What a node does: the function types of the serialised tree. */
  datatype Op = Unset | Junction(isAnd: bool) | Applied(ft: FuncType)

  /** ctc_conds, ctc_cond_list and a constant's bytes. */
  datatype Block =
    | Node(op: Op, list: Option<nat>, data: Option<nat>, next: Option<nat>)
    | List(first: Option<nat>, last: Option<nat>, elements: nat)
    | Bytes

  const BLANK := Block.Node(Unset, None, None, None)

  // ----- the tree that hangs off a condition

  datatype Tree = Tree(id: nat, op: Op, list: Option<nat>, data: Option<nat>, kids: seq<Tree>)

  function OptId(o: Option<nat>): set<nat> { if o.Some? then {o.value} else {} }

  function Ids(t: Tree): set<nat>
    decreases t, 1
  {
    {t.id} + OptId(t.list) + OptId(t.data) + KidIds(t.kids)
  }

  function KidIds(ks: seq<Tree>): set<nat>
    decreases ks, 0
  {
    if ks == [] then {} else KidIds(ks[..|ks| - 1]) + Ids(ks[|ks| - 1])
  }

  /** No buffer occurs twice in the tree. */
  ghost predicate Distinct(t: Tree)
    decreases t, 1
  {
    && t.id !in OptId(t.list) && t.id !in OptId(t.data) && t.id !in KidIds(t.kids)
    && OptId(t.list) !! OptId(t.data) && OptId(t.list) !! KidIds(t.kids) && OptId(t.data) !! KidIds(t.kids)
    && KidsDistinct(t.kids)
  }

  ghost predicate KidsDistinct(ks: seq<Tree>)
    decreases ks, 0
  {
    ks == [] || (var n := |ks| - 1; KidsDistinct(ks[..n]) && Distinct(ks[n]) && Ids(ks[n]) !! KidIds(ks[..n]))
  }

  function IdAt(ks: seq<Tree>, i: int): Option<nat>
  {
    if 0 <= i < |ks| then Some(ks[i].id) else None
  }

  /** The live buffers hold the tree, its root linked to next; each list counts its elements. */
  ghost predicate Shape(live: map<nat, Block>, t: Tree, next: Option<nat>)
    decreases t, 1
  {
    && t.id in live && live[t.id].Node?
    && live[t.id].op == t.op && live[t.id].list == t.list && live[t.id].data == t.data && live[t.id].next == next
    && (t.data.Some? ==> t.data.value in live && live[t.data.value] == Bytes)
    && (t.list.None? ==> t.kids == [])
    && (t.list.Some? ==>
          t.list.value in live && live[t.list.value] == List(IdAt(t.kids, 0), IdAt(t.kids, |t.kids| - 1), |t.kids|))
    && Chain(live, t.kids, None)
  }

  /** Siblings linked in order, the last one to next. */
  ghost predicate Chain(live: map<nat, Block>, ks: seq<Tree>, next: Option<nat>)
    decreases ks, 0
  {
    ks == [] || (var n := |ks| - 1; Chain(live, ks[..n], Some(ks[n].id)) && Shape(live, ks[n], next))
  }

  // ----- frames

  ghost predicate Same(live: map<nat, Block>, live': map<nat, Block>, ids: set<nat>)
  {
    forall p :: p in ids && p in live ==> p in live' && live'[p] == live[p]
  }

  lemma {:induction false} ShapeIds(live: map<nat, Block>, t: Tree, next: Option<nat>)
    requires Shape(live, t, next)
    ensures Ids(t) <= live.Keys
    decreases t, 1
  {
    ChainIds(live, t.kids, None);
  }

  lemma {:induction false} ChainIds(live: map<nat, Block>, ks: seq<Tree>, next: Option<nat>)
    requires Chain(live, ks, next)
    ensures KidIds(ks) <= live.Keys
    decreases ks, 0
  {
    if ks != [] {
      ChainIds(live, ks[..|ks| - 1], Some(ks[|ks| - 1].id));
      ShapeIds(live, ks[|ks| - 1], next);
    }
  }

  lemma {:induction false} ShapeFrame(live: map<nat, Block>, live': map<nat, Block>, t: Tree, next: Option<nat>)
    requires Shape(live, t, next) && Same(live, live', Ids(t))
    ensures Shape(live', t, next)
    decreases t, 1
  {
    ChainFrame(live, live', t.kids, None);
  }

  lemma {:induction false} ChainFrame(live: map<nat, Block>, live': map<nat, Block>, ks: seq<Tree>, next: Option<nat>)
    requires Chain(live, ks, next) && Same(live, live', KidIds(ks))
    ensures Chain(live', ks, next)
    decreases ks, 0
  {
    if ks != [] {
      var n := |ks| - 1;
      ChainFrame(live, live', ks[..n], Some(ks[n].id));
      ShapeFrame(live, live', ks[n], next);
    }
  }

  /** Only the link behind the root changes. */
  lemma RootChanged(live: map<nat, Block>, live': map<nat, Block>, t: Tree, next: Option<nat>, next': Option<nat>)
    requires Shape(live, t, next) && Distinct(t) && Same(live, live', Ids(t) - {t.id})
    requires t.id in live' && live'[t.id] == live[t.id].(next := next')
    ensures Shape(live', t, next')
  {
    ChainFrame(live, live', t.kids, None);
  }

  lemma Relinked(live: map<nat, Block>, live': map<nat, Block>, ks: seq<Tree>, s: nat)
    requires ks != [] && Chain(live, ks, None) && KidsDistinct(ks)
    requires var z := ks[|ks| - 1].id;
             && Same(live, live', KidIds(ks) - {z})
             && z in live && z in live' && live[z].Node? && live'[z] == live[z].(next := Some(s))
    ensures Chain(live', ks, Some(s))
  {
    var n := |ks| - 1;
    ChainFrame(live, live', ks[..n], Some(ks[n].id));
    RootChanged(live, live', ks[n], None, Some(s));
  }

  lemma KidsSnoc(live: map<nat, Block>, ks: seq<Tree>, k: Tree, next: Option<nat>)
    ensures KidIds(ks + [k]) == KidIds(ks) + Ids(k)
    ensures KidsDistinct(ks + [k]) <==> KidsDistinct(ks) && Distinct(k) && Ids(k) !! KidIds(ks)
    ensures Chain(live, ks + [k], next) <==> Chain(live, ks, Some(k.id)) && Shape(live, k, next)
  {
    assert (ks + [k])[..|ks|] == ks;
  }

  // ----- the allocator

  class Memory {
    var live: map<nat, Block>
    var used: nat

    ghost predicate Valid()
      reads this
    {
      forall p :: p in live ==> p < used
    }

    /** ctc_alloc_buf, which may fail at any time. */
    method Alloc(b: Block) returns (p: Option<nat>)
      requires Valid()
      modifies this
      ensures Valid()
      ensures p.None? ==> live == old(live) && used == old(used)
      ensures p.Some? ==> p.value == old(used) && used == old(used) + 1 && live == old(live)[p.value := b]
    {
      if * { return None; }
      p := Some(used);
      live, used := live[used := b], used + 1;
    }

    /** ctc_free_buf of a live buffer. */
    method Free(p: nat)
      requires Valid() && p in live
      modifies this`live
      ensures Valid() && live == old(live) - {p}
    {
      live := live - {p};
    }

    method Store(p: nat, b: Block)
      requires Valid() && p in live
      modifies this`live
      ensures Valid() && live == old(live)[p := b]
    {
      live := live[p := b];
    }
  }

  /** Everything live but the condition is as before, up to what the parent does. */
  ghost predicate Kept(live: map<nat, Block>, live': map<nat, Block>, cond: nat, parent: Option<nat>)
  {
    forall p :: p in live && p != cond ==>
      p in live' && (if parent == Some(p) && live[p].Node?
                     then live'[p].Node? && live'[p] == live[p].(op := live'[p].op)
                     else live'[p] == live[p])
  }

  /** What filling a condition leaves behind: a tree whose buffers are the condition's and new
      ones, no buffer twice, and no live buffer outside it that was not there before. */
  ghost predicate Grown(live: map<nat, Block>, used: nat, live': map<nat, Block>, cond: nat, parent: Option<nat>, t: Tree)
  {
    && t.id == cond && Shape(live', t, None) && Distinct(t)
    && live'.Keys == live.Keys + Ids(t) && (forall p :: p in Ids(t) ==> p == cond || p >= used)
    && Kept(live, live', cond, parent)
  }

  /** The tree is the serialised condition n. */
  ghost predicate Represents(n: Pushdown.Node, t: Tree)
    decreases n
  {
    match n
    case Leaf(i) => t.kids == [] && (HasData(i) ==> t.data.Some?)
    case DateLeaf(l) => t.kids == [] && t.data.Some?
    case FuncNode(ft, kids) =>
      t.op == Applied(ft) && |t.kids| == |kids| && forall i :: 0 <= i < |kids| ==> Represents(kids[i], t.kids[i])
    case LogicNode(isAnd, kids) =>
      t.op == Junction(isAnd) && |t.kids| == |kids| && forall i :: 0 <= i < |kids| ==> Represents(kids[i], t.kids[i])
  }

  /** A constant that is not NULL has bytes. */
  predicate HasData(i: Item)
  {
    (i.Const? && !i.kind.NullItem? && i.v != NullV) || (i.Cache? && i.v != NullV)
  }

  /** What an operand makes of the function it belongs to. */
  function ParentOp(i: Item, push: Frozen, op: Op): Op
  {
    if IsDate(i) && op.Applied? then Applied(Refill(DateOf(i, push), op.ft)) else op
  }

  /** What filling an item promises when it succeeds. */
  ghost predicate Filled(item: Item, push: Frozen, t: Tree)
  {
    Represents(Serialise(item, push), t)
  }

  /** The parent is left with what the item makes of it. */
  ghost predicate ParentLeft(item: Item, push: Frozen, live: map<nat, Block>, live': map<nat, Block>, parent: nat)
  {
    && parent in live && live[parent].Node? && parent in live' && live'[parent].Node?
    && live'[parent].op == ParentOp(item, push, live[parent].op)
  }

  /** The constant's bytes, hung on the condition. */
  method FillData(m: Memory, cond: nat) returns (ok: bool, ghost t: Tree)
    requires m.Valid() && cond in m.live && m.live[cond].Node? && m.live[cond].(op := Unset) == BLANK
    modifies m
    ensures m.Valid() && old(m.used) <= m.used && Grown(old(m.live), old(m.used), m.live, cond, None, t)
    ensures t.kids == [] && (ok ==> t.data.Some?)
  {
    t := Tree(cond, m.live[cond].op, None, None, []);
    var p := m.Alloc(Bytes);
    if p.None? { return false, t; }
    m.Store(cond, m.live[cond].(data := p));
    return true, Tree(cond, m.live[cond].op, None, p, []);
  }

  function BlankTree(id: nat): Tree { Tree(id, Unset, None, None, []) }

  function WithKid(t: Tree, k: Tree): Tree { t.(kids := t.kids + [k]) }

  /** A new condition at the end of the list; without memory, nothing changes. */
  method AddChild(m: Memory, cond: nat, list: nat, ghost t: Tree) returns (sub: Option<nat>)
    requires m.Valid() && t.id == cond && t.list == Some(list) && Shape(m.live, t, None) && Distinct(t)
    modifies m
    ensures m.Valid() && (sub.None? ==> m.live == old(m.live) && m.used == old(m.used))
    ensures sub.Some? ==>
              && sub.value == old(m.used) && m.used == old(m.used) + 1
              && m.live.Keys == old(m.live).Keys + {sub.value} && m.live[sub.value] == BLANK
              && Shape(m.live, WithKid(t, BlankTree(sub.value)), None)
              && Same(old(m.live), m.live, old(m.live).Keys - Ids(t))
              && cond in m.live && m.live[cond].Node? && cond != sub.value
  {
    hide Shape, Distinct, Chain, Ids, KidIds;
    ghost var before := m.live;
    ListFacts(m.live, t);
    sub := m.Alloc(BLANK);
    if sub.None? { return; }
    var l := m.live[list];
    if l.elements == 0 {
      l := l.(first := sub);
    } else {
      m.Store(l.last.value, m.live[l.last.value].(next := sub));
    }
    m.Store(list, l.(last := sub, elements := l.elements + 1));
    ChildLinked(before, m.live, t, sub.value);
  }

  lemma ListFacts(live: map<nat, Block>, t: Tree)
    requires Shape(live, t, None) && Distinct(t) && t.list.Some?
    ensures t.id in live && live[t.id].Node? && t.list.value in live && t.list.value != t.id
    ensures live[t.list.value] == List(IdAt(t.kids, 0), IdAt(t.kids, |t.kids| - 1), |t.kids|)
    ensures t.list.value in Ids(t)
    ensures t.kids != [] ==> var z := t.kids[|t.kids| - 1].id;
                             z in live && live[z].Node? && z != t.list.value && z != t.id && z in Ids(t)
  {
    if t.kids != [] { LastKid(live, t.kids); }
  }

  lemma LastKid(live: map<nat, Block>, ks: seq<Tree>)
    requires Chain(live, ks, None) && ks != []
    ensures ks[|ks| - 1].id in live && live[ks[|ks| - 1].id].Node? && ks[|ks| - 1].id in KidIds(ks)
  {
  }

  lemma ChildLinked(live: map<nat, Block>, live': map<nat, Block>, t: Tree, sub: nat)
    requires Shape(live, t, None) && Distinct(t) && t.list.Some? && sub !in live
    requires sub in live' && live'[sub] == BLANK && t.list.value in live'
    requires live'[t.list.value] == List(IdAt(t.kids + [BlankTree(sub)], 0), Some(sub), |t.kids| + 1)
    requires Same(live, live', live.Keys - {t.list.value} - OptId(IdAt(t.kids, |t.kids| - 1)))
    requires t.kids != [] ==>
               var z := t.kids[|t.kids| - 1].id;
               z in live && z in live' && live[z].Node? && live'[z] == live[z].(next := Some(sub))
    ensures Shape(live', WithKid(t, BlankTree(sub)), None)
  {
    ShapeIds(live, t, None);
    ChainIds(live, t.kids, None);
    if t.kids != [] {
      LastKid(live, t.kids);
      Relinked(live, live', t.kids, sub);
    }
    assert Shape(live', BlankTree(sub), None);
    KidsSnoc(live', t.kids, BlankTree(sub), None);
  }

  lemma KidAdded(l0: map<nat, Block>, u0: nat, l: map<nat, Block>, l1: map<nat, Block>, cond: nat, t: Tree, sub: nat)
    requires Grown(l0, u0, l, cond, None, t) && sub !in l && u0 <= sub && (forall p :: p in l0 ==> p < u0)
    requires l1.Keys == l.Keys + {sub} && Shape(l1, WithKid(t, BlankTree(sub)), None) && cond in l0
    requires Same(l, l1, l.Keys - Ids(t))
    ensures Grown(l0, u0, l1, cond, None, WithKid(t, BlankTree(sub)))
  {
    ShapeIds(l, t, None);
    KidsSnoc(l1, t.kids, BlankTree(sub), None);
    assert Ids(BlankTree(sub)) == {sub};
    assert Ids(WithKid(t, BlankTree(sub))) == Ids(t) + {sub};
  }

  /** The child's own filling keeps the whole tree in shape. */
  lemma KidFilled(l0: map<nat, Block>, u0: nat, l1: map<nat, Block>, u1: nat, l2: map<nat, Block>, cond: nat,
                  kidParent: Option<nat>, t: Tree, k: Tree)
    requires Grown(l0, u0, l1, cond, None, WithKid(t, BlankTree(k.id))) && Grown(l1, u1, l2, k.id, kidParent, k)
    requires (forall p :: p in l0 ==> p < u0) && (forall p :: p in l1 ==> p < u1) && cond in l0 && u0 <= u1
    requires (kidParent == None || kidParent == Some(cond)) && t.list.Some?
    ensures cond in l1 && l1[cond].Node? && l1[cond].op == t.op && cond in l2 && l2[cond].Node?
    ensures Grown(l0, u0, l2, cond, None, WithKid(t, k).(op := l2[cond].op))
    ensures kidParent == None ==> l2[cond].op == l1[cond].op
  {
    hide Shape, Distinct, Ids, Kept;
    var t1, t2 := WithKid(t, BlankTree(k.id)), WithKid(t, k);
    ShapeIds(l1, t1, None);
    KidIdsFilled(t, k);
    KidDistinct(t, k, u1);
    KidKept(l0, u0, l1, l2, cond, kidParent, k.id);
    ListFacts(l1, t1);
    KidShape(l1, l2, t, k, kidParent);
    SameIds(t2, l2[cond].op);
  }

  lemma SameIds(t: Tree, op: Op)
    ensures Ids(t.(op := op)) == Ids(t) && (Distinct(t) <==> Distinct(t.(op := op)))
  {
  }

  lemma KidIdsFilled(t: Tree, k: Tree)
    ensures Ids(WithKid(t, BlankTree(k.id))) == Ids(t) + {k.id} && Ids(WithKid(t, k)) == Ids(t) + Ids(k) && k.id in Ids(k)
  {
    KidsSnoc(map[], t.kids, BlankTree(k.id), None);
    KidsSnoc(map[], t.kids, k, None);
    assert Ids(BlankTree(k.id)) == {k.id};
  }

  lemma KidDistinct(t: Tree, k: Tree, u: nat)
    requires Distinct(WithKid(t, BlankTree(k.id))) && Distinct(k)
    requires (forall p :: p in Ids(WithKid(t, BlankTree(k.id))) ==> p < u) && forall p :: p in Ids(k) ==> p == k.id || p >= u
    ensures Distinct(WithKid(t, k))
  {
    KidsSnoc(map[], t.kids, BlankTree(k.id), None);
    KidsSnoc(map[], t.kids, k, None);
    assert Ids(BlankTree(k.id)) == {k.id};
    KidIdsFilled(t, k);
    assert forall p :: p in KidIds(t.kids) ==> p in Ids(WithKid(t, BlankTree(k.id)));
  }

  lemma KidKept(l0: map<nat, Block>, u0: nat, l1: map<nat, Block>, l2: map<nat, Block>, cond: nat,
                kidParent: Option<nat>, kid: nat)
    requires Kept(l0, l1, cond, None) && Kept(l1, l2, kid, kidParent) && (forall p :: p in l0 ==> p < u0)
    requires (kid == cond || kid >= u0) && (kidParent == None || kidParent == Some(cond))
    ensures Kept(l0, l2, cond, None)
  {
    forall p | p in l0 && p != cond ensures p in l2 && l2[p] == l0[p] {
      assert p in l1 && p != kid;
      assert l2[p] == l1[p];
    }
  }

  lemma KidShape(l1: map<nat, Block>, l2: map<nat, Block>, t: Tree, k: Tree, kidParent: Option<nat>)
    requires Shape(l1, WithKid(t, BlankTree(k.id)), None) && Distinct(WithKid(t, BlankTree(k.id))) && Shape(l2, k, None)
    requires Kept(l1, l2, k.id, kidParent) && (kidParent == None || kidParent == Some(t.id)) && t.list.Some?
    ensures t.id in l2 && l2[t.id].Node? && Shape(l2, WithKid(t, k).(op := l2[t.id].op), None)
    ensures t.id in l1 && l1[t.id].Node? && l1[t.id].op == t.op && (kidParent == None ==> l2[t.id].op == t.op)
  {
    KidsSnoc(l1, t.kids, BlankTree(k.id), None);
    KidsSnoc(l2, t.kids, k, None);
    assert Ids(BlankTree(k.id)) == {k.id};
    ChainFrame(l1, l2, t.kids, Some(k.id));
  }

  /** dfs_fill_conds with cond_fill_func, cond_fill_cond and the leaves. A column may be missing
      and a date unreadable, which is for the server to say. */
  method Fill(m: Memory, item: Item, push: Frozen, cond: nat, parent: Option<nat>) returns (ok: bool, ghost t: Tree)
    requires m.Valid() && cond in m.live && m.live[cond] == BLANK
    requires parent.Some? ==> parent.value in m.live && parent.value != cond && m.live[parent.value].Node?
    modifies m
    ensures m.Valid() && old(m.used) <= m.used && Grown(old(m.live), old(m.used), m.live, cond, parent, t)
    ensures ok ==> Filled(item, push, t)
    ensures ok && parent.Some? ==> ParentLeft(item, push, old(m.live), m.live, parent.value)
    decreases item, 1
  {
    if IsDate(item) {
      ok, t := FillDate(m, item, push, cond, parent);
      return;
    }
    t := BlankTree(cond);
    UntouchedGrown(m.live, m.used, cond, None);
    hide Grown, Represents;
    match item {
      case Other(_) => ok := false;
      case Field(_, _, _) =>
        ok := *;
        LeafFilled(item, push, t);
      case Const(kind, v, _) =>
        ok := true;
        if !kind.NullItem? && v != NullV { ok, t := FillData(m, cond); }
        if ok { LeafFilled(item, push, t); }
      case Cache(v, res, _) =>
        ok := v == NullV || res.IntResult?;
        if ok && v != NullV { ok, t := FillData(m, cond); }
        if ok { LeafFilled(item, push, t); }
      case Func(ft, args, _, _, _) => ok, t := FillArgs(m, item, push, Applied(ft), args, cond, Some(cond));
      case Cond(isAnd, args) => ok, t := FillArgs(m, item, push, Junction(isAnd), args, cond, None);
    }
    ParentSame(item, push, old(m.live), old(m.used), m.live, cond, parent, t);
  }

  lemma LeafFilled(item: Item, push: Frozen, t: Tree)
    requires !item.Func? && !item.Cond? && t.kids == [] && (HasData(item) ==> t.data.Some?)
    ensures Filled(item, push, t)
  {
  }

  /** Nothing but the condition was touched. */
  lemma ParentSame(item: Item, push: Frozen, live: map<nat, Block>, used: nat, live': map<nat, Block>, cond: nat,
                   parent: Option<nat>, t: Tree)
    requires Grown(live, used, live', cond, None, t) && !IsDate(item)
    requires parent.Some? ==> parent.value in live && parent.value != cond && live[parent.value].Node?
    ensures Grown(live, used, live', cond, parent, t)
    ensures parent.Some? ==> ParentLeft(item, push, live, live', parent.value)
  {
    hide Shape, Distinct, Ids;
  }

  /** A date function gives its list back and is filled as a constant; encoding it may still
      fail once its bytes are there, unless it is a DATE. */
  method FillDate(m: Memory, item: Item, push: Frozen, cond: nat, parent: Option<nat>)
      returns (ok: bool, ghost t: Tree)
    requires IsDate(item) && m.Valid() && cond in m.live && m.live[cond] == BLANK
    requires parent.Some? ==> parent.value in m.live && parent.value != cond && m.live[parent.value].Node?
    modifies m
    ensures m.Valid() && old(m.used) <= m.used && Grown(old(m.live), old(m.used), m.live, cond, parent, t)
    ensures t.kids == [] && (ok ==> t.data.Some?)
    ensures ok && parent.Some? ==> ParentLeft(item, push, old(m.live), m.live, parent.value)
  {
    hide Shape, Distinct, Ids, Grown;
    t := BlankTree(cond);
    UntouchedGrown(m.live, m.used, cond, parent);
    var list := m.Alloc(List(None, None, 0));
    if list.None? { return false, t; }
    m.Store(cond, m.live[cond].(op := Applied(item.ft), list := list));
    m.Free(list.value);
    m.Store(cond, m.live[cond].(list := None));
    assert m.live == old(m.live)[cond := BLANK.(op := Applied(item.ft))];
    t := t.(op := Applied(item.ft));
    NamedGrown(old(m.live), old(m.used), cond, parent, Applied(item.ft));
    var readable: bool := *;
    if !readable { return false, t; }
    ghost var l1 := m.live;
    ok, t := FillData(m, cond);
    EarlierGrown(old(m.live), old(m.used), l1, m.live, cond, parent, t);
    if !ok { return; }
    var date := DateOf(item, push);
    if !date.kind.DateOnly? {
      ok := *;
    } else if parent.Some? && m.live[parent.value].op.Applied? {
      var op := Applied(Refill(date, m.live[parent.value].op.ft));
      ParentKept(old(m.live), old(m.used), m.live, cond, parent.value, t, op);
      m.Store(parent.value, m.live[parent.value].(op := op));
    }
  }

  lemma NamedGrown(live: map<nat, Block>, used: nat, cond: nat, parent: Option<nat>, op: Op)
    requires cond in live && live[cond] == BLANK
    ensures Grown(live, used, live[cond := BLANK.(op := op)], cond, parent, BlankTree(cond).(op := op))
  {
    assert Ids(BlankTree(cond).(op := op)) == {cond};
  }

  lemma UntouchedGrown(live: map<nat, Block>, used: nat, cond: nat, parent: Option<nat>)
    requires cond in live && live[cond] == BLANK
    ensures Grown(live, used, live, cond, parent, BlankTree(cond))
  {
    assert Ids(BlankTree(cond)) == {cond};
  }

  /** Filling after the node was named and a buffer was used up and freed. */
  lemma EarlierGrown(l0: map<nat, Block>, used: nat, l1: map<nat, Block>, l2: map<nat, Block>, cond: nat,
                     parent: Option<nat>, t: Tree)
    requires cond in l0 && l1.Keys == l0.Keys && Same(l0, l1, l0.Keys - {cond})
    requires Grown(l1, used + 1, l2, cond, None, t)
    requires parent.Some? ==> parent.value in l0 && parent.value != cond && l0[parent.value].Node?
    ensures Grown(l0, used, l2, cond, parent, t)
    ensures parent.Some? ==> parent.value in l2 && l2[parent.value] == l0[parent.value]
  {
    hide Shape, Distinct, Ids;
  }

  lemma ParentKept(live: map<nat, Block>, used: nat, live': map<nat, Block>, cond: nat, parent: nat, t: Tree, op: Op)
    requires Grown(live, used, live', cond, Some(parent), t) && parent in live && parent != cond && live[parent].Node?
    requires parent < used && parent in live' && live'[parent].Node?
    ensures Grown(live, used, live'[parent := live'[parent].(op := op)], cond, Some(parent), t)
  {
    hide Shape, Distinct, Ids;
    ShapeFrame(live', live'[parent := live'[parent].(op := op)], t, None);
  }

  method FillArgs(m: Memory, ghost item: Item, push: Frozen, op: Op, args: seq<Item>, cond: nat, kidParent: Option<nat>)
      returns (ok: bool, ghost t: Tree)
    requires m.Valid() && cond in m.live && m.live[cond] == BLANK && Joins(item, op, args, cond, kidParent)
    modifies m
    ensures m.Valid() && old(m.used) <= m.used && Grown(old(m.live), old(m.used), m.live, cond, None, t)
    ensures ok ==> Filled(item, push, t)
    decreases item, 0
  {
    hide Shape, Distinct, Ids, Grown, Represents, Kept, Same, Filled, Joins, FilledArgs;
    t := BlankTree(cond);
    UntouchedGrown(m.live, m.used, cond, None);
    var list := m.Alloc(List(None, None, 0));
    if list.None? { return false, t; }
    m.Store(cond, Block.Node(op, list, None, None));
    t := Tree(cond, op, list, None, []);
    ListStarted(old(m.live), old(m.used), op, cond, list.value);
    NoArgs(item, push, op, args, cond, kidParent, t);
    for i := 0 to |args|
      invariant m.Valid() && old(m.used) <= m.used && Grown(old(m.live), old(m.used), m.live, cond, None, t)
      invariant t.list == list && FilledArgs(item, push, args, i, t)
    {
      ghost var before := m.live;
      GrownTree(old(m.live), old(m.used), m.live, cond, None, t);
      var sub := AddChild(m, cond, list.value, t);
      if sub.None? { return false, t; }
      ghost var l1, u1 := m.live, m.used;
      KidAdded(old(m.live), old(m.used), before, l1, cond, t, sub.value);
      JoinsArg(item, op, args, cond, kidParent, i);
      ghost var k: Tree;
      ok, k := Fill(m, args[i], push, sub.value, kidParent);
      GrownTree(l1, u1, m.live, sub.value, kidParent, k);
      KidFilled(old(m.live), old(m.used), l1, u1, m.live, cond, kidParent, t, k);
      if ok { ArgFilled(item, push, op, args, i, l1, m.live, cond, kidParent, t, k); }
      t := WithKid(t, k).(op := m.live[cond].op);
      if !ok { return false, t; }
    }
    ArgsFilled(item, push, op, args, cond, kidParent, t);
    return true, t;
  }

  /** The item joins its arguments: a function, which a date among them may change, or AND and
      OR, which nothing changes. */
  ghost predicate Joins(item: Item, op: Op, args: seq<Item>, cond: nat, kidParent: Option<nat>)
  {
    || (item.Func? && !IsDate(item) && item.args == args && op == Applied(item.ft) && kidParent == Some(cond))
    || (item.Cond? && item.args == args && op == Junction(item.isAnd) && kidParent == None)
  }

  /** After i arguments: their trees, and what they made of the node. */
  ghost predicate FilledArgs(item: Item, push: Frozen, args: seq<Item>, i: nat, t: Tree)
  {
    && i <= |args| && |t.kids| == i && (item.Func? || item.Cond?) && item.args == args
    && (forall j :: 0 <= j < i ==> Represents(Serialise(args[j], push), t.kids[j]))
    && t.op == if item.Func? then Applied(RefillAll(args, i, item.ft, push)) else Junction(item.isAnd)
  }

  lemma NoArgs(item: Item, push: Frozen, op: Op, args: seq<Item>, cond: nat, kidParent: Option<nat>, t: Tree)
    requires Joins(item, op, args, cond, kidParent) && t.kids == [] && t.op == op
    ensures FilledArgs(item, push, args, 0, t)
  {
  }

  lemma JoinsArg(item: Item, op: Op, args: seq<Item>, cond: nat, kidParent: Option<nat>, i: nat)
    requires Joins(item, op, args, cond, kidParent) && i < |args|
    ensures (kidParent == None || kidParent == Some(cond)) && item.args == args && args[i] < item
  {
  }

  lemma ArgFilled(item: Item, push: Frozen, op: Op, args: seq<Item>, i: nat, l1: map<nat, Block>, l2: map<nat, Block>, cond: nat,
                  kidParent: Option<nat>, t: Tree, k: Tree)
    requires Joins(item, op, args, cond, kidParent) && i < |args| && FilledArgs(item, push, args, i, t)
    requires Filled(args[i], push, k) && cond in l1 && cond in l2 && l1[cond].Node? && l2[cond].Node? && l1[cond].op == t.op
    requires if kidParent == None then l2[cond].op == l1[cond].op else ParentLeft(args[i], push, l1, l2, cond)
    ensures FilledArgs(item, push, args, i + 1, WithKid(t, k).(op := l2[cond].op))
  {
    hide Represents;
  }

  lemma ArgsFilled(item: Item, push: Frozen, op: Op, args: seq<Item>, cond: nat, kidParent: Option<nat>, t: Tree)
    requires Joins(item, op, args, cond, kidParent) && FilledArgs(item, push, args, |args|, t)
    ensures Filled(item, push, t)
  {
  }

  lemma GrownTree(live: map<nat, Block>, used: nat, live': map<nat, Block>, cond: nat, parent: Option<nat>, t: Tree)
    requires Grown(live, used, live', cond, parent, t)
    ensures t.id == cond && Shape(live', t, None) && Distinct(t)
  {
  }

  lemma ListStarted(live: map<nat, Block>, used: nat, op: Op, cond: nat, list: nat)
    requires cond in live && list == used && forall p :: p in live ==> p < used
    ensures Grown(live, used, live[list := List(None, None, 0)][cond := Block.Node(op, Some(list), None, None)], cond,
                  None, Tree(cond, op, Some(list), None, []))
  {
    assert Ids(Tree(cond, op, Some(list), None, [])) == {cond, list};
  }

  // ----- releasing

  lemma {:induction false} KidAt(live: map<nat, Block>, ks: seq<Tree>, next: Option<nat>, i: nat)
    requires Chain(live, ks, next) && KidsDistinct(ks) && i < |ks|
    ensures Shape(live, ks[i], if i + 1 < |ks| then Some(ks[i + 1].id) else next) && Distinct(ks[i])
    ensures KidIds(ks[..i + 1]) == KidIds(ks[..i]) + Ids(ks[i]) && Ids(ks[i]) !! KidIds(ks[..i])
    ensures KidIds(ks[..i + 1]) <= KidIds(ks)
    decreases |ks|
  {
    hide Shape, Distinct, Ids;
    var n := |ks| - 1;
    if i < n {
      KidAt(live, ks[..n], Some(ks[n].id), i);
      assert ks[..n][..i] == ks[..i] && ks[..n][..i + 1] == ks[..i + 1];
    } else {
      assert ks[..i + 1] == ks;
    }
  }

  /** free_m_cond: every buffer of the tree is freed, each while live, and nothing else. */
  method FreeCond(m: Memory, cond: nat, ghost t: Tree, ghost next: Option<nat>)
    requires m.Valid() && t.id == cond && Shape(m.live, t, next) && Distinct(t)
    modifies m`live
    ensures m.Valid() && m.live == old(m.live) - Ids(t)
    decreases t
  {
    hide Distinct, Chain, KidsDistinct, KidIds, Same;
    ghost var l0 := m.live;
    TreeParts(t);
    if m.live[cond].list.Some? {
      var list := m.live[cond].list.value;
      var size, node := m.live[list].elements, m.live[list].first;
      assert t.kids[..0] == [];
      NoKids();
      for i := 0 to size
        invariant m.Valid() && node == IdAt(t.kids, i) && m.live == l0 - KidIds(t.kids[..i])
      {
        if node.None? { break; }
        KidAt(l0, t.kids, None, i);
        StillThere(l0, m.live, t.kids[i], IdAt(t.kids, i + 1), KidIds(t.kids[..i]));
        var tmp := m.live[node.value].next;
        FreeCond(m, node.value, t.kids[i], IdAt(t.kids, i + 1));
        node := tmp;
      }
      assert t.kids[..size] == t.kids;
      m.Free(list);
    } else {
      NoKids();
    }
    if m.live[cond].data.Some? {
      m.Free(m.live[cond].data.value);
    }
    m.Free(cond);
    assert m.live == l0 - Ids(t);
  }

  lemma NoKids()
    ensures KidIds([]) == {}
  {
  }

  lemma TreeParts(t: Tree)
    requires Distinct(t)
    ensures KidsDistinct(t.kids) && t.id !in KidIds(t.kids) && t.id !in OptId(t.list) && t.id !in OptId(t.data)
    ensures OptId(t.list) !! OptId(t.data) && OptId(t.list) !! KidIds(t.kids) && OptId(t.data) !! KidIds(t.kids)
  {
  }

  lemma StillThere(l0: map<nat, Block>, live: map<nat, Block>, t: Tree, next: Option<nat>, gone: set<nat>)
    requires Shape(l0, t, next) && live == l0 - gone && Ids(t) !! gone
    ensures Shape(live, t, next) && t.id in live && live[t.id].Node? && live[t.id].next == next
  {
    ShapeFrame(l0, live, t, next);
  }

  /** Whatever fails on the way, filling a condition and releasing it leaves the live buffers
      as they were. */
  method FillThenFree(m: Memory, item: Item, push: Frozen) returns (ok: bool)
    requires m.Valid()
    modifies m
    ensures m.Valid() && m.live == old(m.live)
  {
    hide Shape, Distinct;
    var root := m.Alloc(BLANK);
    if root.None? { return false; }
    ghost var l1, u1 := m.live, m.used;
    ghost var t: Tree;
    ok, t := Fill(m, item, push, root.value, None);
    FreeCond(m, root.value, t, None);
    RestoredLive(old(m.live), old(m.used), l1, u1, m.live, root.value, t);
  }

  lemma RestoredLive(l0: map<nat, Block>, u0: nat, l1: map<nat, Block>, u1: nat, l3: map<nat, Block>, root: nat, t: Tree)
    requires (forall p :: p in l0 ==> p < u0) && root == u0 && l1 == l0[root := BLANK] && u1 == u0 + 1
    requires exists l2 :: Grown(l1, u1, l2, root, None, t) && l3 == l2 - Ids(t)
    ensures l3 == l0
  {
    hide Shape, Distinct;
    var l2 :| Grown(l1, u1, l2, root, None, t) && l3 == l2 - Ids(t);
    assert root in Ids(t);
    assert l3.Keys == l0.Keys;
  }
}
