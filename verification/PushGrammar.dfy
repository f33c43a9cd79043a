/** Which conditions are pushed, told as a grammar that names no guard, and how strong the
    pushed part, the remainder and the serialised tree are. */
module PushGrammar {
  import opened Basics
  import opened Pushdown

  // ----- the leaves

  /** The constants a column of each class is compared with. */
  predicate ConstFor(cls: DataClass, kind: ConstKind, ctx: ItemResult)
  {
    kind.NullItem? ||
    match cls
    case YearClass => kind.IntItem? && ctx.IntResult?
    case TimestampClass => false
    case OtherTemporal => ctx.IntResult?
    case StringClass => kind.StringItem? && ctx.StringResult?
    case IntegerClass => kind.IntItem? && ctx.IntResult?
    case OtherNumeric => (kind.RealItem? || kind.DecimalItem?) && !ctx.StringResult?
    case OtherClass => false
  }

  /** A TIMESTAMP is compared with a whole date or with the zero date. */
  predicate WholeOrZero(l: DateLit)
  {
    || (l.year == 0 && l.month == 0 && l.dayOfMonth == 0)
    || (l.year != 0 && l.month != 0 && l.dayOfMonth != 0)
  }

  /** The literals a column of each class is compared with. */
  predicate LiteralFor(cls: DataClass, l: DateLit, ctx: ItemResult)
  {
    ctx.IntResult? && (cls.OtherTemporal? || (cls.TimestampClass? && WholeOrZero(l)))
  }

  /** The operand on the left decides what may stand on the right. */
  predicate Comparable(x: Item, y: Item)
  {
    match (x, y)
    case (Field(_, info, _), Const(kind, _, ctx)) => ConstFor(info.cls, kind, ctx)
    case (Field(_, info, _), Cache(_, _, _)) => info.cls.IntegerClass?
    case (Field(_, info, _), Func(_, _, lit, _, ctx)) => lit.Some? && LiteralFor(info.cls, lit.value, ctx)
    case (Func(f, _, _, _, _), Const(kind, _, _)) => ArithOp(f) && kind.IntItem?
    case (Func(f, _, _, _, _), Cache(_, res, _)) => ArithOp(f) && res.IntResult?
    case (Func(f, _, _, _, _), Field(_, info, _)) => ArithOp(f) && info.cls.IntegerClass?
    case (Func(f, _, _, _, _), Func(g, _, _, _, _)) => ArithOp(f) && ArithOp(g)
    case (Const(_, _, _), Const(_, _, _)) => true
    case (Cache(_, _, _), Const(_, _, _)) => true
    case (Cond(_, _), Const(_, _, _)) => true
    case (Other(_), Const(_, _, _)) => true
    case _ => false
  }

  /** A condition without AND and OR that the engine is handed. */
  predicate PushedLeaf(t: Item)
  {
    && t.Func?
    && (forall k :: 0 <= k < |t.args| ==> ValueOperand(t.args[k], t.ft))
    && (if CmpOp(t.ft) then |t.args| == 2 && (Comparable(t.args[0], t.args[1]) || Comparable(t.args[1], t.args[0]))
        else match t.ft
          case Like =>
            && |t.args| >= 2 && !t.escaped
            && t.args[0].Field? && t.args[0].info.cls.StringClass?
            && t.args[1].Const? && t.args[1].kind.StringItem? && t.args[1].ctx.StringResult?
          case IsNull => |t.args| >= 1 && t.args[0].Field?
          case IsNotNull => |t.args| >= 1 && t.args[0].Field?
          case Xor => |t.args| == 2
          case _ => false)
  }

  lemma ComparableExact(x: Item, y: Item)
    ensures ValidCmpOperand(x, y) <==> Comparable(x, y)
  {
  }

  lemma LeafGuard(t: Item)
    requires t.Func? && forall k :: 0 <= k < |t.args| ==> ValueOperand(t.args[k], t.ft)
    ensures SupportedFunc(t, AndOr) <==> PushedLeaf(t)
  {
    hide ValueOperand, Comparable, ValidCmpOperand;
    if CmpOp(t.ft) && |t.args| == 2 {
      ComparableExact(t.args[0], t.args[1]);
      ComparableExact(t.args[1], t.args[0]);
    }
  }

  /** Outside AND and OR a condition is pushed exactly when the grammar derives it. */
  lemma LeafExact(t: Item)
    requires !t.Cond?
    ensures PushTerm(t, AndOr) == if PushedLeaf(t) then PushAll(t) else KeepAll(t)
  {
    if t.Func? {
      forall k | 0 <= k < |t.args|
        ensures PushTerm(t.args[k], Below(t.ft)).pushed.Some? <==> ValueOperand(t.args[k], t.ft)
      {
        PushedOperand(t.args[k], t.ft);
      }
      if forall k :: 0 <= k < |t.args| ==> ValueOperand(t.args[k], t.ft) { LeafGuard(t); }
    }
  }

  // ----- a column compared with a constant

  function Comparison(op: FuncType, x: Item, y: Item): Item
  {
    Func(op, [x, y], None, false, IntResult)
  }

  /** In either order, a column and a constant are compared by the engine exactly when the
      column is stored, not part of a prefix key, of a supported type and not padded with
      zeros, its comparison context is known and the constant suits its class. */
  lemma ColumnWithConstant(op: FuncType, col: nat, info: FieldInfo, fctx: ItemResult, kind: ConstKind, v: Val, cctx: ItemResult)
    requires CmpOp(op)
    ensures var f, c := Field(col, info, fctx), Const(kind, v, cctx);
            var ok := !info.gcol && !info.prefixKey && !info.unsupported && !info.zeroPad
                      && !fctx.InvalidResult? && ConstFor(info.cls, kind, cctx);
            && PushTerm(Comparison(op, f, c), AndOr) == (if ok then PushAll else KeepAll)(Comparison(op, f, c))
            && PushTerm(Comparison(op, c, f), AndOr) == (if ok then PushAll else KeepAll)(Comparison(op, c, f))
  {
    var f, c := Field(col, info, fctx), Const(kind, v, cctx);
    LeafExact(Comparison(op, f, c));
    LeafExact(Comparison(op, c, f));
    assert Comparison(op, f, c).args[0] == f && Comparison(op, f, c).args[1] == c;
    assert Comparison(op, c, f).args[0] == c && Comparison(op, c, f).args[1] == f;
  }

  // ----- the columns of what is pushed

  /** No column is generated, part of a prefix key, of an unsupported type or zero-padded. */
  predicate StoredColumns(i: Item)
  {
    match i
    case Field(_, info, _) => !info.gcol && !info.prefixKey && !info.unsupported && !info.zeroPad
    case Func(_, args, _, _, _) => forall k :: 0 <= k < |args| ==> StoredColumns(args[k])
    case Cond(_, args) => forall k :: 0 <= k < |args| ==> StoredColumns(args[k])
    case _ => true
  }

  lemma {:induction false} OperandColumns(i: Item, ft: FuncType)
    requires ValueOperand(i, ft)
    ensures StoredColumns(i)
    decreases i
  {
    if i.Func? {
      forall k | 0 <= k < |i.args| ensures StoredColumns(i.args[k]) {
        OperandColumns(i.args[k], i.ft);
      }
    }
  }

  lemma {:induction false} PushedColumns(t: Item)
    ensures var pushed := PushTerm(t, AndOr).pushed; pushed.Some? ==> StoredColumns(pushed.value)
    decreases t
  {
    if t.Cond? {
      var ss := seq(|t.args|, k requires 0 <= k < |t.args| => PushTerm(t.args[k], AndOr));
      forall k | 0 <= k < |t.args|
        ensures ss[k].pushed.Some? ==> StoredColumns(ss[k].pushed.value)
        ensures ss[k].rest.None? ==> ss[k].pushed == Some(t.args[k])
      {
        PushedColumns(t.args[k]);
        PushedBoolShape(t.args[k]);
      }
      Collected(ss, true);
      forall j | 0 <= j < |PushedOf(ss)| ensures StoredColumns(PushedOf(ss)[j]) {
        assert PushedOf(ss)[j] in PushedOf(ss);
        var k :| 0 <= k < |ss| && Part(ss[k], true) == Some(PushedOf(ss)[j]);
      }
      if RestOf(ss) == [] { NothingRests(ss); }
    } else {
      LeafExact(t);
      if PushedLeaf(t) {
        forall k | 0 <= k < |t.args| ensures StoredColumns(t.args[k]) {
          OperandColumns(t.args[k], t.ft);
        }
      }
    }
  }

  // ----- how much of AND and OR is pushed

  /** The condition is handed over whole. */
  predicate Whole(t: Item)
  {
    if t.Cond? then forall k :: 0 <= k < |t.args| ==> Whole(t.args[k]) else PushedLeaf(t)
  }

  /** Something of the condition is handed over: of an AND any operand will do, of an OR
      there must be something of each. */
  predicate Pushable(t: Item)
  {
    if !t.Cond? then PushedLeaf(t)
    else if t.isAnd then t.args == [] || exists k :: 0 <= k < |t.args| && Pushable(t.args[k])
    else forall k :: 0 <= k < |t.args| ==> Pushable(t.args[k])
  }

  /** The strongest condition that the engine can be asked to check. */
  ghost predicate EngineChecks(t: Item, s: Sem)
  {
    if !t.Cond? then Holds(t, s)
    else if t.isAnd then forall k :: 0 <= k < |t.args| && Pushable(t.args[k]) ==> EngineChecks(t.args[k], s)
    else exists k :: 0 <= k < |t.args| && EngineChecks(t.args[k], s)
  }

  /** The weakest condition that the server is left with. */
  ghost predicate ServerChecks(t: Item, s: Sem)
  {
    if t.Cond? && t.isAnd && Pushable(t)
    then forall k :: 0 <= k < |t.args| && !Whole(t.args[k]) ==> ServerChecks(t.args[k], s)
    else Holds(t, s)
  }

  /** What a split of t is, on one row. */
  ghost predicate Exact(t: Item, r: Split, s: Sem)
  {
    && (r.pushed.Some? <==> Pushable(t))
    && (r.rest.None? <==> Whole(t))
    && (r.pushed.Some? ==> (Holds(r.pushed.value, s) <==> EngineChecks(t, s)))
    && (r.rest.Some? ==> (Holds(r.rest.value, s) <==> ServerChecks(t, s)))
  }

  ghost predicate AllExact(args: seq<Item>, ss: seq<Split>, s: Sem)
  {
    |ss| == |args| && forall k :: 0 <= k < |args| ==> Exact(args[k], ss[k], s)
  }

  lemma Nothing(ss: seq<Split>, pushed: bool)
    ensures Collect(ss, pushed) == [] <==> forall k :: 0 <= k < |ss| ==> Part(ss[k], pushed).None?
  {
    Collected(ss, pushed);
    if Collect(ss, pushed) != [] {
      assert Collect(ss, pushed)[0] in Collect(ss, pushed);
    }
  }

  /** Where all is pushed, the pushed part is the term itself. */
  ghost predicate Entire(args: seq<Item>, ss: seq<Split>)
  {
    |ss| == |args| && forall k :: 0 <= k < |args| && ss[k].rest.None? ==> ss[k].pushed == Some(args[k])
  }

  lemma AndExact(t: Item, ss: seq<Split>, s: Sem)
    requires t.Cond? && t.isAnd && AllExact(t.args, ss, s) && Entire(t.args, ss)
    ensures Exact(t, CreateAnd(t, ss), s)
  {
    hide Collect, Holds, PushedLeaf;
    Nothing(ss, true);
    Nothing(ss, false);
    CondHolds(true, t.args, s);
    forall k | 0 <= k < |ss| ensures Exact(t.args[k], ss[k], s) {}
    if RestOf(ss) == [] {
      WholeAnd(t, ss, s);
    } else if PushedOf(ss) != [] {
      CollectedHold(ss, true, s);
      CollectedHold(ss, false, s);
      JoinedHolds(PushedOf(ss), s);
      JoinedHolds(RestOf(ss), s);
      AndParts(t, ss, s);
    }
  }

  lemma WholeAnd(t: Item, ss: seq<Split>, s: Sem)
    requires t.Cond? && t.isAnd && AllExact(t.args, ss, s) && Entire(t.args, ss)
    requires forall k :: 0 <= k < |ss| ==> ss[k].rest.None?
    ensures Whole(t) && Pushable(t) && (Holds(t, s) <==> EngineChecks(t, s))
  {
    hide Collect, Holds, PushedLeaf;
    CondHolds(true, t.args, s);
    forall k | 0 <= k < |ss|
      ensures Whole(t.args[k]) && Pushable(t.args[k]) && (Holds(t.args[k], s) <==> EngineChecks(t.args[k], s))
    {
      assert Exact(t.args[k], ss[k], s) && ss[k].rest.None?;
    }
    if t.args != [] { assert Pushable(t.args[0]); }
  }

  lemma AndParts(t: Item, ss: seq<Split>, s: Sem)
    requires t.Cond? && t.isAnd && AllExact(t.args, ss, s) && Pushable(t)
    ensures PartsHold(ss, true, s) <==> EngineChecks(t, s)
    ensures PartsHold(ss, false, s) <==> ServerChecks(t, s)
  {
    hide Holds, PushedLeaf;
    forall k | 0 <= k < |ss|
      ensures HoldsIfAny(Part(ss[k], true), s) <==> (Pushable(t.args[k]) ==> EngineChecks(t.args[k], s))
      ensures HoldsIfAny(Part(ss[k], false), s) <==> (!Whole(t.args[k]) ==> ServerChecks(t.args[k], s))
    {
      assert Exact(t.args[k], ss[k], s);
    }
  }

  lemma OrExact(t: Item, ss: seq<Split>, s: Sem)
    requires t.Cond? && !t.isAnd && AllExact(t.args, ss, s) && Entire(t.args, ss)
    ensures Exact(t, CreateOr(t, ss), s)
  {
    hide Collect, Holds, PushedLeaf;
    Nothing(ss, false);
    CondHolds(false, t.args, s);
    forall k | 0 <= k < |ss| ensures Exact(t.args[k], ss[k], s) {}
    if forall k :: 0 <= k < |ss| ==> ss[k].pushed.Some? {
      PushedSame(ss);
      CondHolds(false, PushedOf(ss), s);
      forall k | 0 <= k < |ss| ensures Holds(PushedOf(ss)[k], s) <==> EngineChecks(t.args[k], s) {
        assert Exact(t.args[k], ss[k], s);
      }
    }
  }

  /** Something is pushed exactly when the condition is pushable and all of it exactly when
      it is whole; what is pushed is as strong, and what is kept as weak, as AND and OR
      over the leaves allow. */
  lemma {:induction false} SplitExact(t: Item, s: Sem)
    ensures Exact(t, PushTerm(t, AndOr), s)
    decreases t
  {
    if t.Cond? {
      var ss := seq(|t.args|, k requires 0 <= k < |t.args| => PushTerm(t.args[k], AndOr));
      forall k | 0 <= k < |t.args|
        ensures Exact(t.args[k], ss[k], s)
        ensures ss[k].rest.None? ==> ss[k].pushed == Some(t.args[k])
      {
        SplitExact(t.args[k], s);
        PushedBoolShape(t.args[k]);
      }
      if t.isAnd { AndExact(t, ss, s); } else { OrExact(t, ss, s); }
    } else {
      LeafExact(t);
    }
  }

  // ----- what a condition means

  /** Whether the order of x to y is the one that op asks for. */
  predicate InOrder(op: FuncType, x: int, y: int)
    requires CmpOp(op)
  {
    match op
    case Ne => x != y
    case Lt => x < y
    case Le => x <= y
    case Gt => x > y
    case Ge => x >= y
    case _ => x == y
  }

  /** A comparison of numbers or of times is 1 or 0, by their order; with a NULL it is NULL,
      except that <=> finds two NULLs equal and a single one different. */
  lemma ComparisonReads(op: FuncType, x: Item, y: Item, s: Sem)
    requires CmpOp(op)
    ensures var v, a, b := Eval(Comparison(op, x, y), s), Eval(x, s), Eval(y, s);
            && (a.Num? && b.Num? ==> v == Num(if InOrder(op, a.n, b.n) then 1 else 0))
            && (a.Time? && b.Time? ==> v == Num(if InOrder(op, a.t, b.t) then 1 else 0))
            && (a.NullV? || b.NullV? ==>
                  v == if op != NullSafeEq then NullV else if a.NullV? && b.NullV? then Num(1) else Num(0))
  {
    ComparisonApplied(op, x, y, s);
    hide Eval, Comparison;
    ApplyReads(op, Eval(x, s), Eval(y, s), s);
  }

  lemma ComparisonApplied(op: FuncType, x: Item, y: Item, s: Sem)
    requires CmpOp(op)
    ensures Eval(Comparison(op, x, y), s) == Apply(op, [Eval(x, s), Eval(y, s)], s)
  {
    hide Apply;
    var c := Comparison(op, x, y);
    assert seq(2, k requires 0 <= k < 2 => Eval(c.args[k], s)) == [Eval(x, s), Eval(y, s)];
  }

  lemma ApplyReads(op: FuncType, a: Val, b: Val, s: Sem)
    requires CmpOp(op)
    ensures var v := Apply(op, [a, b], s);
            && (a.Num? && b.Num? ==> v == Num(if InOrder(op, a.n, b.n) then 1 else 0))
            && (a.Time? && b.Time? ==> v == Num(if InOrder(op, a.t, b.t) then 1 else 0))
            && (a.NullV? || b.NullV? ==>
                  v == if op != NullSafeEq then NullV else if a.NullV? && b.NullV? then Num(1) else Num(0))
  {
  }

  /** AND and OR are 1, 0 or NULL as their operands are true, false or unknown. */
  lemma JunctionReads(isAnd: bool, args: seq<Item>, s: Sem)
    ensures var v := Eval(Cond(isAnd, args), s);
            var decisive := if isAnd then False else True;
            v == if exists k :: 0 <= k < |args| && TruthOf(Eval(args[k], s), s) == decisive then Num(if isAnd then 0 else 1)
                 else if exists k :: 0 <= k < |args| && TruthOf(Eval(args[k], s), s) == Unknown then NullV
                 else Num(if isAnd then 1 else 0)
  {
    var ts := seq(|args|, k requires 0 <= k < |args| => TruthOf(Eval(args[k], s), s));
    forall k | 0 <= k < |args| ensures ts[k] == TruthOf(Eval(args[k], s), s) && ts[k] in ts {}
  }

  // ----- what the serialised tree checks

  /** A DATE literal, which the engine reads as a whole day. */
  predicate DayOperand(i: Item)
  {
    i.Func? && DateOp(i.ft) && i.lit.Some? && i.lit.value.kind.DateOnly?
  }

  /** With a DATE literal among its operands < becomes <= and <> becomes IS NOT NULL. */
  function DayOp(ft: FuncType, args: seq<Item>, n: nat): FuncType
    requires n <= |args|
  {
    if exists k :: 0 <= k < n && DayOperand(args[k])
    then match ft case Lt => Le case Ne => IsNotNull case _ => ft
    else ft
  }

  /** The condition that the engine is asked to check. */
  function Sent(i: Item): Item
  {
    match i
    case Func(ft, args, lit, escaped, ctx) => Func(DayOp(ft, args, |args|), args, lit, escaped, ctx)
    case Cond(isAnd, args) => Cond(isAnd, seq(|args|, k requires 0 <= k < |args| => Sent(args[k])))
    case _ => i
  }

  lemma {:induction false} RefillExact(args: seq<Item>, n: nat, ft: FuncType, push: Frozen)
    requires n <= |args| && forall k :: 0 <= k < n ==> ServerDates(args[k])
    ensures RefillAll(args, n, ft, push) == DayOp(ft, args, n)
  {
    if n > 0 {
      RefillExact(args, n - 1, ft, push);
      assert ServerDates(args[n - 1]);
    }
  }

  /** The engine checks exactly the condition with its comparisons with a day relaxed, and
      everything else as it was written. */
  lemma {:induction false} SentExactly(i: Item, push: Frozen, s: Sem)
    requires BoolShape(i) && ServerDates(i)
    ensures EvalNode(Serialise(i, push), s) == Eval(Sent(i), s)
    decreases i
  {
    if i.Func? {
      SerialisedArgs(i, push, s);
      RefillExact(i.args, |i.args|, i.ft, push);
      assert ArgValues(Sent(i), s) == ArgValues(i, s);
    } else {
      var n, c := Serialise(i, push), Sent(i);
      forall k | 0 <= k < |i.args| ensures EvalNode(n.kids[k], s) == Eval(c.args[k], s) {
        SentExactly(i.args[k], push, s);
      }
      assert seq(|n.kids|, k requires 0 <= k < |n.kids| => TruthOf(EvalNode(n.kids[k], s), s))
          == seq(|c.args|, k requires 0 <= k < |c.args| => TruthOf(Eval(c.args[k], s), s));
    }
  }
}
