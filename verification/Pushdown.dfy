/** Condition pushdown: splitting a WHERE tree into the part handed to the engine and the
    part the server keeps, and the serialisation that weakens some date comparisons.
    Conditions are read in SQL's three-valued logic. */
module Pushdown {
  import opened Basics

  // ----- items

  datatype FuncType =
    | Eq | NullSafeEq | Ne | Lt | Le | Gt | Ge | Like | IsNull | IsNotNull | Xor
    | Mod | Plus | Minus | Mul | Div | DateFunc | DatetimeLiteral | Unmapped(id: nat)

  datatype CondType = CmpExpr | LikeExpr | NullExpr | LogicExpr | ArithmeticExpr | DateExpr | UnknownExpr

  datatype ItemResult = StringResult | RealResult | IntResult | DecimalResult | InvalidResult

  /** The classes of column type the guards tell apart. */
  datatype DataClass = YearClass | TimestampClass | OtherTemporal | StringClass | IntegerClass
                     | OtherNumeric | OtherClass

  datatype ConstKind = IntItem | RealItem | DecimalItem | StringItem | NullItem

  datatype LitKind = DateOnly | OtherLiteral

  /** A date literal; clock is its time of day in hour, minute, second and fraction. */
  datatype DateLit = DateLit(kind: LitKind, year: nat, month: nat, dayOfMonth: nat, days: int,
                             hour: nat, minute: nat, second: nat, frac: nat)

  /** Whether the column is generated, part of a prefix key, of a type the engine cannot
      compare, or a CHAR padded with zero bytes. */
  datatype FieldInfo = FieldInfo(cls: DataClass, gcol: bool, prefixKey: bool, unsupported: bool, zeroPad: bool)

  datatype Item =
    | Field(col: nat, info: FieldInfo, ctx: ItemResult)
    | Const(kind: ConstKind, v: Val, ctx: ItemResult)
    | Cache(v: Val, res: ItemResult, ctx: ItemResult)
    | Func(ft: FuncType, args: seq<Item>, lit: Option<DateLit>, escaped: bool, ctx: ItemResult)
    | Cond(isAnd: bool, args: seq<Item>)
    | Other(id: nat)

  /** The functype of the enclosing item: AND and OR behave alike in every guard. */
  datatype Parent = AndOr | Below(ft: FuncType)

  function CondTypeOf(ft: FuncType): CondType
  {
    match ft
    case Eq | NullSafeEq | Ne | Lt | Le | Gt | Ge => CmpExpr
    case Like => LikeExpr
    case IsNull | IsNotNull => NullExpr
    case Xor => LogicExpr
    case Mod | Plus | Minus | Mul | Div => ArithmeticExpr
    case DateFunc | DatetimeLiteral => DateExpr
    case Unmapped(_) => UnknownExpr
  }

  // ----- the guards

  predicate CheckCmpResult(f: Item, right: Item)
    requires f.Field?
  {
    if right.Const? && right.kind.NullItem? then true
    else match f.info.cls
      case YearClass => right.Const? && right.kind.IntItem? && right.ctx.IntResult?
      case TimestampClass =>
        && right.Func? && right.lit.Some? && right.ctx.IntResult?
        && var l := right.lit.value;
           (l.year != 0 || l.month != 0 || l.dayOfMonth != 0 ==> l.year != 0 && l.month != 0 && l.dayOfMonth != 0)
      case OtherTemporal => BasicConst(right) && Context(right).IntResult?
      case StringClass => right.Const? && right.kind.StringItem? && right.ctx.StringResult?
      case IntegerClass => (right.Const? && right.kind.IntItem? && right.ctx.IntResult?) || right.Cache?
      case OtherNumeric =>
        right.Const? && (right.kind.RealItem? || right.kind.DecimalItem?) && !right.ctx.StringResult?
      case OtherClass => false
  }

  predicate BasicConst(i: Item)
  {
    i.Const? || (i.Func? && i.lit.Some?)
  }

  function Context(i: Item): ItemResult
  {
    match i
    case Field(_, _, c) => c
    case Const(_, _, c) => c
    case Cache(_, _, c) => c
    case Func(_, _, _, _, c) => c
    case Cond(_, _) => IntResult
    case Other(_) => InvalidResult
  }

  predicate IsArithmetic(i: Item)
  {
    i.Func? && CondTypeOf(i.ft).ArithmeticExpr?
  }

  predicate ValidCmpOperand(a: Item, b: Item)
  {
    if a.Func? then
      IsArithmetic(a) &&
      (match b
       case Const(kind, _, _) => kind.IntItem?
       case Cache(_, res, _) => res.IntResult?
       case Field(_, info, _) => info.cls.IntegerClass?
       case Func(_, _, _, _, _) => IsArithmetic(b)
       case _ => false)
    else if a.Field? then CheckCmpResult(a, b)
    else b.Const?
  }

  predicate SupportedArithmetic(i: Item, p: Parent)
    requires i.Func?
  {
    && p.Below? && |i.args| == 2
    && forall k :: 0 <= k < 2 ==>
         match i.args[k]
         case Field(_, info, _) => info.cls.IntegerClass?
         case Func(_, _, _, _, _) => IsArithmetic(i.args[k])
         case Const(kind, _, _) => kind.IntItem?
         case Cache(_, _, _) => true
         case _ => false
  }

  predicate SupportedLike(i: Item, p: Parent)
    requires i.Func?
  {
    && p.AndOr? && |i.args| >= 2 && !i.escaped
    && i.args[1].Const? && i.args[1].kind.StringItem? && i.args[1].ctx.StringResult?
    && i.args[0].Field? && i.args[0].info.cls.StringClass?
  }

  predicate SupportedFunc(i: Item, p: Parent)
    requires i.Func?
  {
    match CondTypeOf(i.ft)
    case CmpExpr => p.AndOr? && |i.args| == 2
      && (ValidCmpOperand(i.args[0], i.args[1]) || ValidCmpOperand(i.args[1], i.args[0]))
    case LogicExpr => p.AndOr? && |i.args| == 2
    case NullExpr => p.AndOr? && |i.args| >= 1 && i.args[0].Field?
    case LikeExpr => SupportedLike(i, p)
    case ArithmeticExpr => SupportedArithmetic(i, p)
    case DateExpr => p.Below?
    case UnknownExpr => false
  }

  predicate SupportedField(i: Item, p: Parent)
    requires i.Field?
  {
    && p.Below?
    && !i.info.gcol && !i.info.prefixKey && !i.info.unsupported && !i.info.zeroPad
    && (CondTypeOf(p.ft).NullExpr? ||
        (!CondTypeOf(p.ft).UnknownExpr? && (CondTypeOf(p.ft).CmpExpr? ==> !i.ctx.InvalidResult?)))
  }

  predicate SupportedLeaf(i: Item, p: Parent)
  {
    match i
    case Field(_, _, _) => SupportedField(i, p)
    case Const(_, _, _) => p.Below?
    case Cache(_, res, _) => p.Below? && res.IntResult?
    case _ => false
  }

  // ----- the split

  datatype Split = Split(pushed: Option<Item>, rest: Option<Item>)

  function PushAll(t: Item): Split { Split(Some(t), None) }

  function KeepAll(t: Item): Split { Split(None, Some(t)) }

  function Part(r: Split, pushed: bool): Option<Item> { if pushed then r.pushed else r.rest }

  /** The pushed parts of the splits that have one, or the remainders, in order. */
  function Collect(ss: seq<Split>, pushed: bool): seq<Item>
  {
    if ss == [] then []
    else
      var last := Part(ss[|ss| - 1], pushed);
      Collect(ss[..|ss| - 1], pushed) + if last.Some? then [last.value] else []
  }

  function PushedOf(ss: seq<Split>): seq<Item> { Collect(ss, true) }

  function RestOf(ss: seq<Split>): seq<Item> { Collect(ss, false) }

  /** A single term stands for itself, several are joined. */
  function Joined(isAnd: bool, items: seq<Item>): Item
    requires items != []
  {
    if |items| == 1 then items[0] else Cond(isAnd, items)
  }

  function CreateAnd(t: Item, ss: seq<Split>): Split
  {
    if RestOf(ss) == [] then PushAll(t)
    else if PushedOf(ss) == [] then KeepAll(t)
    else Split(Some(Joined(true, PushedOf(ss))), Some(Joined(true, RestOf(ss))))
  }

  function CreateOr(t: Item, ss: seq<Split>): Split
  {
    if exists k :: 0 <= k < |ss| && ss[k].pushed.None? then KeepAll(t)
    else if RestOf(ss) == [] then PushAll(t)
    else Split(Some(Cond(false, PushedOf(ss))), Some(t))
  }

  function PushTerm(t: Item, p: Parent): Split
    decreases t
  {
    match t
    case Func(ft, args, _, _, _) =>
      if SupportedFunc(t, p) && forall k :: 0 <= k < |args| ==> PushTerm(args[k], Below(ft)).pushed.Some?
      then PushAll(t) else KeepAll(t)
    case Cond(isAnd, args) =>
      if p.Below? then KeepAll(t)
      else
        var ss := seq(|args|, k requires 0 <= k < |args| => PushTerm(args[k], AndOr));
        if isAnd then CreateAnd(t, ss) else CreateOr(t, ss)
    case _ =>
      if SupportedLeaf(t, p) then PushAll(t) else KeepAll(t)
  }

  // ----- the split as the source computes it

  method CondPushTerm(t: Item, p: Parent) returns (r: Split)
    ensures r == PushTerm(t, p)
    decreases t, 1
  {
    if t.Func? && SupportedFunc(t, p) {
      r := PushFuncItem(t);
    } else if t.Cond? && p.AndOr? {
      r := CondPushBooleanTerm(t);
    } else if SupportedLeaf(t, p) {
      r := PushAll(t);
    } else {
      r := KeepAll(t);
    }
  }

  method PushFuncItem(t: Item) returns (r: Split)
    requires t.Func?
    ensures r == if forall k :: 0 <= k < |t.args| ==> PushTerm(t.args[k], Below(t.ft)).pushed.Some?
                 then PushAll(t) else KeepAll(t)
    decreases t, 0
  {
    for i := 0 to |t.args|
      invariant forall k :: 0 <= k < i ==> PushTerm(t.args[k], Below(t.ft)).pushed.Some?
    {
      var s := CondPushTerm(t.args[i], Below(t.ft));
      if s.pushed.None? { return KeepAll(t); }
    }
    r := PushAll(t);
  }

  method CondPushBooleanTerm(t: Item) returns (r: Split)
    requires t.Cond?
    ensures r == PushTerm(t, AndOr)
    decreases t, 0
  {
    var pushed: seq<Item>, rest: seq<Item> := [], [];
    ghost var ss: seq<Split> := [];
    for i := 0 to |t.args|
      invariant |ss| == i && forall k :: 0 <= k < i ==> ss[k] == PushTerm(t.args[k], AndOr)
      invariant pushed == PushedOf(ss) && rest == RestOf(ss)
      invariant !t.isAnd ==> forall k :: 0 <= k < i ==> ss[k].pushed.Some?
    {
      var s := CondPushTerm(t.args[i], AndOr);
      if s.pushed.None? && !t.isAnd {
        ghost var all := seq(|t.args|, k requires 0 <= k < |t.args| => PushTerm(t.args[k], AndOr));
        assert all[i].pushed.None?;
        return KeepAll(t);
      }
      assert (ss + [s])[..i] == ss;
      if s.pushed.Some? { pushed := pushed + [s.pushed.value]; }
      if s.rest.Some? { rest := rest + [s.rest.value]; }
      ss := ss + [s];
    }
    assert ss == seq(|t.args|, k requires 0 <= k < |t.args| => PushTerm(t.args[k], AndOr));
    if rest == [] {
      r := PushAll(t);
    } else if t.isAnd {
      r := if pushed == [] then KeepAll(t)
           else Split(Some(Joined(true, pushed)), Some(Joined(true, rest)));
    } else {
      r := Split(Some(Cond(false, pushed)), Some(t));
    }
  }

  // ----- three-valued evaluation

  datatype Val = NullV | Num(n: int) | Time(t: int) | Str(s: string)

  datatype Truth = True | False | Unknown

  /** A row, and the functions the connector passes through unread. */
  datatype Sem = Sem(row: nat -> Val, order: (Val, Val) -> int, truthy: Val -> bool,
                     apply: (FuncType, seq<Val>) -> Val, other: nat -> Val)

  const MICROS_PER_DAY: int := 86400000000

  function LitValue(l: DateLit): Val
  {
    Time(l.days * MICROS_PER_DAY + ((l.hour * 60 + l.minute) * 60 + l.second) * 1000000 + l.frac)
  }

  function TruthOf(v: Val, s: Sem): Truth
  {
    match v
    case NullV => Unknown
    case Num(n) => if n != 0 then True else False
    case _ => if s.truthy(v) then True else False
  }

  function FromTruth(t: Truth): Val
  {
    match t case True => Num(1) case False => Num(0) case Unknown => NullV
  }

  function Compare(a: Val, b: Val, s: Sem): int
  {
    match (a, b)
    case (Num(x), Num(y)) => x - y
    case (Time(x), Time(y)) => x - y
    case _ => s.order(a, b)
  }

  function Bool(b: bool): Val { if b then Num(1) else Num(0) }

  function Apply(ft: FuncType, vs: seq<Val>, s: Sem): Val
  {
    if CondTypeOf(ft).CmpExpr? && |vs| == 2 then
      if ft.NullSafeEq? && (vs[0].NullV? || vs[1].NullV?) then Bool(vs[0] == vs[1])
      else if vs[0].NullV? || vs[1].NullV? then NullV
      else
        var c := Compare(vs[0], vs[1], s);
        Bool(match ft case Ne => c != 0 case Lt => c < 0 case Le => c <= 0
                      case Gt => c > 0 case Ge => c >= 0 case _ => c == 0)
    else if ft.IsNull? && |vs| >= 1 then Bool(vs[0].NullV?)
    else if ft.IsNotNull? && |vs| >= 1 then Bool(forall k :: 0 <= k < |vs| ==> !vs[k].NullV?)
    else if ft.Xor? && |vs| == 2 then
      if vs[0].NullV? || vs[1].NullV? then NullV else Bool(TruthOf(vs[0], s) != TruthOf(vs[1], s))
    else s.apply(ft, vs)
  }

  function AndTruth(ts: seq<Truth>): Truth
  {
    if False in ts then False else if Unknown in ts then Unknown else True
  }

  function OrTruth(ts: seq<Truth>): Truth
  {
    if True in ts then True else if Unknown in ts then Unknown else False
  }

  function Eval(i: Item, s: Sem): Val
    decreases i
  {
    match i
    case Field(col, _, _) => s.row(col)
    case Const(_, v, _) => v
    case Cache(v, _, _) => v
    case Func(ft, args, lit, _, _) =>
      if CondTypeOf(ft).DateExpr? && lit.Some? then LitValue(lit.value)
      else Apply(ft, seq(|args|, k requires 0 <= k < |args| => Eval(args[k], s)), s)
    case Cond(isAnd, args) =>
      var ts := seq(|args|, k requires 0 <= k < |args| => TruthOf(Eval(args[k], s), s));
      FromTruth(if isAnd then AndTruth(ts) else OrTruth(ts))
    case Other(id) => s.other(id)
  }

  predicate Holds(i: Item, s: Sem)
  {
    TruthOf(Eval(i, s), s) == True
  }

  predicate HoldsIfAny(o: Option<Item>, s: Sem)
  {
    o.None? || Holds(o.value, s)
  }

  // ----- soundness of the split

  /** AND is TRUE when all its operands are, OR when one is. */
  lemma JoinedTruth(ts: seq<Truth>)
    ensures AndTruth(ts) == True <==> forall k :: 0 <= k < |ts| ==> ts[k] == True
    ensures OrTruth(ts) == True <==> exists k :: 0 <= k < |ts| && ts[k] == True
  {
    if k :| 0 <= k < |ts| && ts[k] != True { assert ts[k] in ts; }
  }

  lemma CondHolds(isAnd: bool, args: seq<Item>, s: Sem)
    ensures isAnd ==> (Holds(Cond(true, args), s) <==> forall k :: 0 <= k < |args| ==> Holds(args[k], s))
    ensures !isAnd ==> (Holds(Cond(false, args), s) <==> exists k :: 0 <= k < |args| && Holds(args[k], s))
  {
    var ts := seq(|args|, k requires 0 <= k < |args| => TruthOf(Eval(args[k], s), s));
    JoinedTruth(ts);
    assert forall k :: 0 <= k < |args| ==> (ts[k] == True <==> Holds(args[k], s));
  }

  lemma JoinedHolds(items: seq<Item>, s: Sem)
    requires items != []
    ensures Holds(Joined(true, items), s) <==> AllHold(items, s)
  {
    CondHolds(true, items, s);
  }

  /** What is collected are exactly the parts of the splits. */
  lemma {:induction false} Collected(ss: seq<Split>, pushed: bool)
    ensures forall k :: 0 <= k < |ss| && Part(ss[k], pushed).Some? ==> Part(ss[k], pushed).value in Collect(ss, pushed)
    ensures forall i :: i in Collect(ss, pushed) ==> exists k :: 0 <= k < |ss| && Part(ss[k], pushed) == Some(i)
  {
    if ss != [] {
      var n, front := |ss| - 1, ss[..|ss| - 1];
      Collected(front, pushed);
      forall k | 0 <= k < |ss| && Part(ss[k], pushed).Some? ensures Part(ss[k], pushed).value in Collect(ss, pushed) {
        if k < n { assert Part(front[k], pushed).Some?; }
      }
      forall i | i in Collect(ss, pushed) ensures exists k :: 0 <= k < |ss| && Part(ss[k], pushed) == Some(i) {
        if i in Collect(front, pushed) {
          var k :| 0 <= k < |front| && Part(front[k], pushed) == Some(i);
          assert Part(ss[k], pushed) == Some(i);
        } else {
          assert Part(ss[n], pushed) == Some(i);
        }
      }
    }
  }

  ghost predicate AllHold(items: seq<Item>, s: Sem)
  {
    forall k :: 0 <= k < |items| ==> Holds(items[k], s)
  }

  ghost predicate PartsHold(ss: seq<Split>, pushed: bool, s: Sem)
  {
    forall k :: 0 <= k < |ss| ==> HoldsIfAny(Part(ss[k], pushed), s)
  }

  lemma CollectedHold(ss: seq<Split>, pushed: bool, s: Sem)
    ensures AllHold(Collect(ss, pushed), s) <==> PartsHold(ss, pushed, s)
  {
    hide Collect, Holds;
    Collected(ss, pushed);
    var all := Collect(ss, pushed);
    if PartsHold(ss, pushed, s) {
      forall j | 0 <= j < |all| ensures Holds(all[j], s) {
        assert all[j] in all;
        var k :| 0 <= k < |ss| && Part(ss[k], pushed) == Some(all[j]);
        assert HoldsIfAny(Part(ss[k], pushed), s);
      }
    }
    if AllHold(all, s) {
      forall k | 0 <= k < |ss| ensures HoldsIfAny(Part(ss[k], pushed), s) {
        if Part(ss[k], pushed).Some? {
          assert Part(ss[k], pushed).value in all;
        }
      }
    }
  }

  lemma {:induction false} PushedSame(ss: seq<Split>)
    requires forall k :: 0 <= k < |ss| ==> ss[k].pushed.Some?
    ensures |PushedOf(ss)| == |ss|
    ensures forall k :: 0 <= k < |ss| ==> PushedOf(ss)[k] == ss[k].pushed.value
  {
    if ss != [] {
      var front := ss[..|ss| - 1];
      PushedSame(front);
      assert forall k :: 0 <= k < |front| ==> front[k] == ss[k];
    }
  }

  /** What a split promises about its term on one row. */
  ghost predicate SplitSound(t: Item, r: Split, s: Sem)
  {
    && (r.pushed.Some? || r.rest.Some?)
    && (Holds(t, s) <==> HoldsIfAny(r.pushed, s) && HoldsIfAny(r.rest, s))
  }

  /** On every row the condition is TRUE exactly when the pushed part and the remainder
      both are; in particular a row it accepts passes the engine's part. */
  lemma {:induction false} PushdownSound(t: Item, p: Parent, s: Sem)
    ensures SplitSound(t, PushTerm(t, p), s)
    ensures Holds(t, s) ==> HoldsIfAny(PushTerm(t, p).pushed, s)
    decreases t
  {
    if t.Cond? && p.AndOr? {
      var ss := seq(|t.args|, k requires 0 <= k < |t.args| => PushTerm(t.args[k], AndOr));
      forall k | 0 <= k < |t.args| ensures SplitSound(t.args[k], ss[k], s) {
        PushdownSound(t.args[k], AndOr, s);
      }
      CondHolds(t.isAnd, t.args, s);
      if t.isAnd {
        AndSound(t, ss, s);
      } else {
        OrSound(t, ss, s);
      }
    }
  }

  lemma AndSound(t: Item, ss: seq<Split>, s: Sem)
    requires t.Cond? && t.isAnd && |ss| == |t.args|
    requires forall k :: 0 <= k < |ss| ==> SplitSound(t.args[k], ss[k], s)
    ensures SplitSound(t, CreateAnd(t, ss), s)
  {
    CondHolds(true, t.args, s);
    CollectedHold(ss, true, s);
    CollectedHold(ss, false, s);
    hide Collect, Holds;
    forall k | 0 <= k < |ss|
      ensures Holds(t.args[k], s) <==> HoldsIfAny(Part(ss[k], true), s) && HoldsIfAny(Part(ss[k], false), s)
    {
      assert SplitSound(t.args[k], ss[k], s);
    }
    if PushedOf(ss) != [] { JoinedHolds(PushedOf(ss), s); }
    if RestOf(ss) != [] { JoinedHolds(RestOf(ss), s); }
  }

  lemma OrSound(t: Item, ss: seq<Split>, s: Sem)
    requires t.Cond? && !t.isAnd && |ss| == |t.args|
    requires forall k :: 0 <= k < |ss| ==> SplitSound(t.args[k], ss[k], s)
    ensures SplitSound(t, CreateOr(t, ss), s)
  {
    if forall k :: 0 <= k < |ss| ==> ss[k].pushed.Some? {
      PushedSame(ss);
      CondHolds(false, t.args, s);
      CondHolds(false, PushedOf(ss), s);
      if Holds(t, s) {
        var k :| 0 <= k < |t.args| && Holds(t.args[k], s);
        assert SplitSound(t.args[k], ss[k], s);
        assert Holds(PushedOf(ss)[k], s);
      }
    }
  }

  // ----- shape of what is pushed

  /** Columns, constants and integer expressions: nothing boolean. */
  predicate ValueShape(i: Item)
  {
    match i
    case Func(ft, args, _, _, _) =>
      && (CondTypeOf(ft).ArithmeticExpr? || CondTypeOf(ft).DateExpr?)
      && forall k :: 0 <= k < |args| ==> ValueShape(args[k])
    case Cond(_, _) => false
    case Other(_) => false
    case _ => true
  }

  /** AND and OR over comparisons, LIKE, IS [NOT] NULL and XOR of values. */
  predicate BoolShape(i: Item)
  {
    match i
    case Func(ft, args, _, _, _) =>
      && !CondTypeOf(ft).ArithmeticExpr? && !CondTypeOf(ft).DateExpr? && !CondTypeOf(ft).UnknownExpr?
      && (CondTypeOf(ft).CmpExpr? ==> |args| == 2)
      && forall k :: 0 <= k < |args| ==> ValueShape(args[k])
    case Cond(_, args) => forall k :: 0 <= k < |args| ==> BoolShape(args[k])
    case _ => false
  }

  /** Below a function the split is all or nothing, and only values are pushed. */
  lemma {:induction false} PushedValueShape(t: Item, ft: FuncType)
    ensures PushTerm(t, Below(ft)) == PushAll(t) || PushTerm(t, Below(ft)) == KeepAll(t)
    ensures PushTerm(t, Below(ft)).pushed.Some? ==> ValueShape(t)
    decreases t
  {
    if t.Func? {
      forall k | 0 <= k < |t.args|
        ensures PushTerm(t.args[k], Below(t.ft)).pushed.Some? ==> ValueShape(t.args[k])
      {
        PushedValueShape(t.args[k], t.ft);
      }
    }
  }

  /** The pushed tree is AND/OR over leaves, none of AND, OR, XOR or a comparison lies
      below a function, and an empty remainder means the whole term was pushed. */
  lemma {:induction false} PushedBoolShape(t: Item)
    ensures PushTerm(t, AndOr).pushed.Some? ==> BoolShape(PushTerm(t, AndOr).pushed.value)
    ensures PushTerm(t, AndOr).rest.None? ==> PushTerm(t, AndOr).pushed == Some(t)
    decreases t
  {
    if t.Func? {
      forall k | 0 <= k < |t.args|
        ensures PushTerm(t.args[k], Below(t.ft)).pushed.Some? ==> ValueShape(t.args[k])
      {
        PushedValueShape(t.args[k], t.ft);
      }
    } else if t.Cond? {
      var ss := seq(|t.args|, k requires 0 <= k < |t.args| => PushTerm(t.args[k], AndOr));
      forall k | 0 <= k < |t.args|
        ensures ss[k].pushed.Some? ==> BoolShape(ss[k].pushed.value)
        ensures ss[k].rest.None? ==> ss[k].pushed == Some(t.args[k])
      {
        PushedBoolShape(t.args[k]);
      }
      Collected(ss, true);
      forall j | 0 <= j < |PushedOf(ss)| ensures BoolShape(PushedOf(ss)[j]) {
        assert PushedOf(ss)[j] in PushedOf(ss);
        var k :| 0 <= k < |ss| && Part(ss[k], true) == Some(PushedOf(ss)[j]);
      }
      if RestOf(ss) == [] { NothingRests(ss); }
    }
  }

  lemma NothingRests(ss: seq<Split>)
    requires RestOf(ss) == []
    ensures forall k :: 0 <= k < |ss| ==> ss[k].rest.None?
  {
    Collected(ss, false);
    forall k | 0 <= k < |ss| ensures ss[k].rest.None? {
      assert Part(ss[k], false) == ss[k].rest;
    }
  }

  predicate CmpOp(ft: FuncType)
  {
    ft.Eq? || ft.NullSafeEq? || ft.Ne? || ft.Lt? || ft.Le? || ft.Gt? || ft.Ge?
  }

  predicate ArithOp(ft: FuncType) { ft.Mod? || ft.Plus? || ft.Minus? || ft.Mul? || ft.Div? }

  predicate DateOp(ft: FuncType) { ft.DateFunc? || ft.DatetimeLiteral? }

  /** A stored column of a type the engine compares as the server does. */
  predicate CleanColumn(c: FieldInfo) { !c.gcol && !c.prefixKey && !c.unsupported && !c.zeroPad }

  /** Arithmetic is over integer columns, integer constants and arithmetic. */
  predicate IntegerOperand(i: Item)
  {
    match i
    case Field(_, info, _) => info.cls.IntegerClass?
    case Const(kind, _, _) => kind.IntItem?
    case Cache(_, _, _) => true
    case Func(ft, _, _, _, _) => ArithOp(ft)
    case Cond(_, _) => false
    case Other(_) => false
  }

  /** An operand of ft that the engine can evaluate to a value, by its own grammar. */
  predicate ValueOperand(i: Item, ft: FuncType)
  {
    match i
    case Field(_, info, ctx) => CleanColumn(info) && !ft.Unmapped? && (CmpOp(ft) ==> !ctx.InvalidResult?)
    case Const(_, _, _) => true
    case Cache(_, res, _) => res.IntResult?
    case Func(f, args, _, _, _) =>
      && (DateOp(f) || (ArithOp(f) && |args| == 2 && IntegerOperand(args[0]) && IntegerOperand(args[1])))
      && forall k :: 0 <= k < |args| ==> ValueOperand(args[k], f)
    case Cond(_, _) => false
    case Other(_) => false
  }

  /** An operand is accepted exactly when the grammar derives it. */
  lemma {:induction false} PushedOperand(t: Item, ft: FuncType)
    ensures PushTerm(t, Below(ft)).pushed.Some? <==> ValueOperand(t, ft)
    decreases t
  {
    if t.Func? {
      forall k | 0 <= k < |t.args|
        ensures PushTerm(t.args[k], Below(t.ft)).pushed.Some? <==> ValueOperand(t.args[k], t.ft)
      {
        PushedOperand(t.args[k], t.ft);
      }
    }
  }

  /** XOR is pushed exactly when it joins two values; an XOR of conditions never is. */
  lemma XorPushed(t: Item)
    requires t.Func? && t.ft.Xor?
    ensures PushTerm(t, AndOr).pushed.Some?
       <==> |t.args| == 2 && ValueOperand(t.args[0], Xor) && ValueOperand(t.args[1], Xor)
    ensures (exists k :: 0 <= k < |t.args| && BoolShape(t.args[k])) ==> PushTerm(t, AndOr) == KeepAll(t)
  {
    forall k | 0 <= k < |t.args|
      ensures PushTerm(t.args[k], Below(Xor)).pushed.Some? <==> ValueOperand(t.args[k], Xor)
      ensures ValueOperand(t.args[k], Xor) ==> !BoolShape(t.args[k])
    {
      PushedOperand(t.args[k], Xor);
    }
  }

  /** `c XOR 1` over an integer column is pushed whole. */
  lemma XorOfColumnIsPushed(col: nat)
    ensures var c := Field(col, FieldInfo(IntegerClass, false, false, false, false), IntResult);
            var one := Const(IntItem, Num(1), IntResult);
            var t := Func(Xor, [c, one], None, false, IntResult);
            PushTerm(t, AndOr) == PushAll(t)
  {
    var c := Field(col, FieldInfo(IntegerClass, false, false, false, false), IntResult);
    var one := Const(IntItem, Num(1), IntResult);
    var t := Func(Xor, [c, one], None, false, IntResult);
    assert t.args[0] == c && t.args[1] == one;
    XorPushed(t);
  }

  // ----- serialisation for the engine

  datatype Node =
    | Leaf(item: Item)
    | DateLeaf(lit: DateLit)
    | FuncNode(ft: FuncType, kids: seq<Node>)
    | LogicNode(isAnd: bool, kids: seq<Node>)

  predicate SomePartZero(l: DateLit)
  {
    l.hour == 0 || l.minute == 0 || l.second == 0 || l.frac == 0
  }

  /** What a DATE literal does to the function it is an operand of. */
  function Refill(l: DateLit, ft: FuncType): FuncType
  {
    if l.kind.DateOnly? && SomePartZero(l) then
      match ft case Lt => Le case Ne => IsNotNull case _ => ft
    else ft
  }

  predicate IsDate(i: Item) { i.Func? && CondTypeOf(i.ft).DateExpr? }

  /** What a date function is at push time: its literal, or what the server evaluates it to. */
  type Frozen = Item -> DateLit

  function DateOf(i: Item, push: Frozen): DateLit
    requires i.Func?
  {
    if i.lit.Some? then i.lit.value else push(i)
  }

  /** The function type after the first n operands have been filled in. */
  function RefillAll(args: seq<Item>, n: nat, ft: FuncType, push: Frozen): FuncType
    requires n <= |args|
  {
    if n == 0 then ft
    else
      var before := RefillAll(args, n - 1, ft, push);
      if IsDate(args[n - 1]) then Refill(DateOf(args[n - 1], push), before) else before
  }

  /** Every date function becomes a constant, whatever its arguments. */
  function Serialise(i: Item, push: Frozen): Node
    decreases i
  {
    match i
    case Func(ft, args, _, _, _) =>
      if CondTypeOf(ft).DateExpr? then DateLeaf(DateOf(i, push))
      else FuncNode(RefillAll(args, |args|, ft, push), seq(|args|, k requires 0 <= k < |args| => Serialise(args[k], push)))
    case Cond(isAnd, args) =>
      LogicNode(isAnd, seq(|args|, k requires 0 <= k < |args| => Serialise(args[k], push)))
    case _ => Leaf(i)
  }

  /** The engine reads a DATE literal without its time of day. */
  function EngineLit(l: DateLit): Val
  {
    if l.kind.DateOnly? then Time(l.days * MICROS_PER_DAY) else LitValue(l)
  }

  function EvalNode(n: Node, s: Sem): Val
    decreases n
  {
    match n
    case Leaf(i) => Eval(i, s)
    case DateLeaf(l) => EngineLit(l)
    case FuncNode(ft, kids) => Apply(ft, seq(|kids|, k requires 0 <= k < |kids| => EvalNode(kids[k], s)), s)
    case LogicNode(isAnd, kids) =>
      var ts := seq(|kids|, k requires 0 <= k < |kids| => TruthOf(EvalNode(kids[k], s), s));
      FromTruth(if isAnd then AndTruth(ts) else OrTruth(ts))
  }

  predicate NodeHolds(n: Node, s: Sem)
  {
    TruthOf(EvalNode(n, s), s) == True
  }

  /** DATE literals carry no time of day, as the server builds them. */
  predicate PlainDates(i: Item)
  {
    match i
    case Func(_, args, lit, _, _) =>
      && (lit.Some? && lit.value.kind.DateOnly? ==>
            lit.value.hour == 0 && lit.value.minute == 0 && lit.value.second == 0 && lit.value.frac == 0)
      && forall k :: 0 <= k < |args| ==> PlainDates(args[k])
    case Cond(_, args) => forall k :: 0 <= k < |args| ==> PlainDates(args[k])
    case _ => true
  }

  /** Every date function is a literal. */
  predicate LiteralDates(i: Item)
  {
    match i
    case Func(ft, args, lit, _, _) =>
      if CondTypeOf(ft).DateExpr? then lit.Some? else forall k :: 0 <= k < |args| ==> LiteralDates(args[k])
    case Cond(_, args) => forall k :: 0 <= k < |args| ==> LiteralDates(args[k])
    case _ => true
  }

  /** The condition's dates are literals without a time of day. */
  predicate ServerDates(i: Item) { PlainDates(i) && LiteralDates(i) }

  lemma {:induction false} PushedDates(t: Item)
    requires ServerDates(t)
    ensures PushTerm(t, AndOr).pushed.Some? ==> ServerDates(PushTerm(t, AndOr).pushed.value)
    decreases t
  {
    if t.Cond? {
      var ss := seq(|t.args|, k requires 0 <= k < |t.args| => PushTerm(t.args[k], AndOr));
      forall k | 0 <= k < |t.args| ensures ss[k].pushed.Some? ==> ServerDates(ss[k].pushed.value) {
        PushedDates(t.args[k]);
      }
      Collected(ss, true);
      forall j | 0 <= j < |PushedOf(ss)| ensures ServerDates(PushedOf(ss)[j]) {
        assert PushedOf(ss)[j] in PushedOf(ss);
        var k :| 0 <= k < |ss| && Part(ss[k], true) == Some(PushedOf(ss)[j]);
      }
    }
  }

  lemma {:induction false} RefillAllCases(args: seq<Item>, n: nat, ft: FuncType, push: Frozen)
    requires n <= |args|
    ensures var r := RefillAll(args, n, ft, push); r == ft || (ft == Lt && r == Le) || (ft == Ne && r == IsNotNull)
  {
    if n > 0 { RefillAllCases(args, n - 1, ft, push); }
  }

  lemma {:induction false} SerialisedValue(i: Item, push: Frozen, s: Sem)
    requires ValueShape(i) && ServerDates(i)
    ensures EvalNode(Serialise(i, push), s) == Eval(i, s)
    decreases i
  {
    if i.Func? && !IsDate(i) {
      RefillAllCases(i.args, |i.args|, i.ft, push);
      SerialisedArgs(i, push, s);
    }
  }

  function ArgValues(i: Item, s: Sem): seq<Val>
    requires i.Func?
  {
    seq(|i.args|, k requires 0 <= k < |i.args| => Eval(i.args[k], s))
  }

  lemma {:induction false} SerialisedArgs(i: Item, push: Frozen, s: Sem)
    requires i.Func? && !IsDate(i) && ServerDates(i)
    requires forall k :: 0 <= k < |i.args| ==> ValueShape(i.args[k])
    ensures EvalNode(Serialise(i, push), s) == Apply(RefillAll(i.args, |i.args|, i.ft, push), ArgValues(i, s), s)
    decreases i, 0
  {
    var n := Serialise(i, push);
    forall k | 0 <= k < |i.args| ensures EvalNode(n.kids[k], s) == Eval(i.args[k], s) {
      SerialisedValue(i.args[k], push, s);
    }
    assert seq(|n.kids|, k requires 0 <= k < |n.kids| => EvalNode(n.kids[k], s)) == ArgValues(i, s);
  }

  lemma LogicHolds(isAnd: bool, kids: seq<Node>, s: Sem)
    ensures isAnd ==> (NodeHolds(LogicNode(true, kids), s) <==> forall k :: 0 <= k < |kids| ==> NodeHolds(kids[k], s))
    ensures !isAnd ==> (NodeHolds(LogicNode(false, kids), s) <==> exists k :: 0 <= k < |kids| && NodeHolds(kids[k], s))
  {
    var ts := seq(|kids|, k requires 0 <= k < |kids| => TruthOf(EvalNode(kids[k], s), s));
    JoinedTruth(ts);
    assert forall k :: 0 <= k < |kids| ==> (ts[k] == True <==> NodeHolds(kids[k], s));
  }

  lemma WeakerApply(ft: FuncType, ft': FuncType, vs: seq<Val>, s: Sem)
    requires ft' == ft || (ft == Lt && ft' == Le) || (ft == Ne && ft' == IsNotNull)
    requires ft != ft' ==> |vs| == 2
    requires TruthOf(Apply(ft, vs, s), s) == True
    ensures TruthOf(Apply(ft', vs, s), s) == True
  {
  }

  /** Only AND and OR stand above a weakened comparison, so the whole tree is weakened. */
  lemma {:induction false} SerialisedWeaker(i: Item, push: Frozen, s: Sem)
    requires BoolShape(i) && ServerDates(i) && Holds(i, s)
    ensures NodeHolds(Serialise(i, push), s)
    decreases i
  {
    if i.Func? {
      RefillAllCases(i.args, |i.args|, i.ft, push);
      SerialisedArgs(i, push, s);
      WeakerApply(i.ft, RefillAll(i.args, |i.args|, i.ft, push), ArgValues(i, s), s);
    } else {
      var n := Serialise(i, push);
      CondHolds(i.isAnd, i.args, s);
      LogicHolds(i.isAnd, n.kids, s);
      forall k | 0 <= k < |i.args| && Holds(i.args[k], s) ensures NodeHolds(n.kids[k], s) {
        SerialisedWeaker(i.args[k], push, s);
      }
      if !i.isAnd {
        var k :| 0 <= k < |i.args| && Holds(i.args[k], s);
        assert NodeHolds(n.kids[k], s);
      }
    }
  }

  /** No row that satisfies the condition is filtered out by the engine, whatever the server
      evaluates at push time. */
  lemma NoRowLost(t: Item, push: Frozen, s: Sem)
    requires ServerDates(t) && Holds(t, s)
    ensures var pushed := PushTerm(t, AndOr).pushed;
            pushed.Some? ==> NodeHolds(Serialise(pushed.value, push), s)
  {
    var pushed := PushTerm(t, AndOr).pushed;
    if pushed.Some? {
      PushdownSound(t, AndOr, s);
      PushedBoolShape(t);
      PushedDates(t);
      SerialisedWeaker(pushed.value, push, s);
    }
  }

  // ----- a DATE literal with a time of day

  function DateComparison(col: nat, info: FieldInfo, op: FuncType, l: DateLit): Item
  {
    Func(op, [Field(col, info, IntResult), Func(DateFunc, [], Some(l), false, IntResult)], None, false, IntResult)
  }

  /** The literal is of type DATE and its clock reads a time within the day. */
  predicate DateWithClock(l: DateLit)
  {
    l.kind.DateOnly? && l.hour < 24 && l.minute < 60 && l.second < 60 && l.frac < 1000000
  }

  predicate DateColumn(v: Val)
  {
    v.NullV? || (v.Time? && v.t % MICROS_PER_DAY == 0)
  }

  ghost predicate KeepsEveryRow(c: Item, col: nat)
  {
    forall push: Frozen, s: Sem :: DateColumn(s.row(col)) && Holds(c, s) ==> NodeHolds(Serialise(c, push), s)
  }

  /** Comparing a DATE column with a DATE literal whose clock is set keeps every row, unless
      the comparison is < or <> and no part of the clock is zero: then the guard of the
      weakening does not fire and the literal's own day is lost. */
  lemma DateClockCondition(col: nat, info: FieldInfo, op: FuncType, l: DateLit)
    requires CondTypeOf(op).CmpExpr? && DateWithClock(l)
    ensures KeepsEveryRow(DateComparison(col, info, op, l), col)
       <==> !((op == Lt || op == Ne) && l.hour != 0 && l.minute != 0 && l.second != 0 && l.frac != 0)
  {
    var c := DateComparison(col, info, op, l);
    if (op == Lt || op == Ne) && !SomePartZero(l) {
      var s := Sem(k => Time(l.days * MICROS_PER_DAY), (a, b) => 0, v => false, (f, vs) => NullV, n => NullV);
      DateRowLost(col, info, op, l, i => l, s);
    } else {
      forall push: Frozen, s: Sem | DateColumn(s.row(col)) && Holds(c, s) ensures NodeHolds(Serialise(c, push), s) {
        DateRowKept(col, info, op, l, push, s);
      }
    }
  }

  lemma DateRowLost(col: nat, info: FieldInfo, op: FuncType, l: DateLit, push: Frozen, s: Sem)
    requires DateWithClock(l) && (op == Lt || op == Ne) && !SomePartZero(l)
    requires s.row(col) == Time(l.days * MICROS_PER_DAY)
    ensures var c := DateComparison(col, info, op, l); Holds(c, s) && !NodeHolds(Serialise(c, push), s)
    ensures DateColumn(s.row(col))
  {
    hide Eval, EvalNode, Serialise, DateComparison;
    DateComparisonValue(col, info, op, l, push, s);
  }

  lemma DateRowKept(col: nat, info: FieldInfo, op: FuncType, l: DateLit, push: Frozen, s: Sem)
    requires CondTypeOf(op).CmpExpr? && DateWithClock(l) && !((op == Lt || op == Ne) && !SomePartZero(l))
    requires DateColumn(s.row(col)) && Holds(DateComparison(col, info, op, l), s)
    ensures NodeHolds(Serialise(DateComparison(col, info, op, l), push), s)
  {
    DateComparisonValue(col, info, op, l, push, s);
    hide Eval, EvalNode, Serialise, DateComparison;
    if s.row(col).Time? { WholeDays(s.row(col).t, l); }
  }

  ghost predicate EvalDate(c: Item, col: nat, op: FuncType, l: DateLit, push: Frozen, s: Sem)
  {
    && Eval(c, s) == Apply(op, [s.row(col), LitValue(l)], s)
    && EvalNode(Serialise(c, push), s) == Apply(Refill(l, op), [s.row(col), EngineLit(l)], s)
  }

  lemma DateComparisonValue(col: nat, info: FieldInfo, op: FuncType, l: DateLit, push: Frozen, s: Sem)
    requires CondTypeOf(op).CmpExpr?
    ensures EvalDate(DateComparison(col, info, op, l), col, op, l, push, s)
  {
    var c := DateComparison(col, info, op, l);
    var n := Serialise(c, push);
    assert seq(2, k requires 0 <= k < 2 => Eval(c.args[k], s)) == [s.row(col), LitValue(l)];
    assert RefillAll(c.args, 1, op, push) == op;
    assert RefillAll(c.args, 2, op, push) == Refill(l, op);
    assert n.kids[0] == Serialise(c.args[0], push) == Leaf(c.args[0]);
    assert n.kids[1] == Serialise(c.args[1], push) == DateLeaf(l);
    assert seq(|n.kids|, k requires 0 <= k < |n.kids| => EvalNode(n.kids[k], s)) == [s.row(col), EngineLit(l)];
  }

  /** A whole day is never strictly between a date and a later time of the same day. */
  lemma WholeDays(t: int, l: DateLit)
    requires t % MICROS_PER_DAY == 0 && DateWithClock(l)
    ensures var u := l.days * MICROS_PER_DAY; var v := LitValue(l).t;
            u <= v && (t <= v ==> t <= u) && (t >= v ==> t >= u) && (t > v ==> t > u)
    ensures SomePartZero(l) || LitValue(l).t > l.days * MICROS_PER_DAY
  {
  }

  // ----- a date function that is no literal

  /** Below a comparison every pushed date function is a literal. */
  lemma ComparisonDates(t: Item)
    requires t.Func? && CondTypeOf(t.ft).CmpExpr? && PushTerm(t, AndOr).pushed.Some?
    ensures LiteralDates(t)
  {
    forall k | 0 <= k < |t.args| ensures LiteralDates(t.args[k]) {
      PushedOperand(t.args[k], t.ft);
      if !IsDate(t.args[k]) { OperandDates(t.args[k], t.ft); }
    }
  }

  /** Arithmetic has no dates among its operands. */
  lemma {:induction false} OperandDates(i: Item, ft: FuncType)
    requires ValueOperand(i, ft) && !IsDate(i)
    ensures LiteralDates(i)
    decreases i
  {
    if i.Func? {
      assert ArithOp(i.ft);
      forall k | 0 <= k < |i.args| ensures LiteralDates(i.args[k]) {
        OperandDates(i.args[k], i.ft);
      }
    }
  }

  predicate FrozenDate(i: Item) { IsDate(i) && i.lit.None? }

  /** An XOR that the engine can be handed. */
  predicate PushedXor(t: Item)
  {
    t.Func? && t.ft.Xor? && |t.args| == 2 && ValueOperand(t.args[0], Xor) && ValueOperand(t.args[1], Xor)
  }

  ghost predicate KeepsAllRows(t: Item)
  {
    forall push: Frozen, s: Sem :: Holds(t, s) ==> NodeHolds(Serialise(t, push), s)
  }

  ghost predicate Satisfiable(t: Item)
  {
    exists s: Sem :: Holds(t, s)
  }

  /** What is true of a value does not enter into other values. */
  lemma {:induction false} ValueKept(i: Item, s: Sem, truthy: Val -> bool)
    requires ValueShape(i)
    ensures Eval(i, s.(truthy := truthy)) == Eval(i, s)
    decreases i
  {
    if i.Func? {
      forall k | 0 <= k < |i.args| ensures Eval(i.args[k], s.(truthy := truthy)) == Eval(i.args[k], s) {
        ValueKept(i.args[k], s, truthy);
      }
      assert ArgValues(i, s.(truthy := truthy)) == ArgValues(i, s);
    }
  }

  lemma {:induction false} OperandShape(i: Item, ft: FuncType)
    requires ValueOperand(i, ft)
    ensures ValueShape(i)
    decreases i
  {
    if i.Func? {
      forall k | 0 <= k < |i.args| ensures ValueShape(i.args[k]) {
        OperandShape(i.args[k], i.ft);
      }
    }
  }

  lemma XorValue(t: Item, push: Frozen, s: Sem)
    requires t.Func? && t.ft.Xor? && |t.args| == 2
    ensures Eval(t, s) == Apply(Xor, [Eval(t.args[0], s), Eval(t.args[1], s)], s)
    ensures EvalNode(Serialise(t, push), s)
         == Apply(Xor, [EvalNode(Serialise(t.args[0], push), s), EvalNode(Serialise(t.args[1], push), s)], s)
  {
    var n := Serialise(t, push);
    RefillAllCases(t.args, 2, Xor, push);
    assert ArgValues(t, s) == [Eval(t.args[0], s), Eval(t.args[1], s)];
    assert seq(2, k requires 0 <= k < 2 => EvalNode(n.kids[k], s))
        == [EvalNode(Serialise(t.args[0], push), s), EvalNode(Serialise(t.args[1], push), s)];
  }

  function DayLit(d: int): DateLit { DateLit(DateOnly, 0, 0, 0, d, 0, 0, 0, 0) }

  function DayValue(d: int): Val { Time(d * MICROS_PER_DAY) }

  lemma FreshDay(x: Val, y: Val) returns (d: int)
    ensures DayValue(d) != x && DayValue(d) != y
  {
    d := if DayValue(0) != x && DayValue(0) != y then 0 else if DayValue(1) != x && DayValue(1) != y then 1 else 2;
  }

  /** A frozen date gives a value of its own, and the rest of the operands theirs. */
  lemma FrozenOperand(i: Item, l: DateLit, s: Sem)
    requires ValueOperand(i, Xor) && PlainDates(i)
    ensures FrozenDate(i) ==> EvalNode(Serialise(i, j => l), s) == EngineLit(l)
    ensures !FrozenDate(i) ==> EvalNode(Serialise(i, j => l), s) == Eval(i, s)
  {
    if !FrozenDate(i) {
      OperandShape(i, Xor);
      if !IsDate(i) { OperandDates(i, Xor); }
      SerialisedValue(i, j => l, s);
    }
  }

  /** Some row that satisfies the XOR on one evaluation is lost on another. */
  lemma FrozenXorLoses(t: Item, s: Sem)
    requires PushedXor(t) && PlainDates(t) && !LiteralDates(t) && Holds(t, s)
    ensures !KeepsAllRows(t)
  {
    var x, y := t.args[0], t.args[1];
    if !FrozenDate(x) && !IsDate(x) { OperandDates(x, Xor); }
    if !FrozenDate(y) && !IsDate(y) { OperandDates(y, Xor); }
    assert FrozenDate(x) || FrozenDate(y);
    OperandShape(x, Xor);
    OperandShape(y, Xor);
    var xv, yv := Eval(x, s), Eval(y, s);
    var d := FreshDay(xv, yv);
    var want := TruthOf(if FrozenDate(x) then yv else xv, s) == True;
    var truthy := v => if v == DayValue(d) then want else s.truthy(v);
    var s' := s.(truthy := truthy);
    ValueKept(x, s, truthy);
    ValueKept(y, s, truthy);
    var push: Frozen := j => DayLit(d);
    XorValue(t, push, s);
    XorValue(t, push, s');
    FrozenOperand(x, DayLit(d), s');
    FrozenOperand(y, DayLit(d), s');
    hide Eval, EvalNode, Serialise;
    XorLost(t, push, s, s', xv, yv, d, want);
  }

  lemma XorLost(t: Item, push: Frozen, s: Sem, s': Sem, xv: Val, yv: Val, d: int, want: bool)
    requires t.Func? && |t.args| == 2 && (FrozenDate(t.args[0]) || FrozenDate(t.args[1]))
    requires s' == s.(truthy := s'.truthy) && xv != DayValue(d) && yv != DayValue(d)
    requires forall v :: s'.truthy(v) == if v == DayValue(d) then want else s.truthy(v)
    requires Eval(t, s) == Apply(Xor, [xv, yv], s) && Eval(t, s') == Apply(Xor, [xv, yv], s') && Holds(t, s)
    requires var a, b := if FrozenDate(t.args[0]) then DayValue(d) else xv, if FrozenDate(t.args[1]) then DayValue(d) else yv;
             EvalNode(Serialise(t, push), s') == Apply(Xor, [a, b], s')
    requires want == (TruthOf(if FrozenDate(t.args[0]) then yv else xv, s) == True)
    ensures !KeepsAllRows(t)
  {
    hide Eval, EvalNode, Serialise, FrozenDate;
    assert TruthOf(xv, s') == TruthOf(xv, s) && TruthOf(yv, s') == TruthOf(yv, s);
    assert Holds(t, s') && !NodeHolds(Serialise(t, push), s');
  }

  /** A pushed XOR keeps every row, whatever its date functions are at push time and later,
      exactly when they are literals or no row satisfies it. */
  lemma XorKept(t: Item)
    requires PushedXor(t) && PlainDates(t)
    ensures KeepsAllRows(t) <==> LiteralDates(t) || !Satisfiable(t)
  {
    if LiteralDates(t) {
      forall push: Frozen, s: Sem | Holds(t, s) ensures NodeHolds(Serialise(t, push), s) {
        OperandShape(t.args[0], Xor);
        OperandShape(t.args[1], Xor);
        SerialisedWeaker(t, push, s);
      }
    } else if Satisfiable(t) {
      var s :| Holds(t, s);
      FrozenXorLoses(t, s);
    }
  }

  predicate ConstNull(i: Item) { (i.Const? || i.Cache?) && i.v == NullV }

  /** With one frozen date at most, it is the operands that tell: literals, or a NULL constant. */
  lemma XorDateCondition(t: Item)
    requires PushedXor(t) && PlainDates(t) && !(FrozenDate(t.args[0]) && FrozenDate(t.args[1]))
    ensures KeepsAllRows(t) <==> LiteralDates(t) || ConstNull(t.args[0]) || ConstNull(t.args[1])
  {
    hide KeepsAllRows, Satisfiable, PlainDates, ValueOperand;
    XorKept(t);
    if ConstNull(t.args[0]) || ConstNull(t.args[1]) {
      NullXor(t);
    } else if !LiteralDates(t) {
      FrozenSatisfiable(t);
    }
  }

  lemma NullXor(t: Item)
    requires t.Func? && t.ft.Xor? && |t.args| == 2 && (ConstNull(t.args[0]) || ConstNull(t.args[1]))
    ensures !Satisfiable(t)
  {
    forall s: Sem ensures !Holds(t, s) {
      XorValue(t, j => DayLit(0), s);
    }
  }

  lemma FrozenSatisfiable(t: Item)
    requires PushedXor(t) && !(FrozenDate(t.args[0]) && FrozenDate(t.args[1])) && !LiteralDates(t)
    requires !ConstNull(t.args[0]) && !ConstNull(t.args[1])
    ensures Satisfiable(t)
  {
    var x, y := t.args[0], t.args[1];
    if !IsDate(x) { OperandDates(x, Xor); }
    if !IsDate(y) { OperandDates(y, Xor); }
    assert FrozenDate(x) || FrozenDate(y);
    var date, other := if FrozenDate(x) then x else y, if FrozenDate(x) then y else x;
    var s := ZeroSem(if OtherTrue(other) then Num(0) else Num(1));
    OtherValue(other, s);
    FrozenValue(date, s);
    XorValue(t, j => DayLit(0), s);
    hide Eval, ValueOperand, LiteralDates, OtherTrue;
    assert Holds(t, s);
  }

  /** Columns and arithmetic are 0, dates and texts are TRUE, and date functions are v. */
  function ZeroSem(v: Val): Sem
  {
    Sem(k => Num(0), (a, b) => 0, x => true, (f, vs) => if CondTypeOf(f).DateExpr? then v else Num(0), n => NullV)
  }

  lemma FrozenValue(i: Item, s: Sem)
    requires FrozenDate(i)
    ensures Eval(i, s) == s.apply(i.ft, ArgValues(i, s))
  {
  }

  /** Whether an operand is TRUE there. */
  predicate OtherTrue(i: Item)
  {
    match i
    case Const(_, v, _) => v != Num(0)
    case Cache(v, _, _) => v != Num(0)
    case Func(ft, _, _, _, _) => CondTypeOf(ft).DateExpr?
    case _ => false
  }

  lemma OtherValue(i: Item, s: Sem)
    requires ValueOperand(i, Xor) && !FrozenDate(i) && !ConstNull(i)
    requires (forall k :: s.row(k) == Num(0)) && (forall v :: s.truthy(v))
    requires forall f, vs :: !CondTypeOf(f).DateExpr? ==> s.apply(f, vs) == Num(0)
    ensures Eval(i, s) != NullV && (TruthOf(Eval(i, s), s) == True <==> OtherTrue(i))
    ensures TruthOf(Eval(i, s), s) != Unknown
  {
  }

  function DateXorZero(col: nat): Item
  {
    var c := Field(col, FieldInfo(OtherTemporal, false, false, false, false), IntResult);
    Func(Xor, [Func(DateFunc, [c], None, false, IntResult), Const(IntItem, Num(0), IntResult)], None, false, IntResult)
  }

  /** A date function of a column XOR 0 is pushed whole, and a row it accepts can be lost. */
  lemma DateXorZeroLoses(col: nat)
    ensures PushTerm(DateXorZero(col), AndOr) == PushAll(DateXorZero(col)) && !KeepsAllRows(DateXorZero(col))
  {
    var t := DateXorZero(col);
    var f := t.args[0];
    assert ValueOperand(f.args[0], DateFunc) && PlainDates(f.args[0]);
    assert ValueOperand(f, Xor) && ValueOperand(t.args[1], Xor);
    assert PlainDates(f) && PlainDates(t.args[1]) && !LiteralDates(f);
    assert PlainDates(t) && !LiteralDates(t);
    XorPushed(t);
    XorDateCondition(t);
  }
}
