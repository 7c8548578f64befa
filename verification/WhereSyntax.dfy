/** WHERE expressions: trees, the bytecode tokens they are flattened to, and the one-pass reading of
    such tokens by the second grammar, with its semantic actions left open. */
module WhereSyntax {
  import opened Types

  datatype CmpOp = Eq | Ne | Lt | Le | Gt | Ge | Like | NotLike
  datatype AddOp = Plus | Minus | Concat
  datatype MulOp = Times | Divide | Modulo

  /** Conditions and the values compared in them. */
  datatype BExpr =
    | Or(l: BExpr, r: BExpr)
    | And(l: BExpr, r: BExpr)
    | Not(e: BExpr)
    | Truth(d: DExpr)
    | Compare(cop: CmpOp, x: DExpr, y: DExpr)
    | InList(negated: bool, x: DExpr, vs: seq<Datum>)
    | Between(negated: bool, x: DExpr, lo: DExpr, hi: DExpr)

  datatype DExpr =
    | Add(aop: AddOp, dl: DExpr, dr: DExpr)
    | Mul(mop: MulOp, dl: DExpr, dr: DExpr)
    | Value(v: Datum)
    | Paren(b: BExpr)

  // The levels of the grammar, and which trees are derivations.

  function Level(e: BExpr): nat {
    match e
    case Or(_, _) => 0
    case And(_, _) => 1
    case Not(_) => 2
    case _ => 3
  }

  function LevelD(d: DExpr): nat {
    match d
    case Add(_, _, _) => 0
    case Mul(_, _, _) => 1
    case _ => 2
  }

  /** `e` is a derivation: operators associate to the left and only parentheses lower the level. */
  predicate Derived(e: BExpr) {
    match e
    case Or(l, r) => Derived(l) && Derived(r) && Level(r) > 0
    case And(l, r) => Derived(l) && Derived(r) && Level(l) > 0 && Level(r) > 1
    case Not(n) => Derived(n) && Level(n) > 1
    case Truth(d) => DerivedD(d)
    case Compare(_, x, y) => DerivedD(x) && DerivedD(y)
    case InList(_, x, vs) => DerivedD(x) && vs != []
    case Between(_, x, lo, hi) => DerivedD(x) && DerivedD(lo) && DerivedD(hi)
  }

  predicate DerivedD(d: DExpr) {
    match d
    case Add(_, l, r) => DerivedD(l) && DerivedD(r) && LevelD(r) > 0
    case Mul(_, l, r) => DerivedD(l) && DerivedD(r) && LevelD(l) > 0 && LevelD(r) > 1
    case Value(_) => true
    case Paren(b) => Derived(b)
  }

  // ----- tokens

  datatype Token =
    | TOr | TAnd | TNot | TLpar | TRpar
    | TCmp(cop: CmpOp) | TAdd(aop: AddOp) | TMul(mop: MulOp)
    | TIn(negated: bool) | TBetween(negated: bool)
    | TDatum(d: Datum)
    | TWhere | TLoopBegin(integer: int) | TLoopEnd(integer: int)
    | TOther(id: int)  // the tokens of the statement around the condition

  function Data(vs: seq<Datum>): (ts: seq<Token>)
    ensures |ts| == |vs|
  {
    if vs == [] then [] else [TDatum(vs[0])] + Data(vs[1..])
  }

  /** The tokens of a condition, in the order of the source text; BETWEEN loses its AND. */
  function Emit(e: BExpr): seq<Token> {
    match e
    case Or(l, r) => Emit(l) + [TOr] + Emit(r)
    case And(l, r) => Emit(l) + [TAnd] + Emit(r)
    case Not(n) => [TNot] + Emit(n)
    case Truth(d) => EmitD(d)
    case Compare(op, x, y) => EmitD(x) + [TCmp(op)] + EmitD(y)
    case InList(neg, x, vs) => EmitD(x) + [TIn(neg), TLpar] + Data(vs) + [TRpar]
    case Between(neg, x, lo, hi) => EmitD(x) + [TBetween(neg)] + EmitD(lo) + EmitD(hi)
  }

  function EmitD(d: DExpr): seq<Token> {
    match d
    case Add(op, l, r) => EmitD(l) + [TAdd(op)] + EmitD(r)
    case Mul(op, l, r) => EmitD(l) + [TMul(op)] + EmitD(r)
    case Value(v) => [TDatum(v)]
    case Paren(b) => [TLpar] + Emit(b) + [TRpar]
  }

  // ----- the second grammar

  /** The semantic actions of the grammar's rules. */
  datatype Actions<!B, !D> = Actions(
    or: (B, B) -> B, and: (B, B) -> B, not: B -> B, truth: D -> B,
    compare: (CmpOp, D, D) -> B, inList: (bool, D, seq<Datum>) -> B, between: (bool, D, D, D) -> B,
    add: (AddOp, D, D) -> D, mul: (MulOp, D, D) -> D, value: Datum -> D, paren: B -> D)

  datatype Parsed<T> = Fail | Got(val: T, rest: seq<Token>)

  function Head(ts: seq<Token>): Token {
    if ts == [] then TOther(0) else ts[0]
  }

  function ParseOr<B, D>(a: Actions<B, D>, ts: seq<Token>): (r: Parsed<B>)
    ensures r.Got? ==> |r.rest| < |ts|
    decreases |ts|, 8
  {
    var l := ParseAnd(a, ts);
    if l.Fail? then Fail else OrRest(a, l.val, l.rest)
  }

  function OrRest<B, D>(a: Actions<B, D>, l: B, ts: seq<Token>): (r: Parsed<B>)
    ensures r.Got? ==> |r.rest| <= |ts|
    decreases |ts|, 8
  {
    if Head(ts) != TOr then Got(l, ts)
    else
      var r := ParseAnd(a, ts[1..]);
      if r.Fail? then Fail else OrRest(a, a.or(l, r.val), r.rest)
  }

  function ParseAnd<B, D>(a: Actions<B, D>, ts: seq<Token>): (r: Parsed<B>)
    ensures r.Got? ==> |r.rest| < |ts|
    decreases |ts|, 7
  {
    var l := ParseNot(a, ts);
    if l.Fail? then Fail else AndRest(a, l.val, l.rest)
  }

  function AndRest<B, D>(a: Actions<B, D>, l: B, ts: seq<Token>): (r: Parsed<B>)
    ensures r.Got? ==> |r.rest| <= |ts|
    decreases |ts|, 7
  {
    if Head(ts) != TAnd then Got(l, ts)
    else
      var r := ParseNot(a, ts[1..]);
      if r.Fail? then Fail else AndRest(a, a.and(l, r.val), r.rest)
  }

  function ParseNot<B, D>(a: Actions<B, D>, ts: seq<Token>): (r: Parsed<B>)
    ensures r.Got? ==> |r.rest| < |ts|
    decreases |ts|, 6
  {
    if Head(ts) == TNot then
      var n := ParseNot(a, ts[1..]);
      if n.Fail? then Fail else Got(a.not(n.val), n.rest)
    else ParseCmp(a, ts)
  }

  function ParseCmp<B, D>(a: Actions<B, D>, ts: seq<Token>): (r: Parsed<B>)
    ensures r.Got? ==> |r.rest| < |ts|
    decreases |ts|, 5
  {
    var x := ParseAdd(a, ts);
    if x.Fail? then Fail
    else match Head(x.rest)
    case TCmp(op) =>
      var y := ParseAdd(a, x.rest[1..]);
      if y.Fail? then Fail else Got(a.compare(op, x.val, y.val), y.rest)
    case TIn(neg) =>
      var t := x.rest[1..];
      if Head(t) != TLpar then Fail
      else
        var vs := ParseData(t[1..]);
        if vs.Fail? || vs.val == [] || Head(vs.rest) != TRpar then Fail
        else Got(a.inList(neg, x.val, vs.val), vs.rest[1..])
    case TBetween(neg) =>
      var lo := ParseAdd(a, x.rest[1..]);
      if lo.Fail? then Fail
      else
        var hi := ParseAdd(a, lo.rest);
        if hi.Fail? then Fail else Got(a.between(neg, x.val, lo.val, hi.val), hi.rest)
    case _ => Got(a.truth(x.val), x.rest)
  }

  function ParseData(ts: seq<Token>): (r: Parsed<seq<Datum>>)
    ensures r.Got? && |r.rest| <= |ts|
    decreases |ts|
  {
    match Head(ts)
    case TDatum(d) =>
      var r := ParseData(ts[1..]);
      Got([d] + r.val, r.rest)
    case _ => Got([], ts)
  }

  function ParseAdd<B, D>(a: Actions<B, D>, ts: seq<Token>): (r: Parsed<D>)
    ensures r.Got? ==> |r.rest| < |ts|
    decreases |ts|, 4
  {
    var l := ParseMul(a, ts);
    if l.Fail? then Fail else AddRest(a, l.val, l.rest)
  }

  function AddRest<B, D>(a: Actions<B, D>, l: D, ts: seq<Token>): (r: Parsed<D>)
    ensures r.Got? ==> |r.rest| <= |ts|
    decreases |ts|, 4
  {
    match Head(ts)
    case TAdd(op) =>
      var r := ParseMul(a, ts[1..]);
      if r.Fail? then Fail else AddRest(a, a.add(op, l, r.val), r.rest)
    case _ => Got(l, ts)
  }

  function ParseMul<B, D>(a: Actions<B, D>, ts: seq<Token>): (r: Parsed<D>)
    ensures r.Got? ==> |r.rest| < |ts|
    decreases |ts|, 3
  {
    var l := ParseAtom(a, ts);
    if l.Fail? then Fail else MulRest(a, l.val, l.rest)
  }

  function MulRest<B, D>(a: Actions<B, D>, l: D, ts: seq<Token>): (r: Parsed<D>)
    ensures r.Got? ==> |r.rest| <= |ts|
    decreases |ts|, 3
  {
    match Head(ts)
    case TMul(op) =>
      var r := ParseAtom(a, ts[1..]);
      if r.Fail? then Fail else MulRest(a, a.mul(op, l, r.val), r.rest)
    case _ => Got(l, ts)
  }

  function ParseAtom<B, D>(a: Actions<B, D>, ts: seq<Token>): (r: Parsed<D>)
    ensures r.Got? ==> |r.rest| < |ts|
    decreases |ts|, 2
  {
    match Head(ts)
    case TDatum(v) => Got(a.value(v), ts[1..])
    case TLpar =>
      var b := ParseOr(a, ts[1..]);
      if b.Fail? || Head(b.rest) != TRpar then Fail else Got(a.paren(b.val), b.rest[1..])
    case _ => Fail
  }

  // ----- actions applied to a tree

  function Fold<B, D>(a: Actions<B, D>, e: BExpr): B {
    match e
    case Or(l, r) => a.or(Fold(a, l), Fold(a, r))
    case And(l, r) => a.and(Fold(a, l), Fold(a, r))
    case Not(n) => a.not(Fold(a, n))
    case Truth(d) => a.truth(FoldD(a, d))
    case Compare(op, x, y) => a.compare(op, FoldD(a, x), FoldD(a, y))
    case InList(neg, x, vs) => a.inList(neg, FoldD(a, x), vs)
    case Between(neg, x, lo, hi) => a.between(neg, FoldD(a, x), FoldD(a, lo), FoldD(a, hi))
  }

  function FoldD<B, D>(a: Actions<B, D>, d: DExpr): D {
    match d
    case Add(op, l, r) => a.add(op, FoldD(a, l), FoldD(a, r))
    case Mul(op, l, r) => a.mul(op, FoldD(a, l), FoldD(a, r))
    case Value(v) => a.value(v)
    case Paren(b) => a.paren(Fold(a, b))
  }
}
