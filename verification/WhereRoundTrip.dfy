/** Reading a condition's tokens back: the second grammar recovers exactly the tree that was flattened,
    and applies its actions as a fold over that tree. */
module WhereRoundTrip {
  import opened Types
  import opened WhereSyntax

  // What may follow a derivation of each level without being drawn into it.

  predicate EndsAdd(ts: seq<Token>) {
    !Head(ts).TMul? && !Head(ts).TAdd?
  }

  predicate EndsCmp(ts: seq<Token>) {
    EndsAdd(ts) && !Head(ts).TCmp? && !Head(ts).TIn? && !Head(ts).TBetween?
  }

  predicate EndsOr(ts: seq<Token>) {
    EndsCmp(ts) && Head(ts) != TAnd && Head(ts) != TOr
  }

  predicate StartsValue(ts: seq<Token>) {
    ts != [] && (ts[0].TDatum? || ts[0] == TLpar)
  }

  /** An operator `t` between `x` and `y`, seen from `x` and from behind the operator. */
  lemma Cut(x: seq<Token>, t: Token, y: seq<Token>, rest: seq<Token>)
    ensures x + [t] + y + rest == x + ([t] + y + rest)
    ensures Head([t] + y + rest) == t && ([t] + y + rest)[1..] == y + rest
  {
  }

  lemma CutIn(x: seq<Token>, neg: bool, vs: seq<Datum>, rest: seq<Token>)
    ensures var t := [TIn(neg), TLpar] + (Data(vs) + ([TRpar] + rest));
      && x + [TIn(neg), TLpar] + Data(vs) + [TRpar] + rest == x + t
      && Head(t) == TIn(neg) && Head(t[1..]) == TLpar && t[1..][1..] == Data(vs) + ([TRpar] + rest)
    ensures ([TRpar] + rest)[1..] == rest
  {
  }

  lemma CutBetween(x: seq<Token>, neg: bool, lo: seq<Token>, hi: seq<Token>, rest: seq<Token>)
    ensures var t := [TBetween(neg)] + (lo + (hi + rest));
      x + [TBetween(neg)] + lo + hi + rest == x + t && Head(t) == TBetween(neg) && t[1..] == lo + (hi + rest)
  {
  }

  lemma {:induction false} ValueStarts(d: DExpr, rest: seq<Token>)
    requires DerivedD(d)
    ensures StartsValue(EmitD(d) + rest)
    decreases d
  {
    match d
    case Add(op, l, r) =>
      ValueStarts(l, [TAdd(op)] + EmitD(r) + rest);
      Cut(EmitD(l), TAdd(op), EmitD(r), rest);
    case Mul(op, l, r) =>
      ValueStarts(l, [TMul(op)] + EmitD(r) + rest);
      Cut(EmitD(l), TMul(op), EmitD(r), rest);
    case _ =>
  }

  /** A condition starts with NOT, a value or a parenthesis: never with something that continues another. */
  lemma {:induction false} ConditionStarts(e: BExpr, rest: seq<Token>)
    requires Derived(e)
    ensures Head(Emit(e) + rest) == TNot || StartsValue(Emit(e) + rest)
    ensures EndsOr(Emit(e) + rest)
    decreases e
  {
    match e
    case Or(l, r) =>
      ConditionStarts(l, [TOr] + Emit(r) + rest);
      Cut(Emit(l), TOr, Emit(r), rest);
    case And(l, r) =>
      ConditionStarts(l, [TAnd] + Emit(r) + rest);
      Cut(Emit(l), TAnd, Emit(r), rest);
    case Not(_) =>
    case Truth(d) =>
      ValueStarts(d, rest);
    case Compare(op, x, y) =>
      ValueStarts(x, [TCmp(op)] + EmitD(y) + rest);
      Cut(EmitD(x), TCmp(op), EmitD(y), rest);
    case InList(neg, x, vs) =>
      ValueStarts(x, [TIn(neg), TLpar] + (Data(vs) + ([TRpar] + rest)));
      CutIn(EmitD(x), neg, vs, rest);
    case Between(neg, x, lo, hi) =>
      ValueStarts(x, [TBetween(neg)] + (EmitD(lo) + (EmitD(hi) + rest)));
      CutBetween(EmitD(x), neg, EmitD(lo), EmitD(hi), rest);
  }

  lemma {:induction false} DataTrip(vs: seq<Datum>, rest: seq<Token>)
    requires !Head(rest).TDatum?
    ensures ParseData(Data(vs) + rest) == Got(vs, rest)
  {
    if vs == [] {
      assert Data(vs) + rest == rest;
    } else {
      hide ParseData;
      DataTrip(vs[1..], rest);
      ReadDatum(vs[0], Data(vs[1..]) + rest);
      InFront(TDatum(vs[0]), Data(vs[1..]), rest);
      assert vs == [vs[0]] + vs[1..];
    }
  }

  lemma InFront(t: Token, ts: seq<Token>, rest: seq<Token>)
    ensures [t] + ts + rest == [t] + (ts + rest)
  {
  }

  lemma ReadDatum(v: Datum, ts: seq<Token>)
    ensures ParseData([TDatum(v)] + ts) == Got([v] + ParseData(ts).val, ParseData(ts).rest)
  {
    assert ([TDatum(v)] + ts)[1..] == ts;
  }

  lemma ReadParen<B, D>(a: Actions<B, D>, ts: seq<Token>, after: seq<Token>, b: B)
    requires ParseOr(a, ts) == Got(b, [TRpar] + after)
    ensures ParseAtom(a, [TLpar] + ts) == Got(a.paren(b), after)
  {
    hide ParseOr;
    assert ([TLpar] + ts)[1..] == ts && ([TRpar] + after)[1..] == after;
  }

  lemma {:induction false} AtomTrip<B, D>(a: Actions<B, D>, d: DExpr, rest: seq<Token>)
    requires DerivedD(d) && LevelD(d) > 1
    ensures ParseAtom(a, EmitD(d) + rest) == Got(FoldD(a, d), rest)
    decreases d, 2
  {
    match d
    case Value(v) =>
      assert (EmitD(d) + rest)[1..] == rest;
    case Paren(b) =>
      hide ParseAtom, ParseOr, Emit, Fold, Derived;
      var t := [TRpar] + rest;
      OrTrip(a, b, t);
      ReadParen(a, Emit(b) + t, rest, Fold(a, b));
      Bracketed(Emit(b), rest);
  }

  lemma Bracketed(ts: seq<Token>, rest: seq<Token>)
    ensures [TLpar] + ts + [TRpar] + rest == [TLpar] + (ts + ([TRpar] + rest))
  {
  }

  lemma {:induction false} MulTrip<B, D>(a: Actions<B, D>, d: DExpr, rest: seq<Token>)
    requires DerivedD(d) && LevelD(d) > 0
    ensures ParseMul(a, EmitD(d) + rest) == MulRest(a, FoldD(a, d), rest)
    decreases d, 3
  {
    match d
    case Mul(op, l, r) =>
      var t := [TMul(op)] + EmitD(r) + rest;
      MulTrip(a, l, t);
      AtomTrip(a, r, rest);
      Cut(EmitD(l), t[0], EmitD(r), rest);
    case Add(_, _, _) =>
    case Value(_) => AtomTrip(a, d, rest);
    case Paren(_) => AtomTrip(a, d, rest);
  }

  lemma {:induction false} AddTrip<B, D>(a: Actions<B, D>, d: DExpr, rest: seq<Token>)
    requires DerivedD(d) && !Head(rest).TMul?
    ensures ParseAdd(a, EmitD(d) + rest) == AddRest(a, FoldD(a, d), rest)
    decreases d, 4
  {
    match d
    case Add(op, l, r) =>
      var t := [TAdd(op)] + EmitD(r) + rest;
      AddTrip(a, l, t);
      MulTrip(a, r, rest);
      Cut(EmitD(l), t[0], EmitD(r), rest);
    case _ =>
      MulTrip(a, d, rest);
  }

  /** A whole value, followed by something that cannot continue it. */
  lemma ValueTrip<B, D>(a: Actions<B, D>, d: DExpr, rest: seq<Token>)
    requires DerivedD(d) && EndsAdd(rest)
    ensures ParseAdd(a, EmitD(d) + rest) == Got(FoldD(a, d), rest)
    decreases d, 5
  {
    AddTrip(a, d, rest);
  }

  lemma CompareTrip<B, D>(a: Actions<B, D>, op: CmpOp, x: DExpr, y: DExpr, rest: seq<Token>)
    requires DerivedD(x) && DerivedD(y) && EndsCmp(rest)
    ensures ParseCmp(a, EmitD(x) + [TCmp(op)] + EmitD(y) + rest) == Got(a.compare(op, FoldD(a, x), FoldD(a, y)), rest)
    decreases Compare(op, x, y), 0
  {
    hide ParseAdd, EmitD, FoldD, DerivedD, Data, ParseData;
    var t := [TCmp(op)] + EmitD(y) + rest;
    ValueTrip(a, x, t);
    ValueTrip(a, y, rest);
    Cut(EmitD(x), TCmp(op), EmitD(y), rest);
  }

  lemma InTrip<B, D>(a: Actions<B, D>, neg: bool, x: DExpr, vs: seq<Datum>, rest: seq<Token>)
    requires DerivedD(x) && vs != [] && EndsCmp(rest)
    ensures ParseCmp(a, EmitD(x) + [TIn(neg), TLpar] + Data(vs) + [TRpar] + rest) == Got(a.inList(neg, FoldD(a, x), vs), rest)
    decreases InList(neg, x, vs), 0
  {
    hide ParseAdd, EmitD, FoldD, DerivedD, Data, ParseData;
    var u := [TRpar] + rest;
    var t := [TIn(neg), TLpar] + (Data(vs) + u);
    ValueTrip(a, x, t);
    DataTrip(vs, u);
    CutIn(EmitD(x), neg, vs, rest);
  }

  lemma BetweenTrip<B, D>(a: Actions<B, D>, neg: bool, x: DExpr, lo: DExpr, hi: DExpr, rest: seq<Token>)
    requires DerivedD(x) && DerivedD(lo) && DerivedD(hi) && EndsCmp(rest)
    ensures ParseCmp(a, EmitD(x) + [TBetween(neg)] + EmitD(lo) + EmitD(hi) + rest)
      == Got(a.between(neg, FoldD(a, x), FoldD(a, lo), FoldD(a, hi)), rest)
    decreases Between(neg, x, lo, hi), 0
  {
    hide ParseCmp, ParseAdd, EmitD, FoldD, DerivedD, Emit;
    var u := EmitD(hi) + rest;
    var t := [TBetween(neg)] + (EmitD(lo) + u);
    ValueStarts(hi, rest);
    CutBetween(EmitD(x), neg, EmitD(lo), EmitD(hi), rest);
    ValueTrip(a, x, t);
    ValueTrip(a, lo, u);
    ValueTrip(a, hi, rest);
    ReadBetween(a, EmitD(x) + t, FoldD(a, x), neg, EmitD(lo) + u, FoldD(a, lo), u, FoldD(a, hi), rest);
  }

  lemma ReadBetween<B, D>(a: Actions<B, D>, ts: seq<Token>, x: D, neg: bool, t: seq<Token>, lo: D, u: seq<Token>, hi: D, rest: seq<Token>)
    requires ParseAdd(a, ts) == Got(x, [TBetween(neg)] + t) && ParseAdd(a, t) == Got(lo, u) && ParseAdd(a, u) == Got(hi, rest)
    ensures ParseCmp(a, ts) == Got(a.between(neg, x, lo, hi), rest)
  {
    hide ParseAdd;
    assert ([TBetween(neg)] + t)[1..] == t;
  }

  lemma {:induction false} CmpTrip<B, D>(a: Actions<B, D>, e: BExpr, rest: seq<Token>)
    requires Derived(e) && Level(e) > 2 && EndsCmp(rest)
    ensures ParseCmp(a, Emit(e) + rest) == Got(Fold(a, e), rest)
    decreases e, 6
  {
    match e
    case Truth(d) => ValueTrip(a, d, rest);
    case Compare(op, x, y) => CompareTrip(a, op, x, y, rest);
    case InList(neg, x, vs) => InTrip(a, neg, x, vs, rest);
    case Between(neg, x, lo, hi) => BetweenTrip(a, neg, x, lo, hi, rest);
  }

  lemma {:induction false} NotTrip<B, D>(a: Actions<B, D>, e: BExpr, rest: seq<Token>)
    requires Derived(e) && Level(e) > 1 && EndsCmp(rest)
    ensures ParseNot(a, Emit(e) + rest) == Got(Fold(a, e), rest)
    decreases e, 7
  {
    match e
    case Not(n) =>
      NotTrip(a, n, rest);
      assert (Emit(e) + rest)[1..] == Emit(n) + rest;
    case Or(_, _) =>
    case And(_, _) =>
    case Truth(_) => CmpTrip(a, e, rest); CmpStarts(e, rest);
    case Compare(_, _, _) => CmpTrip(a, e, rest); CmpStarts(e, rest);
    case InList(_, _, _) => CmpTrip(a, e, rest); CmpStarts(e, rest);
    case Between(_, _, _, _) => CmpTrip(a, e, rest); CmpStarts(e, rest);
  }

  lemma CmpStarts(e: BExpr, rest: seq<Token>)
    requires Derived(e) && Level(e) > 2
    ensures Head(Emit(e) + rest) != TNot
  {
    hide EmitD, Data;
    match e
    case Truth(d) => ValueStarts(d, rest);
    case Compare(op, x, y) => StartsAs(x, [TCmp(op)] + EmitD(y), rest); Joined(EmitD(x), [TCmp(op)], EmitD(y), []);
    case InList(neg, x, vs) => StartsAs(x, [TIn(neg), TLpar] + Data(vs) + [TRpar], rest); Joined(EmitD(x), [TIn(neg), TLpar], Data(vs), [TRpar]);
    case Between(neg, x, lo, hi) => StartsAs(x, [TBetween(neg)] + EmitD(lo) + EmitD(hi), rest); Joined(EmitD(x), [TBetween(neg)], EmitD(lo), EmitD(hi));
  }

  lemma StartsAs(x: DExpr, t: seq<Token>, rest: seq<Token>)
    requires DerivedD(x)
    ensures Head((EmitD(x) + t) + rest) != TNot
  {
    hide EmitD, DerivedD;
    ValueStarts(x, t + rest);
    assert (EmitD(x) + t) + rest == EmitD(x) + (t + rest);
  }

  lemma Joined(a: seq<Token>, b: seq<Token>, c: seq<Token>, d: seq<Token>)
    ensures a + b + c + d == a + (b + c + d) && (d == [] ==> a + b + c == a + (b + c))
  {
  }

  lemma {:induction false} AndTrip<B, D>(a: Actions<B, D>, e: BExpr, rest: seq<Token>)
    requires Derived(e) && Level(e) > 0 && EndsCmp(rest)
    ensures ParseAnd(a, Emit(e) + rest) == AndRest(a, Fold(a, e), rest)
    decreases e, 8
  {
    match e
    case And(l, r) =>
      var t := [TAnd] + Emit(r) + rest;
      AndTrip(a, l, t);
      NotTrip(a, r, rest);
      Cut(Emit(l), t[0], Emit(r), rest);
    case Or(_, _) =>
    case Not(_) => NotTrip(a, e, rest);
    case Truth(_) => NotTrip(a, e, rest);
    case Compare(_, _, _) => NotTrip(a, e, rest);
    case InList(_, _, _) => NotTrip(a, e, rest);
    case Between(_, _, _, _) => NotTrip(a, e, rest);
  }

  lemma {:induction false} OrSpine<B, D>(a: Actions<B, D>, e: BExpr, rest: seq<Token>)
    requires Derived(e) && EndsCmp(rest) && Head(rest) != TAnd
    ensures ParseOr(a, Emit(e) + rest) == OrRest(a, Fold(a, e), rest)
    decreases e, 9
  {
    match e
    case Or(l, r) =>
      var t := [TOr] + Emit(r) + rest;
      OrSpine(a, l, t);
      AndTrip(a, r, rest);
      Cut(Emit(l), t[0], Emit(r), rest);
    case _ =>
      AndTrip(a, e, rest);
  }

  /** One condition, whatever follows that cannot continue it: the actions are folded over its tree. */
  lemma OrTrip<B, D>(a: Actions<B, D>, e: BExpr, rest: seq<Token>)
    requires Derived(e) && EndsOr(rest)
    ensures ParseOr(a, Emit(e) + rest) == Got(Fold(a, e), rest)
    decreases e, 10
  {
    OrSpine(a, e, rest);
  }

  // ----- trees

  /** The actions that build the tree. */
  const TREE: Actions<BExpr, DExpr> := Actions(
    (l, r) => Or(l, r), (l, r) => And(l, r), e => Not(e), d => Truth(d),
    (op, x, y) => Compare(op, x, y), (neg, x, vs) => InList(neg, x, vs), (neg, x, lo, hi) => Between(neg, x, lo, hi),
    (op, l, r) => Add(op, l, r), (op, l, r) => Mul(op, l, r), v => Value(v), b => Paren(b))

  lemma {:induction false} TreeFold(e: BExpr)
    ensures Fold(TREE, e) == e
    decreases e
  {
    match e
    case Or(l, r) => TreeFold(l); TreeFold(r);
    case And(l, r) => TreeFold(l); TreeFold(r);
    case Not(n) => TreeFold(n);
    case Truth(d) => TreeFoldD(d);
    case Compare(_, x, y) => TreeFoldD(x); TreeFoldD(y);
    case InList(_, x, _) => TreeFoldD(x);
    case Between(_, x, lo, hi) => TreeFoldD(x); TreeFoldD(lo); TreeFoldD(hi);
  }

  lemma {:induction false} TreeFoldD(d: DExpr)
    ensures FoldD(TREE, d) == d
    decreases d
  {
    match d
    case Add(_, l, r) => TreeFoldD(l); TreeFoldD(r);
    case Mul(_, l, r) => TreeFoldD(l); TreeFoldD(r);
    case Value(_) =>
    case Paren(b) => TreeFold(b);
  }

  /** The conditions of a token stream that has nothing else in it, at least one. */
  function ParseLines<B, D>(a: Actions<B, D>, ts: seq<Token>): Parsed<seq<B>>
    decreases |ts|
  {
    var l := ParseOr(a, ts);
    if l.Fail? then Fail
    else if l.rest == [] then Got([l.val], [])
    else
      var r := ParseLines(a, l.rest);
      if r.Fail? then Fail else Got([l.val] + r.val, r.rest)
  }

  function EmitAll(es: seq<BExpr>): seq<Token> {
    if es == [] then [] else Emit(es[0]) + EmitAll(es[1..])
  }

  ghost predicate AllConditions(es: seq<BExpr>) {
    forall i {:trigger es[i]} :: 0 <= i < |es| ==> Derived(es[i])
  }

  /** Conditions written one after the other, without any separator, are read back one by one. */
  lemma {:induction false} LinesTrip(es: seq<BExpr>)
    requires es != [] && AllConditions(es)
    ensures ParseLines(TREE, EmitAll(es)) == Got(es, [])
    decreases |es|
  {
    hide Emit, Fold, Derived, ParseOr;
    var rest := EmitAll(es[1..]);
    if |es| > 1 {
      ConditionStarts(es[1], EmitAll(es[1..][1..]));
      LinesTrip(es[1..]);
    }
    OrTrip(TREE, es[0], rest);
    TreeFold(es[0]);
    if |es| > 1 {
      assert es == [es[0]] + es[1..];
    } else {
      assert es == [es[0]];
    }
  }

  // ----- what stands without parentheses

  lemma Reads(e: BExpr, ts: seq<Token>)
    requires Derived(e) && Emit(e) == ts
    ensures ParseOr(TREE, ts) == Got(e, [])
  {
    assert Emit(e) + [] == ts;
    OrTrip(TREE, e, []);
    TreeFold(e);
  }

  lemma SumIs(op: AddOp, l: DExpr, r: DExpr, s: seq<Token>, t: seq<Token>)
    requires DerivedD(l) && DerivedD(r) && LevelD(r) > 0 && EmitD(l) == s && EmitD(r) == t
    ensures DerivedD(Add(op, l, r)) && EmitD(Add(op, l, r)) == s + [TAdd(op)] + t
  {
  }

  lemma ProductIs(op: MulOp, l: DExpr, r: DExpr, s: seq<Token>, t: seq<Token>)
    requires DerivedD(l) && DerivedD(r) && LevelD(l) > 0 && LevelD(r) > 1 && EmitD(l) == s && EmitD(r) == t
    ensures DerivedD(Mul(op, l, r)) && EmitD(Mul(op, l, r)) == s + [TMul(op)] + t
  {
  }

  lemma ValueIs(v: Datum)
    ensures DerivedD(Value(v)) && EmitD(Value(v)) == [TDatum(v)]
    ensures Derived(Truth(Value(v))) && Emit(Truth(Value(v))) == [TDatum(v)]
  {
  }

  /** Operators of one level group from the left, `*` before `+`, both before a comparison. */
  lemma SumsRead(a: Datum, b: Datum, c: Datum, p: AddOp, q: AddOp, m: MulOp, cmp: CmpOp)
    ensures ParseOr(TREE, [TDatum(a), TAdd(p), TDatum(b), TAdd(q), TDatum(c)])
      == Got(Truth(Add(q, Add(p, Value(a), Value(b)), Value(c))), [])
    ensures ParseOr(TREE, [TDatum(a), TAdd(p), TDatum(b), TMul(m), TDatum(c)])
      == Got(Truth(Add(p, Value(a), Mul(m, Value(b), Value(c)))), [])
    ensures ParseOr(TREE, [TDatum(a), TCmp(cmp), TDatum(b), TAdd(p), TDatum(c)])
      == Got(Compare(cmp, Value(a), Add(p, Value(b), Value(c))), [])
  {
    hide ParseOr, EmitD, DerivedD;
    ValueIs(a);
    ValueIs(b);
    ValueIs(c);
    SumIs(p, Value(a), Value(b), [TDatum(a)], [TDatum(b)]);
    SumIs(q, Add(p, Value(a), Value(b)), Value(c), [TDatum(a)] + [TAdd(p)] + [TDatum(b)], [TDatum(c)]);
    ProductIs(m, Value(b), Value(c), [TDatum(b)], [TDatum(c)]);
    SumIs(p, Value(a), Mul(m, Value(b), Value(c)), [TDatum(a)], [TDatum(b)] + [TMul(m)] + [TDatum(c)]);
    SumIs(p, Value(b), Value(c), [TDatum(b)], [TDatum(c)]);
    Reads(Truth(Add(q, Add(p, Value(a), Value(b)), Value(c))), [TDatum(a), TAdd(p), TDatum(b), TAdd(q), TDatum(c)]);
    Reads(Truth(Add(p, Value(a), Mul(m, Value(b), Value(c)))), [TDatum(a), TAdd(p), TDatum(b), TMul(m), TDatum(c)]);
    Reads(Compare(cmp, Value(a), Add(p, Value(b), Value(c))), [TDatum(a), TCmp(cmp), TDatum(b), TAdd(p), TDatum(c)]);
  }

  lemma ProductsRead(a: Datum, b: Datum, c: Datum, m: MulOp, n: MulOp)
    ensures ParseOr(TREE, [TDatum(a), TMul(m), TDatum(b), TMul(n), TDatum(c)])
      == Got(Truth(Mul(n, Mul(m, Value(a), Value(b)), Value(c))), [])
  {
    hide ParseOr, EmitD, DerivedD;
    ValueIs(a);
    ValueIs(b);
    ValueIs(c);
    ProductIs(m, Value(a), Value(b), [TDatum(a)], [TDatum(b)]);
    ProductIs(n, Mul(m, Value(a), Value(b)), Value(c), [TDatum(a)] + [TMul(m)] + [TDatum(b)], [TDatum(c)]);
    Reads(Truth(Mul(n, Mul(m, Value(a), Value(b)), Value(c))), [TDatum(a), TMul(m), TDatum(b), TMul(n), TDatum(c)]);
  }

  /** NOT before AND before OR. */
  lemma ConnectivesRead(x: DExpr, y: DExpr, z: DExpr)
    requires DerivedD(x) && DerivedD(y) && DerivedD(z)
    ensures ParseOr(TREE, EmitD(x) + [TOr] + EmitD(y) + [TAnd] + EmitD(z)) == Got(Or(Truth(x), And(Truth(y), Truth(z))), [])
    ensures ParseOr(TREE, EmitD(x) + [TAnd] + EmitD(y) + [TOr] + EmitD(z)) == Got(Or(And(Truth(x), Truth(y)), Truth(z)), [])
    ensures ParseOr(TREE, [TNot] + EmitD(x) + [TAnd] + EmitD(y)) == Got(And(Not(Truth(x)), Truth(y)), [])
  {
    hide ParseOr, EmitD, DerivedD;
    var p, q, r := EmitD(x), EmitD(y), EmitD(z);
    assert p + [TOr] + q + [TAnd] + r == p + [TOr] + (q + [TAnd] + r);
    Reads(And(Truth(y), Truth(z)), q + [TAnd] + r);
    Reads(Or(Truth(x), And(Truth(y), Truth(z))), p + [TOr] + q + [TAnd] + r);
    Reads(And(Truth(x), Truth(y)), p + [TAnd] + q);
    Reads(Or(And(Truth(x), Truth(y)), Truth(z)), p + [TAnd] + q + [TOr] + r);
    Reads(Not(Truth(x)), [TNot] + p);
    Reads(And(Not(Truth(x)), Truth(y)), [TNot] + p + [TAnd] + q);
  }

  /** No token stream is the flattening of two different sequences of conditions: the grammar is unambiguous. */
  lemma Unambiguous(es: seq<BExpr>, fs: seq<BExpr>)
    requires es != [] && fs != [] && AllConditions(es) && AllConditions(fs)
    requires EmitAll(es) == EmitAll(fs)
    ensures es == fs
  {
    LinesTrip(es);
    LinesTrip(fs);
  }
}
