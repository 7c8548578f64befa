/** The second grammar reads nothing but flattened conditions: what it accepts is the flattening of the
    tree it builds, and that tree is a derivation. */
module WhereSound {
  import opened Types
  import opened WhereSyntax
  import opened WhereRoundTrip

  ghost predicate ReadsB(p: Parsed<BExpr>, ts: seq<Token>, level: nat) {
    p.Got? ==> Derived(p.val) && Level(p.val) >= level && ts == Emit(p.val) + p.rest
  }

  ghost predicate ReadsD(p: Parsed<DExpr>, ts: seq<Token>, level: nat) {
    p.Got? ==> DerivedD(p.val) && LevelD(p.val) >= level && ts == EmitD(p.val) + p.rest
  }

  lemma HeadFirst(ts: seq<Token>)
    requires ts != []
    ensures ts == [Head(ts)] + ts[1..]
  {
  }

  lemma Join(x: seq<Token>, t: Token, y: seq<Token>, rest: seq<Token>)
    ensures x + ([t] + (y + rest)) == (x + [t] + y) + rest
  {
  }

  lemma {:induction false} OrSound(ts: seq<Token>)
    ensures ReadsB(ParseOr(TREE, ts), ts, 0)
    decreases |ts|, 8
  {
    hide Emit, Derived, Level;
    AndSound(ts);
    var l := ParseAnd(TREE, ts);
    if l.Got? {
      OrRestSound(l.val, l.rest);
    }
  }

  lemma {:induction false} OrRestSound(l: BExpr, ts: seq<Token>)
    requires Derived(l)
    ensures ReadsB(OrRest(TREE, l, ts), Emit(l) + ts, 0)
    decreases |ts|, 8
  {
    if Head(ts) == TOr {
      HeadFirst(ts);
      AndSound(ts[1..]);
      var r := ParseAnd(TREE, ts[1..]);
      if r.Got? {
        Join(Emit(l), TOr, Emit(r.val), r.rest);
        OrRestSound(Or(l, r.val), r.rest);
      }
    }
  }

  lemma {:induction false} AndSound(ts: seq<Token>)
    ensures ReadsB(ParseAnd(TREE, ts), ts, 1)
    decreases |ts|, 7
  {
    hide Emit, Derived, Level;
    NotSound(ts);
    var l := ParseNot(TREE, ts);
    if l.Got? {
      AndRestSound(l.val, l.rest);
    }
  }

  lemma {:induction false} AndRestSound(l: BExpr, ts: seq<Token>)
    requires Derived(l) && Level(l) > 0
    ensures ReadsB(AndRest(TREE, l, ts), Emit(l) + ts, 1)
    decreases |ts|, 7
  {
    if Head(ts) == TAnd {
      HeadFirst(ts);
      NotSound(ts[1..]);
      var r := ParseNot(TREE, ts[1..]);
      if r.Got? {
        Join(Emit(l), TAnd, Emit(r.val), r.rest);
        AndRestSound(And(l, r.val), r.rest);
      }
    }
  }

  lemma {:induction false} NotSound(ts: seq<Token>)
    ensures ReadsB(ParseNot(TREE, ts), ts, 2)
    decreases |ts|, 6
  {
    if Head(ts) == TNot {
      HeadFirst(ts);
      NotSound(ts[1..]);
      var n := ParseNot(TREE, ts[1..]);
      if n.Got? {
        Join([], TNot, Emit(n.val), n.rest);
      }
    } else {
      CmpSound(ts);
    }
  }

  lemma {:induction false} CmpSound(ts: seq<Token>)
    ensures ReadsB(ParseCmp(TREE, ts), ts, 3)
    decreases |ts|, 5
  {
    hide EmitD, DerivedD, ParseAdd, ParseData;
    AddSound(ts);
    var x := ParseAdd(TREE, ts);
    if x.Got? && x.rest != [] {
      HeadFirst(x.rest);
      match Head(x.rest) {
        case TCmp(op) => CompareSound(x.val, op, x.rest[1..]);
        case TIn(neg) => if Head(x.rest[1..]) == TLpar { InSound(x.val, neg, x.rest[1..]); }
        case TBetween(neg) => BetweenSound(x.val, neg, x.rest[1..]);
        case _ =>
      }
    }
  }

  lemma {:induction false} CompareSound(x: DExpr, op: CmpOp, ts: seq<Token>)
    ensures var y := ParseAdd(TREE, ts);
      y.Got? ==> DerivedD(y.val) && EmitD(x) + ([TCmp(op)] + ts) == Emit(Compare(op, x, y.val)) + y.rest
    decreases |ts|, 5
  {
    AddSound(ts);
    var y := ParseAdd(TREE, ts);
    if y.Got? {
      Join(EmitD(x), TCmp(op), EmitD(y.val), y.rest);
    }
  }

  ghost predicate BetweenRead(x: DExpr, neg: bool, ts: seq<Token>, lo: Parsed<DExpr>)
    requires lo.Got?
  {
    && DerivedD(lo.val)
    && var hi := ParseAdd(TREE, lo.rest);
       hi.Got? ==>
         && DerivedD(hi.val)
         && EmitD(x) + ([TBetween(neg)] + ts) == Emit(Between(neg, x, lo.val, hi.val)) + hi.rest
  }

  lemma {:induction false} BetweenSound(x: DExpr, neg: bool, ts: seq<Token>)
    ensures ParseAdd(TREE, ts).Got? ==> BetweenRead(x, neg, ts, ParseAdd(TREE, ts))
    decreases |ts|, 5
  {
    AddSound(ts);
    var lo := ParseAdd(TREE, ts);
    if lo.Got? {
      AddSound(lo.rest);
      var hi := ParseAdd(TREE, lo.rest);
      if hi.Got? {
        CutBetween(EmitD(x), neg, EmitD(lo.val), EmitD(hi.val), hi.rest);
        assert [TBetween(neg)] + (EmitD(lo.val) + (EmitD(hi.val) + hi.rest)) == [TBetween(neg)] + ts;
      }
    }
  }

  lemma InSound(x: DExpr, neg: bool, ts: seq<Token>)
    requires Head(ts) == TLpar
    ensures var vs := ParseData(ts[1..]);
      Head(vs.rest) == TRpar ==>
        EmitD(x) + ([TIn(neg)] + ts) == Emit(InList(neg, x, vs.val)) + vs.rest[1..]
  {
    hide ParseData, EmitD, Data;
    DataSound(ts[1..]);
    var vs := ParseData(ts[1..]);
    if Head(vs.rest) == TRpar {
      assert vs.rest != [];
      HeadFirst(vs.rest);
      HeadFirst(ts);
      hide Head;
      InParts(EmitD(x), TIn(neg), ts, ts[1..], Data(vs.val), vs.rest, vs.rest[1..]);
    }
  }

  lemma InParts(x: seq<Token>, t: Token, ts: seq<Token>, us: seq<Token>, d: seq<Token>, vs: seq<Token>, rest: seq<Token>)
    requires ts == [TLpar] + us && us == d + vs && vs == [TRpar] + rest
    ensures x + ([t] + ts) == x + [t, TLpar] + d + [TRpar] + rest
  {
    assert [t] + ts == [t, TLpar] + (d + ([TRpar] + rest));
    var y := d + ([TRpar] + rest);
    assert x + ([t, TLpar] + y) == (x + [t, TLpar]) + y;
    assert (x + [t, TLpar]) + y == (x + [t, TLpar] + d) + ([TRpar] + rest);
  }

  lemma {:induction false} DataSound(ts: seq<Token>)
    ensures ts == Data(ParseData(ts).val) + ParseData(ts).rest
    decreases |ts|
  {
    if Head(ts).TDatum? {
      HeadFirst(ts);
      DataSound(ts[1..]);
      ReadDatum(ts[0].d, ts[1..]);
      hide ParseData;
      var r := ParseData(ts[1..]);
      assert ts == [TDatum(ts[0].d)] + ts[1..];
      DataCons(ts[0].d, r.val);
      InFront(TDatum(ts[0].d), Data(r.val), r.rest);
    }
  }

  lemma DataCons(v: Datum, vs: seq<Datum>)
    ensures Data([v] + vs) == [TDatum(v)] + Data(vs)
  {
    assert ([v] + vs)[1..] == vs;
  }

  lemma {:induction false} AddSound(ts: seq<Token>)
    ensures ReadsD(ParseAdd(TREE, ts), ts, 0)
    decreases |ts|, 4
  {
    hide EmitD, DerivedD, LevelD;
    MulSound(ts);
    var l := ParseMul(TREE, ts);
    if l.Got? {
      AddRestSound(l.val, l.rest);
    }
  }

  lemma {:induction false} AddRestSound(l: DExpr, ts: seq<Token>)
    requires DerivedD(l)
    ensures ReadsD(AddRest(TREE, l, ts), EmitD(l) + ts, 0)
    decreases |ts|, 4
  {
    if Head(ts).TAdd? {
      HeadFirst(ts);
      var op := Head(ts).aop;
      MulSound(ts[1..]);
      var r := ParseMul(TREE, ts[1..]);
      if r.Got? {
        Join(EmitD(l), TAdd(op), EmitD(r.val), r.rest);
        AddRestSound(Add(op, l, r.val), r.rest);
      }
    }
  }

  lemma {:induction false} MulSound(ts: seq<Token>)
    ensures ReadsD(ParseMul(TREE, ts), ts, 1)
    decreases |ts|, 3
  {
    hide EmitD, DerivedD, LevelD;
    AtomSound(ts);
    var l := ParseAtom(TREE, ts);
    if l.Got? {
      MulRestSound(l.val, l.rest);
    }
  }

  lemma {:induction false} MulRestSound(l: DExpr, ts: seq<Token>)
    requires DerivedD(l) && LevelD(l) > 0
    ensures ReadsD(MulRest(TREE, l, ts), EmitD(l) + ts, 1)
    decreases |ts|, 3
  {
    if Head(ts).TMul? {
      HeadFirst(ts);
      var op := Head(ts).mop;
      AtomSound(ts[1..]);
      var r := ParseAtom(TREE, ts[1..]);
      if r.Got? {
        Join(EmitD(l), TMul(op), EmitD(r.val), r.rest);
        MulRestSound(Mul(op, l, r.val), r.rest);
      }
    }
  }

  lemma {:induction false} AtomSound(ts: seq<Token>)
    ensures ReadsD(ParseAtom(TREE, ts), ts, 2)
    decreases |ts|, 2
  {
    if Head(ts) == TLpar {
      HeadFirst(ts);
      OrSound(ts[1..]);
      var b := ParseOr(TREE, ts[1..]);
      if b.Got? && Head(b.rest) == TRpar {
        HeadFirst(b.rest);
        assert [TLpar] + (Emit(b.val) + ([TRpar] + b.rest[1..])) == ([TLpar] + Emit(b.val) + [TRpar]) + b.rest[1..];
      }
    } else if Head(ts).TDatum? {
      HeadFirst(ts);
    }
  }

  /** The language of one line, exactly: a token stream is read as the tree `e`, to the end, if and only if
      it is the flattening of the derivation `e`. */
  lemma ReadsExactlyFlattenings(ts: seq<Token>, e: BExpr)
    ensures ParseOr(TREE, ts) == Got(e, []) <==> Derived(e) && ts == Emit(e)
  {
    OrSound(ts);
    if ParseOr(TREE, ts) == Got(e, []) {
      assert Emit(e) + [] == Emit(e);
    }
    if Derived(e) && ts == Emit(e) {
      OrTrip(TREE, e, []);
      TreeFold(e);
      assert Emit(e) + [] == ts;
    }
  }
}
