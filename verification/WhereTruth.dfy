/** Conditions over numbers and texts, without the code's data: what each one says, and that computing it gives that. */
module WhereTruth {
  import opened Sequences
  import opened Types
  import opened WhereSyntax
  import opened WhereEval
  import opened WhereMeaning
  import LK = Like

  // ----- part by part, errors included

  /** The error of the first operand that has one. */
  function FirstError<A>(x: Res<A>, y: Res<A>): Option<Error> {
    if x.Err? then Some(x.error) else if y.Err? then Some(y.error) else None
  }

  /** OR is true if both sides have a truth value and one is true, false if both are false. */
  lemma OrTruth(row: Row, l: BExpr, r: BExpr)
    ensures var p, q, o := Eval(row, l), Eval(row, r), Eval(row, Or(l, r));
      && (o == Ok(true) <==> p.Ok? && q.Ok? && (p == Ok(true) || q == Ok(true)))
      && (o == Ok(false) <==> p == Ok(false) && q == Ok(false))
      && (o.Err? ==> FirstError(p, q) == Some(o.error))
  {
  }

  /** AND is true if both sides are, false if both have a truth value and one is false. */
  lemma AndTruth(row: Row, l: BExpr, r: BExpr)
    ensures var p, q, o := Eval(row, l), Eval(row, r), Eval(row, And(l, r));
      && (o == Ok(true) <==> p == Ok(true) && q == Ok(true))
      && (o == Ok(false) <==> p.Ok? && q.Ok? && (p == Ok(false) || q == Ok(false)))
      && (o.Err? ==> FirstError(p, q) == Some(o.error))
  {
  }

  lemma NotTruth(row: Row, n: BExpr)
    ensures var p, o := Eval(row, n), Eval(row, Not(n));
      (o == Ok(true) <==> p == Ok(false)) && (o == Ok(false) <==> p == Ok(true)) && (o.Err? ==> o == p)
  {
  }

  /** NOT IN is the negation of IN, and fails where it fails. */
  lemma NotInTruth(row: Row, x: DExpr, vs: seq<Datum>)
    ensures Eval(row, InList(true, x, vs)) == Eval(row, Not(InList(false, x, vs)))
  {
  }

  /** A comparison is made between the value of its left side and that of its right side, in this order. */
  lemma CompareTruth(row: Row, op: CmpOp, x: DExpr, y: DExpr)
    ensures var p, q, o := EvalD(row, x), EvalD(row, y), Eval(row, Compare(op, x, y));
      if p.Ok? && q.Ok? then o == CompareData(op, p.val, q.val) else o.Err? && FirstError(p, q) == Some(o.error)
  {
  }

  // ----- identifiers

  /** An identifier is the current row's value in that column; a name that the row does not have stays a name. */
  lemma ColumnIsRead(row: Row, n: string)
    ensures EvalD(row, Value(Name(n))) == Ok(if n in row then row[n] else Name(n))
  {
  }

  /** A column of numbers compared with a number. */
  lemma NumberColumn(row: Row, n: string, op: CmpOp, ik: IntKind, v: int)
    requires n in row && row[n].Int? && InInt64(row[n].v) && InInt64(v) && !op.Like? && !op.NotLike?
    requires InInt64(row[n].v - v) || op.Eq? || op.Ne?
    ensures Eval(row, Compare(op, Value(Name(n)), Value(Int(ik, v)))) == Ok(Asks(op, row[n].v < v, row[n].v == v))
  {
    NumbersCompare(op, row[n], Int(ik, v));
  }

  /** A column of texts compared with a text, by the alphabet or as a pattern. */
  lemma TextColumn(row: Row, n: string, op: CmpOp, s: string)
    requires n in row && row[n].Chr?
    ensures var t, c := ToBase(row[n]).s, Eval(row, Compare(op, Value(Name(n)), Value(Chr(Varchar, s))));
      match op
      case Like => c == Ok(LK.Matches(t, s))
      case NotLike => c == Ok(!LK.Matches(t, s))
      case _ => c == Ok(Asks(op, Before(t, s), t == s))
  {
    if !op.Like? && !op.NotLike? {
      TextsCompare(op, row[n], Chr(Varchar, s));
    }
  }

  /** A column of numbers searched in a list of numbers, negated or not. */
  lemma {:induction false} NumberColumnIn(row: Row, n: string, negated: bool, vs: seq<Datum>)
    requires n in row && row[n].Int? && InInt64(row[n].v)
    requires forall i {:trigger vs[i]} :: 0 <= i < |vs| ==> vs[i].Int? && InInt64(vs[i].v)
    ensures Eval(row, InList(negated, Value(Name(n)), vs))
      == Ok((exists i {:trigger vs[i]} :: 0 <= i < |vs| && vs[i].v == row[n].v) != negated)
  {
    ListOfNumbers(row, row[n], vs);
  }

  lemma {:induction false} ListOfNumbers(row: Row, x: Datum, vs: seq<Datum>)
    requires x.Int? && InInt64(x.v)
    requires forall i {:trigger vs[i]} :: 0 <= i < |vs| ==> vs[i].Int? && InInt64(vs[i].v)
    ensures SearchList(row, x, vs) == Ok(exists i {:trigger vs[i]} :: 0 <= i < |vs| && vs[i].v == x.v)
  {
    if vs != [] {
      CmpIntegerExact(x.v, vs[0].v);
      ListOfNumbers(row, x, vs[1..]);
      assert forall i :: 0 <= i < |vs| - 1 ==> vs[1..][i] == vs[i + 1];
      if i :| 0 < i < |vs| && vs[i].v == x.v {
        assert vs[1..][i - 1].v == x.v;
      }
    }
  }

  /** A name that the row does not have: true as a condition unless it is empty, and compared with nothing. */
  lemma UnknownName(row: Row, n: string, op: CmpOp, y: DExpr)
    requires n !in row
    ensures Eval(row, Truth(Value(Name(n)))) == Ok(n != [] && n[0] != '\0')
    ensures EvalD(row, y).Ok? ==> Eval(row, Compare(op, Value(Name(n)), y)) == Err(Mismatch)
    ensures EvalD(row, y).Ok? ==> Eval(row, Compare(op, y, Value(Name(n)))) == Err(Mismatch)
  {
  }

  // ----- numbers and texts

  /** A text of fixed width is padded: it stands for itself without its trailing spaces. */
  datatype Val = Num(v: int) | Txt(s: string, padded: bool)

  function Text(x: Val): string
    requires x.Txt?
  {
    if x.padded then TrimRight(x.s) else x.s
  }

  function OfDatum(d: Datum): Option<Val> {
    match d
    case Int(_, v) => if InInt64(v) then Some(Num(v)) else None
    case Chr(Char, s) => Some(Txt(s, true))
    case Chr(Varchar, s) => Some(Txt(s, false))
    case Name(_) => None
  }

  predicate Alike(x: Val, y: Val) {
    x.Num? <==> y.Num?
  }

  predicate Same(x: Val, y: Val) {
    if x.Num? && y.Num? then x.v == y.v else x.Txt? && y.Txt? && Text(x) == Text(y)
  }

  /** A comparison; nothing for different kinds, for a pattern on numbers, and for an order of numbers too far apart. */
  function Compared(op: CmpOp, x: Val, y: Val): Option<bool> {
    if x.Num? && y.Num? && !op.Like? && !op.NotLike? then
      if op.Eq? || op.Ne? || InInt64(x.v - y.v) then Some(Asks(op, x.v < y.v, x.v == y.v)) else None
    else if x.Txt? && y.Txt? then
      match op
      case Like => Some(LK.Matches(Text(x), Text(y)))
      case NotLike => Some(!LK.Matches(Text(x), Text(y)))
      case _ => Some(Asks(op, Before(Text(x), Text(y)), Text(x) == Text(y)))
    else None
  }

  function Fit(v: int): Option<Val> {
    if InInt64(v) then Some(Num(v)) else None
  }

  function Abs(x: int): nat {
    if x < 0 then -x else x
  }

  /** The quotient rounded toward zero, and what then remains. */
  function Quotient(x: int, y: int): int
    requires y != 0
  {
    if (x < 0) == (y < 0) then Abs(x) / Abs(y) else -(Abs(x) / Abs(y))
  }

  // ----- what a condition says

  /** Its truth for the row, or nothing if an operand has no value, kinds do not go together, a result does not fit 64
      bits, a divisor is zero, or BETWEEN is negated. */
  ghost function Says(row: Row, e: BExpr): Option<bool> {
    match e
    case Or(l, r) =>
      var p, q := Says(row, l), Says(row, r);
      if p.Some? && q.Some? then Some(p.value || q.value) else None
    case And(l, r) =>
      var p, q := Says(row, l), Says(row, r);
      if p.Some? && q.Some? then Some(p.value && q.value) else None
    case Not(n) =>
      var p := Says(row, n);
      if p.Some? then Some(!p.value) else None
    case Truth(d) =>
      var x := Stands(row, d);
      if x.None? then None
      else if x.value.Num? then Some(x.value.v != 0)
      else Some(x.value.s != [] && x.value.s[0] != '\0')
    case Compare(op, x, y) =>
      var p, q := Stands(row, x), Stands(row, y);
      if p.Some? && q.Some? then Compared(op, p.value, q.value) else None
    case InList(negated, x, vs) =>
      var p := Stands(row, x);
      if p.Some? && AllAlike(row, p.value, vs) then Some(Among(row, p.value, vs) != negated) else None
    case Between(negated, x, lo, hi) =>
      var p, q, r := Stands(row, x), Stands(row, lo), Stands(row, hi);
      if negated || p.None? || q.None? || r.None? then None
      else
        var above, below := Compared(Ge, p.value, q.value), Compared(Le, p.value, r.value);
        if p.value.Num? && above.Some? && below.Some? then Some(above.value && below.value) else None
  }

  ghost function Stands(row: Row, d: DExpr): Option<Val> {
    match d
    case Value(v) => OfDatum(Column(row, v))
    case Paren(b) =>
      var p := Says(row, b);
      if p.Some? then Some(Num(if p.value then 1 else 0)) else None
    case Add(op, l, r) =>
      var p, q := Stands(row, l), Stands(row, r);
      if p.None? || q.None? then None else Sum(op, p.value, q.value)
    case Mul(op, l, r) =>
      var p, q := Stands(row, l), Stands(row, r);
      if p.None? || q.None? then None else Product(op, p.value, q.value)
  }

  function Sum(op: AddOp, x: Val, y: Val): Option<Val> {
    if x.Num? && y.Num? then
      if op.Plus? then Fit(x.v + y.v) else if op.Minus? then Fit(x.v - y.v) else None
    else if x.Txt? && y.Txt? && op.Concat? then Some(Txt(x.s + y.s, true))
    else None
  }

  function Product(op: MulOp, x: Val, y: Val): Option<Val> {
    if !x.Num? || !y.Num? then None
    else if op.Times? then Fit(x.v * y.v)
    else if y.v == 0 then None
    else
      var q := Quotient(x.v, y.v);
      if !InInt64(q) then None else if op.Divide? then Some(Num(q)) else Some(Num(x.v - y.v * q))
  }

  function Column(row: Row, d: Datum): Datum {
    match d
    case Name(n) => if n in row then row[n] else d
    case _ => d
  }

  ghost predicate AllAlike(row: Row, x: Val, vs: seq<Datum>) {
    forall i {:trigger vs[i]} :: 0 <= i < |vs| ==>
      OfDatum(Column(row, vs[i])).Some? && Alike(x, OfDatum(Column(row, vs[i])).value)
  }

  ghost predicate Among(row: Row, x: Val, vs: seq<Datum>)
    requires AllAlike(row, x, vs)
  {
    exists i {:trigger vs[i]} :: 0 <= i < |vs| && Same(x, OfDatum(Column(row, vs[i])).value)
  }

  // ----- computing it

  lemma ComparedRight(op: CmpOp, p: Datum, q: Datum)
    requires OfDatum(p).Some? && OfDatum(q).Some?
    ensures var c := Compared(op, OfDatum(p).value, OfDatum(q).value);
      c.Some? ==> CompareData(op, p, q) == Ok(c.value)
  {
    hide LK.Matches, Before;
    if p.Int? && q.Int? && !op.Like? && !op.NotLike? {
      NumbersCompare(op, p, q);
    } else if p.Chr? && q.Chr? && !op.Like? && !op.NotLike? {
      TextsCompare(op, p, q);
    }
  }

  lemma SameRight(x: Datum, v: Datum)
    requires OfDatum(x).Some? && OfDatum(v).Some? && Alike(OfDatum(x).value, OfDatum(v).value)
    ensures Comparable(x, v) && (CmpData(x, v) == 0 <==> Same(OfDatum(x).value, OfDatum(v).value))
  {
    hide Before;
    if x.Int? {
      CmpIntegerExact(x.v, v.v);
    } else {
      CmpIsAlphabetical(ToBase(x).s, ToBase(v).s);
    }
  }

  lemma {:induction false} AmongRight(row: Row, x: Datum, vs: seq<Datum>)
    requires OfDatum(x).Some? && AllAlike(row, OfDatum(x).value, vs)
    ensures SearchList(row, x, vs) == Ok(Among(row, OfDatum(x).value, vs))
  {
    hide CmpData, OfDatum, Same, Alike, Comparable;
    if vs != [] {
      var t := vs[1..];
      assert forall i :: 0 <= i < |t| ==> t[i] == vs[i + 1];
      assert Lookup(row, vs[0]) == Column(row, vs[0]);
      SameRight(x, Column(row, vs[0]));
      AmongRight(row, x, t);
      if i :| 0 < i < |vs| && Same(OfDatum(x).value, OfDatum(Column(row, vs[i])).value) {
        assert t[i - 1] == vs[i];
      }
    }
  }

  lemma RangeRight(x: Datum, lo: Datum, hi: Datum)
    requires OfDatum(x).Some? && OfDatum(lo).Some? && OfDatum(hi).Some? && x.Int?
    ensures var a, b := Compared(Ge, OfDatum(x).value, OfDatum(lo).value), Compared(Le, OfDatum(x).value, OfDatum(hi).value);
      a.Some? && b.Some? ==> InRange(x, lo, hi) == Ok(a.value && b.value)
  {
    if lo.Int? && hi.Int? {
      CmpIntegerExact(x.v, lo.v);
      CmpIntegerExact(x.v, hi.v);
    }
  }

  lemma SumRight(op: AddOp, x: Datum, y: Datum)
    requires OfDatum(x).Some? && OfDatum(y).Some?
    ensures var s, a := Sum(op, OfDatum(x).value, OfDatum(y).value), AddData(op, x, y);
      s.Some? ==> a.Ok? && OfDatum(a.val) == s
  {
    if x.Int? && y.Int? {
      ArithmeticIsExact(x, y);
    }
  }

  lemma QuotientTrunc(x: int, y: int)
    requires y != 0
    ensures TruncDiv(x, y) == Quotient(x, y)
    ensures TruncMod(x, y) == x - y * Quotient(x, y)
  {
    if y < 0 {
      NegatedDivisor(Abs(x), y);
    }
  }

  lemma NegatedDivisor(x: nat, y: int)
    requires y < 0
    ensures x / y == -(x / (-y))
  {
    var q, r := x / y, x % y;
    assert x == q * y + r && 0 <= r < -y;
    assert x == (-q) * (-y) + r;
    var q', r' := x / (-y), x % (-y);
    assert x == q' * (-y) + r';
    var d := q' + q;
    assert d * (-y) == r - r';
  }

  lemma ProductRight(op: MulOp, x: Datum, y: Datum)
    requires OfDatum(x).Some? && OfDatum(y).Some?
    ensures var s, a := Product(op, OfDatum(x).value, OfDatum(y).value), MulData(op, x, y);
      s.Some? ==> a.Ok? && OfDatum(a.val) == s
  {
    hide TruncDiv, TruncMod, Quotient;
    if x.Int? && y.Int? {
      if op.Times? {
        ArithmeticIsExact(x, y);
      } else if y.v != 0 {
        QuotientTrunc(x.v, y.v);
        MostNegative(x.v, y.v);
        RemainderFits(x.v, y.v);
      }
    }
  }

  lemma MostNegative(x: int, y: int)
    requires y != 0
    ensures x == MIN64 && y == -1 ==> Quotient(x, y) == MAX64 + 1
  {
  }

  lemma RemainderFits(x: int, y: int)
    requires y != 0 && InInt64(y)
    ensures InInt64(x - y * Quotient(x, y))
  {
    QuotientTrunc(x, y);
    TruncModSign(x, y);
  }

  /** Wherever a condition says something, computing it gives just that. */
  lemma {:induction false} ComputesWhatItSays(row: Row, e: BExpr)
    ensures Says(row, e).Some? ==> Eval(row, e) == Ok(Says(row, e).value)
    decreases e
  {
    hide CompareData, Compared, InRange, SearchList, AllAlike, Among, EvalD, Stands;
    match e
    case Or(l, r) => ComputesWhatItSays(row, l); ComputesWhatItSays(row, r);
    case And(l, r) => ComputesWhatItSays(row, l); ComputesWhatItSays(row, r);
    case Not(n) => ComputesWhatItSays(row, n);
    case Truth(d) => ValueStandsFor(row, d);
    case Compare(op, x, y) =>
      ValueStandsFor(row, x);
      ValueStandsFor(row, y);
      if Says(row, e).Some? {
        ComparedRight(op, EvalD(row, x).val, EvalD(row, y).val);
      }
    case InList(_, x, vs) =>
      ValueStandsFor(row, x);
      if Says(row, e).Some? {
        AmongRight(row, EvalD(row, x).val, vs);
      }
    case Between(_, x, lo, hi) =>
      ValueStandsFor(row, x);
      ValueStandsFor(row, lo);
      ValueStandsFor(row, hi);
      if Says(row, e).Some? {
        RangeRight(EvalD(row, x).val, EvalD(row, lo).val, EvalD(row, hi).val);
      }
  }

  lemma {:induction false} ValueStandsFor(row: Row, d: DExpr)
    ensures Stands(row, d).Some? ==> EvalD(row, d).Ok? && OfDatum(EvalD(row, d).val) == Stands(row, d)
    decreases d
  {
    hide AddData, MulData, Sum, Product, Eval, Says;
    match d
    case Value(v) =>
    case Paren(b) => ComputesWhatItSays(row, b);
    case Add(op, l, r) =>
      ValueStandsFor(row, l);
      ValueStandsFor(row, r);
      if Stands(row, d).Some? {
        SumRight(op, EvalD(row, l).val, EvalD(row, r).val);
      }
    case Mul(op, l, r) =>
      ValueStandsFor(row, l);
      ValueStandsFor(row, r);
      if Stands(row, d).Some? {
        ProductRight(op, EvalD(row, l).val, EvalD(row, r).val);
      }
  }

  // ----- kinds

  datatype Kind = Numeric | Textual | Unread

  function KindOf(d: Datum): Kind {
    if d.Int? then Numeric else if d.Chr? then Textual else Unread
  }

  /** The kind of a value, or nothing if its parts do not go together. */
  ghost function Typed(row: Row, d: DExpr): Option<Kind> {
    match d
    case Value(v) => Some(KindOf(Column(row, v)))
    case Paren(b) => if Checked(row, b) then Some(Numeric) else None
    case Add(op, l, r) =>
      var kind := if op.Concat? then Textual else Numeric;
      if Typed(row, l) == Some(kind) && Typed(row, r) == Some(kind) then Some(kind) else None
    case Mul(_, l, r) =>
      if Typed(row, l) == Some(Numeric) && Typed(row, r) == Some(Numeric) then Some(Numeric) else None
  }

  /** The operands of every operation go together: texts with texts, for patterns and concatenation nothing but texts, for
      arithmetic and BETWEEN nothing but numbers. */
  ghost predicate Checked(row: Row, e: BExpr) {
    match e
    case Or(l, r) => Checked(row, l) && Checked(row, r)
    case And(l, r) => Checked(row, l) && Checked(row, r)
    case Not(n) => Checked(row, n)
    case Truth(d) => Typed(row, d).Some?
    case Compare(op, x, y) =>
      var p, q := Typed(row, x), Typed(row, y);
      p == q && (p == Some(Textual) || (p == Some(Numeric) && !op.Like? && !op.NotLike?))
    case InList(_, x, vs) =>
      var p := Typed(row, x);
      p.Some? && (vs == [] || p.value != Unread) && forall i {:trigger vs[i]} :: 0 <= i < |vs| ==> KindOf(Column(row, vs[i])) == p.value
    case Between(_, x, lo, hi) =>
      Typed(row, x) == Typed(row, lo) == Typed(row, hi) == Some(Numeric)
  }

  /** No IN, whose search may stop before a value of another kind. */
  predicate NoLists(e: BExpr) {
    match e
    case Or(l, r) => NoLists(l) && NoLists(r)
    case And(l, r) => NoLists(l) && NoLists(r)
    case Not(n) => NoLists(n)
    case Truth(d) => NoListsIn(d)
    case Compare(_, x, y) => NoListsIn(x) && NoListsIn(y)
    case InList(_, _, _) => false
    case Between(_, x, lo, hi) => NoListsIn(x) && NoListsIn(lo) && NoListsIn(hi)
  }

  predicate NoListsIn(d: DExpr) {
    match d
    case Value(_) => true
    case Paren(b) => NoLists(b)
    case Add(_, l, r) => NoListsIn(l) && NoListsIn(r)
    case Mul(_, l, r) => NoListsIn(l) && NoListsIn(r)
  }

  /** If the operands go together there is no mismatch, whatever the values; if they do not there is an error, except that
      the search of a list may stop before the value that does not fit. */
  lemma {:induction false} KindsDecide(row: Row, e: BExpr)
    ensures Checked(row, e) ==> Eval(row, e) != Err(Mismatch)
    ensures !Checked(row, e) && NoLists(e) ==> Eval(row, e).Err?
    decreases e
  {
    hide LK.Matches, CmpData, Typed, EvalD;
    match e
    case Or(l, r) => KindsDecide(row, l); KindsDecide(row, r);
    case And(l, r) => KindsDecide(row, l); KindsDecide(row, r);
    case Not(n) => KindsDecide(row, n);
    case Truth(d) => ValueKinds(row, d);
    case Compare(_, x, y) => ValueKinds(row, x); ValueKinds(row, y);
    case InList(_, x, vs) =>
      ValueKinds(row, x);
      if Checked(row, e) && EvalD(row, x).Ok? {
        ListKinds(row, EvalD(row, x).val, vs);
      }
    case Between(_, x, lo, hi) => ValueKinds(row, x); ValueKinds(row, lo); ValueKinds(row, hi);
  }

  lemma {:induction false} ListKinds(row: Row, x: Datum, vs: seq<Datum>)
    requires vs == [] || KindOf(x) != Unread
    requires forall i {:trigger vs[i]} :: 0 <= i < |vs| ==> KindOf(Column(row, vs[i])) == KindOf(x)
    ensures SearchList(row, x, vs).Ok?
  {
    hide CmpData;
    if vs != [] {
      ListKinds(row, x, vs[1..]);
    }
  }

  lemma {:induction false} ValueKinds(row: Row, d: DExpr)
    ensures Typed(row, d).Some? ==> EvalD(row, d) != Err(Mismatch)
    ensures Typed(row, d).Some? && EvalD(row, d).Ok? ==> KindOf(EvalD(row, d).val) == Typed(row, d).value
    ensures Typed(row, d).None? && NoListsIn(d) ==> EvalD(row, d).Err?
    decreases d
  {
    hide Eval, Checked, TruncDiv, TruncMod, Wrap64;
    match d
    case Value(_) =>
    case Paren(b) => KindsDecide(row, b);
    case Add(_, l, r) => ValueKinds(row, l); ValueKinds(row, r);
    case Mul(_, l, r) => ValueKinds(row, l); ValueKinds(row, r);
  }
}
