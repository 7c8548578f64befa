/** What the operators of conditions amount to, stated without the comparison and arithmetic code. */
module WhereMeaning {
  import opened Types
  import opened WhereSyntax
  import opened WhereEval

  /** The order relation an operator asks for, given whether the first operand is before, equal or after. */
  predicate Asks(op: CmpOp, before: bool, equal: bool) {
    match op
    case Eq => equal
    case Ne => !equal
    case Lt => before
    case Le => before || equal
    case Gt => !before && !equal
    case Ge => !before
    case _ => false
  }

  /** Numbers are compared by value as long as their difference fits 64 bits; equality always. */
  lemma NumbersCompare(op: CmpOp, x: Datum, y: Datum)
    requires x.Int? && y.Int? && InInt64(x.v) && InInt64(y.v) && !op.Like? && !op.NotLike?
    ensures InInt64(x.v - y.v) || op.Eq? || op.Ne? ==> CompareData(op, x, y) == Ok(Asks(op, x.v < y.v, x.v == y.v))
  {
    CmpIntegerExact(x.v, y.v);
  }

  /** Beyond that every order comparison is the wrong way round: the comparison is right exactly if it asks for equality
      or the difference fits. */
  lemma OrderIsRight(op: CmpOp, x: Datum, y: Datum)
    requires x.Int? && y.Int? && InInt64(x.v) && InInt64(y.v) && !op.Like? && !op.NotLike?
    ensures CompareData(op, x, y) == Ok(Asks(op, x.v < y.v, x.v == y.v)) <==> InInt64(x.v - y.v) || op.Eq? || op.Ne?
    ensures !InInt64(x.v - y.v) && !op.Eq? && !op.Ne? ==> CompareData(op, x, y) == Ok(Asks(op, y.v < x.v, x.v == y.v))
  {
    CmpIntegerExact(x.v, y.v);
    CmpIntegerExact(y.v, x.v);
  }

  /** Texts are compared alphabetically without their trailing spaces (for the fixed-width type). */
  lemma TextsCompare(op: CmpOp, x: Datum, y: Datum)
    requires x.Chr? && y.Chr? && !op.Like? && !op.NotLike?
    ensures CompareData(op, x, y) == Ok(Asks(op, Before(ToBase(x).s, ToBase(y).s), ToBase(x).s == ToBase(y).s))
  {
    CmpIsAlphabetical(ToBase(x).s, ToBase(y).s);
    BeforeIsStrictOrder(ToBase(x).s, ToBase(y).s, ToBase(x).s);
  }

  /** Without an error before the first equal value, IN is membership up to the comparison's equality. */
  lemma {:induction false} InIsMembership(row: Row, x: Datum, vs: seq<Datum>)
    ensures SearchList(row, x, vs) == Ok(true) <==> Found(row, x, vs)
    ensures SearchList(row, x, vs) == Ok(false) <==> NoneEqual(row, x, vs)
  {
    if vs != [] {
      InIsMembership(row, x, vs[1..]);
      FoundFirst(row, x, vs);
      NoneEqualFirst(row, x, vs);
      hide Found, NoneEqual;
    }
  }

  /** Some value is equal, and all before it are comparable. */
  ghost predicate Found(row: Row, x: Datum, vs: seq<Datum>) {
    exists i :: 0 <= i < |vs| && EqualTo(row, x, vs[i]) && forall j :: 0 <= j < i ==> Comparable(x, Lookup(row, vs[j]))
  }

  ghost predicate NoneEqual(row: Row, x: Datum, vs: seq<Datum>) {
    forall i :: 0 <= i < |vs| ==> Comparable(x, Lookup(row, vs[i])) && !EqualTo(row, x, vs[i])
  }

  lemma FoundFirst(row: Row, x: Datum, vs: seq<Datum>)
    requires vs != []
    ensures Found(row, x, vs) <==>
      EqualTo(row, x, vs[0]) || (Comparable(x, Lookup(row, vs[0])) && Found(row, x, vs[1..]))
  {
    hide EqualTo, Comparable, Lookup;
    var t := vs[1..];
    if i :| 0 <= i < |t| && EqualTo(row, x, t[i]) && forall j :: 0 <= j < i ==> Comparable(x, Lookup(row, t[j])) {
      if Comparable(x, Lookup(row, vs[0])) {
        assert EqualTo(row, x, vs[i + 1]);
        assert forall j :: 0 < j < i + 1 ==> vs[j] == t[j - 1];
      }
    }
    if i :| 0 <= i < |vs| && EqualTo(row, x, vs[i]) && forall j :: 0 <= j < i ==> Comparable(x, Lookup(row, vs[j])) {
      if i > 0 {
        assert EqualTo(row, x, t[i - 1]);
        assert forall j :: 0 <= j < i - 1 ==> t[j] == vs[j + 1];
      }
    }
  }

  lemma NoneEqualFirst(row: Row, x: Datum, vs: seq<Datum>)
    requires vs != []
    ensures NoneEqual(row, x, vs) <==>
      !EqualTo(row, x, vs[0]) && Comparable(x, Lookup(row, vs[0])) && NoneEqual(row, x, vs[1..])
  {
    hide EqualTo, Comparable, Lookup;
    assert forall i :: 0 <= i < |vs| - 1 ==> vs[1..][i] == vs[i + 1];
    assert forall i :: 0 < i < |vs| ==> vs[i] == vs[1..][i - 1];
  }

  predicate EqualTo(row: Row, x: Datum, d: Datum) {
    var v := Lookup(row, d);
    (x.Int? && v.Int? && Wrap64(x.v - v.v) == 0) || (x.Chr? && v.Chr? && CmpCharacter(x, v) == 0)
  }

  /** When BETWEEN is the range test, exactly. With the bounds in order it is wrong just for values in the range that are
      too far from a bound; with the bounds swapped, for values beyond one bound but too far beyond the other. */
  lemma BetweenIsRange(x: Datum, lo: Datum, hi: Datum)
    requires x.Int? && lo.Int? && hi.Int? && InInt64(x.v) && InInt64(lo.v) && InInt64(hi.v)
    ensures InRange(x, lo, hi) == Ok(lo.v <= x.v <= hi.v) <==>
      var nearLo, nearHi := InInt64(x.v - lo.v), InInt64(x.v - hi.v);
      if lo.v <= hi.v then (lo.v <= x.v <= hi.v ==> nearLo && nearHi)
      else !(x.v >= lo.v && nearLo && !nearHi) && !(x.v <= hi.v && nearHi && !nearLo)
  {
    CmpIntegerExact(x.v, lo.v);
    CmpIntegerExact(x.v, hi.v);
  }

  /** Sums, differences and products are exact as long as they fit; quotients round toward zero. */
  lemma ArithmeticIsExact(x: Datum, y: Datum)
    requires x.Int? && y.Int?
    ensures InInt64(x.v + y.v) ==> AddData(Plus, x, y) == Ok(Int(Bigint, x.v + y.v))
    ensures InInt64(x.v - y.v) ==> AddData(Minus, x, y) == Ok(Int(Bigint, x.v - y.v))
    ensures InInt64(x.v * y.v) ==> MulData(Times, x, y) == Ok(Int(Bigint, x.v * y.v))
    ensures y.v == 0 ==> MulData(Divide, x, y) == Err(Fault) && MulData(Modulo, x, y) == Err(Fault)
    ensures y.v != 0 && !(x.v == MIN64 && y.v == -1) ==>
      var q, m := MulData(Divide, x, y), MulData(Modulo, x, y);
      q.Ok? && m.Ok? && q.val.Int? && m.val.Int? && x.v == q.val.v * y.v + m.val.v && Small(m.val.v, x.v, y.v)
  {
    if y.v != 0 {
      TruncModSign(x.v, y.v);
    }
  }

  /** A remainder: smaller than the divisor, with the sign of the dividend. */
  predicate Small(m: int, x: int, y: int) {
    -(if y < 0 then -y else y) < m < (if y < 0 then -y else y) && (x >= 0 ==> m >= 0) && (x <= 0 ==> m <= 0)
  }
}
