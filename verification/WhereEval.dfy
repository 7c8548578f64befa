/** The meaning of a condition for one row, as the second grammar's actions compute it. */
module WhereEval {
  import opened Types
  import opened WhereSyntax
  import opened WhereRoundTrip
  import LK = Like

  /** A type mismatch aborts the statement; a division the hardware refuses stops the session. */
  datatype Error = Mismatch | Fault
  datatype Res<T> = Ok(val: T) | Err(error: Error)

  /** A row: the columns it has and their data. */
  type Row = map<string, Datum>

  /** An identifier that names no column stays a name. */
  function Lookup(row: Row, d: Datum): Datum {
    if d.Name? && d.s in row then row[d.s] else d
  }

  function CompareData(op: CmpOp, x: Datum, y: Datum): Res<bool> {
    match op
    case Like => if Lexical(x, y) then Ok(LK.Matches(ToBase(x).s, ToBase(y).s)) else Err(Mismatch)
    case NotLike => if Lexical(x, y) then Ok(!LK.Matches(ToBase(x).s, ToBase(y).s)) else Err(Mismatch)
    case _ =>
      if !Comparable(x, y) then Err(Mismatch)
      else
        var c := CmpData(x, y);
        Ok(match op
           case Eq => c == 0
           case Ne => c != 0
           case Lt => c < 0
           case Le => c <= 0
           case Gt => c > 0
           case _ => c >= 0)
  }

  /** The search stops at the first equal value; a value before it that cannot be compared aborts. */
  function SearchList(row: Row, x: Datum, vs: seq<Datum>): Res<bool> {
    if vs == [] then Ok(false)
    else
      var v := Lookup(row, vs[0]);
      if !Comparable(x, v) then Err(Mismatch)
      else if CmpData(x, v) == 0 then Ok(true)
      else SearchList(row, x, vs[1..])
  }

  function InRange(x: Datum, lo: Datum, hi: Datum): Res<bool> {
    if Arithmetical(x, lo) && Arithmetical(x, hi) then Ok(CmpData(x, lo) >= 0 && CmpData(x, hi) <= 0) else Err(Mismatch)
  }

  function AddData(op: AddOp, x: Datum, y: Datum): Res<Datum> {
    match op
    case Plus => if Arithmetical(x, y) then Ok(Int(Bigint, Wrap64(x.v + y.v))) else Err(Mismatch)
    case Minus => if Arithmetical(x, y) then Ok(Int(Bigint, Wrap64(x.v - y.v))) else Err(Mismatch)
    case Concat => if Lexical(x, y) then Ok(Chr(Char, x.s + y.s)) else Err(Mismatch)
  }

  function MulData(op: MulOp, x: Datum, y: Datum): Res<Datum> {
    if !Arithmetical(x, y) then Err(Mismatch)
    else match op
    case Times => Ok(Int(Bigint, Wrap64(x.v * y.v)))
    case Divide => if y.v == 0 || (x.v == MIN64 && y.v == -1) then Err(Fault) else Ok(Int(Bigint, TruncDiv(x.v, y.v)))
    case Modulo => if y.v == 0 || (x.v == MIN64 && y.v == -1) then Err(Fault) else Ok(Int(Bigint, TruncMod(x.v, y.v)))
  }

  // ----- a condition's meaning, by recursion on its tree

  /** Both operands are always computed; the first error, from left to right, is the result. A
      parenthesised condition is worth 1 or 0. NOT BETWEEN is computed like BETWEEN. */
  function Eval(row: Row, e: BExpr): Res<bool> {
    match e
    case Or(l, r) => Both(Eval(row, l), Eval(row, r), (p, q) => Ok(p || q))
    case And(l, r) => Both(Eval(row, l), Eval(row, r), (p, q) => Ok(p && q))
    case Not(n) => var p := Eval(row, n); if p.Err? then p else Ok(!p.val)
    case Truth(d) => var x := EvalD(row, d); if x.Err? then Err(x.error) else Ok(!Zeroed(x.val))
    case Compare(op, x, y) => Both(EvalD(row, x), EvalD(row, y), (p, q) => CompareData(op, p, q))
    case InList(negated, x, vs) =>
      var p := EvalD(row, x);
      if p.Err? then Err(p.error)
      else
        var found := SearchList(row, p.val, vs);
        if found.Err? then found else Ok(found.val != negated)
    case Between(_, x, lo, hi) =>
      var p := EvalD(row, x);
      var q := EvalD(row, lo);
      var r := EvalD(row, hi);
      if p.Err? then Err(p.error) else if q.Err? then Err(q.error) else if r.Err? then Err(r.error)
      else InRange(p.val, q.val, r.val)
  }

  function EvalD(row: Row, d: DExpr): Res<Datum> {
    match d
    case Add(op, l, r) => Both(EvalD(row, l), EvalD(row, r), (p, q) => AddData(op, p, q))
    case Mul(op, l, r) => Both(EvalD(row, l), EvalD(row, r), (p, q) => MulData(op, p, q))
    case Value(v) => Ok(Lookup(row, v))
    case Paren(b) => var p := Eval(row, b); if p.Err? then Err(p.error) else Ok(Int(Bigint, if p.val then 1 else 0))
  }

  function Both<A, T>(x: Res<A>, y: Res<A>, f: (A, A) -> Res<T>): Res<T> {
    if x.Err? then Err(x.error) else if y.Err? then Err(y.error) else f(x.val, y.val)
  }

  // ----- the grammar's actions for one row

  /** What the reductions compute: values and truth values, with no tree. */
  function Actions4(row: Row): Actions<Res<bool>, Res<Datum>> {
    Actions(
      (l: Res<bool>, r: Res<bool>) => Both(l, r, (p: bool, q: bool) => Ok(p || q)),
      (l: Res<bool>, r: Res<bool>) => Both(l, r, (p: bool, q: bool) => Ok(p && q)),
      (p: Res<bool>) => if p.Err? then p else Ok(!p.val),
      (x: Res<Datum>) => if x.Err? then Err(x.error) else Ok(!Zeroed(x.val)),
      (op: CmpOp, x: Res<Datum>, y: Res<Datum>) => Both(x, y, (p: Datum, q: Datum) => CompareData(op, p, q)),
      (negated: bool, x: Res<Datum>, vs: seq<Datum>) =>
        if x.Err? then Err(x.error)
        else
          var found := SearchList(row, x.val, vs);
          if found.Err? then found else Ok(found.val != negated),
      (negated: bool, x: Res<Datum>, lo: Res<Datum>, hi: Res<Datum>) =>
        if x.Err? then Err(x.error) else if lo.Err? then Err(lo.error) else if hi.Err? then Err(hi.error)
        else InRange(x.val, lo.val, hi.val),
      (op: AddOp, x: Res<Datum>, y: Res<Datum>) => Both(x, y, (p: Datum, q: Datum) => AddData(op, p, q)),
      (op: MulOp, x: Res<Datum>, y: Res<Datum>) => Both(x, y, (p: Datum, q: Datum) => MulData(op, p, q)),
      (v: Datum) => Ok(Lookup(row, v)),
      (p: Res<bool>) => if p.Err? then Err(p.error) else Ok(Int(Bigint, if p.val then 1 else 0)))
  }

  lemma {:induction false} FoldIsEval(row: Row, e: BExpr)
    ensures Fold(Actions4(row), e) == Eval(row, e)
    decreases e
  {
    hide CompareData, InRange, SearchList, Zeroed, EvalD, FoldD;
    match e
    case Or(l, r) => FoldIsEval(row, l); FoldIsEval(row, r);
    case And(l, r) => FoldIsEval(row, l); FoldIsEval(row, r);
    case Not(n) => FoldIsEval(row, n);
    case Truth(d) => FoldIsEvalD(row, d);
    case Compare(_, x, y) => FoldIsEvalD(row, x); FoldIsEvalD(row, y);
    case InList(_, x, _) => FoldIsEvalD(row, x);
    case Between(_, x, lo, hi) => FoldIsEvalD(row, x); FoldIsEvalD(row, lo); FoldIsEvalD(row, hi);
  }

  lemma {:induction false} FoldIsEvalD(row: Row, d: DExpr)
    ensures FoldD(Actions4(row), d) == EvalD(row, d)
    decreases d
  {
    hide AddData, MulData, Lookup, Eval, Fold;
    match d
    case Add(_, l, r) => FoldIsEvalD(row, l); FoldIsEvalD(row, r);
    case Mul(_, l, r) => FoldIsEvalD(row, l); FoldIsEvalD(row, r);
    case Value(_) =>
    case Paren(b) => FoldIsEval(row, b);
  }

  /** Computing while reading gives the tree's meaning. */
  lemma ReadingEvaluates(row: Row, e: BExpr, rest: seq<Token>)
    requires Derived(e) && EndsOr(rest)
    ensures ParseOr(Actions4(row), Emit(e) + rest) == Got(Eval(row, e), rest)
  {
    OrTrip(Actions4(row), e, rest);
    FoldIsEval(row, e);
  }

  /** NOT BETWEEN never gives the negation of BETWEEN: whenever it has a value it is the wrong one. */
  lemma NotBetweenIsBetween(row: Row, x: DExpr, lo: DExpr, hi: DExpr)
    ensures Eval(row, Between(true, x, lo, hi)) == Eval(row, Between(false, x, lo, hi))
    ensures Eval(row, Between(true, x, lo, hi)) == Eval(row, Not(Between(false, x, lo, hi)))
      <==> Eval(row, Between(false, x, lo, hi)).Err?
  {
  }
}
