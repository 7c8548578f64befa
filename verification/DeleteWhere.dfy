/** DELETE with a condition, in place: one iterator drives the lexer, another the lines, both over rows that the lines
    are marking. */
module DeleteWhere {
  import opened Mvcc
  import opened WhereSyntax
  import opened WhereRoundTrip
  import opened WhereEval
  import opened WhereExec

  /** The rows after the scan, and how it ends: visible rows where the condition is true get `t` as their deleter, up to
      the first error; the marks made before it stay. */
  function Scanned(t: nat, rows: seq<TRow>, committed: set<nat>, e: BExpr, columns: TRow -> Row): (r: (seq<TRow>, Ending))
    ensures |r.0| == |rows|
  {
    if rows == [] then ([], Done)
    else if !Visible(t, rows[0], committed) then
      var rest := Scanned(t, rows[1..], committed, e, columns);
      ([rows[0]] + rest.0, rest.1)
    else
      match Eval(columns(rows[0]), e)
      case Err(error) => (rows, Failed(error))
      case Ok(p) =>
        var rest := Scanned(t, rows[1..], committed, e, columns);
        ([if p then rows[0].(tmax := t) else rows[0]] + rest.0, rest.1)
  }

  /** Row by row: up to the first visible row with an error, the rows marked are the visible ones where the condition is
      true; from there on none is. */
  lemma {:induction false} ScannedAt(t: nat, rows: seq<TRow>, committed: set<nat>, e: BExpr, columns: TRow -> Row, i: nat)
    requires i < |rows|
    ensures var marked := Scanned(t, rows, committed, e, columns).0[i];
      if (forall j :: 0 <= j <= i && Visible(t, rows[j], committed) ==> Eval(columns(rows[j]), e).Ok?) then
        marked == if Visible(t, rows[i], committed) && Eval(columns(rows[i]), e) == Ok(true) then rows[i].(tmax := t) else rows[i]
      else marked == rows[i]
    decreases i
  {
    hide Eval, Visible;
    if i > 0 {
      assert forall j :: 0 < j <= i ==> rows[j] == rows[1..][j - 1];
      ScannedAt(t, rows[1..], committed, e, columns, i - 1);
      assert forall j :: 0 <= j <= i - 1 ==> rows[1..][j] == rows[j + 1];
    }
  }

  // ----- what that is

  /** The places, from `k` on, of the rows that a condition chooses. */
  function Chosen(rows: seq<Row>, e: BExpr, k: nat): set<nat> {
    if rows == [] || Eval(rows[0], e).Err? then {}
    else (if Eval(rows[0], e).val then {k} else {}) + Chosen(rows[1..], e, k + 1)
  }

  function Shown(t: nat, rows: seq<TRow>, committed: set<nat>, columns: TRow -> Row): seq<Row> {
    if rows == [] then []
    else (if Visible(t, rows[0], committed) then [columns(rows[0])] else []) + Shown(t, rows[1..], committed, columns)
  }

  lemma {:induction false} ChosenFrom(rows: seq<Row>, e: BExpr, k: nat, j: nat)
    requires j in Chosen(rows, e, k)
    ensures j >= k
    decreases |rows|
  {
    if j != k {
      ChosenFrom(rows[1..], e, k + 1, j);
    }
  }

  lemma {:induction false} MarkSame(t: nat, rows: seq<TRow>, committed: set<nat>, p: set<nat>, q: set<nat>, k: nat)
    requires forall j: nat :: j >= k ==> (j in p <==> j in q)
    ensures Mark(t, rows, committed, p, k) == Mark(t, rows, committed, q, k)
    decreases |rows|
  {
    if rows != [] {
      MarkSame(t, rows[1..], committed, p, q, if Visible(t, rows[0], committed) then k + 1 else k);
    }
  }

  lemma {:induction false} MarkNone(t: nat, rows: seq<TRow>, committed: set<nat>, k: nat)
    ensures Mark(t, rows, committed, {}, k) == rows
    decreases |rows|
  {
    if rows != [] {
      MarkNone(t, rows[1..], committed, if Visible(t, rows[0], committed) then k + 1 else k);
    }
  }

  /** The scan marks exactly the rows that a SELECT with the same condition would have sent, and ends like it. */
  lemma {:induction false} ScanIsSelect(t: nat, rows: seq<TRow>, committed: set<nat>, e: BExpr, columns: TRow -> Row, k: nat)
    ensures var s := Scanned(t, rows, committed, e, columns);
      var shown := Shown(t, rows, committed, columns);
      && s.0 == Mark(t, rows, committed, Chosen(shown, e, k), k)
      && s.1 == Selected(shown, e).end
    decreases |rows|
  {
    hide Eval, Visible;
    if rows != [] {
      var shown := Shown(t, rows, committed, columns);
      var later := Shown(t, rows[1..], committed, columns);
      if !Visible(t, rows[0], committed) {
        assert shown == later;
        ScanIsSelect(t, rows[1..], committed, e, columns, k);
      } else {
        assert shown[0] == columns(rows[0]) && shown[1..] == later;
        if Eval(shown[0], e).Err? {
          MarkNone(t, rows, committed, k);
        } else {
          ScanIsSelect(t, rows[1..], committed, e, columns, k + 1);
          forall j: nat | j >= k + 1
            ensures j in Chosen(shown, e, k) <==> j in Chosen(later, e, k + 1)
          {
          }
          MarkSame(t, rows[1..], committed, Chosen(shown, e, k), Chosen(later, e, k + 1), k + 1);
          if k in Chosen(later, e, k + 1) {
            ChosenFrom(later, e, k + 1, k);
          }
        }
      }
    }
  }

  // ----- in place

  lemma HeadFirst(t: nat, rows: seq<TRow>, committed: set<nat>, e: BExpr, columns: TRow -> Row, i: nat)
    requires i < |rows| && !Visible(t, rows[i], committed)
    ensures var a, b := Scanned(t, rows[i..], committed, e, columns), Scanned(t, rows[i + 1..], committed, e, columns);
      a.0 == [rows[i]] + b.0 && a.1 == b.1
  {
    hide Visible, Eval;
    assert rows[i..][0] == rows[i] && rows[i..][1..] == rows[i + 1..];
  }

  lemma {:induction false} SkipHidden(t: nat, rows: seq<TRow>, committed: set<nat>, e: BExpr, columns: TRow -> Row, i: nat, j: nat)
    requires i <= j <= |rows| && forall k :: i <= k < j ==> !Visible(t, rows[k], committed)
    ensures var a, b := Scanned(t, rows[i..], committed, e, columns), Scanned(t, rows[j..], committed, e, columns);
      a.0 == rows[i..j] + b.0 && a.1 == b.1
    decreases j - i
  {
    hide Visible, Eval, Scanned;
    if i < j {
      SkipHidden(t, rows, committed, e, columns, i + 1, j);
      HeadFirst(t, rows, committed, e, columns, i);
      var b := Scanned(t, rows[j..], committed, e, columns);
      assert rows[i..j] == [rows[i]] + rows[i + 1..j];
      assert [rows[i]] + (rows[i + 1..j] + b.0) == rows[i..j] + b.0;
    } else {
      assert rows[i..j] == [];
    }
  }

  ghost predicate FirstSeen(t: nat, rows: seq<TRow>, committed: set<nat>, from: nat, at: nat) {
    && from <= at <= |rows|
    && (at < |rows| ==> Visible(t, rows[at], committed))
    && forall k :: from <= k < at ==> !Visible(t, rows[k], committed)
  }

  class Table {
    var rows: seq<TRow>

    constructor (rows: seq<TRow>)
      ensures this.rows == rows
    {
      this.rows := rows;
    }

    /** The first visible row from `from` on. */
    method NextVisible(t: nat, committed: set<nat>, from: nat) returns (at: nat)
      requires from <= |rows|
      ensures from <= at <= |rows| && FirstSeen(t, rows, committed, from, at)
    {
      at := from;
      while at < |rows| && !Visible(t, rows[at], committed)
        invariant from <= at <= |rows|
        invariant forall k :: from <= k < at ==> !Visible(t, rows[k], committed)
      {
        at := at + 1;
      }
    }

    /** The lexer's iterator `lexed` runs ahead to see whether the body comes again before the line for row `at` is acted
        upon; the mark put then lies behind it, so that the iterator of the lines arrives at the same row. */
    method Delete(t: nat, committed: set<nat>, e: BExpr, columns: TRow -> Row) returns (end: Ending)
      requires Derived(e)
      modifies this
      ensures var shown := Shown(t, old(rows), committed, columns);
        if shown == [] then end == Syntax && rows == old(rows)
        else rows == Mark(t, old(rows), committed, Chosen(shown, e, 0), 0) && end == Selected(shown, e).end
      ensures Shown(t, old(rows), committed, columns) != [] ==> rows == Scanned(t, old(rows), committed, e, columns).0
    {
      hide Visible, Eval, Derived, Emit, Actions4, ParseOr, Mark, Chosen, Selected, Scanned, Shown, Progress, FirstSeen;
      ghost var was := rows;
      ScanIsSelect(t, was, committed, e, columns, 0);
      var at := NextVisible(t, committed, 0);
      NoneShown(t, was, committed, columns, at);
      if at == |rows| {
        return Syntax;
      }
      OnFirst(t, was, committed, e, columns, at);
      var body := Emit(e);
      ghost var from := 0;
      while true
        invariant at < |rows| == |was| && 0 <= from <= at && FirstSeen(t, rows, committed, from, at)
        invariant Progress(t, was, rows, committed, e, columns, at)
        decreases |rows| - at
      {
        var lexed := NextVisible(t, committed, at + 1);
        var follows := if lexed < |rows| then body else [];
        LineReads(columns(rows[at]), e, follows);
        var line := ParseOr(Actions4(columns(rows[at])), body + follows);
        if line.val.Err? {
          Stopped(t, was, rows, committed, e, columns, from, at);
          return Failed(line.val.error);
        }
        NextLine(t, was, rows, committed, e, columns, from, at, lexed);
        ghost var before := rows;
        if line.val.val {
          rows := rows[at := rows[at].(tmax := t)];
        }
        from := at + 1;
        at := NextVisible(t, committed, at + 1);
        SameFirst(t, before, rows, committed, from, lexed, at);
        if line.rest == [] {
          Finished(t, was, rows, committed, e, columns);
          return Done;
        }
      }
    }
  }

  // ----- the state between two lines

  /** The rows before `at` are as the whole scan leaves them, the others as it found them. */
  ghost predicate Progress(t: nat, was: seq<TRow>, now: seq<TRow>, committed: set<nat>, e: BExpr, columns: TRow -> Row, at: nat) {
    && at <= |now| == |was|
    && now[at..] == was[at..]
    && var all, rest := Scanned(t, was, committed, e, columns), Scanned(t, was[at..], committed, e, columns);
      all.0 == now[..at] + rest.0 && all.1 == rest.1
  }

  lemma OnFirst(t: nat, was: seq<TRow>, committed: set<nat>, e: BExpr, columns: TRow -> Row, at: nat)
    requires FirstSeen(t, was, committed, 0, at)
    ensures Progress(t, was, was, committed, e, columns, at)
  {
    hide Visible, Scanned;
    SkipHidden(t, was, committed, e, columns, 0, at);
    assert was[0..] == was && was[..at] == was[0..at];
  }

  /** A line reads the condition's tokens and leaves what follows them. */
  lemma LineReads(row: Row, e: BExpr, follows: seq<Token>)
    requires Derived(e) && (follows == [] || follows == Emit(e))
    ensures ParseOr(Actions4(row), Emit(e) + follows) == Got(Eval(row, e), follows)
  {
    hide Eval, Derived, Emit, Actions4, ParseOr;
    ConditionStarts(e, []);
    assert Emit(e) + [] == Emit(e);
    ReadingEvaluates(row, e, follows);
  }

  lemma Stopped(t: nat, was: seq<TRow>, now: seq<TRow>, committed: set<nat>, e: BExpr, columns: TRow -> Row, from: nat, at: nat)
    requires at < |now| && Progress(t, was, now, committed, e, columns, at)
    requires FirstSeen(t, now, committed, from, at) && Eval(columns(now[at]), e).Err?
    ensures Scanned(t, was, committed, e, columns) == (now, Failed(Eval(columns(now[at]), e).error))
  {
    hide Visible, Eval, Scanned;
    SameAhead(was, now, at, at);
    ScanLine(t, was, committed, e, columns, at);
    assert now == now[..at] + now[at..];
  }

  lemma Finished(t: nat, was: seq<TRow>, now: seq<TRow>, committed: set<nat>, e: BExpr, columns: TRow -> Row)
    requires Progress(t, was, now, committed, e, columns, |now|)
    ensures Scanned(t, was, committed, e, columns) == (now, Done)
  {
    var rest := Scanned(t, was[|now|..], committed, e, columns);
    assert was[|now|..] == [] && rest == ([], Done);
    assert now[..|now|] == now && now + rest.0 == now;
  }

  lemma Replaced(was: seq<TRow>, now: seq<TRow>, at: nat, next: nat, row: TRow)
    requires at < next <= |was| == |now| && now[at..] == was[at..]
    ensures now[at := row][next..] == was[next..]
    ensures now[at := row][..next] == now[..at] + [row] + was[at + 1..next]
  {
    SameAhead(was, now, at, at);
    var r := now[..at] + [row] + was[at + 1..next];
    forall k | 0 <= k < next
      ensures now[at := row][..next][k] == r[k]
    {
    }
    forall k | 0 <= k < |was| - next
      ensures now[at := row][next..][k] == was[next..][k]
    {
    }
  }

  /** A mark behind an iterator changes nothing that it will find. */
  lemma SameFirst(t: nat, before: seq<TRow>, after: seq<TRow>, committed: set<nat>, from: nat, i: nat, j: nat)
    requires |before| == |after| && forall k :: from <= k < |before| ==> after[k] == before[k]
    requires FirstSeen(t, before, committed, from, i) && FirstSeen(t, after, committed, from, j)
    ensures i == j
  {
    hide Visible;
  }

  lemma NextLine(t: nat, was: seq<TRow>, now: seq<TRow>, committed: set<nat>, e: BExpr, columns: TRow -> Row, from: nat, at: nat, next: nat)
    requires at < next <= |now| && Progress(t, was, now, committed, e, columns, at)
    requires FirstSeen(t, now, committed, from, at) && FirstSeen(t, now, committed, at + 1, next)
    requires Eval(columns(now[at]), e).Ok?
    ensures var marked := if Eval(columns(now[at]), e).val then now[at := now[at].(tmax := t)] else now;
      Progress(t, was, marked, committed, e, columns, next)
  {
    hide Visible, Eval, Scanned;
    SameAhead(was, now, at, next);
    ScanLine(t, was, committed, e, columns, at);
    SkipHidden(t, was, committed, e, columns, at + 1, next);
    var row := if Eval(columns(now[at]), e).val then now[at].(tmax := t) else now[at];
    var marked := if Eval(columns(now[at]), e).val then now[at := now[at].(tmax := t)] else now;
    Replaced(was, now, at, next, row);
    assert marked == now[at := row];
    var rest := Scanned(t, was[next..], committed, e, columns);
    Regrouping(now[..at], row, was[at + 1..next], rest.0);
  }

  lemma Regrouping(a: seq<TRow>, r: TRow, b: seq<TRow>, c: seq<TRow>)
    ensures a + ([r] + (b + c)) == (a + [r] + b) + c
  {
  }

  lemma NoneShown(t: nat, rows: seq<TRow>, committed: set<nat>, columns: TRow -> Row, at: nat)
    requires FirstSeen(t, rows, committed, 0, at)
    ensures Shown(t, rows, committed, columns) == [] <==> at == |rows|
    decreases |rows|
  {
    hide Visible;
    if rows != [] && at > 0 {
      NoneShown(t, rows[1..], committed, columns, at - 1);
    }
  }

  lemma ScanLine(t: nat, rows: seq<TRow>, committed: set<nat>, e: BExpr, columns: TRow -> Row, at: nat)
    requires at < |rows| && Visible(t, rows[at], committed)
    ensures var r := Eval(columns(rows[at]), e);
      var a, b := Scanned(t, rows[at..], committed, e, columns), Scanned(t, rows[at + 1..], committed, e, columns);
      if r.Err? then a == (rows[at..], Failed(r.error))
      else a.0 == [if r.val then rows[at].(tmax := t) else rows[at]] + b.0 && a.1 == b.1
  {
    hide Visible, Eval;
    assert rows[at..][1..] == rows[at + 1..];
  }

  lemma SameAhead(was: seq<TRow>, now: seq<TRow>, i: nat, j: nat)
    requires i <= j <= |was| == |now| && now[i..] == was[i..]
    ensures now[i..j] == was[i..j] && now[j..] == was[j..]
    ensures forall k :: i <= k < |was| ==> now[k] == was[k]
  {
    forall k | i <= k < |was|
      ensures now[k] == was[k]
    {
      assert now[k] == now[i..][k - i];
    }
  }
}
