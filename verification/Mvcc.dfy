/** Row versions and transactions of interleaved sessions, one statement at a time: who sees which rows,
    what every statement keeps, and that a committed deletion is final. */
module Mvcc {
  const MAXTID: nat := 0x7FFF_FFFF_FFFF_FFFF

  datatype Tran = Tran(tid: nat, auto: bool)

  /** A row with its inserter, its deleter (0 for none) and its contents. */
  datatype TRow = TRow(tmin: nat, tmax: nat, val: int)

  /** One table, the ids flagged committed, the transaction each session has, and the next id. */
  datatype Db = Db(rows: seq<TRow>, committed: set<nat>, open: map<nat, Tran>, next: nat)

  datatype Status = Success | StartError | NoTransaction | SequenceOverflow | CacheOverflow

  datatype Reply = Reply(status: Status, seen: seq<int>)

  /** A statement of session `s`. `fits` says whether the transaction table has room, should a new
      transaction be needed; `picks` are the rows a DELETE chooses, counted among those it sees. */
  datatype Event =
    | Start(s: nat, fits: bool)
    | Commit(s: nat)
    | Rollback(s: nat)
    | Insert(s: nat, v: int, fits: bool)
    | Delete(s: nat, picks: set<nat>, fits: bool)
    | Select(s: nat, fits: bool)

  // ----- visibility

  predicate Visible(t: nat, r: TRow, committed: set<nat>) {
    if t == r.tmin then t != r.tmax
    else if t == r.tmax then false
    else r.tmin in committed && r.tmax !in committed
  }

  /** What transaction `t` sees, in the order of the table. */
  function View(t: nat, rows: seq<TRow>, committed: set<nat>): seq<int> {
    if rows == [] then []
    else (if Visible(t, rows[0], committed) then [rows[0].val] else []) + View(t, rows[1..], committed)
  }

  /** The rows with `t` as the deleter of those that are picked; `k` visible ones came before. */
  function Mark(t: nat, rows: seq<TRow>, committed: set<nat>, picks: set<nat>, k: nat): (r: seq<TRow>)
    ensures |r| == |rows|
  {
    if rows == [] then []
    else if Visible(t, rows[0], committed) then
      [if k in picks then rows[0].(tmax := t) else rows[0]] + Mark(t, rows[1..], committed, picks, k + 1)
    else [rows[0]] + Mark(t, rows[1..], committed, picks, k)
  }

  // ----- statements

  function Drop(open: map<nat, Tran>, s: nat): map<nat, Tran> {
    map u | u in open && u != s :: open[u]
  }

  /** A new transaction: its id is spent even if the table has no room; autocommit commits right away. */
  function TranPut(db: Db, s: nat, auto: bool, fits: bool): (Db, Status) {
    if db.next > MAXTID then (db, SequenceOverflow)
    else if !fits then (db.(next := db.next + 1), CacheOverflow)
    else (db.(next := db.next + 1,
              open := db.open[s := Tran(db.next, auto)],
              committed := db.committed + if auto then {db.next} else {}), Success)
  }

  function NeedTran(db: Db, s: nat, fits: bool): (Db, Status) {
    if s in db.open then (db, Success) else TranPut(db, s, true, fits)
  }

  predicate Explicit(db: Db, s: nat) {
    s in db.open && !db.open[s].auto
  }

  function DoStart(db: Db, s: nat, fits: bool): (Db, Status) {
    if Explicit(db, s) then (db, StartError) else TranPut(db.(open := Drop(db.open, s)), s, false, fits)
  }

  function DoEnd(db: Db, s: nat, commit: bool): (Db, Status) {
    if !Explicit(db, s) then (db, NoTransaction)
    else
      var tid := db.open[s].tid;
      (db.(committed := if commit then db.committed + {tid} else db.committed - {tid}, open := Drop(db.open, s)), Success)
  }

  function DoInsert(db: Db, s: nat, v: int, fits: bool): (Db, Status) {
    var p := NeedTran(db, s, fits);
    if p.1 != Success then p else (p.0.(rows := p.0.rows + [TRow(p.0.open[s].tid, 0, v)]), Success)
  }

  function DoDelete(db: Db, s: nat, picks: set<nat>, fits: bool): (Db, Status) {
    var p := NeedTran(db, s, fits);
    if p.1 != Success then p
    else (p.0.(rows := Mark(p.0.open[s].tid, p.0.rows, p.0.committed, picks, 0)), Success)
  }

  function Step(db: Db, e: Event): (Db, Reply) {
    match e
    case Start(s, fits) => var p := DoStart(db, s, fits); (p.0, Reply(p.1, []))
    case Commit(s) => var p := DoEnd(db, s, true); (p.0, Reply(p.1, []))
    case Rollback(s) => var p := DoEnd(db, s, false); (p.0, Reply(p.1, []))
    case Insert(s, v, fits) => var p := DoInsert(db, s, v, fits); (p.0, Reply(p.1, []))
    case Delete(s, picks, fits) => var p := DoDelete(db, s, picks, fits); (p.0, Reply(p.1, []))
    case Select(s, fits) =>
      var p := NeedTran(db, s, fits);
      (p.0, Reply(p.1, if p.1 == Success then View(p.0.open[s].tid, p.0.rows, p.0.committed) else []))
  }

  function Run(db: Db, es: seq<Event>): Db
    decreases |es|
  {
    if es == [] then db else Run(Step(db, es[0]).0, es[1..])
  }

  function Replies(db: Db, es: seq<Event>): seq<Reply>
    decreases |es|
  {
    if es == [] then [] else [Step(db, es[0]).1] + Replies(Step(db, es[0]).0, es[1..])
  }

  // ----- what every statement keeps

  /** Ids are used once; an open transaction is autocommit exactly if it is flagged committed. */
  ghost predicate OpenOk(db: Db) {
    && db.next > 0
    && (forall s :: s in db.open ==> 0 < db.open[s].tid < db.next && (db.open[s].auto <==> db.open[s].tid in db.committed))
    && (forall s, u :: s in db.open && u in db.open && db.open[s].tid == db.open[u].tid ==> s == u)
    && (forall t :: t in db.committed ==> 0 < t < db.next)
  }

  /** A row whose inserter is not committed is deleted by nobody but its inserter. */
  ghost predicate RowOk(r: TRow, db: Db) {
    && 0 < r.tmin < db.next && r.tmax < db.next
    && (r.tmin !in db.committed ==> r.tmax == 0 || r.tmax == r.tmin)
  }

  ghost predicate RowsOk(rows: seq<TRow>, db: Db) {
    forall i {:trigger rows[i]} :: 0 <= i < |rows| ==> RowOk(rows[i], db)
  }

  ghost predicate Inv(db: Db) {
    OpenOk(db) && RowsOk(db.rows, db)
  }

  lemma InitInv()
    ensures Inv(Db([], {}, map[], 1))
  {
  }

  /** How a step can change a row: its deleter may become a transaction that sees it. */
  ghost predicate Later(r: TRow, q: TRow, t: nat, committed: set<nat>) {
    q == r || (q == r.(tmax := t) && Visible(t, r, committed))
  }

  lemma {:induction false} MarkLater(t: nat, rows: seq<TRow>, committed: set<nat>, picks: set<nat>, k: nat)
    ensures var q := Mark(t, rows, committed, picks, k);
      forall i :: 0 <= i < |rows| ==> Later(rows[i], q[i], t, committed)
  {
    if rows != [] {
      MarkLater(t, rows[1..], committed, picks, if Visible(t, rows[0], committed) then k + 1 else k);
      var q := Mark(t, rows, committed, picks, k);
      forall i | 0 <= i < |rows|
        ensures Later(rows[i], q[i], t, committed)
      {
        assert i > 0 ==> rows[i] == rows[1..][i - 1] && q[i] == q[1..][i - 1];
      }
    }
  }

  /** The DELETE of transaction `t` picks row `i`: `t` sees it, and its place among the rows `t` sees is a picked one. */
  predicate Picked(t: nat, rows: seq<TRow>, committed: set<nat>, picks: set<nat>, i: int)
    requires 0 <= i < |rows|
  {
    Visible(t, rows[i], committed) && |View(t, rows[..i], committed)| in picks
  }

  lemma {:induction false} MarkCounts(t: nat, rows: seq<TRow>, committed: set<nat>, picks: set<nat>, k: nat, i: nat)
    requires i < |rows|
    ensures Mark(t, rows, committed, picks, k)[i]
      == if Visible(t, rows[i], committed) && k + |View(t, rows[..i], committed)| in picks
         then rows[i].(tmax := t) else rows[i]
    decreases i
  {
    if i > 0 {
      MarkCounts(t, rows[1..], committed, picks, if Visible(t, rows[0], committed) then k + 1 else k, i - 1);
      assert rows[..i][1..] == rows[1..][..i - 1];
    }
  }

  /** A DELETE marks exactly the picked rows. */
  lemma MarkAt(t: nat, rows: seq<TRow>, committed: set<nat>, picks: set<nat>, i: nat)
    requires i < |rows|
    ensures Mark(t, rows, committed, picks, 0)[i]
      == if Picked(t, rows, committed, picks, i) then rows[i].(tmax := t) else rows[i]
  {
    MarkCounts(t, rows, committed, picks, 0, i);
  }

  lemma TranPutInv(db: Db, s: nat, auto: bool, fits: bool)
    requires Inv(db) && s !in db.open
    ensures Inv(TranPut(db, s, auto, fits).0) && TranPut(db, s, auto, fits).0.rows == db.rows
  {
    var d := TranPut(db, s, auto, fits).0;
    forall i | 0 <= i < |db.rows|
      ensures RowOk(db.rows[i], d)
    {
      assert RowOk(db.rows[i], db);
    }
  }

  lemma DropInv(db: Db, s: nat)
    requires Inv(db)
    ensures Inv(db.(open := Drop(db.open, s)))
  {
    var d := db.(open := Drop(db.open, s));
    forall i | 0 <= i < |db.rows|
      ensures RowOk(db.rows[i], d)
    {
      assert RowOk(db.rows[i], db);
    }
  }

  lemma NeedTranInv(db: Db, s: nat, fits: bool)
    requires Inv(db)
    ensures var p := NeedTran(db, s, fits);
      Inv(p.0) && p.0.rows == db.rows && (p.1 == Success ==> s in p.0.open)
  {
    if s !in db.open {
      TranPutInv(db, s, true, fits);
    }
  }

  lemma EndInv(db: Db, s: nat, commit: bool)
    requires Inv(db)
    ensures Inv(DoEnd(db, s, commit).0)
  {
    if Explicit(db, s) {
      var d := DoEnd(db, s, commit).0;
      forall i | 0 <= i < |db.rows|
        ensures RowOk(db.rows[i], d)
      {
        assert RowOk(db.rows[i], db);
      }
    }
  }

  lemma InsertInv(db: Db, s: nat, v: int, fits: bool)
    requires Inv(db)
    ensures Inv(DoInsert(db, s, v, fits).0)
  {
    hide RowOk;
    NeedTranInv(db, s, fits);
    var p := NeedTran(db, s, fits);
    if p.1 == Success {
      var d := DoInsert(db, s, v, fits).0;
      forall i | 0 <= i < |d.rows|
        ensures RowOk(d.rows[i], d)
      {
        if i < |p.0.rows| {
          RowStays(p.0.rows[i], p.0, d);
        } else {
          NewRowOk(p.0, s, v, d);
        }
      }
    }
  }

  lemma RowStays(r: TRow, db: Db, d: Db)
    requires RowOk(r, db) && d.next == db.next && d.committed == db.committed
    ensures RowOk(r, d)
  {
  }

  lemma NewRowOk(db: Db, s: nat, v: int, d: Db)
    requires OpenOk(db) && s in db.open && d.next == db.next
    ensures RowOk(TRow(db.open[s].tid, 0, v), d)
  {
  }

  lemma DeleteInv(db: Db, s: nat, picks: set<nat>, fits: bool)
    requires Inv(db)
    ensures Inv(DoDelete(db, s, picks, fits).0)
  {
    NeedTranInv(db, s, fits);
    var p := NeedTran(db, s, fits);
    if p.1 == Success {
      var d := DoDelete(db, s, picks, fits).0;
      var t := p.0.open[s].tid;
      MarkLater(t, p.0.rows, p.0.committed, picks, 0);
      forall i | 0 <= i < |d.rows|
        ensures RowOk(d.rows[i], d)
      {
        assert RowOk(p.0.rows[i], p.0);
        assert Later(p.0.rows[i], d.rows[i], t, p.0.committed);
      }
    }
  }

  /** Every statement of every session keeps the invariant. */
  lemma StepKeepsInv(db: Db, e: Event)
    requires Inv(db)
    ensures Inv(Step(db, e).0)
  {
    hide Inv;
    match e
    case Start(s, fits) =>
      DropInv(db, s);
      if !Explicit(db, s) {
        TranPutInv(db.(open := Drop(db.open, s)), s, false, fits);
      }
    case Commit(s) => EndInv(db, s, true);
    case Rollback(s) => EndInv(db, s, false);
    case Insert(s, v, fits) => InsertInv(db, s, v, fits);
    case Delete(s, picks, fits) => DeleteInv(db, s, picks, fits);
    case Select(s, fits) => NeedTranInv(db, s, fits);
  }

  lemma {:induction false} RunKeepsInv(db: Db, es: seq<Event>)
    requires Inv(db)
    ensures Inv(Run(db, es))
    decreases |es|
  {
    if es != [] {
      StepKeepsInv(db, es[0]);
      RunKeepsInv(Step(db, es[0]).0, es[1..]);
    }
  }

  /** The assertion in the visibility test holds for explicit transactions in every reachable state. */
  lemma OwnRowsUntouched(es: seq<Event>, s: nat, i: nat)
    ensures var db := Run(Db([], {}, map[], 1), es);
      Explicit(db, s) && i < |db.rows| && db.rows[i].tmin == db.open[s].tid ==>
        db.rows[i].tmax == 0 || db.rows[i].tmax == db.open[s].tid
  {
    InitInv();
    RunKeepsInv(Db([], {}, map[], 1), es);
    var db := Run(Db([], {}, map[], 1), es);
    assert i < |db.rows| ==> RowOk(db.rows[i], db);
  }

  /** It fails for autocommit transactions: another session may delete a row while its inserter's id lives on. */
  lemma AutocommitRowTouched(s: nat, u: nat, v: int)
    requires s != u
    ensures var db := Run(Db([], {}, map[], 1), [Insert(s, v, true), Delete(u, {0}, true)]);
      s in db.open && u in db.open && db.rows == [TRow(db.open[s].tid, 2, v)] && db.open[s].tid == 1
      && View(db.open[s].tid, db.rows, db.committed) == [v] && View(db.open[u].tid, db.rows, db.committed) == []
  {
    var d0 := Db([], {}, map[], 1);
    var es := [Insert(s, v, true), Delete(u, {0}, true)];
    var d1 := Step(d0, es[0]).0;
    assert d1.rows == [TRow(1, 0, v)];
    var d2 := Step(d1, es[1]).0;
    assert d2.rows == [TRow(1, 2, v)];
    assert es[1..] == [es[1]];
    assert Run(d1, [es[1]]) == Run(d2, []);
  }

  /** What the visibility test asserts of the rows that `t` inserted. */
  ghost predicate OwnOk(t: nat, rows: seq<TRow>) {
    forall i {:trigger rows[i]} :: 0 <= i < |rows| && rows[i].tmin == t ==> rows[i].tmax == 0 || rows[i].tmax == t
  }

  /** The statement is another session's DELETE and picks a row that the transaction of `s` inserted. */
  ghost predicate MarksRowOf(db: Db, e: Event, s: nat)
    requires s in db.open
  {
    && e.Delete? && e.s != s
    && var p := NeedTran(db, e.s, e.fits);
       p.1 == Success && exists i ::
         0 <= i < |db.rows| && db.rows[i].tmin == db.open[s].tid
         && Picked(p.0.open[e.s].tid, db.rows, p.0.committed, e.picks, i)
  }

  /** The assertion, while it holds for the transaction of session `s`, is broken by a statement if and only if that is
      another session's DELETE of a row the transaction inserted; and then the transaction is an autocommit one. */
  lemma AssertionBreaks(db: Db, e: Event, s: nat)
    requires Inv(db) && s in db.open && OwnOk(db.open[s].tid, db.rows)
    ensures !OwnOk(db.open[s].tid, Step(db, e).0.rows) <==> MarksRowOf(db, e, s)
    ensures MarksRowOf(db, e, s) ==> db.open[s].auto
  {
    hide Mark, View;
    var t := db.open[s].tid;
    match e
    case Delete(u, picks, fits) => DeleteAsserts(db, u, picks, fits, s);
    case Insert(u, v, fits) =>
      var rows := Step(db, e).0.rows;
      forall i {:trigger rows[i]} | 0 <= i < |rows| && rows[i].tmin == t
        ensures rows[i].tmax == 0 || rows[i].tmax == t
      {
        assert i < |db.rows| ==> rows[i] == db.rows[i];
      }
    case Start(_, _) =>
    case Commit(_) =>
    case Rollback(_) =>
    case Select(_, _) =>
  }

  lemma DeleteAsserts(db: Db, u: nat, picks: set<nat>, fits: bool, s: nat)
    requires Inv(db) && s in db.open && OwnOk(db.open[s].tid, db.rows)
    ensures !OwnOk(db.open[s].tid, DoDelete(db, u, picks, fits).0.rows) <==> MarksRowOf(db, Delete(u, picks, fits), s)
    ensures MarksRowOf(db, Delete(u, picks, fits), s) ==> db.open[s].auto
  {
    hide Mark, OwnOk, Picked;
    var t := db.open[s].tid;
    var p := NeedTran(db, u, fits);
    NeedTranInv(db, u, fits);
    if p.1 == Success {
      assert s in p.0.open && p.0.open[s].tid == t;
      DeleteBreaks(t, p.0.open[u].tid, db.rows, p.0.committed, picks);
      if i :| 0 <= i < |db.rows| && db.rows[i].tmin == t && Picked(p.0.open[u].tid, db.rows, p.0.committed, picks, i) {
        assert RowOk(db.rows[i], p.0);
        PickedVisible(p.0.open[u].tid, db.rows, p.0.committed, picks, i);
      }
    }
  }

  lemma PickedVisible(t: nat, rows: seq<TRow>, committed: set<nat>, picks: set<nat>, i: nat)
    requires i < |rows| && Picked(t, rows, committed, picks, i)
    ensures Visible(t, rows[i], committed)
  {
  }

  lemma DeleteBreaks(t: nat, u: nat, rows: seq<TRow>, committed: set<nat>, picks: set<nat>)
    requires OwnOk(t, rows) && u > 0
    ensures !OwnOk(t, Mark(u, rows, committed, picks, 0)) <==>
      u != t && exists i :: 0 <= i < |rows| && rows[i].tmin == t && Picked(u, rows, committed, picks, i)
  {
    var marked := Mark(u, rows, committed, picks, 0);
    forall i {:trigger marked[i]} | 0 <= i < |rows|
      ensures marked[i] == if Picked(u, rows, committed, picks, i) then rows[i].(tmax := u) else rows[i]
    {
      MarkAt(u, rows, committed, picks, i);
    }
    if i :| 0 <= i < |rows| && rows[i].tmin == t && Picked(u, rows, committed, picks, i) {
      assert marked[i].tmin == t && marked[i].tmax == u;
    }
    if !OwnOk(t, marked) {
      var i :| 0 <= i < |marked| && marked[i].tmin == t && marked[i].tmax != 0 && marked[i].tmax != t;
      assert rows[i].tmin == t;
    }
  }

  // ----- a committed deletion is final

  /** Rows keep their place, inserter and contents; a committed deleter stays a committed one. */
  ghost predicate Kept(r: TRow, q: TRow, before: set<nat>, after: set<nat>) {
    q.tmin == r.tmin && q.val == r.val && (r.tmax in before ==> q.tmax in after)
  }

  lemma CommittedGrows(db: Db, e: Event)
    requires Inv(db)
    ensures db.committed <= Step(db, e).0.committed
  {
  }

  lemma DeleteKeepsRow(db: Db, s: nat, picks: set<nat>, fits: bool, i: nat)
    requires Inv(db) && i < |db.rows|
    ensures var d := DoDelete(db, s, picks, fits).0;
      |d.rows| == |db.rows| && Kept(db.rows[i], d.rows[i], db.committed, d.committed)
  {
    NeedTranInv(db, s, fits);
    var p := NeedTran(db, s, fits).0;
    if NeedTran(db, s, fits).1 == Success {
      var t := p.open[s].tid;
      MarkLater(t, p.rows, p.committed, picks, 0);
      assert RowOk(p.rows[i], p);
      assert Later(p.rows[i], DoDelete(db, s, picks, fits).0.rows[i], t, p.committed);
    }
  }

  lemma StepKeepsRow(db: Db, e: Event, i: nat)
    requires Inv(db) && i < |db.rows|
    ensures var d := Step(db, e).0;
      i < |d.rows| && Kept(db.rows[i], d.rows[i], db.committed, d.committed)
  {
    CommittedGrows(db, e);
    match e
    case Delete(s, picks, fits) => DeleteKeepsRow(db, s, picks, fits, i);
    case _ =>
  }

  lemma {:induction false} RunKeepsRow(db: Db, es: seq<Event>, i: nat)
    requires Inv(db) && i < |db.rows|
    ensures i < |Run(db, es).rows| && Kept(db.rows[i], Run(db, es).rows[i], db.committed, Run(db, es).committed)
    decreases |es|
  {
    hide Inv;
    if es != [] {
      StepKeepsRow(db, es[0], i);
      StepKeepsInv(db, es[0]);
      RunKeepsRow(Step(db, es[0]).0, es[1..], i);
    }
  }

  /** Once the deleter of a row is committed, no transaction but the row's inserter ever sees the row again. */
  lemma DeletionIsFinal(db: Db, es: seq<Event>, i: nat, t: nat)
    requires Inv(db) && i < |db.rows| && db.rows[i].tmax in db.committed && t != db.rows[i].tmin
    ensures var d := Run(db, es);
      i < |d.rows| && d.rows[i].val == db.rows[i].val && !Visible(t, d.rows[i], d.committed)
  {
    RunKeepsRow(db, es, i);
  }

  // ----- what a session sees of its own statements

  lemma {:induction false} ViewAppend(t: nat, rows: seq<TRow>, r: TRow, committed: set<nat>)
    ensures View(t, rows + [r], committed) == View(t, rows, committed) + if Visible(t, r, committed) then [r.val] else []
  {
    if rows == [] {
      assert rows + [r] == [r];
    } else {
      ViewAppend(t, rows[1..], r, committed);
      assert (rows + [r])[1..] == rows[1..] + [r];
    }
  }

  /** An inserted row is seen last by its session at once, by others at once exactly in autocommit. */
  lemma InsertSeen(db: Db, s: nat, v: int, t: nat)
    requires Inv(db) && s in db.open && 0 < t
    ensures var d := DoInsert(db, s, v, true).0;
      View(t, d.rows, d.committed)
        == View(t, db.rows, db.committed) + if t == db.open[s].tid || db.open[s].auto then [v] else []
  {
    ViewAppend(t, db.rows, TRow(db.open[s].tid, 0, v), db.committed);
  }

  /** What remains of a view without the picked positions. */
  function Unpicked(view: seq<int>, picks: set<nat>, k: nat): seq<int> {
    if view == [] then []
    else (if k in picks then [] else [view[0]]) + Unpicked(view[1..], picks, k + 1)
  }

  /** A DELETE removes from its session's view exactly the picked rows and keeps the order of the others. */
  lemma {:induction false} DeleteSeen(t: nat, rows: seq<TRow>, committed: set<nat>, picks: set<nat>, k: nat)
    ensures View(t, Mark(t, rows, committed, picks, k), committed) == Unpicked(View(t, rows, committed), picks, k)
  {
    if rows != [] {
      var n := if Visible(t, rows[0], committed) then k + 1 else k;
      DeleteSeen(t, rows[1..], committed, picks, n);
      var rest := View(t, rows[1..], committed);
      var q := Mark(t, rows, committed, picks, k);
      assert q[1..] == Mark(t, rows[1..], committed, picks, n);
      if Visible(t, rows[0], committed) {
        assert View(t, rows, committed)[1..] == rest;
        assert Visible(t, q[0], committed) <==> k !in picks;
      } else {
        assert View(t, rows, committed) == rest;
        assert q[0] == rows[0];
      }
    }
  }

  // ----- isolation and commit, row by row

  /** Until transaction `w` commits, nobody else sees its rows; its DELETE changes what another transaction sees of a
      row if and only if it overwrites that transaction's own mark. */
  lemma OpenIsIsolated(db: Db, r: TRow, w: nat, t: nat)
    requires OpenOk(db) && RowOk(r, db) && w !in db.committed && t != w && t > 0
    ensures r.tmin == w ==> !Visible(t, r, db.committed)
    ensures Visible(w, r, db.committed) ==>
      ((Visible(t, r.(tmax := w), db.committed) <==> Visible(t, r, db.committed)) <==> r.tmax != t)
  {
  }

  /** COMMIT makes the transaction's own undeleted rows visible to everyone, hides the rows it deleted from everyone but
      their inserters, and changes nothing else. */
  lemma CommitPublishes(db: Db, s: nat, i: nat, t: nat)
    requires Inv(db) && Explicit(db, s) && i < |db.rows| && t != db.open[s].tid && t > 0
    ensures var w, r, after := db.open[s].tid, db.rows[i], DoEnd(db, s, true).0.committed;
      if r.tmin == w then Visible(t, r, after) <==> r.tmax == 0
      else if r.tmax == w then Visible(t, r, after) <==> t == r.tmin
      else Visible(t, r, after) <==> Visible(t, r, db.committed)
  {
    assert RowOk(db.rows[i], db);
  }

  /** ROLLBACK changes nothing that anyone else sees; the rows of the transaction stay hidden from all others. */
  lemma RollbackHides(db: Db, s: nat, i: nat, t: nat)
    requires Inv(db) && Explicit(db, s) && i < |db.rows| && t != db.open[s].tid && t > 0
    ensures var r, d := db.rows[i], DoEnd(db, s, false).0;
      d.rows == db.rows && (Visible(t, r, d.committed) <==> Visible(t, r, db.committed))
      && (r.tmin == db.open[s].tid ==> !Visible(t, r, d.committed))
  {
    assert RowOk(db.rows[i], db);
    assert DoEnd(db, s, false).0.committed == db.committed;
  }
}
