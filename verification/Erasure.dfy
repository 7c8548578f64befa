/** Rollback erases: whatever the other sessions do, a transaction that never commits leaves what they see,
    at every point of the run, as if its START had been refused and its statements never been sent. */
module Erasure {
  import opened Mvcc

  /** Session `vs` is in the explicit transaction `v`. */
  predicate Holding(db: Db, vs: nat, v: nat) {
    vs in db.open && db.open[vs] == Tran(v, false)
  }

  /** The statement is a DELETE that picks a row which another open transaction has deleted. */
  ghost predicate Overwrites(db: Db, e: Event) {
    exists i, u :: Steals(db, e, i, u)
  }

  ghost predicate Steals(db: Db, e: Event, i: int, u: nat) {
    && e.Delete? && e.s in db.open && 0 <= i < |db.rows|
    && Picked(db.open[e.s].tid, db.rows, db.committed, e.picks, i)
    && u in db.open && u != e.s && db.rows[i].tmax == db.open[u].tid
  }

  /** As long as `vs` is in `v` it does not commit. */
  ghost predicate NeverCommits(db: Db, es: seq<Event>, vs: nat, v: nat)
    decreases |es|
  {
    es == [] || (
      && (Holding(db, vs, v) && es[0].s == vs ==> !es[0].Commit?)
      && NeverCommits(Step(db, es[0]).0, es[1..], vs, v))
  }

  /** As long as `vs` is in `v` it does not overwrite the mark of another open transaction. */
  ghost predicate NeverOverwrites(db: Db, es: seq<Event>, vs: nat, v: nat)
    decreases |es|
  {
    es == [] || (
      && (Holding(db, vs, v) && es[0].s == vs ==> !Overwrites(db, es[0]))
      && NeverOverwrites(Step(db, es[0]).0, es[1..], vs, v))
  }

  /** The run without the statements of `v`. */
  function Erased(db: Db, es: seq<Event>, vs: nat, v: nat): seq<Event>
    decreases |es|
  {
    if es == [] then []
    else
      var rest := Erased(Step(db, es[0]).0, es[1..], vs, v);
      if Holding(db, vs, v) && es[0].s == vs then rest else [es[0]] + rest
  }

  /** What the other statements of the run reply. */
  function OtherReplies(db: Db, es: seq<Event>, vs: nat, v: nat): seq<Reply>
    decreases |es|
  {
    if es == [] then []
    else
      var p := Step(db, es[0]);
      var rest := OtherReplies(p.0, es[1..], vs, v);
      if Holding(db, vs, v) && es[0].s == vs then rest else [p.1] + rest
  }

  // ----- the relation between the two runs

  predicate IsOpen(t: nat, db: Db) {
    exists s :: s in db.open && db.open[s].tid == t
  }

  /** Spent, not committed, and no longer anyone's: such a deleter never matters again. */
  predicate Dead(t: nat, db: Db) {
    t !in db.committed && t < db.next && !IsOpen(t, db)
  }

  predicate RowRel(a: TRow, b: TRow, d: Db, v: nat) {
    && a.tmin == b.tmin && a.val == b.val && b.tmax != v
    && (a.tmax == b.tmax || (a.tmax == v && Dead(b.tmax, d)))
  }

  /** Row by row the same, but for the rows `v` inserted. */
  predicate RowsRel(xs: seq<TRow>, ys: seq<TRow>, d: Db, v: nat) {
    if xs == [] then ys == []
    else if xs[0].tmin == v then RowsRel(xs[1..], ys, d, v)
    else ys != [] && RowRel(xs[0], ys[0], d, v) && RowsRel(xs[1..], ys[1..], d, v)
  }

  ghost predicate Rel(a: Db, b: Db, vs: nat, v: nat) {
    && a.next == b.next && 0 < v < b.next && a.committed == b.committed && v !in b.committed && !IsOpen(v, b)
    && b.open == (if Holding(a, vs, v) then Drop(a.open, vs) else a.open)
    && RowsRel(a.rows, b.rows, b, v)
  }

  lemma {:induction false} RowsRelLater(xs: seq<TRow>, ys: seq<TRow>, d: Db, d': Db, v: nat)
    requires RowsRel(xs, ys, d, v) && forall t: nat :: Dead(t, d) ==> Dead(t, d')
    ensures RowsRel(xs, ys, d', v)
  {
    if xs != [] {
      RowsRelLater(xs[1..], if xs[0].tmin == v then ys else ys[1..], d, d', v);
    }
  }

  lemma {:induction false} RowsRelSame(xs: seq<TRow>, d: Db, v: nat)
    requires Inv(d) && v >= d.next && RowsOk(xs, d)
    ensures RowsRel(xs, xs, d, v)
  {
    if xs != [] {
      assert RowOk(xs[0], d);
      assert RowsOk(xs[1..], d) by {
        forall i | 0 <= i < |xs[1..]|
          ensures RowOk(xs[1..][i], d)
        {
          assert xs[1..][i] == xs[i + 1];
        }
      }
      RowsRelSame(xs[1..], d, v);
    }
  }

  /** Nobody but `v` can tell related rows apart. */
  lemma SameSight(a: TRow, b: TRow, d: Db, v: nat, t: nat)
    requires RowRel(a, b, d, v) && v !in d.committed && t != v && IsOpen(t, d)
    ensures Visible(t, a, d.committed) <==> Visible(t, b, d.committed)
  {
  }

  lemma {:induction false} ViewRel(xs: seq<TRow>, ys: seq<TRow>, d: Db, v: nat, t: nat)
    requires RowsRel(xs, ys, d, v) && v !in d.committed && t != v && IsOpen(t, d)
    ensures View(t, xs, d.committed) == View(t, ys, d.committed)
  {
    hide Dead, RowRel, Visible, IsOpen;
    if xs != [] {
      if xs[0].tmin == v {
        ViewRel(xs[1..], ys, d, v, t);
        NotSeen(xs[0], d, v, t);
      } else {
        ViewRel(xs[1..], ys[1..], d, v, t);
        SameSight(xs[0], ys[0], d, v, t);
        SameVal(xs[0], ys[0], d, v);
      }
    }
  }

  lemma NotSeen(a: TRow, d: Db, v: nat, t: nat)
    requires a.tmin == v && v !in d.committed && t != v
    ensures !Visible(t, a, d.committed)
  {
  }

  lemma SameVal(a: TRow, b: TRow, d: Db, v: nat)
    requires RowRel(a, b, d, v)
    ensures a.val == b.val
  {
  }

  /** Another transaction's DELETE, the same picks counted among the rows it sees, keeps rows related. */
  lemma {:induction false} MarkRel(xs: seq<TRow>, ys: seq<TRow>, d: Db, v: nat, t: nat, picks: set<nat>, k: nat)
    requires RowsRel(xs, ys, d, v) && v !in d.committed && t != v && IsOpen(t, d)
    ensures RowsRel(Mark(t, xs, d.committed, picks, k), Mark(t, ys, d.committed, picks, k), d, v)
    decreases |xs|
  {
    hide Dead, RowRel, Visible, IsOpen;
    if xs != [] {
      var q := Mark(t, xs, d.committed, picks, k);
      if xs[0].tmin == v {
        NotSeen(xs[0], d, v, t);
        MarkRel(xs[1..], ys, d, v, t, picks, k);
        assert q[1..] == Mark(t, xs[1..], d.committed, picks, k);
      } else {
        var n := if Visible(t, xs[0], d.committed) then k + 1 else k;
        SameSight(xs[0], ys[0], d, v, t);
        MarkRel(xs[1..], ys[1..], d, v, t, picks, n);
        var p := Mark(t, ys, d.committed, picks, k);
        assert q[1..] == Mark(t, xs[1..], d.committed, picks, n);
        assert p[1..] == Mark(t, ys[1..], d.committed, picks, n);
        MarkedRel(xs[0], ys[0], d, v, t);
      }
    }
  }

  lemma MarkedRel(a: TRow, b: TRow, d: Db, v: nat, t: nat)
    requires RowRel(a, b, d, v) && t != v
    ensures RowRel(a.(tmax := t), b.(tmax := t), d, v)
  {
  }

  lemma {:induction false} AppendRel(xs: seq<TRow>, ys: seq<TRow>, d: Db, v: nat, r: TRow)
    requires RowsRel(xs, ys, d, v) && r.tmax != v
    ensures RowsRel(xs + [r], if r.tmin == v then ys else ys + [r], d, v)
  {
    if xs == [] {
      assert xs + [r] == [r];
    } else {
      var zs := if r.tmin == v then ys else ys + [r];
      assert (xs + [r])[1..] == xs[1..] + [r];
      if xs[0].tmin == v {
        AppendRel(xs[1..], ys, d, v, r);
      } else {
        AppendRel(xs[1..], ys[1..], d, v, r);
        assert zs[1..] == if r.tmin == v then ys[1..] else ys[1..] + [r];
      }
    }
  }

  // ----- a statement of another transaction

  /** The parts of the states a statement of a session other than the victim's depends on, beside the rows. */
  lemma SameOpen(a: Db, b: Db, vs: nat, v: nat, s: nat)
    requires Rel(a, b, vs, v) && !(Holding(a, vs, v) && s == vs)
    ensures s in a.open <==> s in b.open
    ensures s in b.open ==> a.open[s] == b.open[s] && b.open[s].tid != v && IsOpen(b.open[s].tid, b)
    ensures Explicit(a, s) <==> Explicit(b, s)
  {
  }

  lemma TranPutRel(a: Db, b: Db, vs: nat, v: nat, s: nat, auto: bool, fits: bool)
    requires Inv(b) && Rel(a, b, vs, v) && !(Holding(a, vs, v) && s == vs) && s !in b.open
    ensures var p, q := TranPut(a, s, auto, fits), TranPut(b, s, auto, fits);
      p.1 == q.1 && Rel(p.0, q.0, vs, v)
  {
    var p, q := TranPut(a, s, auto, fits), TranPut(b, s, auto, fits);
    forall t: nat | Dead(t, b)
      ensures Dead(t, q.0)
    {
      if IsOpen(t, q.0) {
        assert IsOpen(t, b);
      }
    }
    RowsRelLater(a.rows, b.rows, b, q.0, v);
    assert Holding(p.0, vs, v) <==> Holding(a, vs, v);
    if IsOpen(v, q.0) {
      assert IsOpen(v, b);
    }
  }

  lemma DropRel(a: Db, b: Db, vs: nat, v: nat, s: nat)
    requires Inv(b) && Rel(a, b, vs, v) && !(Holding(a, vs, v) && s == vs)
    ensures Rel(a.(open := Drop(a.open, s)), b.(open := Drop(b.open, s)), vs, v)
  {
    var a', b' := a.(open := Drop(a.open, s)), b.(open := Drop(b.open, s));
    forall t: nat | !IsOpen(t, b)
      ensures !IsOpen(t, b')
    {
    }
    RowsRelLater(a.rows, b.rows, b, b', v);
    assert Holding(a', vs, v) <==> Holding(a, vs, v);
  }

  lemma NeedTranRel(a: Db, b: Db, vs: nat, v: nat, s: nat, fits: bool)
    requires Inv(b) && Rel(a, b, vs, v) && !(Holding(a, vs, v) && s == vs)
    ensures var p, q := NeedTran(a, s, fits), NeedTran(b, s, fits);
      p.1 == q.1 && Rel(p.0, q.0, vs, v) && !(Holding(p.0, vs, v) && s == vs)
  {
    hide RowsRel;
    SameOpen(a, b, vs, v, s);
    if s !in b.open {
      TranPutRel(a, b, vs, v, s, true, fits);
    }
  }

  lemma EndRel(a: Db, b: Db, vs: nat, v: nat, s: nat, commit: bool)
    requires Inv(b) && Rel(a, b, vs, v) && !(Holding(a, vs, v) && s == vs)
    ensures var p, q := DoEnd(a, s, commit), DoEnd(b, s, commit);
      p.1 == q.1 && Rel(p.0, q.0, vs, v)
  {
    hide RowsRel;
    SameOpen(a, b, vs, v, s);
    if Explicit(b, s) {
      DropRel(a, b, vs, v, s);
      var tid := b.open[s].tid;
      var a', b' := a.(open := Drop(a.open, s)), b.(open := Drop(b.open, s));
      var q := DoEnd(b, s, commit).0;
      forall t: nat | Dead(t, b)
        ensures Dead(t, q)
      {
        assert t != tid;
      }
      RowsRelLater(a.rows, b.rows, b, q, v);
    }
  }

  lemma InsertRel(a: Db, b: Db, vs: nat, v: nat, s: nat, x: int, fits: bool)
    requires Inv(b) && Rel(a, b, vs, v) && !(Holding(a, vs, v) && s == vs)
    ensures var p, q := DoInsert(a, s, x, fits), DoInsert(b, s, x, fits);
      p.1 == q.1 && Rel(p.0, q.0, vs, v)
  {
    hide RowsRel, Inv, Dead, NeedTran;
    NeedTranRel(a, b, vs, v, s, fits);
    NeedTranInv(b, s, fits);
    var p, q := NeedTran(a, s, fits), NeedTran(b, s, fits);
    if q.1 == Success {
      SameOpen(p.0, q.0, vs, v, s);
      var r := TRow(q.0.open[s].tid, 0, x);
      AppendRel(p.0.rows, q.0.rows, q.0, v, r);
      RowsRelRows(p.0.rows + [r], q.0.rows + [r], q.0, q.0.rows + [r], v);
    }
  }

  /** The relation on rows does not look at the rows of the state. */
  lemma RowsRelRows(xs: seq<TRow>, ys: seq<TRow>, d: Db, zs: seq<TRow>, v: nat)
    requires RowsRel(xs, ys, d, v)
    ensures RowsRel(xs, ys, d.(rows := zs), v)
  {
    var d' := d.(rows := zs);
    forall t: nat | Dead(t, d)
      ensures Dead(t, d')
    {
      assert IsOpen(t, d') ==> IsOpen(t, d);
    }
    RowsRelLater(xs, ys, d, d', v);
  }

  lemma DeleteRel(a: Db, b: Db, vs: nat, v: nat, s: nat, picks: set<nat>, fits: bool)
    requires Inv(b) && Rel(a, b, vs, v) && !(Holding(a, vs, v) && s == vs)
    ensures var p, q := DoDelete(a, s, picks, fits), DoDelete(b, s, picks, fits);
      p.1 == q.1 && Rel(p.0, q.0, vs, v)
  {
    hide RowsRel, Inv, Dead, NeedTran, Mark;
    NeedTranRel(a, b, vs, v, s, fits);
    NeedTranInv(b, s, fits);
    var p, q := NeedTran(a, s, fits), NeedTran(b, s, fits);
    if q.1 == Success {
      SameOpen(p.0, q.0, vs, v, s);
      var t := q.0.open[s].tid;
      MarkRel(p.0.rows, q.0.rows, q.0, v, t, picks, 0);
      RowsRelRows(Mark(t, p.0.rows, q.0.committed, picks, 0), Mark(t, q.0.rows, q.0.committed, picks, 0), q.0,
                  Mark(t, q.0.rows, q.0.committed, picks, 0), v);
    }
  }

  lemma SelectRel(a: Db, b: Db, vs: nat, v: nat, s: nat, fits: bool)
    requires Inv(b) && Rel(a, b, vs, v) && !(Holding(a, vs, v) && s == vs)
    ensures var p, q := Step(a, Select(s, fits)), Step(b, Select(s, fits));
      p.1 == q.1 && Rel(p.0, q.0, vs, v)
  {
    hide RowsRel, Inv, Dead, NeedTran;
    NeedTranRel(a, b, vs, v, s, fits);
    NeedTranInv(b, s, fits);
    var p, q := NeedTran(a, s, fits), NeedTran(b, s, fits);
    if q.1 == Success {
      SameOpen(p.0, q.0, vs, v, s);
      ViewRel(p.0.rows, q.0.rows, q.0, v, q.0.open[s].tid);
    }
  }

  /** A statement outside the erased transaction replies the same in both runs. */
  lemma OtherStep(a: Db, b: Db, e: Event, vs: nat, v: nat)
    requires Inv(b) && Rel(a, b, vs, v) && !(Holding(a, vs, v) && e.s == vs)
    ensures Step(a, e).1 == Step(b, e).1 && Rel(Step(a, e).0, Step(b, e).0, vs, v)
  {
    hide Rel, Inv;
    match e
    case Start(s, fits) =>
      StartRel(a, b, vs, v, s, fits);
    case Commit(s) => EndRel(a, b, vs, v, s, true);
    case Rollback(s) => EndRel(a, b, vs, v, s, false);
    case Insert(s, x, fits) => InsertRel(a, b, vs, v, s, x, fits);
    case Delete(s, picks, fits) => DeleteRel(a, b, vs, v, s, picks, fits);
    case Select(s, fits) => SelectRel(a, b, vs, v, s, fits);
  }

  lemma StartRel(a: Db, b: Db, vs: nat, v: nat, s: nat, fits: bool)
    requires Inv(b) && Rel(a, b, vs, v) && !(Holding(a, vs, v) && s == vs)
    ensures var p, q := DoStart(a, s, fits), DoStart(b, s, fits);
      p.1 == q.1 && Rel(p.0, q.0, vs, v)
  {
    hide RowsRel, Inv, Dead, TranPut;
    SameOpen(a, b, vs, v, s);
    if !Explicit(b, s) {
      DropRel(a, b, vs, v, s);
      DropInv(b, s);
      TranPutRel(a.(open := Drop(a.open, s)), b.(open := Drop(b.open, s)), vs, v, s, false, fits);
    }
  }

  // ----- a statement of the erased transaction

  /** What the erased transaction's DELETE changes was nobody's: no row, or a row whose deleter is not open. */
  ghost predicate Harmless(xs: seq<TRow>, qs: seq<TRow>, b: Db) {
    && |qs| == |xs|
    && forall i {:trigger xs[i]} {:trigger qs[i]} :: 0 <= i < |xs| ==> xs[i] == qs[i] || !IsOpen(xs[i].tmax, b)
  }

  lemma {:induction false} VictimMark(xs: seq<TRow>, ys: seq<TRow>, b: Db, v: nat, picks: set<nat>, k: nat)
    requires RowsRel(xs, ys, b, v) && RowsOk(xs, b)
    requires Harmless(xs, Mark(v, xs, b.committed, picks, k), b)
    ensures RowsRel(Mark(v, xs, b.committed, picks, k), ys, b, v)
    decreases |xs|
  {
    if xs != [] {
      var n := if Visible(v, xs[0], b.committed) then k + 1 else k;
      var q := Mark(v, xs, b.committed, picks, k);
      var rest := Mark(v, xs[1..], b.committed, picks, n);
      assert q == [q[0]] + rest;
      assert RowOk(xs[0], b);
      forall i | 0 <= i < |xs[1..]|
        ensures RowOk(xs[1..][i], b) && (xs[1..][i] == rest[i] || !IsOpen(xs[1..][i].tmax, b))
      {
        assert xs[1..][i] == xs[i + 1] && rest[i] == q[i + 1];
      }
      VictimMark(xs[1..], if xs[0].tmin == v then ys else ys[1..], b, v, picks, n);
    }
  }

  lemma VictimDelete(a: Db, b: Db, vs: nat, v: nat, picks: set<nat>, fits: bool)
    requires Inv(a) && Rel(a, b, vs, v) && Holding(a, vs, v)
    requires !Overwrites(a, Delete(vs, picks, fits))
    ensures Rel(DoDelete(a, vs, picks, fits).0, b, vs, v)
  {
    var e := Delete(vs, picks, fits);
    var q := Mark(v, a.rows, a.committed, picks, 0);
    forall i | 0 <= i < |a.rows| && a.rows[i] != q[i]
      ensures !IsOpen(a.rows[i].tmax, b)
    {
      MarkAt(v, a.rows, a.committed, picks, i);
      if IsOpen(a.rows[i].tmax, b) {
        var u :| u in b.open && b.open[u].tid == a.rows[i].tmax;
        assert Steals(a, e, i, u);
      }
    }
    forall i | 0 <= i < |a.rows|
      ensures RowOk(a.rows[i], b)
    {
      assert RowOk(a.rows[i], a);
    }
    VictimMark(a.rows, b.rows, b, v, picks, 0);
  }

  lemma VictimRollback(a: Db, b: Db, vs: nat, v: nat)
    requires Rel(a, b, vs, v) && Holding(a, vs, v)
    ensures Rel(DoEnd(a, vs, false).0, b, vs, v)
  {
    var d := DoEnd(a, vs, false).0;
    assert d.committed == b.committed && d.open == b.open;
    assert !Holding(d, vs, v);
  }

  /** A statement of the erased transaction changes nothing that matters to the run without it. */
  lemma VictimStep(a: Db, b: Db, e: Event, vs: nat, v: nat)
    requires Inv(a) && Rel(a, b, vs, v) && Holding(a, vs, v) && e.s == vs
    requires !e.Commit? && !Overwrites(a, e)
    ensures Rel(Step(a, e).0, b, vs, v)
  {
    hide Inv, Overwrites, Mark;
    match e
    case Start(_, _) =>
    case Rollback(_) => VictimRollback(a, b, vs, v);
    case Insert(_, x, _) => AppendRel(a.rows, b.rows, b, v, TRow(v, 0, x));
    case Delete(_, picks, fits) => VictimDelete(a, b, vs, v, picks, fits);
    case Select(_, _) =>
  }

  // ----- whole runs

  lemma {:induction false} ErasedRun(a: Db, b: Db, es: seq<Event>, vs: nat, v: nat)
    requires Inv(a) && Inv(b) && Rel(a, b, vs, v) && NeverCommits(a, es, vs, v) && NeverOverwrites(a, es, vs, v)
    ensures Replies(b, Erased(a, es, vs, v)) == OtherReplies(a, es, vs, v)
    ensures Rel(Run(a, es), Run(b, Erased(a, es, vs, v)), vs, v)
    ensures Inv(Run(b, Erased(a, es, vs, v)))
    decreases |es|
  {
    hide Rel, Inv, Overwrites, Step, Holding;
    if es != [] {
      var e := es[0];
      var a' := Step(a, e).0;
      StepKeepsInv(a, e);
      var rest := Erased(a', es[1..], vs, v);
      if Holding(a, vs, v) && e.s == vs {
        VictimStep(a, b, e, vs, v);
        ErasedRun(a', b, es[1..], vs, v);
      } else {
        OtherStep(a, b, e, vs, v);
        StepKeepsInv(b, e);
        ErasedRun(a', Step(b, e).0, es[1..], vs, v);
        assert ([e] + rest)[1..] == rest;
      }
    }
  }

  lemma StartsRelated(db: Db, vs: nat)
    requires Inv(db) && !Explicit(db, vs) && db.next <= MAXTID
    ensures var a, b := DoStart(db, vs, true).0, DoStart(db, vs, false).0;
      Holding(a, vs, db.next) && Rel(a, b, vs, db.next)
  {
    var a, b := DoStart(db, vs, true).0, DoStart(db, vs, false).0;
    var v := db.next;
    DropInv(db, vs);
    RowsRelSame(db.rows, db, v);
    assert Drop(a.open, vs) == b.open;
    forall t: nat | Dead(t, db)
      ensures Dead(t, b)
    {
      if IsOpen(t, b) {
        assert IsOpen(t, db);
      }
    }
    RowsRelLater(db.rows, db.rows, db, b, v);
  }

  /** Every transaction open in `b` is open in `a`, perhaps under another id, and sees the same rows in the same order. */
  ghost predicate SameViews(a: Db, b: Db) {
    forall u :: u in b.open ==>
      && u in a.open && a.open[u].auto == b.open[u].auto
      && View(a.open[u].tid, a.rows, a.committed) == View(b.open[u].tid, b.rows, b.committed)
  }

  /** Rollback erasure, for any state, any run and any interleaving: if the transaction that `vs` starts never
      commits (it is rolled back or left open) and never overwrites the mark of another open transaction, then
      every other statement of the run replies exactly as in the run where that START is refused and the
      transaction's statements are left out; in the end, too, all other transactions see the same rows in the
      same order. */
  lemma RollbackErased(db: Db, es: seq<Event>, vs: nat)
    requires Inv(db) && !Explicit(db, vs) && db.next <= MAXTID
    requires NeverCommits(Step(db, Start(vs, true)).0, es, vs, db.next)
    requires NeverOverwrites(Step(db, Start(vs, true)).0, es, vs, db.next)
    ensures var a, b := Step(db, Start(vs, true)).0, Step(db, Start(vs, false)).0;
      var kept := Erased(a, es, vs, db.next);
      && Replies(b, kept) == OtherReplies(a, es, vs, db.next)
      && SameViews(Run(a, es), Run(b, kept))
  {
    hide Inv, RowsRel, NeverCommits, NeverOverwrites, Erased, OtherReplies, Run;
    var v := db.next;
    var a, b := Step(db, Start(vs, true)).0, Step(db, Start(vs, false)).0;
    StepKeepsInv(db, Start(vs, true));
    StepKeepsInv(db, Start(vs, false));
    StartsRelated(db, vs);
    ErasedRun(a, b, es, vs, v);
    RelatedViews(Run(a, es), Run(b, Erased(a, es, vs, v)), vs, v);
  }

  lemma RelatedViews(a: Db, b: Db, vs: nat, v: nat)
    requires Rel(a, b, vs, v)
    ensures SameViews(a, b)
  {
    hide RowsRel, Visible, View;
    forall u | u in b.open
      ensures u in a.open && a.open[u] == b.open[u]
      ensures View(b.open[u].tid, a.rows, a.committed) == View(b.open[u].tid, b.rows, b.committed)
    {
      assert IsOpen(b.open[u].tid, b);
      ViewRel(a.rows, b.rows, b, v, b.open[u].tid);
    }
  }

  // ----- the converse: an overwritten mark shows at once

  /** Under another transaction's marks nothing disappears from the view of `t`, whose own marks may be overwritten. */
  lemma {:induction false} MarksOnlyShow(t: nat, v: nat, rows: seq<TRow>, db: Db, picks: set<nat>, k: nat)
    requires RowsOk(rows, db) && 0 < t != v && v !in db.committed
    ensures |View(t, Mark(v, rows, db.committed, picks, k), db.committed)| >= |View(t, rows, db.committed)|
    decreases |rows|
  {
    if rows != [] {
      var n := if Visible(v, rows[0], db.committed) then k + 1 else k;
      var q := Mark(v, rows, db.committed, picks, k);
      TailOk(rows, db);
      MarksOnlyShow(t, v, rows[1..], db, picks, n);
      assert q[1..] == Mark(v, rows[1..], db.committed, picks, n);
      assert RowOk(rows[0], db);
      HeadShown(t, v, rows[0], q[0], db);
    }
  }

  lemma TailOk(rows: seq<TRow>, db: Db)
    requires RowsOk(rows, db) && rows != []
    ensures RowsOk(rows[1..], db)
  {
    forall i {:trigger rows[1..][i]} | 0 <= i < |rows[1..]|
      ensures RowOk(rows[1..][i], db)
    {
      assert rows[1..][i] == rows[i + 1];
    }
  }

  lemma HeadShown(t: nat, v: nat, r: TRow, q: TRow, db: Db)
    requires RowOk(r, db) && 0 < t != v && v !in db.committed
    requires q == r || (q == r.(tmax := v) && Visible(v, r, db.committed))
    ensures Visible(t, r, db.committed) ==> Visible(t, q, db.committed)
    ensures q != r && r.tmax == t ==> !Visible(t, r, db.committed) && Visible(t, q, db.committed)
  {
  }

  /** A picked row that `t` deleted comes back into the view of `t`. */
  lemma {:induction false} RobbedSees(t: nat, v: nat, rows: seq<TRow>, db: Db, picks: set<nat>, k: nat, i: nat)
    requires RowsOk(rows, db) && 0 < t != v && v !in db.committed && i < |rows| && rows[i].tmax == t
    requires Visible(v, rows[i], db.committed) && k + |View(v, rows[..i], db.committed)| in picks
    ensures |View(t, Mark(v, rows, db.committed, picks, k), db.committed)| > |View(t, rows, db.committed)|
    decreases i
  {
    var n := if Visible(v, rows[0], db.committed) then k + 1 else k;
    var q := Mark(v, rows, db.committed, picks, k);
    TailOk(rows, db);
    assert q[1..] == Mark(v, rows[1..], db.committed, picks, n);
    assert RowOk(rows[0], db);
    HeadShown(t, v, rows[0], q[0], db);
    if i > 0 {
      assert rows[..i][1..] == rows[1..][..i - 1];
      RobbedSees(t, v, rows[1..], db, picks, n, i - 1);
    } else {
      MarksOnlyShow(t, v, rows[1..], db, picks, n);
    }
  }

  /** A statement of the erased transaction that overwrites a mark changes what the robbed transaction sees. */
  lemma OverwritingShows(a: Db, b: Db, e: Event, vs: nat, v: nat)
    requires Inv(a) && Rel(a, b, vs, v) && Holding(a, vs, v) && e.s == vs && Overwrites(a, e)
    ensures !SameViews(Step(a, e).0, b)
  {
    hide RowsRel, Visible, View, Mark;
    var i, u :| Steals(a, e, i, u);
    var t := a.open[u].tid;
    assert u in b.open && b.open[u].tid == t;
    RelatedViews(a, b, vs, v);
    RobbedSees(t, v, a.rows, a, e.picks, 0, i);
    assert Step(a, e).0.rows == Mark(v, a.rows, a.committed, e.picks, 0);
  }

  /** The views agree after the first `n` statements of the run. */
  ghost predicate AgreeAfter(a: Db, b: Db, es: seq<Event>, vs: nat, v: nat, n: nat)
    requires n <= |es|
  {
    SameViews(Run(a, es[..n]), Run(b, Erased(a, es[..n], vs, v)))
  }

  /** The other statements among the first `n` reply the same in both runs. */
  predicate SameReplies(a: Db, b: Db, es: seq<Event>, vs: nat, v: nat, n: nat)
    requires n <= |es|
  {
    Replies(b, Erased(a, es[..n], vs, v)) <= OtherReplies(a, es, vs, v)
  }

  lemma {:induction false} PrefixKeeps(a: Db, es: seq<Event>, vs: nat, v: nat, n: nat)
    requires n <= |es|
    ensures NeverCommits(a, es, vs, v) ==> NeverCommits(a, es[..n], vs, v)
    ensures NeverOverwrites(a, es, vs, v) ==> NeverOverwrites(a, es[..n], vs, v)
    decreases n
  {
    hide Step, Overwrites, Holding;
    if n > 0 {
      PrefixKeeps(Step(a, es[0]).0, es[1..], vs, v, n - 1);
      assert es[..n][1..] == es[1..][..n - 1];
    }
  }

  /** The first overwriting statement is a point where the views differ. */
  lemma {:induction false} DiffersSomewhere(a: Db, b: Db, es: seq<Event>, vs: nat, v: nat) returns (n: nat)
    requires Inv(a) && Inv(b) && Rel(a, b, vs, v) && NeverCommits(a, es, vs, v) && !NeverOverwrites(a, es, vs, v)
    ensures n <= |es| && !AgreeAfter(a, b, es, vs, v, n) && SameReplies(a, b, es, vs, v, n)
    decreases |es|
  {
    hide Rel, Inv, Overwrites, Step, Holding, SameViews;
    var e := es[0];
    var a' := Step(a, e).0;
    StepKeepsInv(a, e);
    if Holding(a, vs, v) && e.s == vs {
      if Overwrites(a, e) {
        OverwritingShows(a, b, e, vs, v);
        n := 1;
        FirstOnly(a, b, es, vs, v);
        return;
      }
      VictimStep(a, b, e, vs, v);
      n := DiffersSomewhere(a', b, es[1..], vs, v);
      LaterOn(a, b, es, vs, v, n);
    } else {
      OtherStep(a, b, e, vs, v);
      StepKeepsInv(b, e);
      n := DiffersSomewhere(a', Step(b, e).0, es[1..], vs, v);
      LaterOn(a, b, es, vs, v, n);
    }
    n := n + 1;
  }

  lemma FirstOnly(a: Db, b: Db, es: seq<Event>, vs: nat, v: nat)
    requires es != [] && Holding(a, vs, v) && es[0].s == vs
    ensures AgreeAfter(a, b, es, vs, v, 1) <==> SameViews(Step(a, es[0]).0, b)
    ensures SameReplies(a, b, es, vs, v, 1)
  {
    hide Step, SameViews, Holding;
    assert es[..1][1..] == [];
    assert Run(Step(a, es[0]).0, []) == Step(a, es[0]).0;
    assert Erased(a, es[..1], vs, v) == [];
  }

  lemma LaterOn(a: Db, b: Db, es: seq<Event>, vs: nat, v: nat, n: nat)
    requires n < |es|
    ensures var b' := if Holding(a, vs, v) && es[0].s == vs then b else Step(b, es[0]).0;
      && (AgreeAfter(a, b, es, vs, v, n + 1) <==> AgreeAfter(Step(a, es[0]).0, b', es[1..], vs, v, n))
      && ((Holding(a, vs, v) && es[0].s == vs) || Step(a, es[0]).1 == Step(b, es[0]).1 ==>
           SameReplies(Step(a, es[0]).0, b', es[1..], vs, v, n) ==> SameReplies(a, b, es, vs, v, n + 1))
  {
    hide Step, SameViews, Holding;
    assert es[..n + 1][1..] == es[1..][..n];
    var rest := Erased(Step(a, es[0]).0, es[1..][..n], vs, v);
    assert ([es[0]] + rest)[1..] == rest;
  }

  /** When rollback erases, exactly: a transaction that never commits leaves all other views as they would be without
      it, after every statement of the run, if and only if it never overwrites the mark of another open one. */
  lemma ErasedExactly(db: Db, es: seq<Event>, vs: nat)
    requires Inv(db) && !Explicit(db, vs) && db.next <= MAXTID
    requires NeverCommits(Step(db, Start(vs, true)).0, es, vs, db.next)
    ensures var a, b := Step(db, Start(vs, true)).0, Step(db, Start(vs, false)).0;
      (forall n :: 0 <= n <= |es| ==> AgreeAfter(a, b, es, vs, db.next, n)) <==> NeverOverwrites(a, es, vs, db.next)
  {
    hide Inv, Rel, NeverCommits, NeverOverwrites, Erased, Run, SameViews;
    var v := db.next;
    var a, b := Step(db, Start(vs, true)).0, Step(db, Start(vs, false)).0;
    StepKeepsInv(db, Start(vs, true));
    StepKeepsInv(db, Start(vs, false));
    StartsRelated(db, vs);
    if NeverOverwrites(a, es, vs, v) {
      forall n | 0 <= n <= |es|
        ensures AgreeAfter(a, b, es, vs, v, n)
      {
        PrefixKeeps(a, es, vs, v, n);
        ErasedRun(a, b, es[..n], vs, v);
        RelatedViews(Run(a, es[..n]), Run(b, Erased(a, es[..n], vs, v)), vs, v);
      }
    } else {
      var n := DiffersSomewhere(a, b, es, vs, v);
    }
  }

  // ----- why overwriting is excluded

  /** Two transactions `w` and `v` delete the same committed row, `w` first. Then `w` commits and `v` does not: the
      row is back for everyone but `v`, although its deletion by `w` is committed. */
  lemma LostDelete(r: TRow, w: nat, v: nat, t: nat, committed: set<nat>)
    requires Visible(w, r, committed) && Visible(v, r, committed) && r.tmax == 0
    requires r.tmin in committed && w != v && w != r.tmin && v != r.tmin && w > 0 && v > 0
    requires 0 !in committed && v !in committed && t !in {0, v, w, r.tmin}
    ensures var q := r.(tmax := w);
      && Visible(v, q, committed) == (w !in committed)
      && !Visible(t, q, committed + {w})
      && Visible(t, q.(tmax := v), committed + {w}) && Visible(w, q.(tmax := v), committed + {w})
  {
  }

  function Overwritten(x: int): seq<Event> {
    [Delete(1, {0}, true), Delete(2, {0}, true), Commit(1), Rollback(2), Select(3, true)]
  }

  /** The same as a run: session 2 overwrites the mark of session 1, which commits, and rolls back. Session 3 still
      sees the row, and would not if session 2 had never started. */
  lemma OverwritingIsNotErased(x: int)
    ensures var db := Run(Db([], {}, map[], 1), [Insert(0, x, true), Start(1, true)]);
      var a, b := Step(db, Start(2, true)).0, Step(db, Start(2, false)).0;
      && Inv(db) && db.next == 3 && !NeverOverwrites(a, Overwritten(x), 2, 3)
      && OtherReplies(a, Overwritten(x), 2, 3) == [Reply(Success, []), Reply(Success, []), Reply(Success, [x])]
      && Replies(b, Erased(a, Overwritten(x), 2, 3)) == [Reply(Success, []), Reply(Success, []), Reply(Success, [])]
  {
    var d0 := Db([], {}, map[], 1);
    InitInv();
    RunKeepsInv(d0, [Insert(0, x, true), Start(1, true)]);
    hide Inv, Step, Replies, OtherReplies, Erased, NeverOverwrites;
    TwoSteps(d0, Insert(0, x, true), Start(1, true));
    RowInserted(x);
    var db := Step(Step(d0, Insert(0, x, true)).0, Start(1, true)).0;
    OverwritingTracks(db, x);
  }

  lemma TwoSteps(db: Db, e: Event, f: Event)
    ensures Run(db, [e, f]) == Step(Step(db, e).0, f).0
  {
    hide Step;
    assert [e, f][1..] == [f] && [f][1..] == [];
    assert Run(Step(db, e).0, [f]) == Step(Step(db, e).0, f).0;
  }

  lemma RowInserted(x: int)
    ensures var db := Step(Step(Db([], {}, map[], 1), Insert(0, x, true)).0, Start(1, true)).0;
      && db.rows == [TRow(1, 0, x)] && db.committed == {1} && db.next == 3
      && db.open == map[0 := Tran(1, true), 1 := Tran(2, false)]
  {
    var d1 := Step(Db([], {}, map[], 1), Insert(0, x, true)).0;
    assert d1 == Db([TRow(1, 0, x)], {1}, map[0 := Tran(1, true)], 2);
    assert Drop(d1.open, 1) == d1.open;
  }

  lemma OverwritingTracks(db: Db, x: int)
    requires db.rows == [TRow(1, 0, x)] && db.committed == {1} && db.next == 3
    requires db.open == map[0 := Tran(1, true), 1 := Tran(2, false)]
    ensures var a, b := Step(db, Start(2, true)).0, Step(db, Start(2, false)).0;
      && !NeverOverwrites(a, Overwritten(x), 2, 3)
      && OtherReplies(a, Overwritten(x), 2, 3) == [Reply(Success, []), Reply(Success, []), Reply(Success, [x])]
      && Replies(b, Erased(a, Overwritten(x), 2, 3)) == [Reply(Success, []), Reply(Success, []), Reply(Success, [])]
  {
    var es := Overwritten(x);
    var a0, b0 := Step(db, Start(2, true)).0, Step(db, Start(2, false)).0;
    var a1 := Step(a0, es[0]).0;
    var a2 := Step(a1, es[1]).0;
    assert a1.rows == [TRow(1, 2, x)];
    assert a2.rows == [TRow(1, 3, x)];
    assert Steals(a1, es[1], 0, 1);
    assert Overwrites(a1, es[1]);
    assert es[1..] == [es[1], es[2], es[3], es[4]] && es[1..][1..] == [es[2], es[3], es[4]];
    assert !NeverOverwrites(a1, es[1..], 2, 3);
    OverwrittenEnd(a2, x);
    ErasedTrack(b0, x);
    assert Erased(a1, es[1..], 2, 3) == [es[2], es[4]];
    assert Erased(a0, es, 2, 3) == [es[0], es[2], es[4]];
  }

  lemma OverwrittenEnd(a2: Db, x: int)
    requires a2.rows == [TRow(1, 3, x)] && a2.committed == {1} && a2.next == 4
    requires a2.open == map[0 := Tran(1, true), 1 := Tran(2, false), 2 := Tran(3, false)]
    ensures var es := [Commit(1), Rollback(2), Select(3, true)];
      && OtherReplies(a2, es, 2, 3) == [Reply(Success, []), Reply(Success, [x])]
      && Erased(a2, es, 2, 3) == [Commit(1), Select(3, true)]
  {
    var es := [Commit(1), Rollback(2), Select(3, true)];
    var a3 := Step(a2, es[0]).0;
    var a4 := Step(a3, es[1]).0;
    assert a4.committed == {1, 2};
    assert es[1..] == [es[1], es[2]] && [es[1], es[2]][1..] == [es[2]];
    assert View(4, a4.rows, {1, 2, 4}) == [x];
    assert Step(a4, es[2]).1 == Reply(Success, [x]) by { assert {1, 2} + {4} == {1, 2, 4}; }
    assert OtherReplies(a4, [es[2]], 2, 3) == [Reply(Success, [x])];
    assert Erased(a4, [es[2]], 2, 3) == [es[2]];
  }

  lemma ErasedTrack(b0: Db, x: int)
    requires b0.rows == [TRow(1, 0, x)] && b0.committed == {1} && b0.next == 4
    requires b0.open == map[0 := Tran(1, true), 1 := Tran(2, false)]
    ensures Replies(b0, [Delete(1, {0}, true), Commit(1), Select(3, true)])
      == [Reply(Success, []), Reply(Success, []), Reply(Success, [])]
  {
    var es := [Delete(1, {0}, true), Commit(1), Select(3, true)];
    var b1 := Step(b0, es[0]).0;
    var b2 := Step(b1, es[1]).0;
    assert b1.rows == [TRow(1, 2, x)];
    assert b2.committed == {1, 2};
    assert es[1..] == [es[1], es[2]] && [es[1], es[2]][1..] == [es[2]];
    assert View(4, b2.rows, {1, 2, 4}) == [];
    assert Step(b2, es[2]).1 == Reply(Success, []) by { assert {1, 2} + {4} == {1, 2, 4}; }
    assert Replies(b2, [es[2]]) == [Reply(Success, [])];
  }
}
