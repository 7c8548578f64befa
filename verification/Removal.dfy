/** Rollback erasure with the START taken out as well: without it all later ids are one lower, and nothing else
    changes. */
module Removal {
  import opened Mvcc
  import opened Erasure

  /** Id `t` in a run in which id `v` was not spent. */
  function Down(t: nat, v: nat): nat {
    if t > v then t - 1 else t
  }

  function DownRow(r: TRow, v: nat): TRow {
    TRow(Down(r.tmin, v), Down(r.tmax, v), r.val)
  }

  ghost predicate CommittedDown(x: set<nat>, y: set<nat>, v: nat) {
    v !in x && forall t: nat {:trigger t in x} :: t != v ==> (t in x <==> Down(t, v) in y)
  }

  ghost predicate RowsDown(xs: seq<TRow>, ys: seq<TRow>, v: nat) {
    && |xs| == |ys|
    && forall i {:trigger xs[i]} {:trigger ys[i]} :: 0 <= i < |xs| ==>
         xs[i].tmin != v && xs[i].tmax != v && ys[i] == DownRow(xs[i], v)
  }

  ghost predicate OpenDown(x: map<nat, Tran>, y: map<nat, Tran>, v: nat) {
    && x.Keys == y.Keys
    && forall s {:trigger x[s]} {:trigger y[s]} :: s in x ==> x[s].tid != v && y[s] == Tran(Down(x[s].tid, v), x[s].auto)
  }

  /** The states agree but for the ids above `v`, which `a` has spent without effect. */
  ghost predicate Shifted(a: Db, b: Db, v: nat) {
    && 0 < v < a.next == b.next + 1
    && CommittedDown(a.committed, b.committed, v) && OpenDown(a.open, b.open, v) && RowsDown(a.rows, b.rows, v)
  }

  lemma VisibleDown(t: nat, r: TRow, x: set<nat>, y: set<nat>, v: nat)
    requires CommittedDown(x, y, v) && t != v && r.tmin != v && r.tmax != v
    ensures Visible(t, r, x) <==> Visible(Down(t, v), DownRow(r, v), y)
  {
  }

  lemma {:induction false} ViewDown(t: nat, xs: seq<TRow>, ys: seq<TRow>, x: set<nat>, y: set<nat>, v: nat)
    requires CommittedDown(x, y, v) && t != v && RowsDown(xs, ys, v)
    ensures View(t, xs, x) == View(Down(t, v), ys, y)
  {
    hide Visible, CommittedDown;
    if xs != [] {
      assert ys[0] == DownRow(xs[0], v);
      VisibleDown(t, xs[0], x, y, v);
      TailDown(xs, ys, v);
      ViewDown(t, xs[1..], ys[1..], x, y, v);
    }
  }

  lemma TailDown(xs: seq<TRow>, ys: seq<TRow>, v: nat)
    requires RowsDown(xs, ys, v) && xs != []
    ensures RowsDown(xs[1..], ys[1..], v)
  {
    forall i {:trigger xs[1..][i]} {:trigger ys[1..][i]} | 0 <= i < |xs[1..]|
      ensures xs[1..][i].tmin != v && xs[1..][i].tmax != v && ys[1..][i] == DownRow(xs[1..][i], v)
    {
      assert xs[1..][i] == xs[i + 1] && ys[1..][i] == ys[i + 1];
    }
  }

  lemma {:induction false} MarkDown(t: nat, xs: seq<TRow>, ys: seq<TRow>, x: set<nat>, y: set<nat>, v: nat, picks: set<nat>, k: nat)
    requires CommittedDown(x, y, v) && t != v && RowsDown(xs, ys, v)
    ensures RowsDown(Mark(t, xs, x, picks, k), Mark(Down(t, v), ys, y, picks, k), v)
    decreases |xs|
  {
    hide Visible, CommittedDown;
    if xs != [] {
      assert ys[0] == DownRow(xs[0], v);
      VisibleDown(t, xs[0], x, y, v);
      TailDown(xs, ys, v);
      var n := if Visible(t, xs[0], x) then k + 1 else k;
      MarkDown(t, xs[1..], ys[1..], x, y, v, picks, n);
      var p, q := Mark(t, xs, x, picks, k), Mark(Down(t, v), ys, y, picks, k);
      assert p == [p[0]] + Mark(t, xs[1..], x, picks, n);
      assert q == [q[0]] + Mark(Down(t, v), ys[1..], y, picks, n);
      assert q[0] == DownRow(p[0], v);
      HeadDown(p[0], Mark(t, xs[1..], x, picks, n), Mark(Down(t, v), ys[1..], y, picks, n), v);
    }
  }

  lemma HeadDown(r: TRow, xs: seq<TRow>, ys: seq<TRow>, v: nat)
    requires RowsDown(xs, ys, v) && r.tmin != v && r.tmax != v
    ensures RowsDown([r] + xs, [DownRow(r, v)] + ys, v)
  {
  }

  // ----- statements

  /** Statements that do not fail for want of ids leave the states shifted. At the last id they still can fail in `a`,
      and then they do not in `b`. */
  ghost predicate Alike(p: (Db, Status), q: (Db, Status), v: nat) {
    && (p.1 != SequenceOverflow ==> p.1 == q.1 && p.0.next <= MAXTID + 1 && Shifted(p.0, q.0, v))
    && (p.1 == SequenceOverflow ==> q.1 != SequenceOverflow)
  }

  lemma TranPutDown(a: Db, b: Db, v: nat, s: nat, auto: bool, fits: bool)
    requires Inv(a) && Shifted(a, b, v) && a.next <= MAXTID + 1
    ensures Alike(TranPut(a, s, auto, fits), TranPut(b, s, auto, fits), v)
  {
    hide RowsDown;
  }

  lemma DropDown(a: Db, b: Db, v: nat, s: nat)
    requires Shifted(a, b, v)
    ensures Shifted(a.(open := Drop(a.open, s)), b.(open := Drop(b.open, s)), v)
  {
    hide RowsDown, CommittedDown;
    assert Drop(a.open, s).Keys == a.open.Keys - {s} && Drop(b.open, s).Keys == b.open.Keys - {s};
  }

  lemma NeedTranDown(a: Db, b: Db, v: nat, s: nat, fits: bool)
    requires Inv(a) && Shifted(a, b, v) && a.next <= MAXTID + 1
    ensures Alike(NeedTran(a, s, fits), NeedTran(b, s, fits), v)
    ensures var p := NeedTran(a, s, fits); p.1 == Success ==> s in p.0.open && s in NeedTran(b, s, fits).0.open
  {
    hide RowsDown, CommittedDown, TranPut;
    NeedTranInv(a, s, fits);
    assert s in a.open <==> s in b.open;
    if s !in a.open {
      TranPutDown(a, b, v, s, true, fits);
    }
  }

  lemma StartDown(a: Db, b: Db, v: nat, s: nat, fits: bool)
    requires Inv(a) && Shifted(a, b, v) && a.next <= MAXTID + 1
    ensures Alike(DoStart(a, s, fits), DoStart(b, s, fits), v)
  {
    hide Inv, CommittedDown, RowsDown, TranPut;
    assert s in a.open <==> s in b.open;
    if !Explicit(a, s) {
      DropInv(a, s);
      DropDown(a, b, v, s);
      TranPutDown(a.(open := Drop(a.open, s)), b.(open := Drop(b.open, s)), v, s, false, fits);
    }
  }

  lemma EndDown(a: Db, b: Db, v: nat, s: nat, commit: bool)
    requires Inv(a) && Shifted(a, b, v) && a.next <= MAXTID + 1
    ensures Alike(DoEnd(a, s, commit), DoEnd(b, s, commit), v)
  {
    hide RowsDown, CommittedDown, Drop, RowsOk;
    assert s in a.open <==> s in b.open;
    if Explicit(a, s) {
      var t, u := a.open[s].tid, b.open[s].tid;
      assert t != v && u == Down(t, v);
      DropDown(a, b, v, s);
      FlagDown(a.committed, b.committed, v, t, commit);
    }
  }

  lemma FlagDown(x: set<nat>, y: set<nat>, v: nat, t: nat, commit: bool)
    requires CommittedDown(x, y, v) && 0 < v && t != v
    ensures CommittedDown(if commit then x + {t} else x - {t}, if commit then y + {Down(t, v)} else y - {Down(t, v)}, v)
  {
  }

  lemma InsertDown(a: Db, b: Db, v: nat, s: nat, x: int, fits: bool)
    requires Inv(a) && Shifted(a, b, v) && a.next <= MAXTID + 1
    ensures Alike(DoInsert(a, s, x, fits), DoInsert(b, s, x, fits), v)
  {
    hide Inv, CommittedDown, NeedTran;
    NeedTranDown(a, b, v, s, fits);
  }

  lemma DeleteDown(a: Db, b: Db, v: nat, s: nat, picks: set<nat>, fits: bool)
    requires Inv(a) && Shifted(a, b, v) && a.next <= MAXTID + 1
    ensures Alike(DoDelete(a, s, picks, fits), DoDelete(b, s, picks, fits), v)
  {
    hide Inv, CommittedDown, RowsDown, NeedTran, Mark;
    NeedTranDown(a, b, v, s, fits);
    var p, q := NeedTran(a, s, fits).0, NeedTran(b, s, fits).0;
    if NeedTran(a, s, fits).1 == Success {
      MarkDown(p.open[s].tid, p.rows, q.rows, p.committed, q.committed, v, picks, 0);
    }
  }

  lemma SelectDown(a: Db, b: Db, v: nat, s: nat, fits: bool)
    requires Inv(a) && Shifted(a, b, v) && a.next <= MAXTID + 1
    ensures StepAlike(a, b, Select(s, fits), v)
  {
    hide Inv, CommittedDown, RowsDown, NeedTran, View;
    NeedTranDown(a, b, v, s, fits);
    var p, q := NeedTran(a, s, fits).0, NeedTran(b, s, fits).0;
    if NeedTran(a, s, fits).1 == Success {
      ViewDown(p.open[s].tid, p.rows, q.rows, p.committed, q.committed, v);
    }
  }

  ghost predicate StepAlike(a: Db, b: Db, e: Event, v: nat) {
    var p, q := Step(a, e), Step(b, e);
    && (p.1.status != SequenceOverflow ==> p.1 == q.1 && p.0.next <= MAXTID + 1 && Shifted(p.0, q.0, v))
    && (p.1.status == SequenceOverflow ==> q.1.status != SequenceOverflow)
  }

  /** A statement replies the same whether or not `v` was spent before it, exactly if it does not run out of ids. */
  lemma StepDown(a: Db, b: Db, e: Event, v: nat)
    requires Inv(a) && Shifted(a, b, v) && a.next <= MAXTID + 1
    ensures Step(a, e).1 == Step(b, e).1 <==> Step(a, e).1.status != SequenceOverflow
    ensures Step(a, e).1 == Step(b, e).1 ==> Step(a, e).0.next <= MAXTID + 1 && Shifted(Step(a, e).0, Step(b, e).0, v)
  {
    hide Inv, Shifted, DoStart, DoEnd, DoInsert, DoDelete, NeedTran, View;
    match e
    case Start(s, fits) => StartDown(a, b, v, s, fits);
    case Commit(s) => EndDown(a, b, v, s, true);
    case Rollback(s) => EndDown(a, b, v, s, false);
    case Insert(s, x, fits) => InsertDown(a, b, v, s, x, fits);
    case Delete(s, picks, fits) => DeleteDown(a, b, v, s, picks, fits);
    case Select(s, fits) => SelectDown(a, b, v, s, fits);
  }

  // ----- whole runs

  /** No statement ran out of ids. */
  ghost predicate Lasting(rs: seq<Reply>) {
    forall i {:trigger rs[i]} :: 0 <= i < |rs| ==> rs[i].status != SequenceOverflow
  }

  lemma LastingCons(r: Reply, rs: seq<Reply>)
    ensures Lasting([r] + rs) <==> r.status != SequenceOverflow && Lasting(rs)
  {
    if Lasting([r] + rs) {
      assert ([r] + rs)[0] == r;
      forall i {:trigger rs[i]} | 0 <= i < |rs|
        ensures rs[i].status != SequenceOverflow
      {
        assert ([r] + rs)[i + 1] == rs[i];
      }
    }
  }

  lemma {:induction false} RunDown(a: Db, b: Db, es: seq<Event>, v: nat)
    requires Inv(a) && Shifted(a, b, v) && a.next <= MAXTID + 1
    ensures Replies(a, es) == Replies(b, es) <==> Lasting(Replies(a, es))
    ensures Lasting(Replies(a, es)) ==> Shifted(Run(a, es), Run(b, es), v)
    decreases |es|
  {
    hide Inv, Shifted, Step, Lasting;
    if es != [] {
      var p, q := Step(a, es[0]), Step(b, es[0]);
      StepDown(a, b, es[0], v);
      StepKeepsInv(a, es[0]);
      LastingCons(p.1, Replies(p.0, es[1..]));
      assert Replies(a, es)[0] == p.1 && Replies(a, es)[1..] == Replies(p.0, es[1..]);
      assert Replies(b, es)[0] == q.1 && Replies(b, es)[1..] == Replies(q.0, es[1..]);
      if p.1 == q.1 {
        RunDown(p.0, q.0, es[1..], v);
      }
    } else {
      LastingNone();
    }
  }

  lemma LastingNone()
    ensures Lasting([])
  {
  }

  lemma ShiftedViews(c: Db, a: Db, b: Db, v: nat)
    requires Shifted(a, b, v)
    ensures SameViews(c, a) <==> SameViews(c, b)
  {
    hide View;
    forall u | u in b.open
      ensures u in a.open && a.open[u].auto == b.open[u].auto
      ensures View(a.open[u].tid, a.rows, a.committed) == View(b.open[u].tid, b.rows, b.committed)
    {
      ViewDown(a.open[u].tid, a.rows, b.rows, a.committed, b.committed, v);
    }
  }

  /** The state without the START: the session's autocommit transaction, if it has one, ends all the same. */
  function NotStarted(db: Db, vs: nat): Db {
    db.(open := Drop(db.open, vs))
  }

  lemma NotStartedShifted(db: Db, vs: nat)
    requires Inv(db) && !Explicit(db, vs) && db.next <= MAXTID
    ensures Shifted(Step(db, Start(vs, false)).0, NotStarted(db, vs), db.next)
  {
    forall i | 0 <= i < |db.rows|
      ensures db.rows[i].tmin < db.next && db.rows[i].tmax < db.next
    {
      assert RowOk(db.rows[i], db);
    }
  }

  /** Rollback erasure with nothing put in the transaction's place: all other statements reply as if neither START nor
      anything else of the transaction had been sent, exactly if none of them ran out of ids: the removed START gives
      one back. */
  lemma RollbackRemoved(db: Db, es: seq<Event>, vs: nat)
    requires Inv(db) && !Explicit(db, vs) && db.next <= MAXTID
    requires var a := Step(db, Start(vs, true)).0;
      NeverCommits(a, es, vs, db.next) && NeverOverwrites(a, es, vs, db.next)
    ensures var a := Step(db, Start(vs, true)).0;
      var kept, replies := Erased(a, es, vs, db.next), OtherReplies(a, es, vs, db.next);
      && (Replies(NotStarted(db, vs), kept) == replies <==> Lasting(replies))
      && (Lasting(replies) ==> SameViews(Run(a, es), Run(NotStarted(db, vs), kept)))
  {
    hide Inv, Rel, Shifted, NeverCommits, NeverOverwrites, Erased, OtherReplies, Run, Replies, SameViews, Step, Lasting;
    var v := db.next;
    var a, b := Step(db, Start(vs, true)).0, Step(db, Start(vs, false)).0;
    var kept := Erased(a, es, vs, v);
    Related(db, vs);
    ErasedRun(a, b, es, vs, v);
    RelatedViews(Run(a, es), Run(b, kept), vs, v);
    NotStartedShifted(db, vs);
    RunDown(b, NotStarted(db, vs), kept, v);
    if Lasting(Replies(b, kept)) {
      ShiftedViews(Run(a, es), Run(b, kept), Run(NotStarted(db, vs), kept), v);
    }
  }

  /** With nothing in the transaction's place, too, the views agree after every statement if and only if it never
      overwrites the mark of another open transaction, if no other statement runs out of ids. */
  lemma RemovedExactly(db: Db, es: seq<Event>, vs: nat)
    requires Inv(db) && !Explicit(db, vs) && db.next <= MAXTID
    requires var a := Step(db, Start(vs, true)).0; NeverCommits(a, es, vs, db.next) && Lasting(OtherReplies(a, es, vs, db.next))
    ensures var a, b := Step(db, Start(vs, true)).0, NotStarted(db, vs);
      (forall n :: 0 <= n <= |es| ==> AgreeAfter(a, b, es, vs, db.next, n)) <==> NeverOverwrites(a, es, vs, db.next)
  {
    hide Inv, Rel, Shifted, NeverCommits, NeverOverwrites, AgreeAfter, SameReplies, Run, Step, Lasting;
    var v := db.next;
    var a, b := Step(db, Start(vs, true)).0, Step(db, Start(vs, false)).0;
    Related(db, vs);
    ErasedExactly(db, es, vs);
    if NeverOverwrites(a, es, vs, v) {
      forall n | 0 <= n <= |es|
        ensures AgreeAfter(a, NotStarted(db, vs), es, vs, v, n)
      {
        PrefixKeeps(a, es, vs, v, n);
        ErasedRun(a, b, es[..n], vs, v);
        RelatedViews(Run(a, es[..n]), Run(b, Erased(a, es[..n], vs, v)), vs, v);
        SoFarAlike(a, b, es, vs, v, n);
        SameWithoutStart(db, es, vs, n);
      }
    } else {
      var n := DiffersSomewhere(a, b, es, vs, v);
      SameWithoutStart(db, es, vs, n);
    }
  }

  lemma SoFarAlike(a: Db, b: Db, es: seq<Event>, vs: nat, v: nat, n: nat)
    requires n <= |es| && Replies(b, Erased(a, es[..n], vs, v)) == OtherReplies(a, es[..n], vs, v)
    ensures SameReplies(a, b, es, vs, v, n)
  {
    PrefixReplies(a, es, vs, v, n);
  }

  lemma {:induction false} PrefixReplies(a: Db, es: seq<Event>, vs: nat, v: nat, n: nat)
    requires n <= |es|
    ensures OtherReplies(a, es[..n], vs, v) <= OtherReplies(a, es, vs, v)
    decreases n
  {
    hide Step, Holding;
    if n > 0 {
      PrefixReplies(Step(a, es[0]).0, es[1..], vs, v, n - 1);
      assert es[..n][1..] == es[1..][..n - 1];
    }
  }

  lemma LastingPrefix(rs: seq<Reply>, all: seq<Reply>)
    requires rs <= all && Lasting(all)
    ensures Lasting(rs)
  {
    forall i {:trigger rs[i]} | 0 <= i < |rs|
      ensures rs[i].status != SequenceOverflow
    {
      assert rs[i] == all[i];
    }
  }

  lemma SameWithoutStart(db: Db, es: seq<Event>, vs: nat, n: nat)
    requires Inv(db) && !Explicit(db, vs) && db.next <= MAXTID && n <= |es|
    requires var a, b := Step(db, Start(vs, true)).0, Step(db, Start(vs, false)).0;
      Lasting(OtherReplies(a, es, vs, db.next)) && SameReplies(a, b, es, vs, db.next, n)
    ensures var a, b := Step(db, Start(vs, true)).0, Step(db, Start(vs, false)).0;
      AgreeAfter(a, b, es, vs, db.next, n) <==> AgreeAfter(a, NotStarted(db, vs), es, vs, db.next, n)
  {
    hide Inv, Shifted, Step, SameViews, Run, Erased, Lasting;
    var a, b := Step(db, Start(vs, true)).0, Step(db, Start(vs, false)).0;
    var kept := Erased(a, es[..n], vs, db.next);
    LastingPrefix(Replies(b, kept), OtherReplies(a, es, vs, db.next));
    NotStartedShifted(db, vs);
    StepKeepsInv(db, Start(vs, false));
    RunDown(b, NotStarted(db, vs), kept, db.next);
    ShiftedViews(Run(a, es[..n]), Run(b, kept), Run(NotStarted(db, vs), kept), db.next);
  }

  lemma Related(db: Db, vs: nat)
    requires Inv(db) && !Explicit(db, vs) && db.next <= MAXTID
    ensures var a, b := Step(db, Start(vs, true)).0, Step(db, Start(vs, false)).0;
      Inv(a) && Inv(b) && Rel(a, b, vs, db.next)
  {
    hide Inv, Rel;
    StepKeepsInv(db, Start(vs, true));
    StepKeepsInv(db, Start(vs, false));
    StartsRelated(db, vs);
  }

  /** For a session in no transaction nothing at all is put in the place of the START: the run is the one without it. */
  lemma RollbackLeavesNoTrace(db: Db, es: seq<Event>, vs: nat)
    requires Inv(db) && vs !in db.open && db.next <= MAXTID
    requires var a := Step(db, Start(vs, true)).0;
      NeverCommits(a, es, vs, db.next) && NeverOverwrites(a, es, vs, db.next)
    ensures var a := Step(db, Start(vs, true)).0;
      var kept, replies := Erased(a, es, vs, db.next), OtherReplies(a, es, vs, db.next);
      && (Replies(db, kept) == replies <==> Lasting(replies))
      && (Lasting(replies) ==> SameViews(Run(a, es), Run(db, kept)))
  {
    hide Inv, NeverCommits, NeverOverwrites, Erased, OtherReplies, Run, Replies, SameViews, Step, Lasting;
    assert Drop(db.open, vs) == db.open;
    RollbackRemoved(db, es, vs);
  }
}
