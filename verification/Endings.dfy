/** What START, COMMIT and ROLLBACK do to the session itself, and that a transaction rolled back stays so. */
module Endings {
  import opened Mvcc

  // ----- replies

  /** A statement that does not apply changes nothing and says why. */
  lemma Refused(db: Db, s: nat, fits: bool)
    ensures Explicit(db, s) ==> Step(db, Start(s, fits)) == (db, Reply(StartError, []))
    ensures !Explicit(db, s) ==> Step(db, Commit(s)) == Step(db, Rollback(s)) == (db, Reply(NoTransaction, []))
  {
  }

  /** Within a transaction SELECT replies with what it sees, and changes nothing. */
  lemma SelectShows(db: Db, s: nat, fits: bool)
    requires s in db.open
    ensures Step(db, Select(s, fits)) == (db, Reply(Success, View(db.open[s].tid, db.rows, db.committed)))
  {
  }

  /** An id is asked for exactly if the session has no transaction; the two reasons why there may be none. */
  lemma NoIdNoStatement(db: Db, s: nat, v: int, picks: set<nat>, fits: bool)
    requires s !in db.open && (db.next > MAXTID || !fits)
    ensures var why := Reply(if db.next > MAXTID then SequenceOverflow else CacheOverflow, []);
      && Step(db, Insert(s, v, fits)).1 == Step(db, Delete(s, picks, fits)).1 == Step(db, Select(s, fits)).1 == why
      && Step(db, Start(s, fits)).1 == why
      && Step(db, Insert(s, v, fits)).0.rows == Step(db, Delete(s, picks, fits)).0.rows == db.rows
  {
  }

  /** START gives the session a transaction of its own, with an id that nobody has used; the others keep theirs. */
  lemma StartOpens(db: Db, s: nat)
    requires Inv(db) && !Explicit(db, s) && db.next <= MAXTID
    ensures var p := Step(db, Start(s, true));
      && p.1 == Reply(Success, []) && Explicit(p.0, s) && OthersKept(db, p.0, s)
      && Unused(db, p.0.open[s].tid) && p.0.rows == db.rows && p.0.committed == db.committed
  {
    forall i | 0 <= i < |db.rows|
      ensures db.rows[i].tmin != db.next && db.rows[i].tmax != db.next
    {
      assert RowOk(db.rows[i], db);
    }
  }

  ghost predicate OthersKept(db: Db, d: Db, s: nat) {
    forall u {:trigger u in d.open} {:trigger u in db.open} :: u != s ==>
      (u in d.open <==> u in db.open) && (u in db.open ==> d.open[u] == db.open[u])
  }

  ghost predicate Unused(db: Db, t: nat) {
    && t !in db.committed && (forall u {:trigger db.open[u]} :: u in db.open ==> db.open[u].tid != t)
    && (forall i {:trigger db.rows[i]} :: 0 <= i < |db.rows| ==> db.rows[i].tmin != t && db.rows[i].tmax != t)
  }

  /** Both ends leave the session without a transaction, and the others with theirs. The rows stay; COMMIT flags the id
      and ROLLBACK leaves it without the flag. */
  lemma EndLeaves(db: Db, s: nat, commit: bool)
    requires Inv(db) && Explicit(db, s)
    ensures var p := Step(db, if commit then Commit(s) else Rollback(s));
      && p.1 == Reply(Success, []) && s !in p.0.open && OthersKept(db, p.0, s)
      && p.0.rows == db.rows && p.0.next == db.next
      && p.0.committed == (if commit then db.committed + {db.open[s].tid} else db.committed)
  {
    assert db.committed - {db.open[s].tid} == db.committed;
  }

  /** A second COMMIT or ROLLBACK finds no transaction and changes nothing. */
  lemma EndsOnce(db: Db, s: nat, commit: bool)
    requires Inv(db) && Explicit(db, s)
    ensures var d := Step(db, if commit then Commit(s) else Rollback(s)).0;
      Step(d, Commit(s)) == Step(d, Rollback(s)) == (d, Reply(NoTransaction, []))
  {
    hide Inv, Step;
    EndLeaves(db, s, commit);
    Refused(Step(db, if commit then Commit(s) else Rollback(s)).0, s, true);
  }

  // ----- what a session sees next

  /** The rows with a committed inserter and no committed deleter. */
  function Published(rows: seq<TRow>, committed: set<nat>): seq<int> {
    if rows == [] then []
    else
      (if rows[0].tmin in committed && rows[0].tmax !in committed then [rows[0].val] else [])
      + Published(rows[1..], committed)
  }

  lemma {:induction false} NewcomerView(t: nat, rows: seq<TRow>, before: set<nat>, after: set<nat>)
    requires forall i {:trigger rows[i]} :: 0 <= i < |rows| ==> rows[i].tmin != t && rows[i].tmax != t
    requires forall x: nat {:trigger x in after} :: x != t ==> (x in after <==> x in before)
    ensures View(t, rows, after) == Published(rows, before)
  {
    if rows != [] {
      assert forall i :: 0 <= i < |rows[1..]| ==> rows[1..][i] == rows[i + 1];
      NewcomerView(t, rows[1..], before, after);
      assert rows[0].tmin != t;
    }
  }

  /** A session without a transaction sees what is published, whatever it did before. */
  lemma NewcomerSees(db: Db, s: nat)
    requires Inv(db) && s !in db.open && db.next <= MAXTID
    ensures Step(db, Select(s, true)).1 == Reply(Success, Published(db.rows, db.committed))
  {
    hide View, Published;
    var t := db.next;
    forall i {:trigger db.rows[i]} | 0 <= i < |db.rows|
      ensures db.rows[i].tmin != t && db.rows[i].tmax != t
    {
      assert RowOk(db.rows[i], db);
    }
    NewcomerView(t, db.rows, db.committed, db.committed + {t});
  }

  /** After ROLLBACK the session sees what it would see if it had never had the transaction: the rows published before,
      without the ones it had inserted and with the ones it had deleted. After COMMIT its own come in. */
  lemma SeesAfterEnd(db: Db, s: nat, commit: bool)
    requires Inv(db) && Explicit(db, s) && db.next <= MAXTID
    ensures var d, w := Step(db, if commit then Commit(s) else Rollback(s)).0, db.open[s].tid;
      Step(d, Select(s, true)).1 == Reply(Success, Published(db.rows, if commit then db.committed + {w} else db.committed))
    ensures Published(db.rows, db.committed) == Published(Without(db.rows, db.open[s].tid), db.committed)
  {
    hide Inv, Step, Published, Without;
    EndLeaves(db, s, commit);
    StepKeepsInv(db, if commit then Commit(s) else Rollback(s));
    NewcomerSees(Step(db, if commit then Commit(s) else Rollback(s)).0, s);
    NotFlagged(db, s);
    WithoutSame(db.rows, db.open[s].tid, db.committed);
  }

  lemma NotFlagged(db: Db, s: nat)
    requires Inv(db) && Explicit(db, s)
    ensures db.open[s].tid !in db.committed && 0 !in db.committed
  {
  }

  /** The rows as if transaction `w` had done nothing: its inserts are gone and its marks taken off. */
  function Without(rows: seq<TRow>, w: nat): seq<TRow> {
    if rows == [] then []
    else
      (if rows[0].tmin == w then [] else [if rows[0].tmax == w then rows[0].(tmax := 0) else rows[0]])
      + Without(rows[1..], w)
  }

  lemma {:induction false} WithoutSame(rows: seq<TRow>, w: nat, committed: set<nat>)
    requires w !in committed && 0 !in committed
    ensures Published(rows, committed) == Published(Without(rows, w), committed)
  {
    if rows != [] {
      WithoutSame(rows[1..], w, committed);
      var rest := Without(rows[1..], w);
      if rows[0].tmin == w {
        assert Without(rows, w) == rest;
      } else {
        assert Without(rows, w)[1..] == rest;
      }
    }
  }

  // ----- what statements publish

  lemma {:induction false} PublishedAppend(rows: seq<TRow>, r: TRow, committed: set<nat>)
    ensures Published(rows + [r], committed)
      == Published(rows, committed) + if r.tmin in committed && r.tmax !in committed then [r.val] else []
  {
    if rows == [] {
      assert rows + [r] == [r];
    } else {
      PublishedAppend(rows[1..], r, committed);
      assert (rows + [r])[1..] == rows[1..] + [r];
    }
  }

  /** A new id without rows publishes nothing. */
  lemma {:induction false} PublishedSame(rows: seq<TRow>, before: set<nat>, after: set<nat>, t: nat)
    requires forall i {:trigger rows[i]} :: 0 <= i < |rows| ==> rows[i].tmin != t && rows[i].tmax != t
    requires forall x: nat {:trigger x in after} :: x != t ==> (x in after <==> x in before)
    ensures Published(rows, after) == Published(rows, before)
  {
    if rows != [] {
      assert forall i :: 0 <= i < |rows[1..]| ==> rows[1..][i] == rows[i + 1];
      PublishedSame(rows[1..], before, after, t);
      assert rows[0].tmin != t;
    }
  }

  lemma IdsBelow(db: Db)
    requires Inv(db)
    ensures forall i {:trigger db.rows[i]} :: 0 <= i < |db.rows| ==> db.rows[i].tmin != db.next && db.rows[i].tmax != db.next
    ensures 0 !in db.committed && db.next !in db.committed
  {
    forall i {:trigger db.rows[i]} | 0 <= i < |db.rows|
      ensures db.rows[i].tmin != db.next && db.rows[i].tmax != db.next
    {
      assert RowOk(db.rows[i], db);
    }
  }

  /** An INSERT outside a transaction is published at once, as the last row; within one it is not, and the session sees it. */
  lemma InsertPublishes(db: Db, s: nat, v: int)
    requires Inv(db) && db.next <= MAXTID
    ensures var d := Step(db, Insert(s, v, true)).0;
      && s in d.open
      && Published(d.rows, d.committed) == Published(db.rows, db.committed) + (if Explicit(db, s) then [] else [v])
      && (s in db.open ==> View(d.open[s].tid, d.rows, d.committed) == View(d.open[s].tid, db.rows, db.committed) + [v])
  {
    hide Published, View, RowsOk;
    IdsBelow(db);
    var t := if s in db.open then db.open[s].tid else db.next;
    var committed := if s in db.open then db.committed else db.committed + {t};
    PublishedAppend(db.rows, TRow(t, 0, v), committed);
    PublishedSame(db.rows, db.committed, committed, db.next);
    ViewAppend(t, db.rows, TRow(t, 0, v), committed);
  }

  lemma {:induction false} PublishedMark(t: nat, rows: seq<TRow>, committed: set<nat>, picks: set<nat>, k: nat)
    requires t !in committed
    requires forall i {:trigger rows[i]} :: 0 <= i < |rows| ==> (rows[i].tmax in committed ==> t != rows[i].tmin)
    ensures Published(Mark(t, rows, committed, picks, k), committed) == Published(rows, committed)
    decreases |rows|
  {
    if rows != [] {
      assert forall i :: 0 <= i < |rows[1..]| ==> rows[1..][i] == rows[i + 1];
      var n := if Visible(t, rows[0], committed) then k + 1 else k;
      PublishedMark(t, rows[1..], committed, picks, n);
      var q := Mark(t, rows, committed, picks, k);
      assert rows[0].tmax in committed ==> t != rows[0].tmin;
      assert q[1..] == Mark(t, rows[1..], committed, picks, n);
    }
  }

  /** A DELETE outside a transaction takes the picked rows out of what is published; within one it publishes nothing, and
      takes them out of what the session sees. */
  lemma DeletePublishes(db: Db, s: nat, picks: set<nat>)
    requires Inv(db) && db.next <= MAXTID
    ensures var d := Step(db, Delete(s, picks, true)).0;
      && (Explicit(db, s) ==> Published(d.rows, d.committed) == Published(db.rows, db.committed))
      && (s in db.open ==> View(db.open[s].tid, d.rows, d.committed) == Unpicked(View(db.open[s].tid, db.rows, db.committed), picks, 0))
      && (s !in db.open ==> Published(d.rows, d.committed) == Unpicked(Published(db.rows, db.committed), picks, 0))
  {
    hide Published, View, Mark, Unpicked;
    IdsBelow(db);
    if s in db.open {
      DeleteSeen(db.open[s].tid, db.rows, db.committed, picks, 0);
      if Explicit(db, s) {
        OwnNotCommitted(db, s);
        PublishedMark(db.open[s].tid, db.rows, db.committed, picks, 0);
      }
    } else {
      var t := db.next;
      var committed := db.committed + {t};
      DeleteSeen(t, db.rows, committed, picks, 0);
      NewcomerView(t, db.rows, db.committed, committed);
      MarkedSeen(t, db.rows, committed, picks, 0);
    }
  }

  lemma OwnNotCommitted(db: Db, s: nat)
    requires Inv(db) && Explicit(db, s)
    ensures db.open[s].tid !in db.committed
    ensures forall i {:trigger db.rows[i]} :: 0 <= i < |db.rows| ==> (db.rows[i].tmax in db.committed ==> db.open[s].tid != db.rows[i].tmin)
  {
    forall i {:trigger db.rows[i]} | 0 <= i < |db.rows| && db.rows[i].tmax in db.committed
      ensures db.open[s].tid != db.rows[i].tmin
    {
      assert RowOk(db.rows[i], db);
    }
  }

  /** After its marks a committed transaction without rows of its own sees what is published. */
  lemma {:induction false} MarkedSeen(t: nat, rows: seq<TRow>, committed: set<nat>, picks: set<nat>, k: nat)
    requires t in committed && forall i {:trigger rows[i]} :: 0 <= i < |rows| ==> rows[i].tmin != t && rows[i].tmax != t
    ensures var q := Mark(t, rows, committed, picks, k); View(t, q, committed) == Published(q, committed)
    decreases |rows|
  {
    if rows != [] {
      assert forall i :: 0 <= i < |rows[1..]| ==> rows[1..][i] == rows[i + 1];
      var n := if Visible(t, rows[0], committed) then k + 1 else k;
      MarkedSeen(t, rows[1..], committed, picks, n);
      var q := Mark(t, rows, committed, picks, k);
      assert rows[0].tmin != t;
      assert q[1..] == Mark(t, rows[1..], committed, picks, n);
    }
  }

  // ----- for good

  /** The id was spent, is nobody's, and is not flagged. */
  ghost predicate Dead(db: Db, w: nat) {
    0 < w < db.next && w !in db.committed && forall u {:trigger db.open[u]} :: u in db.open ==> db.open[u].tid != w
  }

  lemma StepKeepsDead(db: Db, e: Event, w: nat)
    requires Dead(db, w)
    ensures Dead(Step(db, e).0, w)
  {
    hide View, Mark;
    match e
    case Start(_, _) =>
    case Commit(_) =>
    case Rollback(_) =>
    case Insert(_, _, _) =>
    case Delete(_, _, _) =>
    case Select(_, _) =>
  }

  lemma {:induction false} RunKeepsDead(db: Db, es: seq<Event>, w: nat)
    requires Dead(db, w)
    ensures Dead(Run(db, es), w)
    decreases |es|
  {
    hide Dead, Step;
    if es != [] {
      StepKeepsDead(db, es[0], w);
      RunKeepsDead(Step(db, es[0]).0, es[1..], w);
    }
  }

  /** After ROLLBACK, through whatever any session does, no transaction there is ever sees a row that the rolled-back one
      inserted, and none misses a published row for having been marked by it. */
  lemma RolledBackForGood(db: Db, s: nat, es: seq<Event>, u: nat, i: nat)
    requires Inv(db) && Explicit(db, s)
    ensures var w, d := db.open[s].tid, Run(Step(db, Rollback(s)).0, es);
      u in d.open && i < |d.rows| ==>
        && (d.rows[i].tmin == w ==> !Visible(d.open[u].tid, d.rows[i], d.committed))
        && (d.rows[i].tmin in d.committed && d.rows[i].tmax == w ==> Visible(d.open[u].tid, d.rows[i], d.committed))
  {
    var w, d := db.open[s].tid, Step(db, Rollback(s)).0;
    assert Dead(d, w);
    hide Step;
    RunKeepsDead(d, es, w);
  }
}
