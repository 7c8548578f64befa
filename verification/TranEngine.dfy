/** The commit flags as bits of a page, and the statements of interleaved sessions working in place on the
    flags, the rows and each session's transaction. */
module TranEngine {
  import opened Mvcc

  predicate Bit(b: bv8, k: nat)
    requires k < 8
  {
    (b >> k) & 1 == 1
  }

  function Mask(k: nat): bv8
    requires k < 8
  {
    if k == 0 then 0x01 else if k == 1 then 0x02 else if k == 2 then 0x04 else if k == 3 then 0x08
    else if k == 4 then 0x10 else if k == 5 then 0x20 else if k == 6 then 0x40 else 0x80
  }

  lemma ByMask(b: bv8, k: nat)
    requires k < 8
    ensures (1 as bv8) << k == Mask(k) && (Bit(b, k) <==> b & Mask(k) != 0)
  {
    if k == 0 {} else if k == 1 {} else if k == 2 {} else if k == 3 {} else if k == 4 {} else if k == 5 {} else if k == 6 {} else {}
  }

  lemma MasksApart(k: nat, j: nat)
    requires k < 8 && j < 8
    ensures Mask(k) & Mask(j) == if k == j then Mask(k) else 0
    ensures Mask(k) != 0
  {
  }

  lemma Bits(b: bv8, m: bv8, q: bv8)
    requires m & q == 0
    ensures (b | m) & q == b & q && (b & !m) & q == b & q
  {
  }

  lemma Whole(b: bv8, m: bv8)
    ensures (b | m) & m == m && (b & !m) & m == 0
  {
  }

  lemma SetBit(b: bv8, k: nat, j: nat)
    requires k < 8 && j < 8
    ensures Bit(b | ((1 as bv8) << k), j) == (j == k || Bit(b, j))
  {
    hide Bit, Mask;
    ByMask(b, k);
    ByMask(b, j);
    ByMask(b | Mask(k), j);
    MasksApart(k, j);
    if j == k {
      Whole(b, Mask(k));
    } else {
      Bits(b, Mask(k), Mask(j));
    }
  }

  lemma ClearBit(b: bv8, k: nat, j: nat)
    requires k < 8 && j < 8
    ensures Bit(b & !((1 as bv8) << k), j) == (j != k && Bit(b, j))
  {
    hide Bit, Mask;
    ByMask(b, k);
    ByMask(b, j);
    ByMask(b & !Mask(k), j);
    MasksApart(k, j);
    if j == k {
      Whole(b, Mask(k));
    } else {
      Bits(b, Mask(k), Mask(j));
    }
  }

  /** Bit `n` of the bytes `ds`. */
  predicate Flag(ds: seq<bv8>, n: nat)
    requires n < 8 * |ds|
  {
    Bit(ds[n / 8], n % 8)
  }

  function Put(b: bv8, k: nat, on: bool): bv8
    requires k < 8
  {
    if on then b | ((1 as bv8) << k) else b & !((1 as bv8) << k)
  }

  lemma PutBit(b: bv8, k: nat, on: bool, j: nat)
    requires k < 8 && j < 8
    ensures Bit(Put(b, k, on), j) == if j == k then on else Bit(b, j)
  {
    hide Bit;
    SetBit(b, k, j);
    ClearBit(b, k, j);
  }

  /** Putting a bit changes that bit only, in its own byte and in the others. */
  lemma PutFlag(ds: seq<bv8>, n: nat, on: bool, m: nat)
    requires n < 8 * |ds| && m < 8 * |ds|
    ensures Flag(ds[n / 8 := Put(ds[n / 8], n % 8, on)], m) == if m == n then on else Flag(ds, m)
  {
    hide Bit, Put;
    if m / 8 == n / 8 {
      PutBit(ds[n / 8], n % 8, on, m % 8);
      assert m % 8 == n % 8 ==> m == n;
    }
  }

  /** One bit for every transaction id from `tidStart` on. */
  class TranPage {
    const tidStart: nat
    const datum: array<bv8>

    constructor (start: nat, size: nat)
      ensures tidStart == start && datum.Length == size && fresh(datum)
      ensures Flagged() == {}
    {
      tidStart := start;
      datum := new bv8[size](_ => 0);
      new;
      forall t: nat | Covers(t)
        ensures !FlagGet(t)
      {
        ZeroBit((t - tidStart) % 8);
      }
    }

    predicate Covers(tid: nat) {
      tidStart <= tid < tidStart + 8 * datum.Length
    }

    predicate FlagGet(tid: nat)
      requires Covers(tid)
      reads datum
    {
      Flag(datum[..], tid - tidStart)
    }

    /** The ids flagged committed. */
    ghost function Flagged(): set<nat>
      reads datum
    {
      set t: nat | tidStart <= t < tidStart + 8 * datum.Length && FlagGet(t)
    }

    /** Changes one id's flag and no other's; the first id of the page cannot be flagged. */
    method FlagPut(tid: nat, commit: bool)
      requires Covers(tid) && tid > tidStart
      modifies datum
      ensures Flagged() == if commit then old(Flagged()) + {tid} else old(Flagged()) - {tid}
    {
      hide Flag, Bit, Put;
      var n := tid - tidStart;
      ghost var was := datum[..];
      datum[n / 8] := Put(datum[n / 8], n % 8, commit);
      assert datum[..] == was[n / 8 := Put(was[n / 8], n % 8, commit)];
      forall t: nat | Covers(t)
        ensures FlagGet(t) == if t == tid then commit else old(FlagGet(t))
      {
        PutFlag(was, n, commit, t - tidStart);
      }
    }
  }

  lemma ZeroBit(k: nat)
    requires k < 8
    ensures !Bit(0, k)
  {
    if k == 0 {} else if k == 1 {} else if k == 2 {} else if k == 3 {} else if k == 4 {} else if k == 5 {} else if k == 6 {} else {}
  }

  lemma MarkStep(t: nat, rows: seq<TRow>, committed: set<nat>, picks: set<nat>, i: nat, k: nat)
    requires i < |rows|
    ensures Mark(t, rows[i..], committed, picks, k)
      == if Visible(t, rows[i], committed)
         then [if k in picks then rows[i].(tmax := t) else rows[i]] + Mark(t, rows[i + 1..], committed, picks, k + 1)
         else [rows[i]] + Mark(t, rows[i + 1..], committed, picks, k)
  {
    assert rows[i..][1..] == rows[i + 1..];
  }

  /** One turn of the marking scan: `now` is marked up to `i`. */
  lemma MarkLoop(t: nat, was: seq<TRow>, now: seq<TRow>, committed: set<nat>, picks: set<nat>, i: nat, k: nat)
    requires i < |was| == |now| && now[i..] == was[i..]
    ensures now[i] == was[i]
    ensures var seen := Visible(t, now[i], committed);
      var next := if seen && k in picks then now[i := now[i].(tmax := t)] else now;
      && next[i + 1..] == was[i + 1..]
      && next[..i + 1] + Mark(t, was[i + 1..], committed, picks, if seen then k + 1 else k)
        == now[..i] + Mark(t, was[i..], committed, picks, k)
  {
    hide Visible, Mark;
    MarkStep(t, was, committed, picks, i, k);
    assert now[i] == now[i..][0];
    var seen := Visible(t, now[i], committed);
    var next := if seen && k in picks then now[i := now[i].(tmax := t)] else now;
    assert next[i + 1..] == now[i..][1..];
    assert next[..i + 1] == now[..i] + [next[i]];
  }

  lemma ViewAt(t: nat, rows: seq<TRow>, committed: set<nat>, i: nat, done: seq<int>)
    requires i < |rows|
    ensures done + View(t, rows[i..], committed)
      == (if Visible(t, rows[i], committed) then done + [rows[i].val] else done) + View(t, rows[i + 1..], committed)
  {
    hide Visible;
    assert rows[i..][0] == rows[i] && rows[i..][1..] == rows[i + 1..];
    var rest := View(t, rows[i + 1..], committed);
    assert [] + rest == rest;
    assert done + ([rows[i].val] + rest) == (done + [rows[i].val]) + rest;
  }

  lemma ViewOver(t: nat, rows: seq<TRow>, committed: set<nat>, done: seq<int>)
    ensures done + View(t, rows[|rows|..], committed) == done
  {
  }

  lemma MarkEnd(t: nat, committed: set<nat>, picks: set<nat>, k: nat)
    ensures Mark(t, [], committed, picks, k) == []
  {
  }

  class Engine {
    const page: TranPage
    var rows: seq<TRow>
    var open: map<nat, Tran>
    var next: nat

    constructor (size: nat)
      requires size > 0
      ensures Abs() == Db([], {}, map[], 1) && Valid() && page.datum.Length == size && fresh(page.datum)
    {
      page := new TranPage(0, size);
      rows, open, next := [], map[], 1;
    }

    ghost function Abs(): Db
      reads this, page.datum
    {
      Db(rows, page.Flagged(), open, next)
    }

    ghost predicate Valid()
      reads this, page.datum
    {
      page.tidStart == 0 && Inv(Abs()) && next <= 8 * page.datum.Length
    }

    /** The page has a bit for the next id, which the code does not check. */
    predicate HasBit()
      reads this
    {
      next < 8 * page.datum.Length
    }

    predicate RowVisible(t: nat, r: TRow)
      requires page.tidStart == 0 && page.Covers(r.tmin) && page.Covers(r.tmax)
      reads page.datum
      ensures RowVisible(t, r) == Visible(t, r, page.Flagged())
    {
      if t == r.tmin then t != r.tmax
      else if t == r.tmax then false
      else page.FlagGet(r.tmin) && !page.FlagGet(r.tmax)
    }

    lemma RowsCovered()
      requires Valid()
      ensures page.tidStart == 0
      ensures forall i :: 0 <= i < |rows| ==> page.Covers(rows[i].tmin) && page.Covers(rows[i].tmax)
    {
      forall i | 0 <= i < |rows|
        ensures page.Covers(rows[i].tmin) && page.Covers(rows[i].tmax)
      {
        assert RowOk(rows[i], Abs());
      }
    }

    method Put(s: nat, auto: bool, fits: bool) returns (st: Status)
      requires Valid() && HasBit() && s !in open
      modifies this`open, this`next, page.datum
      ensures Valid() && (Abs(), st) == TranPut(old(Abs()), s, auto, fits)
    {
      hide RowsOk, TranPage.FlagGet;
      ghost var before := Abs();
      TranPutInv(before, s, auto, fits);
      if next > MAXTID {
        return SequenceOverflow;
      }
      var tid := next;
      next := next + 1;
      if !fits {
        return CacheOverflow;
      }
      open := open[s := Tran(tid, auto)];
      assert before.committed + {} == before.committed;
      if auto {
        page.FlagPut(tid, true);
      }
      st := Success;
    }

    method Need(s: nat, fits: bool) returns (st: Status)
      requires Valid() && (s !in open ==> HasBit())
      modifies this`open, this`next, page.datum
      ensures Valid() && (Abs(), st) == NeedTran(old(Abs()), s, fits)
    {
      st := Success;
      if s !in open {
        st := Put(s, true, fits);
      }
    }

    method TclStart(s: nat, fits: bool) returns (st: Status)
      requires Valid() && (s !in open || open[s].auto ==> HasBit())
      modifies this`open, this`next, page.datum
      ensures Valid() && (Abs(), Reply(st, [])) == Step(old(Abs()), Start(s, fits))
    {
      DropInv(Abs(), s);
      if s in open && !open[s].auto {
        return StartError;
      }
      ghost var before := Abs();
      open := map u | u in open && u != s :: open[u];
      assert Abs() == before.(open := Drop(before.open, s));
      st := Put(s, false, fits);
    }

    method TclCommit(s: nat) returns (st: Status)
      requires Valid()
      modifies this`open, page.datum
      ensures Valid() && (Abs(), Reply(st, [])) == Step(old(Abs()), Commit(s))
    {
      EndInv(Abs(), s, true);
      if s !in open || open[s].auto {
        return NoTransaction;
      }
      page.FlagPut(open[s].tid, true);
      open := map u | u in open && u != s :: open[u];
      st := Success;
    }

    method TclRollback(s: nat) returns (st: Status)
      requires Valid()
      modifies this`open, page.datum
      ensures Valid() && (Abs(), Reply(st, [])) == Step(old(Abs()), Rollback(s))
    {
      EndInv(Abs(), s, false);
      if s !in open || open[s].auto {
        return NoTransaction;
      }
      page.FlagPut(open[s].tid, false);
      open := map u | u in open && u != s :: open[u];
      st := Success;
    }

    method DmlInsert(s: nat, v: int, fits: bool) returns (st: Status)
      requires Valid() && (s !in open ==> HasBit())
      modifies this, page.datum
      ensures Valid() && (Abs(), Reply(st, [])) == Step(old(Abs()), Insert(s, v, fits))
    {
      hide OpenOk, RowsOk, TranPut;
      InsertInv(Abs(), s, v, fits);
      NeedTranInv(Abs(), s, fits);
      st := Need(s, fits);
      if st == Success {
        rows := rows + [TRow(open[s].tid, 0, v)];
      }
    }

    /** The scan marks each picked row when it comes to it. */
    method MarkPicked(t: nat, picks: set<nat>)
      requires Valid()
      modifies this`rows
      ensures rows == Mark(t, old(rows), page.Flagged(), picks, 0)
    {
      hide Inv, Visible, Mark, TranPage.Flagged, Engine.Valid;
      RowsCovered();
      ghost var was, flags := rows, page.Flagged();
      var i, k := 0, 0;
      assert rows[..0] == [] && was[0..] == was;
      while i < |rows|
        invariant 0 <= i <= |rows| == |was| && k >= 0 && rows[i..] == was[i..]
        invariant rows[..i] + Mark(t, was[i..], flags, picks, k) == Mark(t, was, flags, picks, 0)
      {
        MarkLoop(t, was, rows, flags, picks, i, k);
        if RowVisible(t, rows[i]) {
          if k in picks {
            rows := rows[i := rows[i].(tmax := t)];
          }
          k := k + 1;
        }
        i := i + 1;
      }
      assert rows[..i] == rows && was[i..] == [];
      MarkEnd(t, flags, picks, k);
    }

    method DmlDelete(s: nat, picks: set<nat>, fits: bool) returns (st: Status)
      requires Valid() && (s !in open ==> HasBit())
      modifies this, page.datum
      ensures Valid() && (Abs(), Reply(st, [])) == Step(old(Abs()), Delete(s, picks, fits))
    {
      hide OpenOk, RowsOk, Mark, TranPut;
      DeleteInv(Abs(), s, picks, fits);
      NeedTranInv(Abs(), s, fits);
      st := Need(s, fits);
      if st == Success {
        MarkPicked(open[s].tid, picks);
      }
    }

    method Scan(t: nat) returns (seen: seq<int>)
      requires Valid()
      ensures seen == View(t, rows, page.Flagged())
    {
      hide Inv, Visible, View, TranPage.Flagged, Engine.Valid;
      RowsCovered();
      ghost var flags := page.Flagged();
      seen := [];
      assert rows[0..] == rows;
      for i := 0 to |rows|
        invariant seen + View(t, rows[i..], flags) == View(t, rows, flags)
      {
        ViewAt(t, rows, flags, i, seen);
        if RowVisible(t, rows[i]) {
          seen := seen + [rows[i].val];
        }
      }
      ViewOver(t, rows, flags, seen);
    }

    method DmlSelect(s: nat, fits: bool) returns (r: Reply)
      requires Valid() && (s !in open ==> HasBit())
      modifies this`open, this`next, page.datum
      ensures Valid() && (Abs(), r) == Step(old(Abs()), Select(s, fits))
    {
      hide OpenOk, RowsOk, View, TranPut;
      NeedTranInv(Abs(), s, fits);
      var st := Need(s, fits);
      r := Reply(st, []);
      if st == Success {
        var seen := Scan(open[s].tid);
        r := Reply(st, seen);
      }
    }
  }
}
