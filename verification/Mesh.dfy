/** Tables as chains of pages: allocating a row at the tail, and the iterator that visits the visible rows. */
module Mesh {
  import opened Sequences
  import opened IdSequence
  import PC = PageCaching

  const UNDEF: nat := 0
  const MAXPAGE: nat := 0xFF_FFFF

  /** What matters here of a page of rows (`Grids.Grid`): the next page of the chain, the room, and the occupied rows. */
  datatype TablePage<R> = TablePage(next: nat, rown: nat, rows: seq<R>)

  type Pages<R> = map<nat, TablePage<R>>

  // ----- chains

  ghost predicate Chain<R>(ps: Pages<R>, gs: seq<nat>) {
    && gs != []
    && (forall i, j :: 0 <= i < j < |gs| ==> gs[i] != gs[j])
    && (forall i {:trigger gs[i]} :: 0 <= i < |gs| ==> gs[i] != UNDEF && gs[i] in ps && ps[gs[i]].next == LinkAt(gs, i + 1))
  }

  lemma ChainIn<R>(ps: Pages<R>, gs: seq<nat>)
    requires Chain(ps, gs)
    ensures InPages(ps, gs) && gs != [] && gs[|gs| - 1] in ps
  {
  }

  function LinkAt(gs: seq<nat>, i: nat): nat {
    if i < |gs| then gs[i] else UNDEF
  }

  ghost predicate InPages<R>(ps: Pages<R>, gs: seq<nat>) {
    forall i {:trigger gs[i]} :: 0 <= i < |gs| ==> gs[i] in ps
  }

  /** All rows of the chain, page after page. */
  ghost function Flat<R>(ps: Pages<R>, gs: seq<nat>): seq<R>
    requires InPages(ps, gs)
  {
    if gs == [] then [] else ps[gs[0]].rows + Flat(ps, gs[1..])
  }

  /** The rows the iterator comes to: it ends at the first page without rows. */
  ghost function Reach<R>(ps: Pages<R>, gs: seq<nat>): seq<R>
    requires InPages(ps, gs)
  {
    if gs == [] || ps[gs[0]].rows == [] then [] else ps[gs[0]].rows + Reach(ps, gs[1..])
  }

  /** No row comes after an empty page. */
  ghost predicate NoneHidden<R>(ps: Pages<R>, gs: seq<nat>)
    requires InPages(ps, gs)
  {
    forall i, j :: 0 <= i < j < |gs| && ps[gs[i]].rows == [] ==> ps[gs[j]].rows == []
  }

  lemma {:induction false} AllEmptyFlat<R>(ps: Pages<R>, gs: seq<nat>)
    requires InPages(ps, gs)
    ensures Flat(ps, gs) == [] <==> forall i :: 0 <= i < |gs| ==> ps[gs[i]].rows == []
  {
    if gs != [] {
      AllEmptyFlat(ps, gs[1..]);
      assert forall i :: 0 < i < |gs| ==> gs[i] == gs[1..][i - 1];
    }
  }

  /** The iterator comes to all rows of the chain exactly if no row comes after an empty page. */
  lemma {:induction false} ReachIsFlat<R>(ps: Pages<R>, gs: seq<nat>)
    requires InPages(ps, gs)
    ensures Reach(ps, gs) <= Flat(ps, gs)
    ensures Reach(ps, gs) == Flat(ps, gs) <==> NoneHidden(ps, gs)
  {
    if gs != [] {
      var rest := gs[1..];
      assert forall i :: 0 < i < |gs| ==> gs[i] == rest[i - 1];
      ReachIsFlat(ps, rest);
      var rows := ps[gs[0]].rows;
      if rows == [] {
        AllEmptyFlat(ps, rest);
        if NoneHidden(ps, gs) {
          assert forall j :: 0 < j < |gs| ==> ps[gs[j]].rows == [];
          assert forall i :: 0 <= i < |rest| ==> rest[i] == gs[i + 1];
        }
        assert forall i :: 0 <= i < |rest| ==> rest[i] == gs[i + 1];
      } else {
        assert NoneHidden(ps, gs) <==> NoneHidden(ps, rest) by {
          assert forall i :: 0 <= i < |rest| ==> rest[i] == gs[i + 1];
        }
        assert (rows + Reach(ps, rest))[|rows|..] == Reach(ps, rest);
        assert (rows + Flat(ps, rest))[|rows|..] == Flat(ps, rest);
      }
    }
  }

  lemma Group<R>(a: seq<R>, b: seq<R>, c: seq<R>)
    ensures a + (b + c) == a + b + c
  {
  }

  lemma FilterEnd<R>(sees: R -> bool)
    ensures Filter([], sees) == []
  {
  }

  lemma FilterStep<R>(rows: seq<R>, sees: R -> bool)
    requires rows != []
    ensures rows == [rows[0]] + rows[1..]
    ensures Filter(rows, sees) == if sees(rows[0]) then [rows[0]] + Filter(rows[1..], sees) else Filter(rows[1..], sees)
  {
  }

  // ----- the row iterator

  /** The rows from one position on that iterating over all rows would come to. */
  ghost function RowsFrom<R>(ps: Pages<R>, gs: seq<nat>, at: nat, row: nat): seq<R>
    requires InPages(ps, gs) && at < |gs|
  {
    if row < |ps[gs[at]].rows| then ps[gs[at]].rows[row..] + Reach(ps, gs[at + 1..]) else []
  }

  lemma RowsFromStart<R>(ps: Pages<R>, gs: seq<nat>, at: nat)
    requires InPages(ps, gs) && at < |gs|
    ensures RowsFrom(ps, gs, at, 0) == Reach(ps, gs[at..])
  {
    assert gs[at..][1..] == gs[at + 1..];
  }

  lemma RowsFromStep<R>(ps: Pages<R>, gs: seq<nat>, at: nat, row: nat)
    requires InPages(ps, gs) && at < |gs| && row < |ps[gs[at]].rows|
    ensures RowsFrom(ps, gs, at, row) ==
      [ps[gs[at]].rows[row]] + (if row + 1 < |ps[gs[at]].rows| then RowsFrom(ps, gs, at, row + 1) else Reach(ps, gs[at + 1..]))
  {
    hide Reach;
    var rows := ps[gs[at]].rows;
    var later := Reach(ps, gs[at + 1..]);
    assert rows[row..] == [rows[row]] + rows[row + 1..];
    assert ([rows[row]] + rows[row + 1..]) + later == [rows[row]] + (rows[row + 1..] + later);
    assert row + 1 == |rows| ==> rows[row + 1..] + later == later;
  }

  lemma RowsFromEnd<R>(ps: Pages<R>, gs: seq<nat>, at: nat, row: nat)
    requires InPages(ps, gs) && at < |gs| && row >= |ps[gs[at]].rows|
    ensures RowsFrom(ps, gs, at, row) == []
    ensures at + 1 == |gs| ==> Reach(ps, gs[at + 1..]) == []
  {
  }

  /** A position in a chain; `mvcc` tables show only the rows their transaction `sees`. */
  class Titor<R> {
    const pages: Pages<R>
    const mvcc: bool
    const sees: R -> bool
    var gid: nat
    var row: nat
    ghost const chain: seq<nat>
    ghost var at: nat

    ghost predicate Valid()
      reads this
    {
      Chain(pages, chain) && InPages(pages, chain) && at < |chain| && gid == chain[at] && gid in pages
    }

    predicate IsValid()
      reads this
      requires Valid()
      ensures IsValid() <==> Rest() != []
    {
      row < |pages[gid].rows|
    }

    /** The rows from the current one on that iterating over all rows would come to. */
    ghost function Rest(): seq<R>
      reads this
      requires Valid()
    {
      RowsFrom(pages, chain, at, row)
    }

    /** The row at the current position. */
    function Current(): R
      reads this
      requires Valid() && IsValid()
      ensures Rest() != [] && Current() == Rest()[0]
    {
      RowsFromStep(pages, chain, at, row);
      pages[gid].rows[row]
    }

    ghost predicate Shows(r: R)
      reads this
    {
      !mvcc || sees(r)
    }

    /** What is left to visit. */
    ghost function Left(): seq<R>
      reads this
      requires Valid()
    {
      if mvcc then Filter(Rest(), sees) else Rest()
    }

    /** One physical row on, into the next page if there is one. */
    method MitorNext()
      requires Valid()
      modifies this
      ensures Valid() && Rest() == if old(Rest()) == [] then [] else old(Rest())[1..]
      ensures old(Rest()) == [] ==> gid == old(gid) && row == old(row)
    {
      hide Reach, RowsFrom;
      if row < |pages[gid].rows| {
        RowsFromStep(pages, chain, at, row);
        row := row + 1;
        if row >= |pages[gid].rows| {
          if pages[gid].next != UNDEF {
            RowsFromStart(pages, chain, at + 1);
            gid := pages[gid].next;
            at := at + 1;
            row := 0;
          } else {
            RowsFromEnd(pages, chain, at, row);
          }
        }
      } else {
        RowsFromEnd(pages, chain, at, row);
      }
    }

    /** The first row to visit. An MVCC table's first page is read before anything is checked, so it needs a row. */
    constructor (pages: Pages<R>, first: nat, mvcc: bool, sees: R -> bool, ghost chain: seq<nat>)
      requires Chain(pages, chain) && first == chain[0] && (mvcc ==> pages[first].rows != [])
      ensures Valid() && this.pages == pages && this.mvcc == mvcc && this.sees == sees && this.chain == chain
      ensures Left() == if mvcc then Filter(Reach(pages, chain), sees) else Reach(pages, chain)
      ensures Rest() == [] || Shows(Rest()[0])
    {
      this.pages, this.mvcc, this.sees, this.chain := pages, mvcc, sees, chain;
      gid, row, at := first, 0, 0;
      new;
      RowsFromStart(pages, chain, 0);
      assert chain[0..] == chain;
      if mvcc {
        if !sees(pages[gid].rows[row]) {
          Next();
        }
      }
    }

    /** The current row, if it is shown, is the first of what is left. */
    lemma ShownFirst()
      requires Valid() && Rest() != [] && Shows(Rest()[0])
      ensures Left() == [Rest()[0]] + if mvcc then Filter(Rest()[1..], sees) else Rest()[1..]
    {
      FilterStep(Rest(), sees);
    }

    /** On to the next row to visit; over at the end. */
    method Next()
      requires Valid()
      modifies this
      ensures Valid()
      ensures Rest() == [] || Shows(Rest()[0])
      ensures Left() == if old(Rest()) == [] then []
                        else if mvcc then Filter(old(Rest())[1..], sees) else old(Rest())[1..]
    {
      hide Chain, InPages, Reach, RowsFrom, Filter;
      if !mvcc {
        MitorNext();
      } else {
        ghost var want := if Rest() == [] then [] else Filter(Rest()[1..], sees);
        while true
          invariant Valid()
          invariant Rest() == [] ==> want == []
          invariant Rest() != [] ==> Filter(Rest()[1..], sees) == want
          decreases |Rest()|
        {
          MitorNext();
          if !IsValid() {
            FilterEnd(sees);
            break;
          }
          if sees(Current()) {
            break;
          }
          FilterStep(Rest(), sees);
        }
      }
    }

    /** A visit of the whole table, as the statements do it. */
    method Collect() returns (out: seq<R>)
      requires Valid() && (Rest() == [] || Shows(Rest()[0]))
      modifies this
      ensures Valid() && out == old(Left()) && !IsValid()
    {
      hide Chain, InPages, Reach, RowsFrom, Filter;
      out := [];
      FilterEnd(sees);
      while IsValid()
        invariant Valid() && (Rest() == [] || Shows(Rest()[0]))
        invariant out + Left() == old(Left())
        decreases |Left()|
      {
        ghost var left, done := Left(), out;
        var r := Current();
        ShownFirst();
        Next();
        out := out + [r];
        assert left == [r] + Left();
        Group(done, [r], Left());
      }
    }
  }

  // ----- allocation at the tail

  /** Rows of the tail page's file end with the tail, and every file in use has an id the sequence has passed. */
  ghost predicate TailFree(ps: set<nat>, tail: nat, s: Seq) {
    && Sound(s) && s.increment == 1 && !s.cycle && tail in ps
    && (forall g :: g in ps && PC.FileOf(g) == PC.FileOf(tail) ==> PC.PageNo(g) <= PC.PageNo(tail))
    && (forall g :: g in ps ==> PC.FileOf(g) < Upcoming(s))
    && 0 < Upcoming(s)
  }

  /** The id the sequence hands out next, if it has one. */
  function Upcoming(s: Seq): int {
    if s.called then s.current + 1 else s.current
  }

  /** Every page but the last has a row, and the last too unless it is the only one. */
  ghost predicate Packed<R>(ps: Pages<R>, gs: seq<nat>)
    requires InPages(ps, gs)
  {
    forall i :: 0 <= i < |gs| && |gs| > 1 ==> ps[gs[i]].rows != []
  }

  lemma PackedShowsAll<R>(ps: Pages<R>, gs: seq<nat>)
    requires InPages(ps, gs) && Packed(ps, gs)
    ensures Reach(ps, gs) == Flat(ps, gs)
  {
    ReachIsFlat(ps, gs);
  }

  lemma {:induction false} FlatAppendPage<R>(ps: Pages<R>, gs: seq<nat>, g: nat)
    requires InPages(ps, gs) && g in ps
    ensures InPages(ps, gs + [g]) && Flat(ps, gs + [g]) == Flat(ps, gs) + ps[g].rows
  {
    if gs == [] {
      assert gs + [g] == [g];
    } else {
      FlatAppendPage(ps, gs[1..], g);
      assert (gs + [g])[1..] == gs[1..] + [g];
    }
  }

  lemma {:induction false} FlatSame<R>(ps: Pages<R>, qs: Pages<R>, gs: seq<nat>)
    requires InPages(ps, gs) && InPages(qs, gs)
    requires forall i :: 0 <= i < |gs| ==> qs[gs[i]].rows == ps[gs[i]].rows
    ensures Flat(ps, gs) == Flat(qs, gs)
  {
    if gs != [] {
      assert forall i :: 0 < i < |gs| ==> gs[i] == gs[1..][i - 1];
      FlatSame(ps, qs, gs[1..]);
    }
  }

  /** The page maps before and after: an old tail page with room got one row more. */
  lemma RowInTail<R>(ps: Pages<R>, gs: seq<nat>, r: R)
    requires Chain(ps, gs)
    ensures var t := gs[|gs| - 1];
      var qs := ps[t := ps[t].(rows := ps[t].rows + [r])];
      Chain(qs, gs) && Flat(qs, gs) == Flat(ps, gs) + [r] && (Packed(ps, gs) ==> Packed(qs, gs))
  {
    var n := |gs| - 1;
    var t := gs[n];
    var qs := ps[t := ps[t].(rows := ps[t].rows + [r])];
    assert gs == gs[..n] + [t];
    FlatAppendPage(ps, gs[..n], t);
    FlatAppendPage(qs, gs[..n], t);
    FlatSame(ps, qs, gs[..n]);
  }

  /** A full tail page was linked to a new page `g` with the row in it, if it has room for one. */
  lemma RowInNewPage<R>(ps: Pages<R>, gs: seq<nat>, g: nat, rown: nat, rows: seq<R>)
    requires Chain(ps, gs) && g !in ps && g != UNDEF
    ensures var t := gs[|gs| - 1];
      var qs := ps[g := TablePage(UNDEF, rown, rows)][t := ps[t].(next := g)];
      Chain(qs, gs + [g]) && Flat(qs, gs + [g]) == Flat(ps, gs) + rows
      && (Packed(ps, gs) && ps[t].rows != [] && rows != [] ==> Packed(qs, gs + [g]))
  {
    var n := |gs| - 1;
    var t := gs[n];
    var qs := ps[g := TablePage(UNDEF, rown, rows)][t := ps[t].(next := g)];
    var hs := gs + [g];
    forall i {:trigger hs[i]} | 0 <= i < |hs|
      ensures hs[i] != UNDEF && hs[i] in qs && qs[hs[i]].next == LinkAt(hs, i + 1)
    {
      if i <= n {
        assert hs[i] == gs[i] && gs[i] in ps;
      }
    }
    FlatAppendPage(qs, gs, g);
    FlatSame(ps, qs, gs);
  }

  lemma NextPageFree(ps: set<nat>, tail: nat, s: Seq)
    requires TailFree(ps, tail, s) && PC.PageNo(tail) < MAXPAGE
    ensures var g := PC.MakeGid(PC.FileOf(tail), PC.PageNo(tail) + 1);
      g > 0 && g !in ps && PC.FileOf(g) == PC.FileOf(tail) && PC.PageNo(g) == PC.PageNo(tail) + 1
  {
    var f, p := PC.FileOf(tail), PC.PageNo(tail) + 1;
    GidParts(f, p);
    assert p * PC.FILE_IDS > 0;
  }

  lemma GidParts(f: nat, p: nat)
    requires f < PC.FILE_IDS
    ensures var g := f + p * PC.FILE_IDS; PC.FileOf(g) == f && PC.PageNo(g) == p
  {
  }

  /** Every chain of a set of pages that does not contain the tail is left alone. */
  class MeshFile<R> {
    var pages: Pages<R>
    const ids: Sequence

    constructor (ids: Sequence)
      ensures this.ids == ids && pages == map[]
    {
      this.ids := ids;
      pages := map[];
    }

    /** The gid of the page after the tail: the next of its file, or the first of a new file. */
    method NewGid(tail: nat) returns (ok: bool, g: nat)
      requires TailFree(pages.Keys, tail, ids.State())
      requires PC.PageNo(tail) >= MAXPAGE ==> Upcoming(ids.State()) < PC.FILE_IDS
      modifies ids`current, ids`isCalled
      ensures Sound(ids.State()) && Upcoming(ids.State()) <= Upcoming(old(ids.State())) + 1
      ensures !ok ==> ids.State() == old(ids.State()) && PC.PageNo(tail) >= MAXPAGE
      ensures !ok <==> PC.PageNo(tail) >= MAXPAGE && Next(old(ids.State())).1 == None
      ensures ok ==> g > 0 && g !in pages
      ensures ok ==> TailFree(pages.Keys + {g}, g, ids.State())
    {
      if PC.PageNo(tail) < MAXPAGE {
        NextPageFree(pages.Keys, tail, ids.State());
        ok, g := true, PC.MakeGid(PC.FileOf(tail), PC.PageNo(tail) + 1);
      } else {
        var err, file := ids.Nextval();
        if err != 0 {
          return false, 0;
        }
        assert file == Upcoming(old(ids.State())) && Upcoming(ids.State()) == file + 1;
        GidParts(file, 0);
        ok, g := true, PC.MakeGid(file, 0);
      }
    }

    /** One row more at the end of the chain, in its tail page or in a new one linked to it. `perPage` is the room of a new
        page; if it has none the page is linked all the same, and there is no row. The row's bytes are `r`. */
    method AllocRow(tail: nat, perPage: nat, r: R, ghost gs: seq<nat>)
      returns (ok: bool, newTail: nat, row: nat, ghost hs: seq<nat>)
      requires Chain(pages, gs) && tail == gs[|gs| - 1] && |pages[tail].rows| <= pages[tail].rown
      requires TailFree(pages.Keys, tail, ids.State())
      requires PC.PageNo(tail) >= MAXPAGE ==> Upcoming(ids.State()) < PC.FILE_IDS
      modifies this`pages, ids`current, ids`isCalled
      ensures var full := |old(pages)[tail].rows| == old(pages)[tail].rown;
        var spent := PC.PageNo(tail) >= MAXPAGE && Next(old(ids.State())).1 == None;
        && (!ok <==> full && (spent || perPage == 0))
        && (full && spent ==> pages == old(pages) && hs == gs && newTail == tail && ids.State() == old(ids.State()))
        && (full && !spent && perPage == 0 ==> hs == gs + [newTail])
      ensures Chain(pages, hs) && newTail == hs[|hs| - 1] && |pages[newTail].rows| <= pages[newTail].rown
      ensures TailFree(pages.Keys, newTail, ids.State()) && Upcoming(ids.State()) <= Upcoming(old(ids.State())) + 1
      ensures Flat(pages, hs) == Flat(old(pages), gs) + if ok then [r] else []
      ensures ok ==> (hs == gs || hs == gs + [newTail]) && row == |pages[newTail].rows| - 1 && pages[newTail].rows[row] == r
      ensures ok && Packed(old(pages), gs) && old(pages)[tail].rown > 0 ==> Packed(pages, hs)
      ensures forall g :: g in old(pages) && g != tail ==> g in pages && pages[g] == old(pages)[g]
      ensures pages.Keys == old(pages).Keys + {newTail}
      ensures ok && hs != gs ==> pages[newTail].rown == perPage
      ensures forall g :: g in old(pages) ==> g in pages && pages[g].rown == old(pages)[g].rown
    {
      hide Packed, Flat, TailFree, Next, Sound;
      assert Flat(pages, gs) + [] == Flat(pages, gs);
      hs, newTail, row := gs, tail, 0;
      var grid := pages[tail];
      if |grid.rows| < grid.rown {
        row := |grid.rows|;
        RowInTail(pages, gs, r);
        pages := pages[tail := grid.(rows := grid.rows + [r])];
        assert pages.Keys == old(pages).Keys;
        ok := true;
        return;
      }
      ok, newTail := NewGid(tail);
      if !ok {
        newTail := tail;
        return;
      }
      var rows := if perPage > 0 then [r] else [];
      RowInNewPage(pages, gs, newTail, perPage, rows);
      ghost var keys := pages.Keys;
      pages := pages[newTail := TablePage(UNDEF, perPage, rows)][tail := grid.(next := newTail)];
      assert pages.Keys == keys + {newTail};
      ok, hs, row := perPage > 0, gs + [newTail], 0;
    }

    /** Rows allocated one after the other, the caller carrying the tail: a visit of the table, which came to all rows
        before, comes to those and then the new ones, in the order of allocation. */
    method AppendAll(tail: nat, perPage: nat, rs: seq<R>, ghost gs: seq<nat>) returns (n: nat, newTail: nat, ghost hs: seq<nat>)
      requires Chain(pages, gs) && tail == gs[|gs| - 1] && |pages[tail].rows| <= pages[tail].rown && pages[tail].rown > 0
      requires TailFree(pages.Keys, tail, ids.State()) && Upcoming(ids.State()) + |rs| < PC.FILE_IDS && perPage > 0
      requires Packed(pages, gs)
      modifies this`pages, ids`current, ids`isCalled
      ensures n <= |rs| && Chain(pages, hs) && newTail == hs[|hs| - 1] && Packed(pages, hs) && gs <= hs
      ensures Flat(pages, hs) == Flat(old(pages), gs) + rs[..n]
      ensures Reach(pages, hs) == Reach(old(pages), gs) + rs[..n]
      ensures n < |rs| ==> Next(ids.State()).1 == None
    {
      hide Packed, Flat, Reach, TailFree, Next, Chain, InPages;
      ChainIn(pages, gs);
      n, newTail, hs := 0, tail, gs;
      assert rs[..0] == [];
      while n < |rs|
        invariant n <= |rs| && Chain(pages, hs) && InPages(pages, hs) && Packed(pages, hs)
        invariant gs <= hs && hs != [] && newTail == hs[|hs| - 1] && newTail in pages
        invariant |pages[newTail].rows| <= pages[newTail].rown && pages[newTail].rown > 0
        invariant TailFree(pages.Keys, newTail, ids.State()) && Upcoming(ids.State()) + |rs| - n < PC.FILE_IDS
        invariant Flat(pages, hs) == Flat(old(pages), gs) + rs[..n]
      {
        var ok, row;
        ok, newTail, row, hs := AllocRow(newTail, perPage, rs[n], hs);
        ChainIn(pages, hs);
        if !ok {
          break;
        }
        assert rs[..n + 1] == rs[..n] + [rs[n]];
        n := n + 1;
      }
      PackedShowsAll(old(pages), gs);
      PackedShowsAll(pages, hs);
    }
  }
}
