/** Reading a table for a transaction: the row iterator over the chain of pages shows the transaction's view. */
module TableScan {
  import Mesh
  import Grids
  import Wire
  import opened Sequences
  import opened Mvcc
  import B = Bytecode
  import S = WhereSyntax
  import X = WhereExec
  import V = WhereEval

  // ----- a page of rows is a grid in the page's bytes

  ghost function AsPage(grid: Grids.Grid, next: nat): Mesh.TablePage<seq<Wire.byte>>
    requires grid.Valid()
    reads grid, grid.datum
  {
    Mesh.TablePage(next, grid.rown, grid.Rows())
  }

  /** Allocating in the grid is the step that `Mesh.MeshFile.AllocRow` takes in the tail page, with the bytes that lie in
      the row; a full grid is a full page. */
  method AllocInPage(grid: Grids.Grid, next: nat) returns (row: nat)
    requires grid.Valid()
    modifies grid`occupied
    ensures grid.Valid()
    ensures var page := old(AsPage(grid, next));
      if |page.rows| < page.rown then
        && row == |page.rows| && AsPage(grid, next) == page.(rows := page.rows + [grid.RowAt(row)])
        && grid.RowAt(row) == old(grid.RowAt(|grid.Rows()|))
      else row == Grids.INVALID && AsPage(grid, next) == page
  {
    row := grid.AllocRow();
  }

  function Values(rows: seq<TRow>): (r: seq<int>)
    ensures |r| == |rows| && forall i :: 0 <= i < |r| ==> r[i] == rows[i].val
  {
    if rows == [] then [] else [rows[0].val] + Values(rows[1..])
  }

  lemma {:induction false} ViewIsFilter(t: nat, rows: seq<TRow>, committed: set<nat>)
    ensures View(t, rows, committed) == Values(Filter(rows, r => Visible(t, r, committed)))
  {
    if rows != [] {
      var sees := r => Visible(t, r, committed);
      ViewIsFilter(t, rows[1..], committed);
      var rest := Filter(rows[1..], sees);
      if sees(rows[0]) {
        assert ([rows[0]] + rest)[1..] == rest;
      } else {
        assert Filter(rows, sees) == rest;
      }
    }
  }

  /** What a transaction reads from the pages is its view of the rows in them, all of them if no page is empty
      before a page with rows. */
  method ReadTable(pages: Mesh.Pages<TRow>, first: nat, t: nat, committed: set<nat>, ghost chain: seq<nat>) returns (rows: seq<TRow>)
    requires Mesh.Chain(pages, chain) && first == chain[0] && pages[first].rows != []
    ensures Values(rows) == View(t, Mesh.Reach(pages, chain), committed)
    ensures Mesh.NoneHidden(pages, chain) ==> Values(rows) == View(t, Mesh.Flat(pages, chain), committed)
  {
    var sees := r => Visible(t, r, committed);
    var titor := new Mesh.Titor<TRow>(pages, first, true, sees, chain);
    rows := titor.Collect();
    ViewIsFilter(t, Mesh.Reach(pages, chain), committed);
    Mesh.ReachIsFlat(pages, chain);
  }

  /** The rows by their columns' names, one for one. */
  function Named(rows: seq<TRow>, columns: TRow -> V.Row): (r: seq<V.Row>)
    ensures |r| == |rows| && forall i :: 0 <= i < |r| ==> r[i] == columns(rows[i])
  {
    if rows == [] then [] else [columns(rows[0])] + Named(rows[1..], columns)
  }

  lemma {:induction false} NamedFilter(rows: seq<TRow>, columns: TRow -> V.Row, p: V.Row -> bool, q: TRow -> bool)
    requires forall r :: q(r) <==> p(columns(r))
    ensures Filter(Named(rows, columns), p) == Named(Filter(rows, q), columns)
  {
    if rows != [] {
      NamedFilter(rows[1..], columns, p, q);
      assert Named(rows, columns)[1..] == Named(rows[1..], columns);
      var rest := Filter(rows[1..], q);
      assert ([rows[0]] + rest)[1..] == rest;
    }
  }

  /** Without errors the chosen rows are, one for one, those that are seen and for which the condition is true. */
  lemma HitsInOrder(rows: seq<TRow>, t: nat, committed: set<nat>, e: S.BExpr, columns: TRow -> V.Row)
    ensures var visible := Filter(rows, r => Visible(t, r, committed));
      var hits := Filter(rows, r => Visible(t, r, committed) && V.Eval(columns(r), e) == V.Ok(true));
      var out := X.Selected(Named(visible, columns), e);
      (forall i :: 0 <= i < |visible| ==> V.Eval(columns(visible[i]), e).Ok?) ==>
        out.end == X.Done && |out.chosen| == |hits| && forall i :: 0 <= i < |hits| ==> out.chosen[i] == columns(hits[i])
  {
    hide V.Eval, Visible, Filter, X.Selected;
    var sees := r => Visible(t, r, committed);
    var visible := Filter(rows, sees);
    if forall i :: 0 <= i < |visible| ==> V.Eval(columns(visible[i]), e).Ok? {
      var holds := (r: TRow) => V.Eval(columns(r), e) == V.Ok(true);
      var meets := (r: V.Row) => V.Eval(r, e) == V.Ok(true);
      var both := r => Visible(t, r, committed) && V.Eval(columns(r), e) == V.Ok(true);
      X.SelectedIsFilter(Named(visible, columns), e);
      NamedFilter(visible, columns, meets, holds);
      FilterTwice(rows, sees, holds, both);
    }
  }

  /** A SELECT with a condition, from the pages to the chosen rows: those that the scan comes to, that transaction `t`
      sees, and for which the condition is true, in physical order, up to the first error. */
  method Choose(bc: B.Bc, head: seq<S.Token>, e: S.BExpr, columns: TRow -> V.Row,
                pages: Mesh.Pages<TRow>, first: nat, t: nat, committed: set<nat>, ghost chain: seq<nat>) returns (out: X.Outcome)
    requires X.NoLoops(head) && S.Derived(e)
    requires Mesh.Chain(pages, chain) && first == chain[0] && pages[first].rows != []
    modifies bc
    ensures var visible := Filter(Mesh.Reach(pages, chain), r => Visible(t, r, committed));
      out == if visible == [] then X.Outcome([], X.Syntax) else X.Selected(Named(visible, columns), e)
    ensures var rows := Mesh.Reach(pages, chain);
      var visible := Filter(rows, r => Visible(t, r, committed));
      var hits := Filter(rows, r => Visible(t, r, committed) && V.Eval(columns(r), e) == V.Ok(true));
      visible != [] && (forall i :: 0 <= i < |visible| ==> V.Eval(columns(visible[i]), e).Ok?) ==>
        out.end == X.Done && |out.chosen| == |hits| && forall i :: 0 <= i < |hits| ==> out.chosen[i] == columns(hits[i])
    ensures Mesh.NoneHidden(pages, chain) ==> Mesh.Reach(pages, chain) == Mesh.Flat(pages, chain)
  {
    hide V.Eval, X.Selected, Filter, Visible;
    HitsInOrder(Mesh.Reach(pages, chain), t, committed, e, columns);
    var sees := r => Visible(t, r, committed);
    var titor := new Mesh.Titor<TRow>(pages, first, true, sees, chain);
    var rows := titor.Collect();
    Mesh.ReachIsFlat(pages, chain);
    out := X.Execute(bc, head, e, Named(rows, columns));
  }
}
