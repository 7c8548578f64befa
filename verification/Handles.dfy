/** Pages used through frames remembered from when they were touched, while other pages are touched: what the row
    iterators do with the pages of a table, and the statements with the table's header page. */
module Handles {
  import opened Sequences
  import opened Buckets
  import M = LruModel
  import P = PageModel

  /** Handle `k` is put on page `g`; another page is touched; a handle's page is read, or changed. */
  datatype Op<!Page> = Open(k: nat, g: int) | Check(g: int) | Read(k: nat) | Change(k: nat, change: Page -> Page)

  /** A page, the frame remembered for it, and the other pages touched since. */
  datatype Handle = Handle(page: int, frame: int, since: set<int>)

  datatype World<Page> = World(cache: P.PState<Page>, handles: map<nat, Handle>, log: seq<Page>)

  function Aged(hs: map<nat, Handle>, g: int): map<nat, Handle> {
    map k | k in hs :: hs[k].(since := hs[k].since + ({g} - {hs[k].page}))
  }

  predicate Usable<Page>(w: World<Page>, k: nat) {
    k in w.handles && 0 <= w.handles[k].frame < |w.cache.frames|
  }

  /** None is a touch that stops the program. */
  function Do<Page>(h: int -> nat, B: nat, C: nat, w: World<Page>, op: Op<Page>): Option<World<Page>>
    requires B > 0
  {
    match op
    case Open(k, g) =>
      var t := P.Touch(h, B, C, w.cache, g);
      if t.None? || g !in t.value.frameOf then None
      else Some(World(t.value, Aged(w.handles, g)[k := Handle(g, t.value.frameOf[g], {})], w.log))
    case Check(g) =>
      var t := P.Touch(h, B, C, w.cache, g);
      if t.None? then None else Some(World(t.value, Aged(w.handles, g), w.log))
    case Read(k) =>
      if !Usable(w, k) then None else Some(w.(log := w.log + [w.cache.frames[w.handles[k].frame]]))
    case Change(k, change) =>
      if !Usable(w, k) then None
      else
        var f := w.handles[k].frame;
        Some(w.(cache := P.WriteFrame(w.cache, f, change(w.cache.frames[f]))))
  }

  function Run<Page>(h: int -> nat, B: nat, C: nat, s: P.PState<Page>, ops: seq<Op<Page>>): Option<World<Page>>
    requires B > 0
  {
    if ops == [] then Some(World(s, map[], []))
    else
      var w := Run(h, B, C, s, ops[..|ops| - 1]);
      if w.None? then None else Do(h, B, C, w.value, ops[|ops| - 1])
  }

  // ----- the same without a cache

  datatype Memory<!Page> = Memory(store: int -> Page, pages: map<nat, int>, log: seq<Page>)

  function Put<Page>(store: int -> Page, g: int, page: Page): int -> Page {
    j => if j == g then page else store(j)
  }

  function DoPlain<Page>(m: Memory<Page>, op: Op<Page>): Memory<Page> {
    match op
    case Open(k, g) => m.(pages := m.pages[k := g])
    case Check(_) => m
    case Read(k) => if k in m.pages then m.(log := m.log + [m.store(m.pages[k])]) else m
    case Change(k, change) =>
      if k in m.pages then m.(store := Put(m.store, m.pages[k], change(m.store(m.pages[k])))) else m
  }

  function RunPlain<Page>(s: P.PState<Page>, ops: seq<Op<Page>>): Memory<Page> {
    if ops == [] then Memory(j => P.Logical(s, j), map[], []) else DoPlain(RunPlain(s, ops[..|ops| - 1]), ops[|ops| - 1])
  }

  // ----- handles that are right

  /** The remembered frame is the page's. */
  ghost predicate InPlace<Page>(s: P.PState<Page>, hd: Handle) {
    && hd.page in s.rec && hd.page in s.frameOf && s.frameOf[hd.page] == hd.frame
    && M.Ahead(s.rec, hd.page) <= hd.since
  }

  ghost predicate Right<Page>(C: nat, s: P.PState<Page>, hd: Handle) {
    hd.page !in hd.since && (|hd.since| <= C ==> InPlace(s, hd))
  }

  ghost predicate AllRight<Page>(C: nat, s: P.PState<Page>, hs: map<nat, Handle>) {
    forall k {:trigger hs[k]} :: k in hs ==> Right(C, s, hs[k])
  }

  /** A handle is used while at most `C` other pages were touched since it was put on its page. */
  ghost predicate Fresh<Page>(C: nat, hs: map<nat, Handle>, op: Op<Page>) {
    (op.Read? || op.Change?) && op.k in hs ==> |hs[op.k].since| <= C
  }

  lemma SmallerSince(x: set<int>, y: set<int>)
    requires x <= y
    ensures |x| <= |y|
  {
    if x != y {
      var d := y - x;
      assert y == x + d;
    }
  }

  lemma TouchKeepsRight<Page>(h: int -> nat, B: nat, C: nat, s: P.PState<Page>, g: int, hd: Handle)
    requires B > 0 && P.Inv(h, B, C, s) && P.Touch(h, B, C, s, g).Some? && Right(C, s, hd)
    ensures Right(C, P.Touch(h, B, C, s, g).value, hd.(since := hd.since + ({g} - {hd.page})))
  {
    hide P.Touch, P.FramesOk, M.Touch, M.Ahead, NoRoom;
    var since := hd.since + ({g} - {hd.page});
    if |since| <= C {
      SmallerSince(hd.since, since);
      P.TouchOk(h, B, C, s, g);
      M.TouchKeepsWorkingSet(h, B, C, s.rec, hd.page, g, since);
    }
  }

  lemma TouchKeepsAll<Page>(h: int -> nat, B: nat, C: nat, s: P.PState<Page>, g: int, hs: map<nat, Handle>)
    requires B > 0 && P.Inv(h, B, C, s) && P.Touch(h, B, C, s, g).Some? && AllRight(C, s, hs)
    ensures AllRight(C, P.Touch(h, B, C, s, g).value, Aged(hs, g))
  {
    hide P.Inv, P.Touch, Right;
    forall k {:trigger Aged(hs, g)[k]} | k in hs
      ensures Right(C, P.Touch(h, B, C, s, g).value, Aged(hs, g)[k])
    {
      TouchKeepsRight(h, B, C, s, g, hs[k]);
    }
  }

  lemma OpenedRight<Page>(h: int -> nat, B: nat, C: nat, s: P.PState<Page>, g: int)
    requires B > 0 && P.Inv(h, B, C, s) && P.Touch(h, B, C, s, g).Some?
    ensures var t := P.Touch(h, B, C, s, g).value;
      g in t.frameOf && Right(C, t, Handle(g, t.frameOf[g], {}))
  {
    hide P.Touch, P.FramesOk, M.Touch, M.Ahead;
    P.TouchOk(h, B, C, s, g);
    P.InFront(h, B, C, s.rec, g);
  }

  // ----- runs

  ghost predicate Agrees<Page>(h: int -> nat, B: nat, C: nat, w: World<Page>, m: Memory<Page>) {
    && P.Inv(h, B, C, w.cache) && AllRight(C, w.cache, w.handles)
    && (forall j {:trigger P.Logical(w.cache, j)} :: P.Logical(w.cache, j) == m.store(j))
    && w.handles.Keys == m.pages.Keys
    && (forall k {:trigger w.handles[k]} :: k in w.handles ==> w.handles[k].page == m.pages[k])
    && w.log == m.log
  }

  lemma ReadRight<Page>(h: int -> nat, B: nat, C: nat, s: P.PState<Page>, hd: Handle)
    requires B > 0 && P.Inv(h, B, C, s) && Right(C, s, hd) && |hd.since| <= C
    ensures 0 <= hd.frame < |s.frames| && s.frames[hd.frame] == P.Logical(s, hd.page)
  {
    P.FrameInRange(h, B, C, s, hd.page);
  }

  lemma ChangeRight<Page>(h: int -> nat, B: nat, C: nat, s: P.PState<Page>, hd: Handle, page: Page, j: int)
    requires B > 0 && P.Inv(h, B, C, s) && Right(C, s, hd) && |hd.since| <= C
    ensures P.Logical(P.WriteFrame(s, hd.frame, page), j) == if j == hd.page then page else P.Logical(s, j)
  {
    hide P.Logical, P.WriteFrame;
    P.FrameInRange(h, B, C, s, hd.page);
    P.WriteReaches(h, B, C, s, hd.frame, page, j);
    if j != hd.page && j in s.frameOf {
      P.FramesApart(h, B, C, s, hd.page, j);
    }
  }

  lemma WriteKeeps<Page>(h: int -> nat, B: nat, C: nat, s: P.PState<Page>, f: int, page: Page, hs: map<nat, Handle>)
    requires B > 0 && P.Inv(h, B, C, s) && AllRight(C, s, hs)
    ensures P.Inv(h, B, C, P.WriteFrame(s, f, page)) && AllRight(C, P.WriteFrame(s, f, page), hs)
  {
    hide P.FramesOk, M.Ahead;
    var t := P.WriteFrame(s, f, page);
    forall k {:trigger hs[k]} | k in hs
      ensures Right(C, t, hs[k])
    {
      assert Right(C, s, hs[k]);
    }
  }

  lemma TouchAgrees<Page>(h: int -> nat, B: nat, C: nat, w: World<Page>, m: Memory<Page>, g: int)
    requires B > 0 && Agrees(h, B, C, w, m) && P.Touch(h, B, C, w.cache, g).Some?
    ensures Agrees(h, B, C, World(P.Touch(h, B, C, w.cache, g).value, Aged(w.handles, g), w.log), m)
  {
    hide P.Touch, P.Logical, P.Inv, AllRight;
    TouchKeepsAll(h, B, C, w.cache, g, w.handles);
    TouchStays(h, B, C, w.cache, g);
    forall j {:trigger P.Logical(P.Touch(h, B, C, w.cache, g).value, j)}
      ensures P.Logical(P.Touch(h, B, C, w.cache, g).value, j) == m.store(j)
    {
      P.TouchHidden(h, B, C, w.cache, g, j);
    }
  }

  lemma TouchStays<Page>(h: int -> nat, B: nat, C: nat, s: P.PState<Page>, g: int)
    requires B > 0 && P.Inv(h, B, C, s) && P.Touch(h, B, C, s, g).Some?
    ensures P.Inv(h, B, C, P.Touch(h, B, C, s, g).value)
  {
    P.TouchOk(h, B, C, s, g);
  }

  lemma OpenAgrees<Page>(h: int -> nat, B: nat, C: nat, w: World<Page>, m: Memory<Page>, k: nat, g: int)
    requires B > 0 && Agrees(h, B, C, w, m) && Do(h, B, C, w, Open(k, g)).Some?
    ensures Agrees(h, B, C, Do(h, B, C, w, Open(k, g)).value, DoPlain(m, Open(k, g)))
  {
    hide P.Touch, P.Logical, P.Inv, Right, Aged;
    TouchAgrees(h, B, C, w, m, g);
    OpenedRight(h, B, C, w.cache, g);
    var hs := Aged(w.handles, g);
    var t := P.Touch(h, B, C, w.cache, g).value;
    var hs' := hs[k := Handle(g, t.frameOf[g], {})];
    forall i {:trigger hs'[i]} | i in hs'
      ensures Right(C, t, hs'[i])
    {
      assert i != k ==> hs'[i] == hs[i];
    }
  }

  lemma UseAgrees<Page>(h: int -> nat, B: nat, C: nat, w: World<Page>, m: Memory<Page>, op: Op<Page>)
    requires B > 0 && Agrees(h, B, C, w, m) && Do(h, B, C, w, op).Some? && Fresh(C, w.handles, op)
    requires op.Read? || op.Change?
    ensures Agrees(h, B, C, Do(h, B, C, w, op).value, DoPlain(m, op))
  {
    hide P.Logical, P.Inv, Right, P.WriteFrame;
    var hd := w.handles[op.k];
    assert Right(C, w.cache, hd);
    ReadRight(h, B, C, w.cache, hd);
    if op.Change? {
      var page := op.change(w.cache.frames[hd.frame]);
      WriteKeeps(h, B, C, w.cache, hd.frame, page, w.handles);
      var t := P.WriteFrame(w.cache, hd.frame, page);
      forall j {:trigger P.Logical(t, j)}
        ensures P.Logical(t, j) == Put(m.store, hd.page, page)(j)
      {
        ChangeRight(h, B, C, w.cache, hd, page, j);
        assert P.Logical(w.cache, j) == m.store(j);
      }
      assert P.Logical(w.cache, hd.page) == m.store(hd.page);
    } else {
      assert P.Logical(w.cache, hd.page) == m.store(hd.page);
    }
  }

  /** Every use of a handle comes while at most `C` other pages were touched since it was put on its page. */
  ghost predicate AllFresh<Page>(h: int -> nat, B: nat, C: nat, s: P.PState<Page>, ops: seq<Op<Page>>)
    requires B > 0
  {
    forall n :: 0 <= n < |ops| && Run(h, B, C, s, ops[..n]).Some? ==>
      Fresh(C, Run(h, B, C, s, ops[..n]).value.handles, ops[n])
  }

  lemma {:induction false} RunAgrees<Page>(h: int -> nat, B: nat, C: nat, s: P.PState<Page>, ops: seq<Op<Page>>)
    requires B > 0 && P.Inv(h, B, C, s) && Run(h, B, C, s, ops).Some? && AllFresh(h, B, C, s, ops)
    ensures Agrees(h, B, C, Run(h, B, C, s, ops).value, RunPlain(s, ops))
    decreases |ops|
  {
    hide P.Inv, P.Logical, Agrees, Fresh, Do, DoPlain;
    if ops == [] {
      StartAgrees(h, B, C, s);
    } else {
      var n := |ops| - 1;
      assert forall i :: 0 <= i < n ==> ops[..n][..i] == ops[..i] && ops[..n][i] == ops[i];
      RunAgrees(h, B, C, s, ops[..n]);
      var w, m := Run(h, B, C, s, ops[..n]).value, RunPlain(s, ops[..n]);
      StepAgrees(h, B, C, w, m, ops[n]);
    }
  }

  lemma StepAgrees<Page>(h: int -> nat, B: nat, C: nat, w: World<Page>, m: Memory<Page>, op: Op<Page>)
    requires B > 0 && Agrees(h, B, C, w, m) && Do(h, B, C, w, op).Some? && Fresh(C, w.handles, op)
    ensures Agrees(h, B, C, Do(h, B, C, w, op).value, DoPlain(m, op))
  {
    match op
    case Open(k, g) => OpenAgrees(h, B, C, w, m, k, g);
    case Check(g) => hide Agrees; TouchAgrees(h, B, C, w, m, g);
    case Read(_) => UseAgrees(h, B, C, w, m, op);
    case Change(_, _) => UseAgrees(h, B, C, w, m, op);
  }

  lemma StartAgrees<Page>(h: int -> nat, B: nat, C: nat, s: P.PState<Page>)
    requires B > 0 && P.Inv(h, B, C, s)
    ensures Agrees(h, B, C, World(s, map[], []), RunPlain(s, []))
  {
    hide P.Inv, P.Logical;
  }

  /** Whatever handles there are, and however their uses and the touches mix: what is read, and what all pages hold
      afterwards, is as without a cache, if every use is fresh. */
  lemma HandlesAreTransparent<Page>(h: int -> nat, B: nat, C: nat, s: P.PState<Page>, ops: seq<Op<Page>>)
    requires B > 0 && P.Inv(h, B, C, s) && Run(h, B, C, s, ops).Some? && AllFresh(h, B, C, s, ops)
    ensures var w, m := Run(h, B, C, s, ops).value, RunPlain(s, ops);
      w.log == m.log && forall j :: P.Logical(w.cache, j) == m.store(j)
  {
    hide P.Inv, P.Logical, Run, RunPlain, AllFresh;
    RunAgrees(h, B, C, s, ops);
  }

  // ----- when uses are fresh

  /** How many times other handles were put on a page since handle `k` was. */
  function Moves<Page>(ops: seq<Op<Page>>, k: nat): nat {
    if ops == [] then 0
    else
      var op := ops[|ops| - 1];
      if op.Open? && op.k == k then 0 else Moves(ops[..|ops| - 1], k) + if op.Open? then 1 else 0
  }

  predicate Uses<Page>(op: Op<Page>) {
    op.Read? || op.Change?
  }

  /** Apart from opening handles only the page `flags` is touched. */
  ghost predicate ChecksOnly<Page>(ops: seq<Op<Page>>, flags: int) {
    forall n :: 0 <= n < |ops| && ops[n].Check? ==> ops[n].g == flags
  }

  lemma {:induction false} SinceIsMoves<Page>(h: int -> nat, B: nat, C: nat, s: P.PState<Page>, ops: seq<Op<Page>>, flags: int, k: nat)
    requires B > 0 && Run(h, B, C, s, ops).Some? && ChecksOnly(ops, flags) && k in Run(h, B, C, s, ops).value.handles
    ensures |Run(h, B, C, s, ops).value.handles[k].since - {flags}| <= Moves(ops, k)
    decreases |ops|
  {
    hide P.Touch, P.WriteFrame;
    if ops != [] {
      var n := |ops| - 1;
      var op, w := ops[n], Run(h, B, C, s, ops[..n]).value;
      if !(op.Open? && op.k == k) {
        SinceIsMoves(h, B, C, s, ops[..n], flags, k);
        if op.Open? || op.Check? {
          OneMore(w.handles[k].since, flags, op.g, w.handles[k].page);
        }
      }
    }
  }

  lemma OneMore(since: set<int>, flags: int, g: int, page: int)
    ensures |since + ({g} - {page}) - {flags}| <= |since - {flags}| + if g == flags then 0 else 1
  {
    var x, y := since + ({g} - {page}) - {flags}, since - {flags};
    if g == flags {
      assert x <= y;
      SmallerSince(x, y);
    } else {
      assert x <= y + {g};
      SmallerSince(x, y + {g});
    }
  }

  /** While only the page of the commit flags is touched besides the handles' own pages, uses are fresh if other handles
      were put on fewer than `C` pages since: one iterator needs one chain node, however long the chain of pages. */
  lemma FewMovesSuffice<Page>(h: int -> nat, B: nat, C: nat, s: P.PState<Page>, ops: seq<Op<Page>>, flags: int)
    requires B > 0 && ChecksOnly(ops, flags)
    requires forall n :: 0 <= n < |ops| && Uses(ops[n]) ==> Moves(ops[..n], ops[n].k) < C
    ensures AllFresh(h, B, C, s, ops)
  {
    hide Run, Moves;
    forall n | 0 <= n < |ops| && Run(h, B, C, s, ops[..n]).Some?
      ensures Fresh(C, Run(h, B, C, s, ops[..n]).value.handles, ops[n])
    {
      var hs := Run(h, B, C, s, ops[..n]).value.handles;
      if Uses(ops[n]) && ops[n].k in hs {
        assert forall i :: 0 <= i < n ==> ops[..n][i] == ops[i];
        SinceIsMoves(h, B, C, s, ops[..n], flags, ops[n].k);
        var since := hs[ops[n].k].since;
        assert since <= since - {flags} + {flags};
        SmallerSince(since, since - {flags} + {flags});
      }
    }
  }

  /** One iterator over a table: what it reads is what the pages hold, with a single chain node. */
  lemma OneIterator<Page>(h: int -> nat, B: nat, C: nat, s: P.PState<Page>, ops: seq<Op<Page>>, flags: int)
    requires B > 0 && P.Inv(h, B, C, s) && Run(h, B, C, s, ops).Some? && C >= 1 && ChecksOnly(ops, flags)
    requires forall n :: 0 <= n < |ops| && (ops[n].Open? || Uses(ops[n])) ==> ops[n].k == 0
    ensures Run(h, B, C, s, ops).value.log == RunPlain(s, ops).log
  {
    hide P.Inv, Run, RunPlain, AllFresh;
    forall n | 0 <= n < |ops| && Uses(ops[n])
      ensures Moves(ops[..n], ops[n].k) < C
    {
      assert forall i :: 0 <= i < n ==> ops[..n][i] == ops[i];
      NoOtherMoves(ops[..n]);
    }
    FewMovesSuffice(h, B, C, s, ops, flags);
    HandlesAreTransparent(h, B, C, s, ops);
  }

  lemma {:induction false} NoOtherMoves<Page>(ops: seq<Op<Page>>)
    requires forall n :: 0 <= n < |ops| && ops[n].Open? ==> ops[n].k == 0
    ensures Moves(ops, 0) == 0
    decreases |ops|
  {
    if ops != [] {
      NoOtherMoves(ops[..|ops| - 1]);
    }
  }
}
