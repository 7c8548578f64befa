/** The page cache as a pure state machine over frames, a stack of unused frames and disk pages. */
module PageModel {
  import opened Sequences
  import opened Buckets
  import M = LruModel

  /** The resident pages' recency order and frames, the frames' contents, the stack of unused
      frames (top last), and the disk; a page never written reads as `zero`. */
  datatype PState<P> = PState(rec: seq<int>, frameOf: map<int, int>, frames: seq<P>, stack: seq<int>,
                              disk: map<int, P>, zero: P)

  function OnDisk<P>(s: PState<P>, g: int): P {
    if g in s.disk then s.disk[g] else s.zero
  }

  /** Every frame index is either in one live entry or once on the stack. */
  ghost predicate FramesOk(frameOf: map<int, int>, stack: seq<int>, n: nat) {
    && InPool(n, stack) && NoDup(stack)
    && (forall g {:trigger frameOf[g]} :: g in frameOf ==> 0 <= frameOf[g] < n && frameOf[g] !in stack)
    && (forall g, g' {:trigger frameOf[g], frameOf[g']} :: g in frameOf && g' in frameOf && g != g' ==> frameOf[g] != frameOf[g'])
    && |stack| + |frameOf| == n
  }

  ghost predicate Inv<P>(h: int -> nat, B: nat, C: nat, s: PState<P>) {
    && B > 0 && M.Inv(h, B, C, s.rec) && M.Keys(s.rec) == s.frameOf.Keys
    && |s.frames| == B + C && FramesOk(s.frameOf, s.stack, |s.frames|)
  }

  /** What a program sees of page `g`: its frame if it is resident, else its disk page. */
  function Logical<P>(s: PState<P>, g: int): P {
    if g in s.frameOf && 0 <= s.frameOf[g] < |s.frames| then s.frames[s.frameOf[g]] else OnDisk(s, g)
  }

  /** The least recently used page is written back and its frame goes on the stack. */
  function Evict<P>(s: PState<P>): PState<P>
    requires s.rec != []
  {
    var lru := s.rec[|s.rec| - 1];
    if lru in s.frameOf && 0 <= s.frameOf[lru] < |s.frames| then
      PState(s.rec[..|s.rec| - 1], s.frameOf - {lru}, s.frames, s.stack + [s.frameOf[lru]],
             s.disk[lru := s.frames[s.frameOf[lru]]], s.zero)
    else s
  }

  /** Page `g` is read into the frame on top of the stack. */
  function Load<P>(s: PState<P>, g: int): PState<P>
    requires s.stack != []
  {
    var f := s.stack[|s.stack| - 1];
    if 0 <= f < |s.frames| then
      PState([g] + s.rec, s.frameOf[g := f], s.frames[f := OnDisk(s, g)], s.stack[..|s.stack| - 1], s.disk, s.zero)
    else s
  }

  /** None is the case that stops the program: the evicted page left no node for the new one. */
  function Touch<P>(h: int -> nat, B: nat, C: nat, s: PState<P>, g: int): Option<PState<P>>
    requires B > 0
  {
    if g in s.rec then Some(s.(rec := [g] + M.Without(s.rec, g)))
    else
      var room := !NoRoom(h, B, C, M.Keys(s.rec), g);
      if !room && s.rec == [] then None
      else
        var s' := if room then s else Evict(s);
        if (!room && NoRoom(h, B, C, M.Keys(s'.rec), g)) || s'.stack == [] then None
        else Some(Load(s', g))
  }

  lemma FrameFreed(frameOf: map<int, int>, stack: seq<int>, n: nat, g: int)
    requires FramesOk(frameOf, stack, n) && g in frameOf
    ensures FramesOk(frameOf - {g}, stack + [frameOf[g]], n)
  {
    assert (frameOf - {g}).Keys == frameOf.Keys - {g};
  }

  lemma FrameTaken(frameOf: map<int, int>, stack: seq<int>, n: nat, g: int)
    requires FramesOk(frameOf, stack, n) && g !in frameOf && stack != []
    ensures FramesOk(frameOf[g := stack[|stack| - 1]], stack[..|stack| - 1], n)
  {
    assert frameOf[g := stack[|stack| - 1]].Keys == frameOf.Keys + {g};
  }

  lemma EvictOk<P>(h: int -> nat, B: nat, C: nat, s: PState<P>)
    requires Inv(h, B, C, s) && s.rec != []
    ensures Inv(h, B, C, Evict(s)) && Evict(s).rec == s.rec[..|s.rec| - 1] && |Evict(s).frames| == |s.frames|
    ensures forall g {:trigger Evict(s).frameOf[g]} :: g in Evict(s).frameOf ==> g in s.frameOf && Evict(s).frameOf[g] == s.frameOf[g]
  {
    hide FramesOk;
    var lru := s.rec[|s.rec| - 1];
    assert lru in M.Keys(s.rec);
    M.LastKey(s.rec);
    M.DropKeepsInv(h, B, C, s.rec);
    InFrames(s.frameOf, s.stack, |s.frames|, lru);
    FrameFreed(s.frameOf, s.stack, |s.frames|, lru);
  }

  lemma InFrames(frameOf: map<int, int>, stack: seq<int>, n: nat, g: int)
    requires FramesOk(frameOf, stack, n)
    ensures g in frameOf ==> 0 <= frameOf[g] < n
    ensures stack != [] ==> 0 <= stack[|stack| - 1] < n && (g in frameOf ==> frameOf[g] != stack[|stack| - 1])
    ensures |stack| + |frameOf.Keys| == n
  {
    assert |frameOf| == |frameOf.Keys|;
  }

  lemma EvictParts<P>(h: int -> nat, B: nat, C: nat, s: PState<P>)
    requires s.rec != []
    ensures Inv(h, B, C, s) ==>
      var lru := s.rec[|s.rec| - 1];
      && lru in s.frameOf && 0 <= s.frameOf[lru] < |s.frames| && |s.stack| < |s.frames|
      && Evict(s) == PState(s.rec[..|s.rec| - 1], s.frameOf - {lru}, s.frames, s.stack + [s.frameOf[lru]],
                            s.disk[lru := s.frames[s.frameOf[lru]]], s.zero)
  {
    if Inv(h, B, C, s) {
      var lru := s.rec[|s.rec| - 1];
      assert lru in M.Keys(s.rec);
      InFrames(s.frameOf, s.stack, |s.frames|, lru);
    }
  }

  lemma EvictHidden<P>(h: int -> nat, B: nat, C: nat, s: PState<P>, g: int)
    requires Inv(h, B, C, s) && s.rec != []
    ensures Logical(Evict(s), g) == Logical(s, g)
  {
  }

  lemma StackNotEmpty<P>(h: int -> nat, B: nat, C: nat, s: PState<P>, g: int)
    requires Inv(h, B, C, s) && g !in s.rec && !NoRoom(h, B, C, M.Keys(s.rec), g)
    ensures s.stack != [] && 0 <= s.stack[|s.stack| - 1] < |s.frames|
  {
    hide FramesOk;
    M.PushKeepsInv(h, B, C, s.rec, g);
    M.Capacity(h, B, C, [g] + s.rec);
    M.KeysCount(s.rec);
    InFrames(s.frameOf, s.stack, |s.frames|, g);
  }

  lemma LoadOk<P>(h: int -> nat, B: nat, C: nat, s: PState<P>, g: int)
    requires Inv(h, B, C, s) && g !in s.rec && !NoRoom(h, B, C, M.Keys(s.rec), g)
    ensures s.stack != [] && Inv(h, B, C, Load(s, g)) && Load(s, g).rec == [g] + s.rec && g in Load(s, g).frameOf
    ensures forall j {:trigger Load(s, g).frameOf[j]} :: j in s.frameOf ==> j in Load(s, g).frameOf && Load(s, g).frameOf[j] == s.frameOf[j]
  {
    hide FramesOk, NoRoom, M.Inv;
    StackNotEmpty(h, B, C, s, g);
    M.PushKeepsInv(h, B, C, s.rec, g);
    KeysPushed(s.rec, g);
    FrameTaken(s.frameOf, s.stack, |s.frames|, g);
    hide M.Keys;
    assert g !in s.frameOf;
  }

  lemma KeysPushed(rec: seq<int>, g: int)
    requires g !in rec
    ensures g !in M.Keys(rec) && M.Keys([g] + rec) == M.Keys(rec) + {g}
  {
  }

  lemma LoadHidden<P>(h: int -> nat, B: nat, C: nat, s: PState<P>, g: int, j: int)
    requires Inv(h, B, C, s) && g !in s.rec && s.stack != []
    ensures Logical(Load(s, g), j) == Logical(s, j)
  {
    assert g !in s.frameOf by { assert g !in M.Keys(s.rec); }
    InFrames(s.frameOf, s.stack, |s.frames|, j);
  }

  /** A touch succeeds exactly when the recency model's does; it keeps the frames of all pages that stay. */
  lemma TouchOk<P>(h: int -> nat, B: nat, C: nat, s: PState<P>, g: int)
    requires Inv(h, B, C, s)
    ensures Touch(h, B, C, s, g).Some? <==> M.Touch(h, B, C, s.rec, g).ok
    ensures Touch(h, B, C, s, g).Some? ==>
      var s' := Touch(h, B, C, s, g).value;
      && s'.rec == M.Touch(h, B, C, s.rec, g).rec && Inv(h, B, C, s') && g in s'.frameOf
      && (forall j {:trigger s'.frameOf[j]} :: j in s.frameOf && j in s'.rec ==> j in s'.frameOf && s'.frameOf[j] == s.frameOf[j])
  {
    hide FramesOk, Load, Evict, NoRoom;
    if g in s.rec {
      M.TouchKeepsInv(h, B, C, s.rec, g);
      assert M.Keys([g] + M.Without(s.rec, g)) == M.Keys(s.rec);
      assert g in M.Keys(s.rec);
    } else if !NoRoom(h, B, C, M.Keys(s.rec), g) {
      LoadOk(h, B, C, s, g);
    } else if s.rec != [] {
      EvictOk(h, B, C, s);
      var e := Evict(s);
      if !NoRoom(h, B, C, M.Keys(e.rec), g) {
        LoadOk(h, B, C, e, g);
        forall j | j in s.frameOf && j in Load(e, g).rec
          ensures j in Load(e, g).frameOf && Load(e, g).frameOf[j] == s.frameOf[j]
        {
          assert j in M.Keys(s.rec) && g !in M.Keys(s.rec);
          assert j in M.Keys(e.rec);
          assert j in e.frameOf && e.frameOf[j] == s.frameOf[j];
        }
      }
    }
  }

  /** Transparency: no successful touch changes what a program sees of any page. */
  lemma TouchHidden<P>(h: int -> nat, B: nat, C: nat, s: PState<P>, g: int, j: int)
    requires Inv(h, B, C, s) && Touch(h, B, C, s, g).Some?
    ensures Logical(Touch(h, B, C, s, g).value, j) == Logical(s, j)
  {
    hide FramesOk;
    if g !in s.rec {
      if !NoRoom(h, B, C, M.Keys(s.rec), g) {
        LoadHidden(h, B, C, s, g, j);
      } else {
        EvictOk(h, B, C, s);
        EvictHidden(h, B, C, s, j);
        assert g !in Evict(s).rec;
        LoadHidden(h, B, C, Evict(s), g, j);
      }
    }
  }

  // ----- whole runs

  /** A program touches pages, and stores into, loads from and flushes pages that are resident. */
  datatype Op<P> = DoTouch(g: int) | DoStore(g: int, page: P) | DoLoad(g: int) | DoFlush(g: int)

  /** The state after a run and the pages its loads returned. */
  datatype Ran<P> = Ran(state: PState<P>, log: seq<P>)

  function Step<P>(h: int -> nat, B: nat, C: nat, s: PState<P>, op: Op<P>): Option<Ran<P>>
    requires B > 0
  {
    match op
    case DoTouch(g) =>
      var r := Touch(h, B, C, s, g);
      if r.None? then None else Some(Ran(r.value, []))
    case DoStore(g, page) =>
      if g in s.frameOf && 0 <= s.frameOf[g] < |s.frames|
      then Some(Ran(s.(frames := s.frames[s.frameOf[g] := page]), [])) else None
    case DoLoad(g) =>
      if g in s.frameOf && 0 <= s.frameOf[g] < |s.frames| then Some(Ran(s, [s.frames[s.frameOf[g]]])) else None
    case DoFlush(g) =>
      if g in s.frameOf && 0 <= s.frameOf[g] < |s.frames|
      then Some(Ran(s.(disk := s.disk[g := s.frames[s.frameOf[g]]]), [])) else None
  }

  /** None when a step stops the program. */
  function Run<P>(h: int -> nat, B: nat, C: nat, s: PState<P>, ops: seq<Op<P>>): Option<Ran<P>>
    requires B > 0
    decreases |ops|
  {
    if ops == [] then Some(Ran(s, []))
    else
      var a := Step(h, B, C, s, ops[0]);
      if a.None? then None
      else
        var b := Run(h, B, C, a.value.state, ops[1..]);
        if b.None? then None else Some(Ran(b.value.state, a.value.log + b.value.log))
  }

  /** Page `g` in a plain store that starts as `s` shows it and into which `stored` was stored since. */
  function Plain<P>(s: PState<P>, stored: map<int, P>, g: int): P {
    if g in stored then stored[g] else Logical(s, g)
  }

  /** What the loads of a run return on that plain store. */
  function PlainLog<P>(s: PState<P>, stored: map<int, P>, ops: seq<Op<P>>): seq<P>
    decreases |ops|
  {
    if ops == [] then []
    else match ops[0]
    case DoStore(g, page) => PlainLog(s, stored[g := page], ops[1..])
    case DoLoad(g) => [Plain(s, stored, g)] + PlainLog(s, stored, ops[1..])
    case _ => PlainLog(s, stored, ops[1..])
  }

  lemma StepOk<P>(h: int -> nat, B: nat, C: nat, s: PState<P>, op: Op<P>)
    requires Inv(h, B, C, s) && Step(h, B, C, s, op).Some?
    ensures Inv(h, B, C, Step(h, B, C, s, op).value.state)
  {
    hide FramesOk;
    if op.DoTouch? {
      TouchOk(h, B, C, s, op.g);
    }
  }

  lemma StepSeen<P>(h: int -> nat, B: nat, C: nat, s: PState<P>, op: Op<P>, j: int)
    requires Inv(h, B, C, s) && Step(h, B, C, s, op).Some?
    ensures var r := Step(h, B, C, s, op).value;
      && Logical(r.state, j) == (if op.DoStore? && j == op.g then op.page else Logical(s, j))
      && r.log == (if op.DoLoad? then [Logical(s, op.g)] else [])
  {
    if op.DoTouch? {
      TouchHidden(h, B, C, s, op.g, j);
    }
  }

  lemma {:induction false} RunSeen<P>(h: int -> nat, B: nat, C: nat, s: PState<P>, stored: map<int, P>, t: PState<P>, ops: seq<Op<P>>)
    requires B > 0 && Inv(h, B, C, t) && Run(h, B, C, t, ops).Some?
    requires forall j {:trigger Logical(t, j)} :: Logical(t, j) == Plain(s, stored, j)
    ensures Run(h, B, C, t, ops).value.log == PlainLog(s, stored, ops)
    ensures Inv(h, B, C, Run(h, B, C, t, ops).value.state)
    decreases |ops|
  {
    hide Inv, Logical, Step;
    if ops != [] {
      var op := ops[0];
      var u := Step(h, B, C, t, op).value.state;
      var stored' := if op.DoStore? then stored[op.g := op.page] else stored;
      StepOk(h, B, C, t, op);
      StepSeen(h, B, C, t, op, op.g);
      forall j {:trigger Logical(u, j)} ensures Logical(u, j) == Plain(s, stored', j) {
        StepSeen(h, B, C, t, op, j);
      }
      RunSeen(h, B, C, s, stored', u, ops[1..]);
    }
  }

  /** Over any run that is not stopped, a load returns the last page stored, or else the one seen at the start. */
  lemma RunIsPlain<P>(h: int -> nat, B: nat, C: nat, s: PState<P>, ops: seq<Op<P>>)
    requires Inv(h, B, C, s) && Run(h, B, C, s, ops).Some?
    ensures Run(h, B, C, s, ops).value.log == PlainLog(s, map[], ops)
  {
    RunSeen(h, B, C, s, map[], s, ops);
  }

  // ----- what is on disk

  /** A flush puts what programs see of its page on the disk, and no other page; so that is what they see of it in any
      state with this disk and an empty cache. */
  lemma FlushReachesDisk<P>(h: int -> nat, B: nat, C: nat, s: PState<P>, g: int, t: PState<P>, j: int)
    requires Inv(h, B, C, s)
    ensures Step(h, B, C, s, DoFlush(g)).Some? <==> g in s.frameOf
    ensures g in s.frameOf ==>
      var f := Step(h, B, C, s, DoFlush(g)).value.state;
      && OnDisk(f, j) == (if j == g then Logical(s, g) else OnDisk(s, j)) && Logical(f, j) == Logical(s, j)
      && (t.frameOf == map[] && t.disk == f.disk && t.zero == f.zero ==> Logical(t, g) == Logical(s, g))
  {
    if g in s.frameOf {
      FrameInRange(h, B, C, s, g);
    }
  }

  // ----- frames that stay put

  function TouchAll<P>(h: int -> nat, B: nat, C: nat, s: PState<P>, ks: seq<int>): Option<PState<P>>
    requires B > 0
    decreases |ks|
  {
    if ks == [] then Some(s)
    else
      var a := Touch(h, B, C, s, ks[0]);
      if a.None? then None else TouchAll(h, B, C, a.value, ks[1..])
  }

  lemma {:induction false} FrameStaysIn<P>(h: int -> nat, B: nat, C: nat, s: PState<P>, g: int, ks: seq<int>, w: set<int>)
    requires Inv(h, B, C, s) && g in s.rec && g in s.frameOf && M.Ahead(s.rec, g) <= w
    requires g !in w && |w| <= C && (forall x {:trigger x in ks} :: x in ks ==> x == g || x in w)
    requires TouchAll(h, B, C, s, ks).Some?
    ensures var s' := TouchAll(h, B, C, s, ks).value; g in s'.frameOf && s'.frameOf[g] == s.frameOf[g]
    decreases |ks|
  {
    hide FramesOk, NoRoom;
    if ks != [] {
      assert ks[0] in ks;
      TouchOk(h, B, C, s, ks[0]);
      M.TouchKeepsWorkingSet(h, B, C, s.rec, g, ks[0], w);
      assert forall x {:trigger x in ks[1..]} :: x in ks[1..] ==> x in ks;
      FrameStaysIn(h, B, C, Touch(h, B, C, s, ks[0]).value, g, ks[1..], w);
    }
  }

  /** A page just touched keeps its frame through any successful touches of at most `C` other pages. */
  lemma FrameStays<P>(h: int -> nat, B: nat, C: nat, s: PState<P>, g: int, ks: seq<int>)
    requires Inv(h, B, C, s) && Touch(h, B, C, s, g).Some? && |M.Keys(ks) - {g}| <= C
    requires TouchAll(h, B, C, Touch(h, B, C, s, g).value, ks).Some?
    ensures var a := Touch(h, B, C, s, g).value;
      var b := TouchAll(h, B, C, a, ks).value;
      g in a.frameOf && g in b.frameOf && b.frameOf[g] == a.frameOf[g]
  {
    hide FramesOk, NoRoom, TouchAll, Touch, M.Touch, M.Keys, M.Ahead;
    TouchOk(h, B, C, s, g);
    InFront(h, B, C, s.rec, g);
    AllNamed(ks, g);
    FrameStaysIn(h, B, C, Touch(h, B, C, s, g).value, g, ks, M.Keys(ks) - {g});
  }

  /** A page just touched has nothing ahead of it. */
  lemma InFront(h: int -> nat, B: nat, C: nat, rec: seq<int>, g: int)
    requires B > 0 && M.Touch(h, B, C, rec, g).ok
    ensures var r := M.Touch(h, B, C, rec, g).rec; g in r && M.Ahead(r, g) == {}
  {
    hide NoRoom, M.Without;
    var r := M.Touch(h, B, C, rec, g).rec;
    assert r[0] == g;
  }

  lemma AllNamed(ks: seq<int>, g: int)
    ensures forall x {:trigger x in ks} :: x in ks ==> x == g || x in M.Keys(ks) - {g}
  {
  }

  // ----- writing through a frame remembered from before

  /** The frame `f` is written, whatever page it now belongs to. */
  function WriteFrame<P>(s: PState<P>, f: int, page: P): PState<P> {
    if 0 <= f < |s.frames| then s.(frames := s.frames[f := page]) else s
  }

  /** A frame written through a remembered index is the contents of whichever page has that frame, and of no other. */
  lemma WriteReaches<P>(h: int -> nat, B: nat, C: nat, s: PState<P>, f: int, page: P, j: int)
    requires Inv(h, B, C, s) && 0 <= f < |s.frames|
    ensures Logical(WriteFrame(s, f, page), j) == if j in s.frameOf && s.frameOf[j] == f then page else Logical(s, j)
  {
    InFrames(s.frameOf, s.stack, |s.frames|, j);
  }

  /** A page's frame, remembered while at most `C` other pages are touched, is still that page's: the write goes there. */
  lemma RememberedFrame<P>(h: int -> nat, B: nat, C: nat, s: PState<P>, g: int, ks: seq<int>, page: P, j: int)
    requires Inv(h, B, C, s) && Touch(h, B, C, s, g).Some? && |M.Keys(ks) - {g}| <= C
    requires TouchAll(h, B, C, Touch(h, B, C, s, g).value, ks).Some?
    ensures var a := Touch(h, B, C, s, g).value;
      var b := TouchAll(h, B, C, a, ks).value;
      && g in a.frameOf && Inv(h, B, C, b) && 0 <= a.frameOf[g] < |b.frames|
      && Logical(WriteFrame(b, a.frameOf[g], page), j) == if j == g then page else Logical(s, j)
  {
    hide FramesOk, Logical, WriteFrame, Touch;
    TouchOk(h, B, C, s, g);
    var a := Touch(h, B, C, s, g).value;
    var b := TouchAll(h, B, C, a, ks).value;
    FrameStays(h, B, C, s, g, ks);
    TouchAllHidden(h, B, C, a, ks, j);
    TouchHidden(h, B, C, s, g, j);
    FrameInRange(h, B, C, b, g);
    WriteReaches(h, B, C, b, a.frameOf[g], page, j);
    if j != g && j in b.frameOf {
      FramesApart(h, B, C, b, g, j);
    }
  }

  /** Whatever was touched in between: a write through the remembered frame is the change of page `g` and of no other if
      and only if `g` is resident, in that frame. `page` is any page that would be a change. */
  lemma RememberedExactly<P>(h: int -> nat, B: nat, C: nat, s: PState<P>, g: int, ks: seq<int>, page: P)
    requires Inv(h, B, C, s) && Touch(h, B, C, s, g).Some? && page != Logical(s, g)
    requires TouchAll(h, B, C, Touch(h, B, C, s, g).value, ks).Some?
    ensures var a := Touch(h, B, C, s, g).value;
      var b := TouchAll(h, B, C, a, ks).value;
      && g in a.frameOf
      && ((forall j :: Logical(WriteFrame(b, a.frameOf[g], page), j) == if j == g then page else Logical(s, j))
          <==> g in b.frameOf && b.frameOf[g] == a.frameOf[g])
  {
    hide FramesOk, Logical, WriteFrame, Touch;
    TouchOk(h, B, C, s, g);
    var a := Touch(h, B, C, s, g).value;
    var b := TouchAll(h, B, C, a, ks).value;
    var f := a.frameOf[g];
    FrameInRange(h, B, C, a, g);
    TouchAllHidden(h, B, C, a, ks, g);
    forall j
      ensures Logical(b, j) == Logical(s, j)
      ensures Logical(WriteFrame(b, f, page), j) == if j in b.frameOf && b.frameOf[j] == f then page else Logical(b, j)
    {
      TouchAllHidden(h, B, C, a, ks, j);
      TouchHidden(h, B, C, s, g, j);
      WriteReaches(h, B, C, b, f, page, j);
    }
    if g in b.frameOf && b.frameOf[g] == f {
      forall j | j != g && j in b.frameOf
        ensures b.frameOf[j] != f
      {
        FramesApart(h, B, C, b, g, j);
      }
    } else {
      assert Logical(WriteFrame(b, f, page), g) != page;
    }
  }

  /** What the remembered frame holds when it is written. */
  lemma RememberedPage<P>(h: int -> nat, B: nat, C: nat, s: PState<P>, g: int, ks: seq<int>)
    requires Inv(h, B, C, s) && Touch(h, B, C, s, g).Some? && |M.Keys(ks) - {g}| <= C
    requires TouchAll(h, B, C, Touch(h, B, C, s, g).value, ks).Some?
    ensures var a := Touch(h, B, C, s, g).value;
      var b := TouchAll(h, B, C, a, ks).value;
      g in a.frameOf && 0 <= a.frameOf[g] < |b.frames| && b.frames[a.frameOf[g]] == Logical(s, g)
  {
    hide FramesOk, Touch;
    TouchOk(h, B, C, s, g);
    var a := Touch(h, B, C, s, g).value;
    FrameStays(h, B, C, s, g, ks);
    TouchAllHidden(h, B, C, a, ks, g);
    TouchHidden(h, B, C, s, g, g);
    FrameInRange(h, B, C, TouchAll(h, B, C, a, ks).value, g);
  }

  lemma FrameInRange<P>(h: int -> nat, B: nat, C: nat, s: PState<P>, g: int)
    requires Inv(h, B, C, s) && g in s.frameOf
    ensures 0 <= s.frameOf[g] < |s.frames|
  {
  }

  lemma FramesApart<P>(h: int -> nat, B: nat, C: nat, s: PState<P>, g: int, j: int)
    requires Inv(h, B, C, s) && g in s.frameOf && j in s.frameOf && j != g
    ensures s.frameOf[j] != s.frameOf[g]
  {
  }

  lemma {:induction false} TouchAllHidden<P>(h: int -> nat, B: nat, C: nat, s: PState<P>, ks: seq<int>, j: int)
    requires Inv(h, B, C, s) && TouchAll(h, B, C, s, ks).Some?
    ensures var b := TouchAll(h, B, C, s, ks).value; Inv(h, B, C, b) && Logical(b, j) == Logical(s, j)
    decreases |ks|
  {
    hide FramesOk, Logical;
    if ks != [] {
      TouchOk(h, B, C, s, ks[0]);
      TouchHidden(h, B, C, s, ks[0], j);
      TouchAllHidden(h, B, C, Touch(h, B, C, s, ks[0]).value, ks[1..], j);
    }
  }

  lemma TouchAllHead<P>(h: int -> nat, B: nat, C: nat, s: PState<P>, k: int, ks: seq<int>)
    requires B > 0
    ensures TouchAll(h, B, C, s, [k] + ks)
      == if Touch(h, B, C, s, k).None? then None else TouchAll(h, B, C, Touch(h, B, C, s, k).value, ks)
  {
    hide Touch;
    assert ([k] + ks)[1..] == ks;
  }

  lemma {:induction false} TouchAllStops<P>(h: int -> nat, B: nat, C: nat, s: PState<P>, ks: seq<int>, n: nat)
    requires B > 0 && n <= |ks| && TouchAll(h, B, C, s, ks[..n]).None?
    ensures TouchAll(h, B, C, s, ks).None?
    decreases n
  {
    hide Touch;
    if n > 0 && Touch(h, B, C, s, ks[0]).Some? {
      assert ks[..n][1..] == ks[1..][..n - 1];
      TouchAllStops(h, B, C, Touch(h, B, C, s, ks[0]).value, ks[1..], n - 1);
    }
  }

  lemma {:induction false} TouchAllSnoc<P>(h: int -> nat, B: nat, C: nat, s: PState<P>, ks: seq<int>, k: int)
    requires B > 0 && TouchAll(h, B, C, s, ks).Some?
    ensures TouchAll(h, B, C, s, ks + [k]) == Touch(h, B, C, TouchAll(h, B, C, s, ks).value, k)
    decreases |ks|
  {
    hide Touch;
    if ks == [] {
      assert ks + [k] == [k];
    } else {
      TouchAllSnoc(h, B, C, Touch(h, B, C, s, ks[0]).value, ks[1..], k);
      assert (ks + [k])[1..] == ks[1..] + [k];
    }
  }

  // ----- how many are too many

  lemma OneBucketRoom(h: int -> nat, C: nat, rec: seq<int>, k: int)
    requires NoDup(rec) && k !in rec
    ensures NoRoom(h, 1, C, M.Keys(rec), k) <==> |rec| == C + 1
  {
    M.KeysCount(rec);
    var keys := M.Keys(rec);
    if rec == [] {
      assert Occupied(h, 1, keys) == {};
    } else {
      assert rec[0] in keys && Bucket(h, 1, rec[0]) == 0;
      assert Occupied(h, 1, keys) == {0};
    }
  }

  /** An empty cache of one bucket fills up without an eviction, the first page last in the order. */
  lemma {:induction false} Filled<P>(h: int -> nat, C: nat, s: PState<P>, g: int, ks: seq<int>)
    requires Inv(h, 1, C, s) && s.rec == [] && NoDup([g] + ks) && |ks| <= C
    ensures TouchAll(h, 1, C, s, [g] + ks).Some?
    ensures var t := TouchAll(h, 1, C, s, [g] + ks).value;
      && Inv(h, 1, C, t) && |t.rec| == |ks| + 1 && t.rec[|ks|] == g && M.Keys(t.rec) == {g} + M.Keys(ks)
      && Touch(h, 1, C, s, g).Some? && g in Touch(h, 1, C, s, g).value.frameOf
      && g in t.frameOf && t.frameOf[g] == Touch(h, 1, C, s, g).value.frameOf[g]
    decreases |ks|
  {
    hide Inv, Touch, TouchAll, NoDup, M.Keys;
    if ks == [] {
      FirstIn(h, C, s, g);
      assert [g] + ks == [g];
      TouchAllHead(h, 1, C, s, g, []);
      NothingTouched(h, 1, C, Touch(h, 1, C, s, g).value);
    } else {
      var n := |ks| - 1;
      var k, before := ks[n], ks[..n];
      FewerNoDup(g, ks);
      Filled(h, C, s, g, before);
      var t := TouchAll(h, 1, C, s, [g] + before).value;
      NextIn(h, C, t, g, k);
      TouchAllSnoc(h, 1, C, s, [g] + before, k);
      assert [g] + before + [k] == [g] + ks;
    }
  }

  lemma FirstIn<P>(h: int -> nat, C: nat, s: PState<P>, g: int)
    requires Inv(h, 1, C, s) && s.rec == []
    ensures Touch(h, 1, C, s, g).Some?
    ensures var t := Touch(h, 1, C, s, g).value;
      Inv(h, 1, C, t) && t.rec == [g] && M.Keys(t.rec) == {g} + M.Keys([]) && g in t.frameOf
  {
    hide FramesOk, Touch, NoRoom;
    OneBucketRoom(h, C, [], g);
    TouchOk(h, 1, C, s, g);
  }

  lemma NextIn<P>(h: int -> nat, C: nat, t: PState<P>, g: int, k: int)
    requires Inv(h, 1, C, t) && 0 < |t.rec| <= C && t.rec[|t.rec| - 1] == g && g in t.frameOf && k !in M.Keys(t.rec)
    ensures Touch(h, 1, C, t, k).Some?
    ensures var u := Touch(h, 1, C, t, k).value;
      && Inv(h, 1, C, u) && |u.rec| == |t.rec| + 1 && u.rec[|t.rec|] == g && M.Keys(u.rec) == M.Keys(t.rec) + {k}
      && g in u.frameOf && u.frameOf[g] == t.frameOf[g]
  {
    hide FramesOk, Touch, NoRoom, M.Without;
    InFrontOf(t.rec, k);
    OneBucketRoom(h, C, t.rec, k);
    TouchOk(h, 1, C, t, k);
    hide Inv, M.Keys;
    var u := Touch(h, 1, C, t, k).value;
    assert u.rec == [k] + t.rec;
  }

  lemma InFrontOf(rec: seq<int>, k: int)
    requires rec != [] && k !in M.Keys(rec)
    ensures k !in rec && M.Keys([k] + rec) == M.Keys(rec) + {k}
    ensures rec[|rec| - 1] in [k] + rec && ([k] + rec)[|rec|] == rec[|rec| - 1]
  {
    assert ([k] + rec)[|rec|] == rec[|rec| - 1];
  }

  lemma NothingTouched<P>(h: int -> nat, B: nat, C: nat, s: PState<P>)
    requires B > 0
    ensures TouchAll(h, B, C, s, []) == Some(s)
  {
  }

  lemma FewerNoDup(g: int, ks: seq<int>)
    requires NoDup([g] + ks) && ks != []
    ensures var n := |ks| - 1;
      && NoDup([g] + ks[..n]) && ks[n] !in {g} + M.Keys(ks[..n])
      && {g} + M.Keys(ks) == ({g} + M.Keys(ks[..n])) + {ks[n]}
  {
    assert ks == ks[..|ks| - 1] + [ks[|ks| - 1]];
    var n := |ks| - 1;
    var all, fewer := [g] + ks, [g] + ks[..n];
    assert forall i :: 0 <= i < |fewer| ==> fewer[i] == all[i];
    assert all[0] == g && all[n + 1] == ks[n];
    assert forall i :: 0 <= i < n ==> ks[..n][i] == all[i + 1];
  }

  /** The bound is tight: after one more page than there are chain nodes, in an empty cache of one bucket, the frame
      remembered for the first page is the last page's. */
  lemma FrameReused<P>(h: int -> nat, C: nat, s: PState<P>, g: int, ks: seq<int>)
    requires Inv(h, 1, C, s) && s.rec == [] && NoDup([g] + ks) && |ks| == C + 1
    ensures Touch(h, 1, C, s, g).Some? && TouchAll(h, 1, C, s, [g] + ks).Some?
    ensures var a, b := Touch(h, 1, C, s, g).value, TouchAll(h, 1, C, s, [g] + ks).value;
      g in a.frameOf && g !in b.frameOf && ks[C] in b.frameOf && b.frameOf[ks[C]] == a.frameOf[g]
  {
    hide Inv, Touch, TouchAll, NoDup, M.Keys;
    var k, before := ks[C], ks[..C];
    FewerNoDup(g, ks);
    Filled(h, C, s, g, before);
    var t := TouchAll(h, 1, C, s, [g] + before).value;
    TouchAllSnoc(h, 1, C, s, [g] + before, k);
    assert [g] + before + [k] == [g] + ks;
    Displaced(h, C, t, g, k);
  }

  lemma Displaced<P>(h: int -> nat, C: nat, t: PState<P>, g: int, k: int)
    requires Inv(h, 1, C, t) && |t.rec| == C + 1 && t.rec[C] == g && k !in M.Keys(t.rec)
    ensures Touch(h, 1, C, t, k).Some? && g in t.frameOf
    ensures var b := Touch(h, 1, C, t, k).value;
      g !in b.frameOf && k in b.frameOf && b.frameOf[k] == t.frameOf[g]
  {
    hide FramesOk, NoRoom;
    assert g in M.Keys(t.rec) && k !in t.rec;
    OneBucketRoom(h, C, t.rec, k);
    EvictOk(h, 1, C, t);
    var e := Evict(t);
    assert e.rec == t.rec[..C] && k !in e.rec;
    OneBucketRoom(h, C, e.rec, k);
    InFrames(t.frameOf, t.stack, |t.frames|, g);
    EvictedFrame(h, C, t, g);
  }

  lemma EvictedFrame<P>(h: int -> nat, C: nat, t: PState<P>, g: int)
    requires Inv(h, 1, C, t) && |t.rec| == C + 1 && t.rec[C] == g
    ensures var e := Evict(t);
      g in t.frameOf && g !in e.frameOf && e.stack == t.stack + [t.frameOf[g]] && 0 <= t.frameOf[g] < |e.frames|
  {
    assert g in M.Keys(t.rec);
  }

  /** So a write meant for the first page lands in the last one. */
  lemma StaleWrite<P>(h: int -> nat, C: nat, s: PState<P>, g: int, ks: seq<int>, page: P)
    requires Inv(h, 1, C, s) && s.rec == [] && NoDup([g] + ks) && |ks| == C + 1
    ensures Touch(h, 1, C, s, g).Some? && TouchAll(h, 1, C, s, [g] + ks).Some?
    ensures var a, b := Touch(h, 1, C, s, g).value, TouchAll(h, 1, C, s, [g] + ks).value;
      && g in a.frameOf
      && var w := WriteFrame(b, a.frameOf[g], page);
      Logical(w, ks[C]) == page && Logical(w, g) == Logical(s, g)
  {
    hide FramesOk, Touch, TouchAll, Logical, WriteFrame, NoDup;
    FrameReused(h, C, s, g, ks);
    TouchAllHidden(h, 1, C, s, [g] + ks, g);
    var a, b := Touch(h, 1, C, s, g).value, TouchAll(h, 1, C, s, [g] + ks).value;
    FrameInRange(h, 1, C, b, ks[C]);
    WriteReaches(h, 1, C, b, a.frameOf[g], page, ks[C]);
    WriteReaches(h, 1, C, b, a.frameOf[g], page, g);
  }
}
