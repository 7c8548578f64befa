/** The page cache: a cache of page numbers whose entries name page frames, a stack of the
    unused frames, and the disk behind the cache of file descriptors. */
module PageCaching {
  import opened Sequences
  import opened Buckets
  import opened IndexCache
  import opened FdCaching
  import L = IndexList
  import H = IndexHash
  import M = LruModel
  import P = PageModel

  const FILE_IDS: nat := 0x100_0000_0000  // 2^40

  /** A page's number carries its file in the low 40 bits and its place in the file above them. */
  function FileOf(g: int): nat {
    g % FILE_IDS
  }

  function PageNo(g: nat): nat {
    g / FILE_IDS
  }

  function MakeGid(file: int, page: nat): int {
    file + page * FILE_IDS
  }

  lemma GidSplit(g: nat)
    ensures MakeGid(FileOf(g), PageNo(g)) == g
  {
  }

  /** The disk as a map of full pages; a page never written reads as `zero`. */
  class Disk<Page> {
    const zero: Page
    var pages: map<int, Page>

    constructor (zero: Page, pages: map<int, Page>)
      ensures this.zero == zero && this.pages == pages
    {
      this.zero, this.pages := zero, pages;
    }

    method Pread(os: Os, fd: int, page: nat) returns (p: Page)
      requires fd in os.open
      ensures p == if MakeGid(os.open[fd], page) in pages then pages[MakeGid(os.open[fd], page)] else zero
    {
      var g := MakeGid(os.open[fd], page);
      p := if g in pages then pages[g] else zero;
    }

    method Pwrite(os: Os, fd: int, page: nat, p: Page)
      requires fd in os.open
      modifies this
      ensures pages == old(pages)[MakeGid(os.open[fd], page) := p]
    {
      pages := pages[MakeGid(os.open[fd], page) := p];
    }
  }

  lemma Flushed<T>(h: int -> nat, B: nat, C: nat, s: P.PState<T>, g: int)
    requires B > 0 && g in s.frameOf && 0 <= s.frameOf[g] < |s.frames|
    ensures P.Step(h, B, C, s, P.DoFlush(g)) == Some(P.Ran(s.(disk := s.disk[g := s.frames[s.frameOf[g]]]), []))
  {
  }

  /** Programs see the same pages. */
  ghost predicate SameContents<Page>(s: P.PState<Page>, t: P.PState<Page>) {
    forall j {:trigger P.Logical(t, j)} :: P.Logical(t, j) == P.Logical(s, j)
  }

  lemma TouchedContents<Page>(h: int -> nat, B: nat, C: nat, s: P.PState<Page>, ks: seq<int>)
    requires B > 0 && P.Inv(h, B, C, s) && P.TouchAll(h, B, C, s, ks).Some?
    ensures SameContents(s, P.TouchAll(h, B, C, s, ks).value)
  {
    hide P.Inv, P.TouchAll, P.Logical;
    forall j {:trigger P.Logical(P.TouchAll(h, B, C, s, ks).value, j)}
      ensures P.Logical(P.TouchAll(h, B, C, s, ks).value, j) == P.Logical(s, j)
    {
      P.TouchAllHidden(h, B, C, s, ks, j);
    }
  }

  lemma FlagsOnly(ks: seq<int>, flags: int)
    requires forall i :: 0 <= i < |ks| ==> ks[i] == flags
    ensures forall g {:trigger M.Keys(ks) - {g}} :: |M.Keys(ks) - {g}| <= 1
  {
    forall g {:trigger M.Keys(ks) - {g}}
      ensures |M.Keys(ks) - {g}| <= 1
    {
      var x := M.Keys(ks) - {g};
      if flags in x {
        assert x == {flags};
      } else {
        assert x == {};
      }
    }
  }

  /** The two asserted conditions that stop the program, or the slot of the resident page's entry. */
  datatype Outcome = Resident(e: int) | NoDescriptor | NoNode

  /** Whether a touch makes its page resident or which asserted condition stops it, and the order of the descriptor
      cache afterwards. */
  datatype Fate = Arrives(fds: seq<int>) | LacksDescriptor(fds: seq<int>) | LacksNode(fds: seq<int>)

  /** A page is read in: its file needs a descriptor. */
  function Reading(t: Table, fds: seq<int>, g: int, granted: bool): Fate
    requires t.B > 0
  {
    var r := Reached(t, fds, FileOf(g), granted);
    if r.ok then Arrives(r.rec) else LacksDescriptor(r.rec)
  }

  /** A touch of page `g` over the order `rec`, before a descriptor cache of table `t` and order `fds`. An eviction needs
      a descriptor of the evicted page's file first. */
  function FateOf(h: int -> nat, B: nat, C: nat, rec: seq<int>, t: Table, fds: seq<int>, g: int,
                  grantedWrite: bool, grantedRead: bool): Fate
    requires B > 0 && t.B > 0
  {
    if g in rec then Arrives(fds)
    else if !NoRoom(h, B, C, M.Keys(rec), g) then Reading(t, fds, g, grantedRead)
    else if rec == [] then LacksNode(fds)
    else
      var w := Reached(t, fds, FileOf(rec[|rec| - 1]), grantedWrite);
      if !w.ok then LacksDescriptor(w.rec)
      else if NoRoom(h, B, C, M.Keys(rec[..|rec| - 1]), g) then LacksNode(w.rec)
      else Reading(t, w.rec, g, grantedRead)
  }

  /** The files whose descriptors a touch may ask for can all be had, in whatever order they are asked for. */
  ghost predicate DescriptorsSuffice(t: Table) {
    t.B > 0 && forall fds, f :: M.Inv(t.h, t.B, t.C, fds) ==> M.Touch(t.h, t.B, t.C, fds, f).ok
  }

  /** When the kernel grants every file and the descriptor cache never refuses one, a touch does exactly what the page
      model does; in any case it never does more. */
  lemma FateIsTouch<Page>(h: int -> nat, B: nat, C: nat, s: P.PState<Page>, t: Table, fds: seq<int>, g: int,
                          grantedWrite: bool, grantedRead: bool)
    requires P.Inv(h, B, C, s) && t.B > 0
    ensures var f := FateOf(h, B, C, s.rec, t, fds, g, grantedWrite, grantedRead);
      && (f.Arrives? ==> P.Touch(h, B, C, s, g).Some?)
      && (f.LacksNode? ==> P.Touch(h, B, C, s, g).None?)
      && (grantedWrite && grantedRead && DescriptorsSuffice(t) && M.Inv(t.h, t.B, t.C, fds) ==>
           (f.Arrives? <==> P.Touch(h, B, C, s, g).Some?))
  {
    hide P.Touch, P.FramesOk, FateOf, DescriptorsSuffice;
    P.TouchOk(h, B, C, s, g);
    FateIsLruTouch(h, B, C, s.rec, t, fds, g, grantedWrite, grantedRead);
  }

  lemma FateIsLruTouch(h: int -> nat, B: nat, C: nat, rec: seq<int>, t: Table, fds: seq<int>, g: int,
                       grantedWrite: bool, grantedRead: bool)
    requires B > 0 && t.B > 0
    ensures var f := FateOf(h, B, C, rec, t, fds, g, grantedWrite, grantedRead);
      && (f.Arrives? ==> M.Touch(h, B, C, rec, g).ok)
      && (f.LacksNode? ==> !M.Touch(h, B, C, rec, g).ok)
      && (grantedWrite && grantedRead && DescriptorsSuffice(t) && M.Inv(t.h, t.B, t.C, fds) ==>
           (f.Arrives? <==> M.Touch(h, B, C, rec, g).ok))
  {
    hide NoRoom, M.Inv, M.Without;
    if g !in rec && rec != [] && M.Inv(t.h, t.B, t.C, fds) {
      M.TouchKeepsInv(t.h, t.B, t.C, fds, FileOf(rec[|rec| - 1]));
    }
  }

  /** A descriptor cache with a single bucket suffices. */
  lemma OneBucketSuffices(t: Table)
    requires t.B == 1
    ensures DescriptorsSuffice(t)
  {
    forall fds, f | M.Inv(t.h, t.B, t.C, fds)
      ensures M.Touch(t.h, t.B, t.C, fds, f).ok
    {
      M.OneBucketNeverFails(t.h, t.C, fds, f);
    }
  }

  function FrameMap(m: map<int, CEntry<int>>): map<int, int> {
    map k | k in m :: m[k].user
  }

  lemma StackPushed(lns: seq<L.Node<int>>, ls: seq<L.Node<int>>, order: seq<int>, x: int, v: int)
    requires L.KeepsValues(lns, ls, x) && InPool(|lns|, order) && x !in order
    requires 0 <= x < |ls| && ls[x].value == v
    ensures Order(ls, order + [x]) == Order(lns, order) + [v]
  {
    assert forall i {:trigger order[i]} :: 0 <= i < |order| ==> order[i] != x;
  }

  lemma StackPopped(lns: seq<L.Node<int>>, ls: seq<L.Node<int>>, order: seq<int>)
    requires L.KeepsValues(lns, ls, -1) && InPool(|lns|, order) && order != []
    ensures Order(ls, order[..|order| - 1]) == Order(lns, order)[..|order| - 1]
  {
  }

  /** Page `g` was changed, as programs see it, and no other page. */
  ghost predicate Reaches<Page>(s: P.PState<Page>, s': P.PState<Page>, g: int, change: Page -> Page) {
    forall j :: P.Logical(s', j) == if j == g then change(P.Logical(s, g)) else P.Logical(s, j)
  }

  lemma RememberedWrite<Page>(h: int -> nat, B: nat, C: nat, s: P.PState<Page>, g: int, ks: seq<int>, change: Page -> Page)
    requires P.Inv(h, B, C, s) && P.Touch(h, B, C, s, g).Some? && |M.Keys(ks) - {g}| <= C
    requires P.TouchAll(h, B, C, P.Touch(h, B, C, s, g).value, ks).Some?
    ensures var a := P.Touch(h, B, C, s, g).value;
      var b := P.TouchAll(h, B, C, a, ks).value;
      && g in a.frameOf && 0 <= a.frameOf[g] < |b.frames|
      && Reaches(s, P.WriteFrame(b, a.frameOf[g], change(b.frames[a.frameOf[g]])), g, change)
  {
    hide P.Touch, P.TouchAll, P.FramesOk, P.WriteFrame, P.Logical;
    P.RememberedPage(h, B, C, s, g, ks);
    var page := change(P.Logical(s, g));
    forall j
      ensures P.Logical(P.WriteFrame(P.TouchAll(h, B, C, P.Touch(h, B, C, s, g).value, ks).value,
                                     P.Touch(h, B, C, s, g).value.frameOf[g], page), j)
        == if j == g then page else P.Logical(s, j)
    {
      P.RememberedFrame(h, B, C, s, g, ks, page, j);
    }
  }

  class PageCache<Page(0)> {
    const cache: ICache<int>
    const stack: L.IList<int>
    const frames: array<Page>
    const fds: FdCache
    const disk: Disk<Page>

    /** The parts share no memory. */
    ghost predicate Separate() {
      && cache.hash != fds.cache.hash && cache.hash.nodes != fds.cache.hash.nodes
      && cache.list != fds.cache.list && cache.list.nodes != fds.cache.list.nodes
      && stack != cache.list && stack != fds.cache.list
      && stack.nodes != cache.list.nodes && stack.nodes != fds.cache.list.nodes
      && stack.nodes as object != cache.hash.nodes && stack.nodes as object != fds.cache.hash.nodes
      && cache.list.nodes as object != fds.cache.hash.nodes && fds.cache.list.nodes as object != cache.hash.nodes
      && frames as object != cache.hash.nodes && frames as object != cache.list.nodes && frames as object != stack.nodes
      && frames as object != fds.cache.hash.nodes && frames as object != fds.cache.list.nodes
    }

    ghost function Stack(): seq<int>
      requires stack.Valid()
      reads stack, stack.nodes
    {
      Order(stack.nodes[..], stack.order)
    }

    method PushFrame(f: int)
      requires stack.Valid() && |stack.order| < stack.nodes.Length
      modifies stack, stack.nodes
      ensures stack.Valid() && Stack() == old(Stack()) + [f]
    {
      hide L.Linked, L.KeepsValues, NoDup;
      ghost var lns, order := stack.nodes[..], stack.order;
      L.FreeRoom(lns, order, stack.free);
      var x := stack.PutBack(f);
      StackPushed(lns, stack.nodes[..], order, x, f);
    }

    method PopFrame() returns (f: int)
      requires stack.Valid() && stack.order != []
      modifies stack, stack.nodes
      ensures stack.Valid() && f == old(Stack()[|Stack()| - 1]) && Stack() == old(Stack())[..|old(Stack())| - 1]
    {
      hide L.Linked, L.KeepsValues, NoDup;
      ghost var lns, order := stack.nodes[..], stack.order;
      L.FreeRoom(lns, order, stack.free);
      f := stack.PopBack();
      StackPopped(lns, stack.nodes[..], order);
    }

    /** The frame goes to disk as page `g` and onto the stack of unused frames. */
    method WriteBack(g: nat, f: int, granted: bool) returns (ok: bool)
      requires Separate() && fds.Valid() && stack.Valid() && 0 <= f < frames.Length
      requires |stack.order| < stack.nodes.Length
      modifies fds.os, fds.cache.hash, fds.cache.hash.nodes, fds.cache.list, fds.cache.list.nodes
      modifies disk, stack, stack.nodes
      ensures fds.Valid() && stack.Valid() && fds.Sizes() == old(fds.Sizes())
      ensures var r := Reached(fds.Sizes(), old(fds.cache.Recency()), FileOf(g), granted);
        fds.cache.Recency() == r.rec && (ok <==> r.ok)
      ensures ok ==> disk.pages == old(disk.pages)[g := frames[f]] && Stack() == old(Stack()) + [f]
    {
      hide L.IList.Valid, FdCache.Valid, Reached;
      var fd := fds.Descriptor(FileOf(g), granted);
      if fd == -1 {
        return false;
      }
      disk.Pwrite(fds.os, fd, PageNo(g), frames[f]);
      PushFrame(f);
      ok := true;
    }

    /** Page `g` is read from disk into the frame on top of the stack, or `f` is -1. */
    method ReadIn(g: nat, granted: bool) returns (f: int)
      requires Separate() && fds.Valid() && stack.Valid() && stack.order != []
      requires 0 <= Stack()[|Stack()| - 1] < frames.Length
      modifies fds.os, fds.cache.hash, fds.cache.hash.nodes, fds.cache.list, fds.cache.list.nodes
      modifies frames, stack, stack.nodes
      ensures fds.Valid() && stack.Valid() && fds.Sizes() == old(fds.Sizes())
      ensures var r := Reached(fds.Sizes(), old(fds.cache.Recency()), FileOf(g), granted);
        fds.cache.Recency() == r.rec && (f != -1 <==> r.ok)
      ensures f != -1 ==> f == old(Stack()[|Stack()| - 1]) && Stack() == old(Stack())[..|old(Stack())| - 1]
      ensures f != -1 ==> frames[..] == old(frames[..])[f := if g in disk.pages then disk.pages[g] else disk.zero]
    {
      hide L.IList.Valid, FdCache.Valid, Reached, FileOf, PageNo, MakeGid;
      GidSplit(g);
      f := PopFrame();
      var fd := fds.Descriptor(FileOf(g), granted);
      if fd == -1 {
        return -1;
      }
      frames[f] := disk.Pread(fds.os, fd, PageNo(g));
    }

    constructor (bucketsz: nat, chainsz: nat, h: int -> nat, blank: Page, fds: FdCache, disk: Disk<Page>)
      requires bucketsz > 0 && fds.Valid()
      ensures Valid() && this.fds == fds && this.disk == disk && Hash() == h && B() == bucketsz && C() == chainsz
      ensures fresh(cache) && fresh(cache.hash) && fresh(cache.hash.nodes) && fresh(cache.list) && fresh(cache.list.nodes)
      ensures fresh(stack) && fresh(stack.nodes) && fresh(frames)
      ensures State().rec == [] && State().disk == old(disk.pages)
    {
      hide L.IList.Valid, FdCache.Valid, ICache.Valid, P.FramesOk;
      cache := new ICache<int>(bucketsz, chainsz, h, 0);
      stack := new L.IList<int>(bucketsz + chainsz, 0);
      frames := new Page[bucketsz + chainsz](_ => blank);
      this.fds, this.disk := fds, disk;
      new;
      AllUnused();
    }

    /** Every frame goes on the stack, frame 0 on top. */
    method AllUnused()
      requires Separate() && Sized() && cache.Valid() && stack.Valid() && fds.Valid()
      requires stack.order == [] && cache.hash.m == map[]
      modifies stack, stack.nodes
      ensures Valid()
    {
      hide L.Linked, FdCache.Valid, ICache.Valid;
      var n := frames.Length;
      for i := n downto 0
        invariant stack.Valid() && |stack.order| == n - i
        invariant Stack() == seq(n - i, j => n - 1 - j)
      {
        PushFrame(i);
      }
    }

    /** All pages are dropped without being written back. */
    method Clear(h: int -> nat)
      requires Valid()
      modifies cache.hash, cache.hash.nodes, cache.list, cache.list.nodes, stack, stack.nodes
      ensures Valid() && Hash() == h && State().rec == [] && State().disk == old(State().disk)
    {
      hide L.Linked, FdCache.Valid, ICache.Valid, P.FramesOk;
      cache.Clear(h);
      stack.Clear();
      AllUnused();
    }

    ghost predicate Sized()
      reads cache, stack
    {
      frames.Length == cache.hash.nodes.Length == stack.nodes.Length
    }

    ghost predicate Valid()
      reads this, cache, cache.hash, cache.hash.nodes, cache.list, cache.list.nodes, stack, stack.nodes
      reads fds, fds.os, fds.cache, fds.cache.hash, fds.cache.hash.nodes, fds.cache.list, fds.cache.list.nodes
    {
      && Separate() && Sized() && cache.Valid() && stack.Valid() && fds.Valid()
      && (forall k {:trigger k in cache.hash.m} :: k in cache.hash.m ==> k >= 0)
      && P.FramesOk(FrameMap(cache.hash.m), Stack(), frames.Length)
    }

    ghost function State(): P.PState<Page>
      requires cache.Valid() && stack.Valid()
      reads cache, cache.hash, cache.hash.nodes, cache.list, cache.list.nodes, stack, stack.nodes, frames, disk
    {
      P.PState(cache.Recency(), FrameMap(cache.hash.m), frames[..], Stack(), disk.pages, disk.zero)
    }

    function B(): nat {
      cache.hash.bucketsz
    }

    function C(): int {
      cache.hash.Chainsz()
    }

    ghost function Hash(): int -> nat
      reads cache.hash
    {
      cache.hash.hashFn
    }

    lemma StateInv()
      requires Valid()
      ensures C() >= 0 && P.Inv(Hash(), B(), C(), State())
    {
      hide L.IList.Valid, FdCache.Valid, P.FramesOk;
      cache.Residents();
      cache.TableSize();
      assert FrameMap(cache.hash.m).Keys == cache.hash.m.Keys;
    }

    /** The parts are as in `s`, except that the new key `g` heads the order and has no frame yet. */
    ghost predicate Entering(g: int, s: P.PState<Page>)
      requires cache.Valid() && stack.Valid()
      reads cache, cache.hash, cache.hash.nodes, cache.list, cache.list.nodes, stack, stack.nodes, frames, disk
    {
      && State() == s.(rec := [g] + s.rec, frameOf := FrameMap(cache.hash.m))
      && g in cache.hash.m && FrameMap(cache.hash.m) - {g} == s.frameOf && g !in s.frameOf
    }

    /** The entry at slot `e`, just made for page `g`, gets a frame with the page's contents. */
    method Fill(e: int, g: nat, granted: bool, ghost s: P.PState<Page>) returns (ok: bool)
      requires Separate() && Sized() && cache.Valid() && stack.Valid() && fds.Valid()
      requires Entering(g, s) && cache.hash.IsAt(e, g)
      requires s.stack != [] && 0 <= s.stack[|s.stack| - 1] < frames.Length
      modifies fds.os, fds.cache.hash, fds.cache.hash.nodes, fds.cache.list, fds.cache.list.nodes
      modifies frames, stack, stack.nodes, cache.hash, cache.hash.nodes
      ensures cache.Valid() && stack.Valid() && fds.Valid() && Hash() == old(Hash())
      ensures cache.hash.m.Keys == old(cache.hash.m).Keys && fds.Sizes() == old(fds.Sizes())
      ensures var r := Reached(fds.Sizes(), old(fds.cache.Recency()), FileOf(g), granted);
        fds.cache.Recency() == r.rec && (ok <==> r.ok)
      ensures ok ==> cache.hash.IsAt(e, g) && State() == P.Load(s, g)
    {
      hide L.IList.Valid, FdCache.Valid, ICache.Valid, P.FramesOk, H.IHash.IsAt, H.IHash.Valid, Reached, FileOf,
           ICache.Recency;
      ghost var m := cache.hash.m;
      var f := ReadIn(g, granted);
      if f == -1 {
        return false;
      }
      cache.Put(e, g, f);
      assert FrameMap(cache.hash.m) == (FrameMap(m) - {g})[g := f];
      ok := true;
    }

    /** What holds between the steps of a touch. */
    ghost predicate Parts()
      reads this, cache, cache.hash, cache.hash.nodes, cache.list, cache.list.nodes, stack, stack.nodes
      reads fds, fds.os, fds.cache, fds.cache.hash, fds.cache.hash.nodes, fds.cache.list, fds.cache.list.nodes
    {
      && Separate() && Sized() && cache.Valid() && stack.Valid() && fds.Valid()
      && (forall k {:trigger k in cache.hash.m} :: k in cache.hash.m ==> k >= 0)
    }

    /** The new page `g` is admitted to the cache, now in state `s`, if the table has a node for it. */
    method Admit(g: nat, granted: bool, ghost s: P.PState<Page>) returns (r: Outcome)
      requires Parts() && s == State() && C() >= 0 && P.Inv(Hash(), B(), C(), s) && g !in s.rec
      modifies fds.os, fds.cache.hash, fds.cache.hash.nodes, fds.cache.list, fds.cache.list.nodes
      modifies frames, stack, stack.nodes, cache.hash, cache.hash.nodes, cache.list, cache.list.nodes
      ensures Parts() && Hash() == old(Hash()) && disk.pages == old(disk.pages)
      ensures r.NoNode? <==> NoRoom(Hash(), B(), C(), M.Keys(s.rec), g)
      ensures r.NoNode? ==> State() == s && fds.cache.Recency() == old(fds.cache.Recency())
      ensures !r.NoNode? ==>
        var d := Reached(fds.Sizes(), old(fds.cache.Recency()), FileOf(g), granted);
        fds.cache.Recency() == d.rec && (r.Resident? <==> d.ok)
      ensures fds.Sizes() == old(fds.Sizes())
      ensures r.Resident? ==> s.stack != [] && State() == P.Load(s, g) && cache.hash.IsAt(r.e, g)
    {
      hide L.IList.Valid, FdCache.Valid, ICache.Valid, P.FramesOk, P.Inv, H.IHash.IsAt, H.IHash.Valid, NoRoom, P.Load, Reached;
      cache.Residents();
      var e := cache.TryInsert(g);
      if e == -1 {
        return NoNode;
      }
      P.StackNotEmpty(Hash(), B(), C(), s, g);
      assert FrameMap(cache.hash.m) - {g} == s.frameOf;
      var ok := Fill(e, g, granted, s);
      r := if ok then Resident(e) else NoDescriptor;
    }

    /** The least recently used page is written back and dropped. */
    method Expel(granted: bool, ghost s: P.PState<Page>) returns (ok: bool)
      requires Parts() && s == State() && C() >= 0 && P.Inv(Hash(), B(), C(), s) && s.rec != []
      modifies fds.os, fds.cache.hash, fds.cache.hash.nodes, fds.cache.list, fds.cache.list.nodes
      modifies disk, stack, stack.nodes, cache.hash, cache.hash.nodes, cache.list, cache.list.nodes
      ensures Parts() && Hash() == old(Hash()) && fds.Sizes() == old(fds.Sizes())
      ensures var d := Reached(fds.Sizes(), old(fds.cache.Recency()), FileOf(s.rec[|s.rec| - 1]), granted);
        fds.cache.Recency() == d.rec && (ok <==> d.ok)
      ensures ok ==> State() == P.Evict(s)
    {
      hide L.IList.Valid, FdCache.Valid, ICache.Valid, P.FramesOk, P.Inv, P.Evict, H.IHash.IsAt, H.IHash.Valid, Reached;
      ghost var m := cache.hash.m;
      P.EvictParts(Hash(), B(), C(), s);
      var lruKey, f := cache.DropLast();
      assert s.frameOf[lruKey] == f && lruKey in m;
      ok := WriteBack(lruKey, f, granted);
      assert FrameMap(cache.hash.m) == FrameMap(m) - {lruKey};
    }

    /** Page `g` becomes resident and the most recently used, unless one of the two asserted conditions stops the program,
        exactly as its fate says; `grantedWrite` and `grantedRead` say whether the kernel would open the files. */
    method Touch(g: nat, grantedWrite: bool, grantedRead: bool) returns (r: Outcome)
      requires Valid()
      modifies fds.os, fds.cache.hash, fds.cache.hash.nodes, fds.cache.list, fds.cache.list.nodes
      modifies disk, frames, stack, stack.nodes, cache.hash, cache.hash.nodes, cache.list, cache.list.nodes
      ensures Hash() == old(Hash()) && B() > 0 && C() >= 0
      ensures fds.Valid() && fds.Sizes() == old(fds.Sizes())
      ensures var f := FateOf(Hash(), B(), C(), old(State()).rec, fds.Sizes(), old(fds.cache.Recency()), g, grantedWrite, grantedRead);
        && (r.Resident? <==> f.Arrives?) && (r.NoNode? <==> f.LacksNode?) && (r.NoDescriptor? <==> f.LacksDescriptor?)
        && fds.cache.Recency() == f.fds
      ensures r.Resident? ==> Valid() && cache.hash.IsAt(r.e, g)
      ensures r.Resident? ==> P.Touch(Hash(), B(), C(), old(State()), g) == Some(State())
      ensures r.NoNode? ==> P.Touch(Hash(), B(), C(), old(State()), g) == None
    {
      hide L.IList.Valid, FdCache.Valid, ICache.Valid, P.FramesOk, P.Inv, H.IHash.IsAt, H.IHash.Valid, NoRoom, P.Load,
           P.Evict, M.Without, Reached;
      ghost var s := State();
      StateInv();
      cache.Residents();
      P.TouchOk(Hash(), B(), C(), s, g);
      var e := cache.Get(g);
      if e != -1 {
        cache.Promote(e, g);
        return Resident(e);
      }
      r := Bring(g, grantedWrite, grantedRead, s);
      if r.Resident? {
        FramesKept();
      }
    }

    /** A miss: the page is admitted, after an eviction if there is no room. */
    method Bring(g: nat, grantedWrite: bool, grantedRead: bool, ghost s: P.PState<Page>) returns (r: Outcome)
      requires Parts() && s == State() && C() >= 0 && P.Inv(Hash(), B(), C(), s) && g !in s.rec
      modifies fds.os, fds.cache.hash, fds.cache.hash.nodes, fds.cache.list, fds.cache.list.nodes
      modifies disk, frames, stack, stack.nodes, cache.hash, cache.hash.nodes, cache.list, cache.list.nodes
      ensures Parts() && Hash() == old(Hash()) && fds.Sizes() == old(fds.Sizes())
      ensures var f := FateOf(Hash(), B(), C(), s.rec, fds.Sizes(), old(fds.cache.Recency()), g, grantedWrite, grantedRead);
        && (r.Resident? <==> f.Arrives?) && (r.NoNode? <==> f.LacksNode?) && (r.NoDescriptor? <==> f.LacksDescriptor?)
        && fds.cache.Recency() == f.fds
      ensures r.Resident? ==> cache.hash.IsAt(r.e, g) && P.Touch(Hash(), B(), C(), s, g) == Some(State())
      ensures r.NoNode? ==> P.Touch(Hash(), B(), C(), s, g) == None
    {
      hide L.IList.Valid, FdCache.Valid, ICache.Valid, P.FramesOk, P.Inv, H.IHash.IsAt, H.IHash.Valid, NoRoom, P.Load,
           P.Evict, M.Without, Reached;
      cache.Residents();
      r := Admit(g, grantedRead, s);
      if r.NoNode? {
        NotEmpty(Hash(), B(), C(), s.rec, g);
        var ok := Expel(grantedWrite, s);
        if !ok {
          return NoDescriptor;
        }
        P.EvictOk(Hash(), B(), C(), s);
        r := Admit(g, grantedRead, P.Evict(s));
      }
    }

    /** Page `g`'s frame, through its entry at slot `e`. */
    method FrameOf(e: int, g: int) returns (f: int)
      requires Valid() && cache.hash.IsAt(e, g)
      ensures g in State().frameOf && f == State().frameOf[g] && 0 <= f < frames.Length
    {
      hide L.IList.Valid, FdCache.Valid, ICache.Valid, P.FramesOk;
      cache.EntryOf(e, g);
      P.InFrames(FrameMap(cache.hash.m), Stack(), frames.Length, g);
      f := cache.hash.nodes[e].val.user;
    }

    /** A program writes into the frame it was given. */
    method Store(e: int, g: int, page: Page)
      requires Valid() && cache.hash.IsAt(e, g)
      modifies frames
      ensures Valid() && Hash() == old(Hash()) && B() > 0 && C() >= 0 && cache.hash.IsAt(e, g)
      ensures P.Step(Hash(), B(), C(), old(State()), P.DoStore(g, page)) == Some(P.Ran(State(), []))
    {
      hide L.IList.Valid, FdCache.Valid, ICache.Valid, P.FramesOk, H.IHash.IsAt;
      StateInv();
      var f := FrameOf(e, g);
      frames[f] := page;
    }

    /** A program reads the frame it was given. */
    method Load(e: int, g: int) returns (page: Page)
      requires Valid() && cache.hash.IsAt(e, g)
      ensures B() > 0 && C() >= 0
      ensures P.Step(Hash(), B(), C(), State(), P.DoLoad(g)) == Some(P.Ran(State(), [page]))
    {
      hide L.IList.Valid, FdCache.Valid, ICache.Valid, P.FramesOk, H.IHash.IsAt;
      StateInv();
      var f := FrameOf(e, g);
      page := frames[f];
    }

    /** A resident page is written to disk; `ok` is false where the program stops: exactly if the page is not resident or
        its file has no descriptor. */
    method Flush(g: nat, granted: bool) returns (ok: bool)
      requires Valid()
      modifies fds.os, fds.cache.hash, fds.cache.hash.nodes, fds.cache.list, fds.cache.list.nodes, disk
      ensures Valid() && Hash() == old(Hash()) && B() > 0 && C() >= 0
      ensures ok ==> P.Step(Hash(), B(), C(), old(State()), P.DoFlush(g)) == Some(P.Ran(State(), []))
      ensures !ok ==> State() == old(State())
      ensures fds.Sizes() == old(fds.Sizes())
      ensures var r := Reached(fds.Sizes(), old(fds.cache.Recency()), FileOf(g), granted);
        fds.cache.Recency() == r.rec && (ok <==> r.ok && g in State().frameOf)
    {
      hide L.IList.Valid, FdCache.Valid, ICache.Valid, P.FramesOk, H.IHash.IsAt, P.Touch, P.Step, FileOf, PageNo,
           MakeGid, Reached;
      GidSplit(g);
      StateInv();
      ghost var s := State();
      var fd := fds.Descriptor(FileOf(g), granted);
      var e := cache.Get(g);
      if fd == -1 || e == -1 {
        return false;
      }
      var f := FrameOf(e, g);
      disk.Pwrite(fds.os, fd, PageNo(g), frames[f]);
      Flushed(Hash(), B(), C(), s, g);
      ok := true;
    }

    /** Pages touched one after the other. */
    method TouchEach(ks: seq<nat>, granted: bool) returns (ok: bool)
      requires Valid()
      modifies fds.os, fds.cache.hash, fds.cache.hash.nodes, fds.cache.list, fds.cache.list.nodes
      modifies disk, frames, stack, stack.nodes, cache.hash, cache.hash.nodes, cache.list, cache.list.nodes
      ensures Hash() == old(Hash()) && B() > 0 && C() >= 0
      ensures fds.Valid() && fds.Sizes() == old(fds.Sizes())
      ensures ok ==> Valid() && P.TouchAll(Hash(), B(), C(), old(State()), ks) == Some(State())
      ensures granted && DescriptorsSuffice(fds.Sizes()) ==> (ok <==> P.TouchAll(Hash(), B(), C(), old(State()), ks).Some?)
    {
      hide L.IList.Valid, FdCache.Valid, ICache.Valid, P.Inv, P.FramesOk, P.Touch, H.IHash.IsAt, H.IHash.Valid, Reached, FateOf;
      StateInv();
      ghost var a := State();
      BucketsPositive();
      for i := 0 to |ks|
        invariant Valid() && Hash() == old(Hash()) && fds.Sizes() == old(fds.Sizes())
        invariant P.TouchAll(Hash(), B(), C(), a, ks[..i]) == Some(State())
      {
        P.TouchAllSnoc(Hash(), B(), C(), a, ks[..i], ks[i]);
        assert ks[..i + 1] == ks[..i] + [ks[i]];
        FateHere(ks[i], granted);
        var r := Touch(ks[i], granted, granted);
        if !r.Resident? {
          if granted && DescriptorsSuffice(fds.Sizes()) {
            P.TouchAllStops(Hash(), B(), C(), a, ks, i + 1);
          }
          return false;
        }
      }
      assert ks[..|ks|] == ks;
      ok := true;
    }

    lemma FateHere(g: int, granted: bool)
      requires Valid()
      ensures B() > 0 && C() >= 0
      ensures granted && DescriptorsSuffice(fds.Sizes()) ==>
        var f := FateOf(Hash(), B(), C(), State().rec, fds.Sizes(), fds.cache.Recency(), g, granted, granted);
        (f.Arrives? <==> P.Touch(Hash(), B(), C(), State(), g).Some?)
    {
      hide L.IList.Valid, ICache.Valid, P.FramesOk, P.Inv, P.Touch, FateOf, DescriptorsSuffice;
      StateInv();
      BucketsPositive();
      fds.cache.TableSize();
      FateIsTouch(Hash(), B(), C(), State(), fds.Sizes(), fds.cache.Recency(), g, granted, granted);
    }

    lemma BucketsPositive()
      requires Valid()
      ensures B() > 0 && C() >= 0
    {
      StateInv();
    }

    method ChangeFrame(f: int, change: Page -> Page)
      requires Valid() && 0 <= f < frames.Length
      modifies frames
      ensures Valid() && Hash() == old(Hash())
      ensures State() == P.WriteFrame(old(State()), f, change(old(State()).frames[f]))
    {
      hide L.IList.Valid, FdCache.Valid, ICache.Valid, P.FramesOk;
      frames[f] := change(frames[f]);
    }

    /** A page is touched, its frame remembered, and written only after other pages were touched: how a new page is linked
        behind the tail. If at most `chainsz` other pages come between, the write goes to the page it is meant for. */
    method WriteRemembered(g: nat, between: seq<nat>, granted: bool, change: Page -> Page) returns (ok: bool)
      requires Valid()
      modifies fds.os, fds.cache.hash, fds.cache.hash.nodes, fds.cache.list, fds.cache.list.nodes
      modifies disk, frames, stack, stack.nodes, cache.hash, cache.hash.nodes, cache.list, cache.list.nodes
      ensures Hash() == old(Hash()) && B() > 0 && C() >= 0 && fds.Valid() && fds.Sizes() == old(fds.Sizes())
      ensures ok ==> Valid()
      ensures granted && DescriptorsSuffice(fds.Sizes()) ==>
        (ok <==> P.TouchAll(Hash(), B(), C(), old(State()), [g] + between).Some?)
      ensures ok && |M.Keys(between) - {g}| <= C() ==> Reaches(old(State()), State(), g, change)
    {
      hide L.IList.Valid, FdCache.Valid, ICache.Valid, P.FramesOk, P.Inv, P.Touch, H.IHash.IsAt, H.IHash.Valid,
           Reached, FateOf, P.WriteFrame, P.TouchAll, Reaches, DescriptorsSuffice;
      ghost var s := State();
      StateInv();
      FateHere(g, granted);
      P.TouchAllHead(Hash(), B(), C(), s, g, between);
      var r := Touch(g, granted, granted);
      if !r.Resident? {
        return false;
      }
      var f := FrameOf(r.e, g);
      ok := TouchEach(between, granted);
      if ok {
        ChangeFrame(f, change);
        if |M.Keys(between) - {g}| <= C() {
          RememberedWrite(Hash(), B(), C(), s, g, between, change);
        }
      }
    }

    /** A page is touched, its frame remembered, and read only after other pages were touched: how a row is read after the
        commit flags were looked up for it. */
    method ReadRemembered(g: nat, between: seq<nat>, granted: bool) returns (ok: bool, page: Page)
      requires Valid()
      modifies fds.os, fds.cache.hash, fds.cache.hash.nodes, fds.cache.list, fds.cache.list.nodes
      modifies disk, frames, stack, stack.nodes, cache.hash, cache.hash.nodes, cache.list, cache.list.nodes
      ensures Hash() == old(Hash()) && B() > 0 && C() >= 0 && fds.Valid() && fds.Sizes() == old(fds.Sizes())
      ensures ok ==> Valid() && SameContents(old(State()), State())
      ensures granted && DescriptorsSuffice(fds.Sizes()) ==>
        (ok <==> P.TouchAll(Hash(), B(), C(), old(State()), [g] + between).Some?)
      ensures ok && |M.Keys(between) - {g}| <= C() ==> page == P.Logical(old(State()), g)
    {
      hide L.IList.Valid, FdCache.Valid, ICache.Valid, P.FramesOk, P.Inv, P.Touch, H.IHash.IsAt, H.IHash.Valid,
           Reached, FateOf, P.TouchAll, DescriptorsSuffice, P.Logical;
      ghost var s := State();
      page := disk.zero;
      StateInv();
      FateHere(g, granted);
      P.TouchAllHead(Hash(), B(), C(), s, g, between);
      var r := Touch(g, granted, granted);
      if !r.Resident? {
        return false, page;
      }
      var f := FrameOf(r.e, g);
      ok := TouchEach(between, granted);
      if ok {
        page := frames[f];
        TouchedContents(Hash(), B(), C(), s, [g] + between);
        if |M.Keys(between) - {g}| <= C() {
          P.RememberedPage(Hash(), B(), C(), s, g, between);
        }
      }
    }

    /** A scan over pages: each is touched, the commit flags are looked up some times, and then it is read. With one chain
        node, what is read is what the pages hold. */
    method ReadPages(gs: seq<nat>, flags: nat, checks: nat, granted: bool) returns (ok: bool, pages: seq<Page>)
      requires Valid()
      modifies fds.os, fds.cache.hash, fds.cache.hash.nodes, fds.cache.list, fds.cache.list.nodes
      modifies disk, frames, stack, stack.nodes, cache.hash, cache.hash.nodes, cache.list, cache.list.nodes
      ensures Hash() == old(Hash()) && B() > 0 && C() >= 0
      ensures ok ==> Valid() && SameContents(old(State()), State()) && |pages| == |gs|
      ensures ok && C() >= 1 ==> forall i :: 0 <= i < |gs| ==> pages[i] == P.Logical(old(State()), gs[i])
    {
      hide L.IList.Valid, FdCache.Valid, ICache.Valid, P.FramesOk, P.Inv, H.IHash.Valid, DescriptorsSuffice, P.Logical;
      pages := [];
      BucketsPositive();
      var between := seq(checks, _ => flags);
      FlagsOnly(between, flags);
      for i := 0 to |gs|
        invariant Valid() && Hash() == old(Hash()) && B() > 0 && C() >= 0
        invariant SameContents(old(State()), State()) && |pages| == i
        invariant C() >= 1 ==> forall j :: 0 <= j < i ==> pages[j] == P.Logical(old(State()), gs[j])
      {
        var page;
        ok, page := ReadRemembered(gs[i], between, granted);
        if !ok {
          return;
        }
        pages := pages + [page];
      }
      ok := true;
    }

    lemma FramesKept()
      requires cache.Valid() && stack.Valid() && C() >= 0 && P.Inv(Hash(), B(), C(), State())
      ensures P.FramesOk(FrameMap(cache.hash.m), Stack(), frames.Length)
    {
    }
  }
}
