/** The bump allocator: blocks with headers stacked in one stretch of memory, the last of which can be given
    back or grown in place. Addresses are offsets from the context. */
module Bump {
  import opened Sequences

  const HEADER: nat := 16
  const MAX_CHILDREN: nat := 8
  const SIZE_MAX: nat := 0xFFFF_FFFF_FFFF_FFFF

  /** A byte of memory: free to use, or part of a header that says how big its block is. */
  datatype Cell = Data(b: bv8) | Head(size: nat)

  /** A block's data. */
  datatype Block = Block(at: nat, size: nat)

  /** The size rounded up to 16 in 64-bit arithmetic: for the 15 largest sizes the sum wraps and the result is 0. */
  function AlignMax(sz: nat): (r: nat)
    ensures r % 16 == 0
    ensures sz <= SIZE_MAX - 15 ==> sz <= r < sz + 16
    ensures SIZE_MAX - 15 < sz <= SIZE_MAX ==> r == 0
  {
    (sz + 15) % (SIZE_MAX + 1) / 16 * 16
  }

  /** The sizes that the assertion on the rounded size lets through. */
  predicate Accepted(sz: nat) {
    sz <= SIZE_MAX && AlignMax(sz) <= SIZE_MAX - HEADER
  }

  /** The assertion stops the sixteen sizes whose header does not fit above them, and not the larger ones. */
  lemma AcceptedSizes(sz: nat)
    ensures Accepted(sz) <==> sz <= SIZE_MAX - 31 || SIZE_MAX - 15 < sz <= SIZE_MAX
  {
  }

  /** The room left, in 64 bits. */
  function Room(size: nat, current: nat): nat {
    (size - current) % (SIZE_MAX + 1)
  }

  /** In a new context, every block granted stays within it exactly if the context has room for its own record: below
      that the room wraps. */
  lemma SmallContexts(base: nat, size: nat)
    requires base <= SIZE_MAX - 31 && 0 < size <= SIZE_MAX
    ensures base <= size <==>
      forall sz {:trigger AlignMax(sz)} :: 0 < sz && Accepted(sz) && AlignMax(sz) + HEADER <= Room(size, base) ==>
        base + HEADER + AlignMax(sz) <= size
  {
    assert AlignMax(1) == 16 && Accepted(1);
  }

  // ----- stacks of blocks

  /** The blocks, each behind its header, fill the memory from `base` to `current`. */
  predicate Stacked(bs: seq<Block>, base: nat, current: nat) {
    if bs == [] then current == base
    else
      var b := bs[|bs| - 1];
      && b.size % 16 == 0 && b.at >= base + HEADER && b.at + b.size == current
      && Stacked(bs[..|bs| - 1], base, b.at - HEADER)
  }

  /** Blocks are aligned, within the memory handed out, and apart from each other and from the other headers. */
  lemma {:induction false} StackedApart(bs: seq<Block>, base: nat, current: nat)
    requires Stacked(bs, base, current) && base % 16 == 0
    ensures current >= base && current % 16 == 0
    ensures forall i :: 0 <= i < |bs| ==>
      base + HEADER <= bs[i].at && bs[i].at % 16 == 0 && bs[i].at + bs[i].size <= current
    ensures forall i, j :: 0 <= i < j < |bs| ==> bs[i].at + bs[i].size <= bs[j].at - HEADER
  {
    if bs != [] {
      var n := |bs| - 1;
      var cs := bs[..n];
      StackedApart(cs, base, bs[n].at - HEADER);
      Multiples(bs[n].at - HEADER, HEADER);
      Multiples(bs[n].at, bs[n].size);
      forall i | 0 <= i < |bs|
        ensures base + HEADER <= bs[i].at && bs[i].at % 16 == 0 && bs[i].at + bs[i].size <= current
      {
        assert i < n ==> cs[i] == bs[i];
      }
      forall i, j | 0 <= i < j < |bs|
        ensures bs[i].at + bs[i].size <= bs[j].at - HEADER
      {
        assert cs[i] == bs[i];
        assert j < n ==> cs[j] == bs[j];
      }
    }
  }

  lemma Multiples(a: nat, b: nat)
    requires a % 16 == 0 && b % 16 == 0
    ensures (a + b) % 16 == 0
  {
  }

  lemma StackedPush(bs: seq<Block>, base: nat, current: nat, size: nat)
    requires Stacked(bs, base, current) && size % 16 == 0 && current >= base
    ensures Stacked(bs + [Block(current + HEADER, size)], base, current + HEADER + size)
  {
    assert (bs + [Block(current + HEADER, size)])[..|bs|] == bs;
  }

  /** The block that ends where the memory handed out ends is the last. */
  lemma TailIsLast(bs: seq<Block>, base: nat, current: nat, i: nat)
    requires Stacked(bs, base, current) && base % 16 == 0 && i < |bs|
    ensures bs[i].at + bs[i].size == current <==> i == |bs| - 1
  {
    StackedApart(bs, base, current);
  }

  // ----- the memory

  /** The block's header is in front of it. */
  ghost predicate Headed(ms: seq<Cell>, b: Block) {
    && HEADER <= b.at && b.at + b.size <= |ms|
    && forall k :: b.at - HEADER <= k < b.at ==> ms[k] == Head(b.size)
  }

  ghost predicate IsBlock(bs: seq<Block>, p: nat) {
    exists i :: 0 <= i < |bs| && bs[i].at == p
  }

  /** `bs` are all the blocks the offset has passed; the ones in use are among them. */
  ghost predicate Ok(ms: seq<Cell>, base: nat, current: nat, bs: seq<Block>, live: set<nat>) {
    && base % 16 == 0 && base <= current <= |ms|
    && Stacked(bs, base, current)
    && (forall i {:trigger bs[i]} :: 0 <= i < |bs| ==> Headed(ms, bs[i]))
    && (forall p :: p in live ==> IsBlock(bs, p))
  }

  /** The size in the header before `p`. */
  function SizeAt(ms: seq<Cell>, p: nat): nat {
    if HEADER <= p <= |ms| && ms[p - HEADER].Head? then ms[p - HEADER].size else 0
  }

  function Contents(ms: seq<Cell>, p: nat): seq<Cell> {
    if p + SizeAt(ms, p) <= |ms| then ms[p..p + SizeAt(ms, p)] else []
  }

  /** Blocks in use are aligned, within the context, behind a header with their size, and disjoint. */
  lemma LiveApart(ms: seq<Cell>, base: nat, current: nat, bs: seq<Block>, live: set<nat>, p: nat, q: nat)
    requires Ok(ms, base, current, bs, live) && p in live && q in live
    ensures base + HEADER <= p && p % 16 == 0 && p + SizeAt(ms, p) <= current && ms[p - HEADER].Head?
    ensures |Contents(ms, p)| == SizeAt(ms, p)
    ensures p != q ==> p + SizeAt(ms, p) <= q - HEADER || q + SizeAt(ms, q) <= p - HEADER
  {
    hide Stacked;
    StackedApart(bs, base, current);
    var i := BlockOf(ms, base, current, bs, live, p);
    var j := BlockOf(ms, base, current, bs, live, q);
    assert i < j ==> bs[i].at + bs[i].size <= bs[j].at - HEADER;
    assert j < i ==> bs[j].at + bs[j].size <= bs[i].at - HEADER;
  }

  lemma BlockOf(ms: seq<Cell>, base: nat, current: nat, bs: seq<Block>, live: set<nat>, p: nat) returns (i: nat)
    requires Ok(ms, base, current, bs, live) && p in live
    ensures i < |bs| && bs[i] == Block(p, SizeAt(ms, p)) && Headed(ms, bs[i])
  {
    hide Stacked;
    assert IsBlock(bs, p);
    i :| 0 <= i < |bs| && bs[i].at == p;
    assert Headed(ms, bs[i]);
    assert bs[i].at == p;
  }

  /** The same bytes in front of `p` and in its block give the same contents. */
  lemma SameContents(ms: seq<Cell>, ns: seq<Cell>, p: nat)
    requires |ns| == |ms| && HEADER <= p && p + SizeAt(ms, p) <= |ms|
    requires forall k :: p - HEADER <= k < p + SizeAt(ms, p) ==> ns[k] == ms[k]
    ensures SizeAt(ns, p) == SizeAt(ms, p) && Contents(ns, p) == Contents(ms, p)
  {
    assert ns[p - HEADER] == ms[p - HEADER];
  }

  ghost predicate SameBlocks(ms: seq<Cell>, ns: seq<Cell>, live: set<nat>) {
    forall q :: q in live ==> Contents(ns, q) == Contents(ms, q)
  }

  /** Bytes from `current` on are nobody's. */
  lemma AboveIsFree(ms: seq<Cell>, ns: seq<Cell>, base: nat, current: nat, bs: seq<Block>, live: set<nat>)
    requires Ok(ms, base, current, bs, live) && |ns| == |ms| && forall k :: 0 <= k < current ==> ns[k] == ms[k]
    ensures Ok(ns, base, current, bs, live) && SameBlocks(ms, ns, live)
  {
    StackedApart(bs, base, current);
    forall i | 0 <= i < |bs|
      ensures Headed(ns, bs[i])
    {
      assert Headed(ms, bs[i]);
    }
    forall q | q in live
      ensures Contents(ns, q) == Contents(ms, q)
    {
      LiveApart(ms, base, current, bs, live, q, q);
      SameContents(ms, ns, q);
    }
  }

  lemma PushOk(ms: seq<Cell>, base: nat, current: nat, bs: seq<Block>, live: set<nat>, size: nat)
    requires Ok(ms, base, current, bs, live) && size % 16 == 0
    requires var b := Block(current + HEADER, size); Headed(ms, b)
    ensures var b := Block(current + HEADER, size);
      Ok(ms, base, b.at + size, bs + [b], live + {b.at}) && b.at !in live
  {
    StackedApart(bs, base, current);
    StackedPush(bs, base, current, size);
    var cs := bs + [Block(current + HEADER, size)];
    forall p | p in live + {current + HEADER}
      ensures IsBlock(cs, p)
    {
      if p == current + HEADER {
        assert cs[|bs|].at == p;
      } else {
        var i :| 0 <= i < |bs| && bs[i].at == p;
        assert cs[i].at == p;
      }
    }
    assert forall i :: 0 <= i < |bs| ==> Headed(ms, bs[i]);
  }

  lemma PopOk(ms: seq<Cell>, base: nat, current: nat, bs: seq<Block>, live: set<nat>, p: nat)
    requires Ok(ms, base, current, bs, live) && p in live && p + SizeAt(ms, p) == current
    ensures bs != [] && bs[|bs| - 1] == Block(p, SizeAt(ms, p)) && p >= base + HEADER
    ensures Ok(ms, base, p - HEADER, bs[..|bs| - 1], live - {p})
  {
    StackedApart(bs, base, current);
    var i :| 0 <= i < |bs| && bs[i].at == p;
    assert Headed(ms, bs[i]);
    TailIsLast(bs, base, current, i);
    var cs := bs[..|bs| - 1];
    StackedApart(cs, base, p - HEADER);
    forall q | q in live - {p}
      ensures IsBlock(cs, q)
    {
      var j :| 0 <= j < |bs| && bs[j].at == q;
      assert cs[j].at == q;
    }
    assert forall j :: 0 <= j < |cs| ==> Headed(ms, cs[j]) by {
      assert forall j :: 0 <= j < |cs| ==> cs[j] == bs[j];
    }
  }

  lemma OkBounds(ms: seq<Cell>, base: nat, current: nat, bs: seq<Block>, live: set<nat>)
    requires Ok(ms, base, current, bs, live)
    ensures base % 16 == 0 && base <= current <= |ms| && current % 16 == 0 && (0 in live ==> false)
  {
    StackedApart(bs, base, current);
  }

  lemma DropOk(ms: seq<Cell>, base: nat, current: nat, bs: seq<Block>, live: set<nat>, p: nat)
    requires Ok(ms, base, current, bs, live)
    ensures Ok(ms, base, current, bs, live - {p})
  {
  }

  lemma WriteHeads(ms: seq<Cell>, base: nat, current: nat, bs: seq<Block>, live: set<nat>, p: nat, i: nat, c: Cell)
    requires Ok(ms, base, current, bs, live) && p in live && i < SizeAt(ms, p) && p + i < |ms|
    ensures Ok(ms[p + i := c], base, current, bs, live)
  {
    var ns := ms[p + i := c];
    StackedApart(bs, base, current);
    var n :| 0 <= n < |bs| && bs[n].at == p;
    assert Headed(ms, bs[n]);
    forall j | 0 <= j < |bs|
      ensures Headed(ns, bs[j])
    {
      assert Headed(ms, bs[j]);
      assert j < n ==> bs[j].at <= p;
      assert j > n ==> p + i < bs[j].at - HEADER;
    }
  }

  lemma WriteOk(ms: seq<Cell>, base: nat, current: nat, bs: seq<Block>, live: set<nat>, p: nat, i: nat, c: Cell)
    requires Ok(ms, base, current, bs, live) && p in live && i < SizeAt(ms, p) && p + i < |ms|
    ensures var ns := ms[p + i := c];
      && Ok(ns, base, current, bs, live) && SameBlocks(ms, ns, live - {p})
      && |Contents(ms, p)| > i && Contents(ns, p) == Contents(ms, p)[i := c]
  {
    hide Ok;
    var ns := ms[p + i := c];
    WriteHeads(ms, base, current, bs, live, p, i, c);
    LiveApart(ms, base, current, bs, live, p, p);
    forall q | q in live - {p}
      ensures Contents(ns, q) == Contents(ms, q)
    {
      LiveApart(ms, base, current, bs, live, q, p);
      SameContents(ms, ns, q);
    }
    assert SizeAt(ns, p) == SizeAt(ms, p);
  }

  lemma FewerSame(ms: seq<Cell>, ns: seq<Cell>, live: set<nat>, fewer: set<nat>)
    requires SameBlocks(ms, ns, live) && fewer <= live
    ensures SameBlocks(ms, ns, fewer)
  {
  }

  lemma SameTwice(ms: seq<Cell>, ns: seq<Cell>, es: seq<Cell>, live: set<nat>)
    requires SameBlocks(ms, ns, live) && SameBlocks(ns, es, live)
    ensures SameBlocks(ms, es, live)
  {
  }

  /** A longer block that has the bytes of the old one in front. */
  lemma Longer(ms: seq<Cell>, ns: seq<Cell>, p: nat, np: nat)
    requires p + SizeAt(ms, p) <= |ms| && SizeAt(ms, p) <= SizeAt(ns, np) && np + SizeAt(ns, np) <= |ns|
    requires ms[p..p + SizeAt(ms, p)] == ns[np..np + SizeAt(ms, p)]
    ensures Contents(ms, p) <= Contents(ns, np)
  {
    assert Contents(ns, np)[..SizeAt(ms, p)] == ns[np..np + SizeAt(ms, p)];
  }

  lemma AlignFixed(sz: nat)
    requires sz % 16 == 0 && sz <= SIZE_MAX - 15
    ensures AlignMax(sz) == sz
  {
  }

  lemma KeepSize(ms: seq<Cell>, ns: seq<Cell>, live: set<nat>, p: nat)
    requires SameBlocks(ms, ns, live) && p in live && |Contents(ms, p)| == SizeAt(ms, p) && |Contents(ns, p)| == SizeAt(ns, p)
    ensures SizeAt(ns, p) == SizeAt(ms, p)
  {
    assert Contents(ns, p) == Contents(ms, p);
  }

  predicate Used(child: nat) {
    child != 0
  }

  lemma {:induction false} NoneUsed(slots: seq<nat>)
    requires forall i :: 0 <= i < |slots| ==> slots[i] == 0
    ensures Filter(slots, Used) == []
  {
    if slots != [] {
      NoneUsed(slots[1..]);
    }
  }

  class Context {
    const base: nat
    const mem: array<Cell>
    const children: array<nat>    // the child contexts, 0 where there is none
    var current: nat
    ghost var blocks: seq<Block>  // all blocks the offset has passed, in use or not
    ghost var live: set<nat>      // those in use

    constructor (base: nat, size: nat)
      requires base % 16 == 0 && base <= size <= SIZE_MAX
      ensures Valid() && current == base && blocks == [] && live == {} && this.base == base && mem.Length == size
      ensures fresh(mem) && fresh(children) && Filter(children[..], Used) == []
    {
      this.base, current, blocks, live := base, base, [], {};
      mem := new Cell[size](_ => Data(0));
      children := new nat[MAX_CHILDREN](_ => 0);
      new;
      NoneUsed(children[..]);
    }

    ghost predicate Valid()
      reads this, mem
    {
      Ok(mem[..], base, current, blocks, live) && mem.Length <= SIZE_MAX && children.Length == MAX_CHILDREN
    }

    /** Gives back everything and hands each child to be dropped, once, in the order of the slots. */
    method Reset() returns (dropped: seq<nat>)
      requires Valid()
      modifies this`current, this`blocks, this`live, children
      ensures Valid() && current == base && blocks == [] && live == {}
      ensures dropped == Filter(old(children[..]), Used) && Filter(children[..], Used) == []
    {
      current, blocks, live := base, [], {};
      dropped := DropChildren();
    }

    method DropChildren() returns (dropped: seq<nat>)
      requires children.Length == MAX_CHILDREN
      modifies children
      ensures dropped == Filter(old(children[..]), Used) && Filter(children[..], Used) == []
    {
      hide Filter;
      dropped := [];
      ghost var was := children[..];
      assert was[0..] == was;
      for i := 0 to MAX_CHILDREN
        invariant forall j :: 0 <= j < i ==> children[j] == 0
        invariant forall j :: i <= j < MAX_CHILDREN ==> children[j] == was[j]
        invariant dropped + Filter(was[i..], Used) == Filter(was, Used)
      {
        FilterAt(was, Used, i, dropped);
        if children[i] != 0 {
          dropped := dropped + [children[i]];
          children[i] := 0;
        }
      }
      FilterOver(was, Used, dropped);
      NoneUsed(children[..]);
    }

    /** A child takes the first free slot; refused exactly if there is none. */
    method AddChild(child: nat) returns (ok: bool)
      requires Valid() && child != 0
      modifies children
      ensures Valid() && (ok <==> exists i :: 0 <= i < MAX_CHILDREN && old(children[i]) == 0)
      ensures !ok ==> children[..] == old(children[..])
      ensures ok ==> exists i :: 0 <= i < MAX_CHILDREN && children[..] == old(children[..])[i := child]
                                 && old(children[i]) == 0 && forall j :: 0 <= j < i ==> old(children[j]) != 0
    {
      for i := 0 to MAX_CHILDREN
        invariant forall j :: 0 <= j < i ==> children[j] != 0
      {
        if children[i] == 0 {
          children[i] := child;
          assert children[..] == old(children[..])[i := child];
          return true;
        }
      }
      ok := false;
    }

    /** The child's first slot becomes free; 1 exactly if it has none. */
    method EraseChild(child: nat) returns (err: int)
      requires Valid() && child != 0
      modifies children
      ensures Valid() && err == if child in old(children[..]) then 0 else 1
      ensures err == 1 ==> children[..] == old(children[..])
      ensures err == 0 ==> exists i :: 0 <= i < MAX_CHILDREN && children[..] == old(children[..])[i := 0]
                                       && old(children[i]) == child && child !in old(children[..i])
    {
      for i := 0 to MAX_CHILDREN
        invariant child !in children[..i]
      {
        if children[i] == child {
          children[i] := 0;
          assert children[..] == old(children[..])[i := 0];
          return 0;
        }
      }
      err := 1;
      assert children[..MAX_CHILDREN] == children[..];
    }

    /** The user of a block writes into it. */
    method Write(p: nat, i: nat, b: bv8)
      requires Valid() && p in live && i < SizeAt(mem[..], p)
      requires p + i < mem.Length
      modifies mem
      ensures Valid() && SameBlocks(old(mem[..]), mem[..], live - {p})
      ensures Contents(mem[..], p) == old(Contents(mem[..], p))[i := Data(b)]
    {
      hide Ok, Contents, SizeAt;
      mem[p + i] := Data(b);
      assert mem[..] == old(mem[..])[p + i := Data(b)];
      WriteOk(old(mem[..]), base, current, blocks, live, p, i, Data(b));
    }

    /** Aligned and behind everything else; refused exactly if there is no room for the rounded size. The block holds what
        was asked for unless rounding wrapped. */
    method Alloc(sz: nat) returns (p: nat)
      requires Valid() && Accepted(sz)
      modifies this`current, this`blocks, this`live, mem
      ensures Valid() && SameBlocks(old(mem[..]), mem[..], old(live))
      ensures p == 0 <==> sz == 0 || mem.Length - old(current) < AlignMax(sz) + HEADER
      ensures p == 0 ==> current == old(current) && blocks == old(blocks) && live == old(live) && mem[..] == old(mem[..])
      ensures p != 0 ==>
        && p == old(current) + HEADER && current == p + AlignMax(sz) && p !in old(live) && live == old(live) + {p}
        && blocks == old(blocks) + [Block(p, AlignMax(sz))] && SizeAt(mem[..], p) == AlignMax(sz)
        && Headed(mem[..], Block(p, AlignMax(sz)))
        && (SizeAt(mem[..], p) >= sz <==> sz <= SIZE_MAX - 15)
      ensures forall k :: 0 <= k < mem.Length && !(p != 0 && p - HEADER <= k < p) ==> mem[k] == old(mem[k])
    {
      hide Ok, SameBlocks, AlignMax, Contents;
      p := 0;
      AboveIsFree(mem[..], mem[..], base, current, blocks, live);
      OkBounds(mem[..], base, current, blocks, live);
      if sz == 0 {
        return;
      }
      var size := AlignMax(sz);
      if Room(mem.Length, current) < size + HEADER {
        return;
      }
      ghost var ms := mem[..];
      p := current + HEADER;
      forall k | current <= k < p {
        mem[k] := Head(size);
      }
      AboveIsFree(ms, mem[..], base, current, blocks, live);
      PushOk(mem[..], base, current, blocks, live, size);
      current := p + size;
      blocks := blocks + [Block(p, size)];
      live := live + {p};
    }

    /** Gives back the last block; any other is only out of use. */
    method Free(p: nat)
      requires Valid() && (p == 0 || p in live)
      modifies this`current, this`blocks, this`live
      ensures Valid() && live == old(live) - {p}
      ensures if p != 0 && p + SizeAt(mem[..], p) == old(current)
              then current == p - HEADER && blocks == old(blocks)[..|old(blocks)| - 1] && old(blocks) == blocks + [Block(p, SizeAt(mem[..], p))]
              else current == old(current) && blocks == old(blocks)
    {
      hide Ok;
      OkBounds(mem[..], base, current, blocks, live);
      DropOk(mem[..], base, current, blocks, live, p);
      if p == 0 {
        live := live - {p};
        return;
      }
      LiveApart(mem[..], base, current, blocks, live, p, p);
      if p + mem[p - HEADER].size == current {
        PopOk(mem[..], base, current, blocks, live, p);
        current := p - HEADER;
        blocks := blocks[..|blocks| - 1];
      }
      live := live - {p};
    }

    /** A block of at least `sz` bytes (unless rounding wrapped) that begins with the old contents: in place if the block is large enough, or is
        the last and there is room behind it; else behind everything else. Without room nothing is returned: then the
        last block is lost, its memory given back, while any other block stays in use as it was. */
    method Realloc(p: nat, sz: nat) returns (np: nat)
      requires Valid() && p in live && Accepted(sz)
      modifies this`current, this`blocks, this`live, mem
      ensures Valid() && SameBlocks(old(mem[..]), mem[..], old(live) - {p})
      ensures var size := old(SizeAt(mem[..], p));
        var tail := p + size == old(current);
        var from := if tail then p - HEADER else old(current);
        if sz == 0 then np == 0 && live == old(live) - {p} && current == (if tail then p - HEADER else old(current))
        else if AlignMax(sz) <= size then
          np == p && live == old(live) && current == old(current) && mem[..] == old(mem[..])
        else if mem.Length - from < AlignMax(sz) + HEADER then
          && np == 0 && mem[..] == old(mem[..])
          && live == (if tail then old(live) - {p} else old(live)) && current == from
        else
          && np == from + HEADER && live == old(live) - {p} + {np} && current == np + AlignMax(sz) && (np == p <==> tail)
          && SizeAt(mem[..], np) == AlignMax(sz) && old(Contents(mem[..], p)) <= Contents(mem[..], np)
      ensures np != 0 ==> (SizeAt(mem[..], np) >= sz <==> sz <= SIZE_MAX - 15)
    {
      hide Ok, SameBlocks, AlignMax, Contents;
      AcceptedSizes(sz);
      ghost var ms := mem[..];
      LiveApart(ms, base, current, blocks, live, p, p);
      OkBounds(ms, base, current, blocks, live);
      var size := mem[p - HEADER].size;
      AboveIsFree(ms, ms, base, current, blocks, live);
      FewerSame(ms, ms, live, live - {p});
      if sz == 0 {
        Free(p);
        return 0;
      }
      var want := AlignMax(sz);
      if want <= size {
        return p;
      }
      if p + size == current {
        np := GrowTail(p, want);
      } else {
        np := Move(p, want);
      }
    }

    method GrowTail(p: nat, want: nat) returns (np: nat)
      requires Valid() && p in live && p + SizeAt(mem[..], p) == current
      requires want > SizeAt(mem[..], p) && want % 16 == 0 && want <= SIZE_MAX - HEADER
      modifies this`current, this`blocks, this`live, mem
      ensures Valid() && SameBlocks(old(mem[..]), mem[..], old(live) - {p})
      ensures
        if mem.Length - (p - HEADER) < want + HEADER then
          np == 0 && mem[..] == old(mem[..]) && live == old(live) - {p} && current == p - HEADER
        else
          && np == p && live == old(live) && current == p + want
          && SizeAt(mem[..], p) == want && old(Contents(mem[..], p)) <= Contents(mem[..], p)
    {
      hide Ok, SameBlocks, Contents, AlignMax;
      ghost var ms := mem[..];
      LiveApart(ms, base, current, blocks, live, p, p);
      PopOk(ms, base, current, blocks, live, p);
      AlignFixed(want);
      current := p - HEADER;
      blocks := blocks[..|blocks| - 1];
      live := live - {p};
      np := Alloc(want);
      if np != 0 {
        OkBounds(mem[..], base, current, blocks, live);
        assert live == old(live);
        assert ms[p..p + SizeAt(ms, p)] == mem[..][p..p + SizeAt(ms, p)];
        Longer(ms, mem[..], p, p);
      }
    }

    method Move(p: nat, want: nat) returns (np: nat)
      requires Valid() && p in live && p + SizeAt(mem[..], p) != current
      requires want > SizeAt(mem[..], p) && want % 16 == 0 && want <= SIZE_MAX - HEADER
      modifies this`current, this`blocks, this`live, mem
      ensures Valid() && SameBlocks(old(mem[..]), mem[..], old(live) - {p})
      ensures
        if mem.Length - old(current) < want + HEADER then
          np == 0 && mem[..] == old(mem[..]) && live == old(live) && current == old(current)
        else
          && np == old(current) + HEADER && np != p && live == old(live) - {p} + {np} && current == np + want
          && SizeAt(mem[..], np) == want && old(Contents(mem[..], p)) <= Contents(mem[..], np)
    {
      hide Ok, SameBlocks, Contents, AlignMax;
      ghost var ms, bs, was, top := mem[..], blocks, live, current;
      LiveApart(ms, base, current, blocks, live, p, p);
      OkBounds(ms, base, current, blocks, live);
      var size := mem[p - HEADER].size;
      AlignFixed(want);
      np := Alloc(want);
      FewerSame(ms, mem[..], was, was - {p});
      if np != 0 {
        OkBounds(mem[..], base, current, blocks, live);
        ghost var ns := mem[..];
        forall k | 0 <= k < size {
          mem[np + k] := mem[p + k];
        }
        ghost var es := mem[..];
        AboveIsFree(ms, es, base, top, bs, was);
        FewerSame(ms, es, was, was - {p});
        PushOk(es, base, top, bs, was, want);
        DropOk(es, base, current, blocks, live, p);
        live := live - {p};
        assert ms[p..p + size] == es[np..np + size];
        Longer(ms, es, p, np);
        assert live == was - {p} + {np};
      }
    }

    /** The largest size, in a context with room for a header only: the block returned holds nothing. */
    method WrappedAlloc() returns (p: nat)
      requires Valid() && mem.Length - current == HEADER
      modifies this`current, this`blocks, this`live, mem
      ensures Valid() && p != 0 && SizeAt(mem[..], p) == 0
    {
      AcceptedSizes(SIZE_MAX);
      p := Alloc(SIZE_MAX);
    }

    /** Blocks given back in the opposite order of their allocation leave no trace, however many and whichever of them
        were refused. */
    method InAndOut(szs: seq<nat>)
      requires Valid() && forall i :: 0 <= i < |szs| ==> Accepted(szs[i])
      modifies this`current, this`blocks, this`live, mem
      ensures Valid() && current == old(current) && blocks == old(blocks) && live == old(live)
      ensures SameBlocks(old(mem[..]), mem[..], old(live))
      decreases |szs|
    {
      hide Ok, SameBlocks, Contents, AlignMax;
      ghost var ms := mem[..];
      AboveIsFree(ms, ms, base, current, blocks, live);
      if szs != [] {
        OkBounds(ms, base, current, blocks, live);
        var p := Alloc(szs[0]);
        ghost var ns, mid := mem[..], live;
        InAndOut(szs[1..]);
        if p != 0 {
          LiveApart(ns, base, current, blocks, live, p, p);
          LiveApart(mem[..], base, current, blocks, live, p, p);
          KeepSize(ns, mem[..], live, p);
        }
        Free(p);
        FewerSame(ns, mem[..], mid, old(live));
        SameTwice(ms, ns, mem[..], old(live));
        assert live == old(live);
      }
    }
  }
}
