/** A doubly linked list over a fixed pool of nodes, linked by index instead of
    by pointer, with a freelist threaded through the `next` fields. */
module IndexList {
  import opened Sequences

  const UNDEF := -1

  datatype Node<T> = Node(value: T, prev: int, next: int)

  /** `ns` with the `next` link of slot `i` set; nothing changes when `i` is not a slot. */
  function WithNext<T>(ns: seq<Node<T>>, i: int, v: int): (r: seq<Node<T>>)
    ensures |r| == |ns| && (i == UNDEF ==> r == ns)
  {
    if 0 <= i < |ns| then ns[i := ns[i].(next := v)] else ns
  }

  function WithPrev<T>(ns: seq<Node<T>>, i: int, v: int): (r: seq<Node<T>>)
    ensures |r| == |ns| && (i == UNDEF ==> r == ns)
  {
    if 0 <= i < |ns| then ns[i := ns[i].(prev := v)] else ns
  }

  /** Following `next` from `s[0]` visits exactly the slots of `s` and then ends. */
  ghost predicate Forward<T>(ns: seq<Node<T>>, s: seq<int>) {
    && InPool(|ns|, s)
    && (forall i, j {:trigger s[i], s[j]} :: 0 <= i < j < |s| && j == i + 1 ==> ns[s[i]].next == s[j])
    && (s != [] ==> ns[s[|s| - 1]].next == UNDEF)
  }

  /** Following `prev` from the last slot of `s` visits exactly the slots of `s`, backwards. */
  ghost predicate Backward<T>(ns: seq<Node<T>>, s: seq<int>) {
    && InPool(|ns|, s)
    && (forall i, j {:trigger s[i], s[j]} :: 0 <= i < j < |s| && j == i + 1 ==> ns[s[j]].prev == s[i])
    && (s != [] ==> ns[s[0]].prev == UNDEF)
  }

  /** `ms` is `ns` up to the links of slots outside `s` and of the slots at `skip1` and `skip2`. */
  ghost predicate NextKept<T>(ns: seq<Node<T>>, ms: seq<Node<T>>, s: seq<int>, skip1: int, skip2: int) {
    && |ns| == |ms| && InPool(|ns|, s)
    && forall i {:trigger s[i]} :: 0 <= i < |s| && i != skip1 && i != skip2 ==> ns[s[i]].next == ms[s[i]].next
  }

  ghost predicate PrevKept<T>(ns: seq<Node<T>>, ms: seq<Node<T>>, s: seq<int>, skip1: int, skip2: int) {
    && |ns| == |ms| && InPool(|ns|, s)
    && forall i {:trigger s[i]} :: 0 <= i < |s| && i != skip1 && i != skip2 ==> ns[s[i]].prev == ms[s[i]].prev
  }

  /** Nodes outside `idx` hold the same values in `ns` and `ms`. */
  ghost predicate KeepsValues<T>(ns: seq<Node<T>>, ms: seq<Node<T>>, idx: int) {
    && |ns| == |ms|
    && forall s {:trigger ms[s]} {:trigger ns[s]} :: 0 <= s < |ns| && s != idx ==> ms[s].value == ns[s].value
  }

  function At(s: seq<int>, i: int): int {
    if 0 <= i < |s| then s[i] else UNDEF
  }

  lemma ForwardRemove<T>(ns: seq<Node<T>>, ms: seq<Node<T>>, s: seq<int>, p: nat)
    requires Forward(ns, s) && p < |s| && NextKept(ns, ms, s, p, p - 1)
    requires p > 0 ==> ms[s[p - 1]].next == At(s, p + 1)
    ensures Forward(ms, RemoveAt(s, p))
  {
    var r := RemoveAt(s, p);
    forall i, j | 0 <= i < j < |r| && j == i + 1
      ensures ms[r[i]].next == r[j]
    {
      var k := if i < p then i else i + 1;
      assert r[i] == s[k];
      assert r[j] == s[if j < p then j else j + 1];
    }
    if r != [] {
      assert r[|r| - 1] == s[if |r| - 1 < p then |r| - 1 else |r|];
    }
  }

  lemma BackwardRemove<T>(ns: seq<Node<T>>, ms: seq<Node<T>>, s: seq<int>, p: nat)
    requires Backward(ns, s) && p < |s| && PrevKept(ns, ms, s, p, p + 1)
    requires p + 1 < |s| ==> ms[s[p + 1]].prev == At(s, p - 1)
    ensures Backward(ms, RemoveAt(s, p))
  {
    var r := RemoveAt(s, p);
    forall i, j | 0 <= i < j < |r| && j == i + 1
      ensures ms[r[j]].prev == r[i]
    {
      assert r[i] == s[if i < p then i else i + 1];
      assert r[j] == s[if j < p then j else j + 1];
    }
    if r != [] {
      assert r[0] == s[if 0 < p then 0 else 1];
    }
  }

  lemma ForwardCons<T>(ns: seq<Node<T>>, ms: seq<Node<T>>, s: seq<int>, x: int)
    requires Forward(ns, s) && 0 <= x < |ns| && NextKept(ns, ms, s, -1, -1)
    requires ms[x].next == At(s, 0)
    ensures Forward(ms, [x] + s)
  {
    var r := [x] + s;
    forall i, j | 0 <= i < j < |r| && j == i + 1
      ensures ms[r[i]].next == r[j]
    {
      assert r[j] == s[j - 1];
      if i > 0 { assert r[i] == s[i - 1]; }
    }
  }

  lemma BackwardCons<T>(ns: seq<Node<T>>, ms: seq<Node<T>>, s: seq<int>, x: int)
    requires Backward(ns, s) && 0 <= x < |ns| && PrevKept(ns, ms, s, 0, 0)
    requires ms[x].prev == UNDEF && (s != [] ==> ms[s[0]].prev == x)
    ensures Backward(ms, [x] + s)
  {
    var r := [x] + s;
    forall i, j | 0 <= i < j < |r| && j == i + 1
      ensures ms[r[j]].prev == r[i]
    {
      assert r[j] == s[j - 1];
      if i > 0 { assert r[i] == s[i - 1]; }
    }
  }

  lemma ForwardSnoc<T>(ns: seq<Node<T>>, ms: seq<Node<T>>, s: seq<int>, x: int)
    requires Forward(ns, s) && 0 <= x < |ns| && NextKept(ns, ms, s, |s| - 1, |s| - 1)
    requires ms[x].next == UNDEF && (s != [] ==> ms[s[|s| - 1]].next == x)
    ensures Forward(ms, s + [x])
  {
  }

  lemma BackwardSnoc<T>(ns: seq<Node<T>>, ms: seq<Node<T>>, s: seq<int>, x: int)
    requires Backward(ns, s) && 0 <= x < |ns| && PrevKept(ns, ms, s, -1, -1)
    requires ms[x].prev == At(s, |s| - 1)
    ensures Backward(ms, s + [x])
  {
  }

  ghost predicate Linked<T>(ns: seq<Node<T>>, order: seq<int>, free: seq<int>) {
    && Partition(|ns|, order, free)
    && Forward(ns, order) && Backward(ns, order) && Forward(ns, free)
  }

  /** What one node's links say, and that the slots around it are distinct. */
  lemma Neighbours<T>(ns: seq<Node<T>>, order: seq<int>, free: seq<int>, p: nat)
    requires p < |order|
    ensures Linked(ns, order, free) ==>
      && 0 <= order[p] < |ns| && ns[order[p]].next == At(order, p + 1) && ns[order[p]].prev == At(order, p - 1)
      && -1 <= At(order, p + 1) < |ns| && -1 <= At(order, p - 1) < |ns|
      && (p + 1 < |order| <==> At(order, p + 1) != UNDEF)
      && (p > 0 <==> At(order, p - 1) != UNDEF)
      && 0 <= At(order, 0) == order[0] < |ns| && 0 <= At(order, |order| - 1) == order[|order| - 1] < |ns|
      && KeepsValues(ns, ns, UNDEF)
  {
  }

  lemma FreeRoom<T>(ns: seq<Node<T>>, order: seq<int>, free: seq<int>)
    ensures Linked(ns, order, free) ==>
      && InPool(|ns|, order) && |order| + |free| == |ns|
      && (free != [] ==> 0 <= free[0] < |ns| && free[0] !in order)
  {
  }

  /** The slot at position `p` leaves the list for the head of the freelist. */
  lemma Freed<T>(ns: seq<Node<T>>, ms: seq<Node<T>>, order: seq<int>, free: seq<int>, p: nat)
    requires Linked(ns, order, free) && p < |order| && |ms| == |ns|
    requires forall i {:trigger ns[i]} :: 0 <= i < |ns| && i != order[p] ==>
      && (i != At(order, p - 1) ==> ms[i].next == ns[i].next)
      && (i != At(order, p + 1) ==> ms[i].prev == ns[i].prev)
    requires ms[order[p]].next == At(free, 0)
    requires p > 0 ==> ms[order[p - 1]].next == At(order, p + 1)
    requires p + 1 < |order| ==> ms[order[p + 1]].prev == At(order, p - 1)
    ensures Linked(ms, RemoveAt(order, p), [order[p]] + free)
  {
    ForwardRemove(ns, ms, order, p);
    BackwardRemove(ns, ms, order, p);
    ForwardCons(ns, ms, free, order[p]);
    PartitionMove(|ns|, free, order, p);
  }

  lemma FreedBack<T>(ns: seq<Node<T>>, order: seq<int>, free: seq<int>)
    requires order != []
    ensures var n := |order|;
      var ms := WithNext(WithNext(ns, order[n - 1], At(free, 0)), At(order, n - 2), UNDEF);
      && (Linked(ns, order, free) ==> Linked(ms, order[..n - 1], [order[n - 1]] + free) && KeepsValues(ns, ms, UNDEF))
      && At(order[..n - 1], n - 2) == At(order, n - 2) && At([order[n - 1]] + free, 0) == order[n - 1]
      && At(order[..n - 1], 0) == (if n == 1 then UNDEF else At(order, 0))
  {
    if Linked(ns, order, free) {
      var p := |order| - 1;
      FreedBackStep(ns, order, free, WithNext(WithNext(ns, order[p], At(free, 0)), At(order, p - 1), UNDEF));
    }
  }

  lemma FreedBackStep<T>(ns: seq<Node<T>>, order: seq<int>, free: seq<int>, ms: seq<Node<T>>)
    requires Linked(ns, order, free) && order != []
    requires ms == WithNext(WithNext(ns, order[|order| - 1], At(free, 0)), At(order, |order| - 2), UNDEF)
    ensures Linked(ms, order[..|order| - 1], [order[|order| - 1]] + free)
  {
    Freed(ns, ms, order, free, |order| - 1);
    RemoveAtEnd(order, |order| - 1);
  }

  lemma FreedFront<T>(ns: seq<Node<T>>, order: seq<int>, free: seq<int>)
    requires order != []
    ensures var n := |order|;
      var ms := WithPrev(WithNext(ns, order[0], At(free, 0)), At(order, 1), UNDEF);
      && (Linked(ns, order, free) ==> Linked(ms, order[1..], [order[0]] + free) && KeepsValues(ns, ms, UNDEF))
      && At(order[1..], 0) == At(order, 1) && At([order[0]] + free, 0) == order[0]
      && At(order[1..], n - 2) == (if n == 1 then UNDEF else At(order, n - 1))
  {
    if Linked(ns, order, free) {
      FreedFrontStep(ns, order, free, WithPrev(WithNext(ns, order[0], At(free, 0)), At(order, 1), UNDEF));
    }
  }

  lemma FreedFrontStep<T>(ns: seq<Node<T>>, order: seq<int>, free: seq<int>, ms: seq<Node<T>>)
    requires Linked(ns, order, free) && order != []
    requires ms == WithPrev(WithNext(ns, order[0], At(free, 0)), At(order, 1), UNDEF)
    ensures Linked(ms, order[1..], [order[0]] + free)
  {
    Freed(ns, ms, order, free, 0);
    RemoveAtEnd(order, 0);
  }

  lemma SameLinks<T>(ns: seq<Node<T>>, ms: seq<Node<T>>, order: seq<int>, free: seq<int>)
    requires Linked(ns, order, free) && |ms| == |ns|
    requires forall i {:trigger ns[i]} :: 0 <= i < |ns| ==> ms[i].next == ns[i].next && ms[i].prev == ns[i].prev
    ensures Linked(ms, order, free)
  {
  }

  /** A slot leaves the freelist's head for the front of the list. */
  lemma UsedFront<T>(ns: seq<Node<T>>, ms: seq<Node<T>>, order: seq<int>, free: seq<int>)
    requires Linked(ns, order, free) && free != [] && |ms| == |ns|
    requires forall i {:trigger ns[i]} :: 0 <= i < |ns| && i != free[0] ==>
      ms[i].next == ns[i].next && (i != At(order, 0) ==> ms[i].prev == ns[i].prev)
    requires ms[free[0]].prev == UNDEF && ms[free[0]].next == At(order, 0)
    requires order != [] ==> ms[order[0]].prev == free[0]
    ensures Linked(ms, [free[0]] + order, free[1..])
  {
    PartitionTake(|ns|, order, free);
    ForwardCons(ns, ms, order, free[0]);
    BackwardCons(ns, ms, order, free[0]);
    assert RemoveAt(free, 0) == free[1..];
    ForwardRemove(ns, ms, free, 0);
  }

  /** A slot leaves the freelist's head for the back of the list. */
  lemma UsedBack<T>(ns: seq<Node<T>>, ms: seq<Node<T>>, order: seq<int>, free: seq<int>)
    requires Linked(ns, order, free) && free != [] && |ms| == |ns|
    requires forall i {:trigger ns[i]} :: 0 <= i < |ns| && i != free[0] ==>
      ms[i].prev == ns[i].prev && (i != At(order, |order| - 1) ==> ms[i].next == ns[i].next)
    requires ms[free[0]].prev == At(order, |order| - 1) && ms[free[0]].next == UNDEF
    requires order != [] ==> ms[order[|order| - 1]].next == free[0]
    ensures Linked(ms, order + [free[0]], free[1..])
  {
    PartitionTake(|ns|, order, free);
    KeptForBack(ns, ms, order, free);
    assert RemoveAt(free, 0) == free[1..];
    hide Partition, Forward, Backward, NextKept, PrevKept, RemoveAt;
    ForwardSnoc(ns, ms, order, free[0]);
    BackwardSnoc(ns, ms, order, free[0]);
    ForwardRemove(ns, ms, free, 0);
  }

  lemma KeptForBack<T>(ns: seq<Node<T>>, ms: seq<Node<T>>, order: seq<int>, free: seq<int>)
    requires Linked(ns, order, free) && free != [] && |ms| == |ns|
    requires forall i {:trigger ns[i]} :: 0 <= i < |ns| && i != free[0] ==>
      ms[i].prev == ns[i].prev && (i != At(order, |order| - 1) ==> ms[i].next == ns[i].next)
    ensures 0 <= free[0] < |ns|
    ensures NextKept(ns, ms, order, |order| - 1, |order| - 1) && PrevKept(ns, ms, order, -1, -1) && NextKept(ns, ms, free, 0, -1)
  {
    hide Forward, Backward;
  }

  /** The nodes after slot `x`, between `prev` and `next`, is cut out and linked in before `front`. */
  function RelinkedFront<T>(ns: seq<Node<T>>, x: int, prev: int, next: int, front: int): seq<Node<T>> {
    WithNext(WithPrev(WithPrev(WithPrev(WithNext(ns, prev, next), next, prev), front, x), x, UNDEF), x, front)
  }

  /** The nodes after slot `x`, between `prev` and `next`, is cut out and linked in after `back`. */
  function RelinkedBack<T>(ns: seq<Node<T>>, x: int, prev: int, next: int, back: int): seq<Node<T>> {
    WithNext(WithPrev(WithNext(WithNext(WithPrev(ns, next, prev), prev, next), back, x), x, back), x, UNDEF)
  }

  lemma FrontKeepsValues<T>(ns: seq<Node<T>>, x: int, prev: int, next: int, front: int)
    ensures KeepsValues(ns, RelinkedFront(ns, x, prev, next, front), UNDEF)
  {
  }

  lemma BackKeepsValues<T>(ns: seq<Node<T>>, x: int, prev: int, next: int, back: int)
    ensures KeepsValues(ns, RelinkedBack(ns, x, prev, next, back), UNDEF)
  {
  }

  lemma FreeUntouched<T>(ns: seq<Node<T>>, ms: seq<Node<T>>, order: seq<int>, free: seq<int>)
    requires Linked(ns, order, free) && |ms| == |ns|
    requires forall i {:trigger ms[i]} :: 0 <= i < |ns| && i !in order ==> ms[i].next == ns[i].next
    ensures Forward(ms, free)
  {
    forall i {:trigger free[i]} | 0 <= i < |free|
      ensures 0 <= free[i] < |ns| && ms[free[i]].next == ns[free[i]].next
    {
      assert free[i] !in order;
    }
  }

  lemma MovedFrontForward<T>(ns: seq<Node<T>>, order: seq<int>, free: seq<int>, p: nat)
    requires Linked(ns, order, free) && 0 < p < |order|
    ensures var ms := RelinkedFront(ns, order[p], order[p - 1], At(order, p + 1), order[0]);
      Forward(ms, [order[p]] + RemoveAt(order, p))
  {
    var mid := WithPrev(WithNext(ns, order[p - 1], At(order, p + 1)), At(order, p + 1), order[p - 1]);
    var ms := RelinkedFront(ns, order[p], order[p - 1], At(order, p + 1), order[0]);
    ForwardRemove(ns, mid, order, p);
    AllBut(order, p);
    ForwardCons(mid, ms, RemoveAt(order, p), order[p]);
  }

  lemma MovedFrontBackward<T>(ns: seq<Node<T>>, order: seq<int>, free: seq<int>, p: nat)
    requires Linked(ns, order, free) && 0 < p < |order|
    ensures var ms := RelinkedFront(ns, order[p], order[p - 1], At(order, p + 1), order[0]);
      Backward(ms, [order[p]] + RemoveAt(order, p))
  {
    var mid := WithPrev(WithNext(ns, order[p - 1], At(order, p + 1)), At(order, p + 1), order[p - 1]);
    var ms := RelinkedFront(ns, order[p], order[p - 1], At(order, p + 1), order[0]);
    BackwardRemove(ns, mid, order, p);
    AllBut(order, p);
    BackwardCons(mid, ms, RemoveAt(order, p), order[p]);
  }

  lemma MovedFront<T>(ns: seq<Node<T>>, order: seq<int>, free: seq<int>, p: nat)
    requires 0 < p < |order|
    ensures var ms := RelinkedFront(ns, order[p], At(order, p - 1), At(order, p + 1), At(order, 0));
      var r := [order[p]] + RemoveAt(order, p);
      && (Linked(ns, order, free) ==> Linked(ms, r, free) && KeepsValues(ns, ms, UNDEF))
      && At(r, 0) == order[p]
      && At(r, |r| - 1) == (if p == |order| - 1 then At(order, p - 1) else At(order, |order| - 1))
  {
    var r := [order[p]] + RemoveAt(order, p);
    assert r[0] == order[p] && r[|r| - 1] == if p == |order| - 1 then order[p - 1] else order[|order| - 1];
    if Linked(ns, order, free) {
      hide RemoveAt, Forward, Backward, Partition;
      FrontKeepsValues(ns, order[p], order[p - 1], At(order, p + 1), order[0]);
      MovedFrontForward(ns, order, free, p);
      FreeUntouched(ns, RelinkedFront(ns, order[p], order[p - 1], At(order, p + 1), order[0]), order, free);
      MovedFrontBackward(ns, order, free, p);
      PartitionKept(|ns|, order, free, p);
    }
  }

  lemma MovedBackForward<T>(ns: seq<Node<T>>, order: seq<int>, free: seq<int>, p: nat)
    requires Linked(ns, order, free) && p < |order| - 1
    ensures var ms := RelinkedBack(ns, order[p], At(order, p - 1), order[p + 1], order[|order| - 1]);
      Forward(ms, RemoveAt(order, p) + [order[p]])
  {
    var mid := WithNext(WithPrev(ns, order[p + 1], At(order, p - 1)), At(order, p - 1), order[p + 1]);
    var ms := RelinkedBack(ns, order[p], At(order, p - 1), order[p + 1], order[|order| - 1]);
    ForwardRemove(ns, mid, order, p);
    AllBut(order, p);
    ForwardSnoc(mid, ms, RemoveAt(order, p), order[p]);
  }

  lemma MovedBackBackward<T>(ns: seq<Node<T>>, order: seq<int>, free: seq<int>, p: nat)
    requires Linked(ns, order, free) && p < |order| - 1
    ensures var ms := RelinkedBack(ns, order[p], At(order, p - 1), order[p + 1], order[|order| - 1]);
      Backward(ms, RemoveAt(order, p) + [order[p]])
  {
    var mid := WithNext(WithPrev(ns, order[p + 1], At(order, p - 1)), At(order, p - 1), order[p + 1]);
    var ms := RelinkedBack(ns, order[p], At(order, p - 1), order[p + 1], order[|order| - 1]);
    BackwardRemove(ns, mid, order, p);
    AllBut(order, p);
    BackwardSnoc(mid, ms, RemoveAt(order, p), order[p]);
  }

  lemma MovedBack<T>(ns: seq<Node<T>>, order: seq<int>, free: seq<int>, p: nat)
    requires p < |order| - 1
    ensures var ms := RelinkedBack(ns, order[p], At(order, p - 1), At(order, p + 1), At(order, |order| - 1));
      var r := RemoveAt(order, p) + [order[p]];
      && (Linked(ns, order, free) ==> Linked(ms, r, free) && KeepsValues(ns, ms, UNDEF))
      && At(r, |r| - 1) == order[p]
      && At(r, 0) == (if p == 0 then At(order, 1) else At(order, 0))
  {
    var r := RemoveAt(order, p) + [order[p]];
    assert r[|r| - 1] == order[p] && r[0] == if p == 0 then order[1] else order[0];
    if Linked(ns, order, free) {
      hide RemoveAt, Forward, Backward, Partition;
      BackKeepsValues(ns, order[p], At(order, p - 1), order[p + 1], order[|order| - 1]);
      MovedBackForward(ns, order, free, p);
      FreeUntouched(ns, RelinkedBack(ns, order[p], At(order, p - 1), order[p + 1], order[|order| - 1]), order, free);
      MovedBackBackward(ns, order, free, p);
      PartitionKept(|ns|, order, free, p);
    }
  }

  lemma AllFree<T>(ns: seq<Node<T>>, free: seq<int>)
    requires free == seq(|ns|, i => i)
    requires forall s {:trigger ns[s]} :: 0 <= s < |ns| ==> ns[s].next == if s == |ns| - 1 then UNDEF else s + 1
    ensures Linked(ns, [], free)
  {
  }

  class IList<T(0)> {
    const nodes: array<Node<T>>
    var freelistHead: int
    var frontIdx: int
    var backIdx: int

    ghost var order: seq<int>  // the list's slots, front to back
    ghost var free: seq<int>   // the freelist's slots, head first

    ghost predicate Valid()
      reads this, nodes
    {
      && Linked(nodes[..], order, free)
      && frontIdx == At(order, 0) && backIdx == At(order, |order| - 1) && freelistHead == At(free, 0)
    }

    method SetNext(i: int, v: int)
      requires 0 <= i < nodes.Length
      modifies nodes
      ensures nodes[..] == WithNext(old(nodes[..]), i, v)
    {
      nodes[i] := nodes[i].(next := v);
    }

    method SetPrev(i: int, v: int)
      requires 0 <= i < nodes.Length
      modifies nodes
      ensures nodes[..] == WithPrev(old(nodes[..]), i, v)
    {
      nodes[i] := nodes[i].(prev := v);
    }

    constructor (listsz: nat, init: T)
      ensures Valid() && fresh(nodes) && nodes.Length == listsz && order == []
    {
      nodes := new Node<T>[listsz](_ => Node(init, UNDEF, UNDEF));
      new;
      Clear();
    }

    method Clear()
      modifies this, nodes
      ensures Valid() && order == [] && free == seq(nodes.Length, i => i)
      ensures KeepsValues(old(nodes[..]), nodes[..], UNDEF)
    {
      hide Linked;
      backIdx, frontIdx := UNDEF, UNDEF;
      var n := nodes.Length;
      for i := 0 to n
        invariant forall s {:trigger nodes[s]} :: 0 <= s < i ==> nodes[s].next == s + 1
        invariant frontIdx == UNDEF && backIdx == UNDEF && KeepsValues(old(nodes[..]), nodes[..], UNDEF)
      {
        nodes[i] := nodes[i].(prev := UNDEF, next := i + 1);
      }
      if n > 0 {
        freelistHead := 0;
        nodes[n - 1] := nodes[n - 1].(next := UNDEF);
      } else {
        freelistHead := UNDEF;
      }
      order, free := [], seq(n, i => i);
      AllFree(nodes[..], free);
    }

    predicate Empty()
      reads this
    {
      frontIdx == UNDEF
    }

    method PopBack() returns (v: T)
      requires Valid() && order != []
      modifies this, nodes
      ensures Valid()
      ensures order == old(order)[..|old(order)| - 1]
      ensures free == [old(order)[|old(order)| - 1]] + old(free)
      ensures KeepsValues(old(nodes[..]), nodes[..], UNDEF)
      ensures v == old(nodes[order[|order| - 1]].value)
    {
      hide Linked, KeepsValues, WithNext, WithPrev, RemoveAt, At;
      ghost var ns, n := nodes[..], |order|;
      Neighbours(ns, order, free, n - 1);
      var idx := backIdx;
      var prevIdx := nodes[idx].prev;
      v := nodes[idx].value;
      SetNext(idx, freelistHead);
      freelistHead := idx;
      if prevIdx != UNDEF {
        SetNext(prevIdx, UNDEF);
        backIdx := prevIdx;
      } else {
        frontIdx := UNDEF;
        backIdx := UNDEF;
      }
      order, free := order[..n - 1], [idx] + free;
      FreedBack(ns, old(order), old(free));
    }

    method PopFront() returns (v: T)
      requires Valid() && order != []
      modifies this, nodes
      ensures Valid()
      ensures order == old(order)[1..]
      ensures free == [old(order)[0]] + old(free)
      ensures KeepsValues(old(nodes[..]), nodes[..], UNDEF)
      ensures v == old(nodes[order[0]].value)
    {
      hide Linked, KeepsValues, WithNext, WithPrev, RemoveAt, At;
      ghost var ns := nodes[..];
      Neighbours(ns, order, free, 0);
      var idx := frontIdx;
      var nextIdx := nodes[idx].next;
      v := nodes[idx].value;
      SetNext(idx, freelistHead);
      freelistHead := idx;
      if nextIdx != UNDEF {
        SetPrev(nextIdx, UNDEF);
        frontIdx := nextIdx;
      } else {
        backIdx := UNDEF;
        frontIdx := UNDEF;
      }
      order, free := order[1..], [idx] + free;
      FreedFront(ns, old(order), old(free));
    }

    method TouchNew() returns (idx: int)
      requires Valid() && free != [] && order == []
      modifies this, nodes
      ensures Valid()
      ensures idx == old(free)[0] && free == old(free)[1..] && order == [idx]
      ensures KeepsValues(old(nodes[..]), nodes[..], UNDEF)
    {
      ghost var ns := nodes[..];
      idx := freelistHead;
      freelistHead := nodes[idx].next;
      SetPrev(idx, UNDEF);
      SetNext(idx, UNDEF);
      backIdx := idx;
      frontIdx := idx;
      order, free := [idx] + order, free[1..];
      UsedFront(ns, nodes[..], old(order), old(free));
    }

    method TouchBack() returns (idx: int)
      requires Valid()
      modifies this, nodes
      ensures Valid()
      ensures KeepsValues(old(nodes[..]), nodes[..], UNDEF)
      ensures old(free) == [] ==> idx == UNDEF && order == old(order) && free == []
      ensures old(free) != [] ==> idx == old(free)[0] && free == old(free)[1..] && order == old(order) + [idx]
    {
      ghost var ns := nodes[..];
      idx := freelistHead;
      if idx == UNDEF {
        return;
      }
      if Empty() {
        idx := TouchNew();
      } else {
        SetNext(backIdx, idx);
        freelistHead := nodes[idx].next;
        SetPrev(idx, backIdx);
        SetNext(idx, UNDEF);
        backIdx := idx;
        order, free := order + [idx], free[1..];
        UsedBack(ns, nodes[..], old(order), old(free));
      }
    }

    method TouchFront() returns (idx: int)
      requires Valid()
      modifies this, nodes
      ensures Valid()
      ensures KeepsValues(old(nodes[..]), nodes[..], UNDEF)
      ensures old(free) == [] ==> idx == UNDEF && order == old(order) && free == []
      ensures old(free) != [] ==> idx == old(free)[0] && free == old(free)[1..] && order == [idx] + old(order)
    {
      hide Partition;
      ghost var ns := nodes[..];
      FreeRoom(ns, order, free);
      idx := freelistHead;
      if idx == UNDEF {
        return;
      }
      if Empty() {
        idx := TouchNew();
      } else {
        SetPrev(frontIdx, idx);
        freelistHead := nodes[idx].next;
        SetPrev(idx, UNDEF);
        SetNext(idx, frontIdx);
        frontIdx := idx;
        order, free := [idx] + order, free[1..];
        UsedFront(ns, nodes[..], old(order), old(free));
      }
    }

    method PutBack(v: T) returns (idx: int)
      requires Valid()
      modifies this, nodes
      ensures Valid()
      ensures KeepsValues(old(nodes[..]), nodes[..], idx)
      ensures old(free) == [] ==> idx == UNDEF && order == old(order) && free == []
      ensures old(free) != [] ==> idx == old(free)[0] && free == old(free)[1..] && order == old(order) + [idx]
      ensures old(free) != [] ==> nodes[idx].value == v
    {
      idx := TouchBack();
      if idx != UNDEF {
        ghost var ns := nodes[..];
        nodes[idx] := nodes[idx].(value := v);
        SameLinks(ns, nodes[..], order, free);
      }
    }

    method PutFront(v: T) returns (idx: int)
      requires Valid()
      modifies this, nodes
      ensures Valid()
      ensures KeepsValues(old(nodes[..]), nodes[..], idx)
      ensures old(free) == [] ==> idx == UNDEF && order == old(order) && free == []
      ensures old(free) != [] ==> idx == old(free)[0] && free == old(free)[1..] && order == [idx] + old(order)
      ensures old(free) != [] ==> nodes[idx].value == v
    {
      idx := TouchFront();
      if idx != UNDEF {
        ghost var ns := nodes[..];
        nodes[idx] := nodes[idx].(value := v);
        SameLinks(ns, nodes[..], order, free);
      }
    }

    /** `p` is the position of `idx` in the list. */
    method MoveFrontByIdx(idx: int, ghost p: nat)
      requires Valid() && p < |order| && order[p] == idx
      modifies this, nodes
      ensures Valid()
      ensures order == [idx] + RemoveAt(old(order), p) && free == old(free)
      ensures KeepsValues(old(nodes[..]), nodes[..], UNDEF)
    {
      hide Linked, KeepsValues, WithNext, WithPrev, RemoveAt, At;
      ghost var ns := nodes[..];
      Neighbours(ns, order, free, p);
      var prevIdx := nodes[idx].prev;
      var nextIdx := nodes[idx].next;
      if prevIdx == UNDEF {
        AlreadyThere(order);
        return;
      }
      SetNext(prevIdx, nextIdx);
      if nextIdx != UNDEF {
        SetPrev(nextIdx, prevIdx);
      } else {
        backIdx := prevIdx;
      }
      SetPrev(frontIdx, idx);
      SetPrev(idx, UNDEF);
      SetNext(idx, frontIdx);
      frontIdx := idx;
      order := [idx] + RemoveAt(order, p);
      MovedFront(ns, old(order), free, p);
    }

    /** `p` is the position of `idx` in the list. */
    method MoveBackByIdx(idx: int, ghost p: nat)
      requires Valid() && p < |order| && order[p] == idx
      modifies this, nodes
      ensures Valid()
      ensures order == RemoveAt(old(order), p) + [idx] && free == old(free)
      ensures KeepsValues(old(nodes[..]), nodes[..], UNDEF)
    {
      hide Linked, KeepsValues, WithNext, WithPrev, RemoveAt, At;
      ghost var ns := nodes[..];
      Neighbours(ns, order, free, p);
      var prevIdx := nodes[idx].prev;
      var nextIdx := nodes[idx].next;
      if nextIdx == UNDEF {
        AlreadyThere(order);
        return;
      }
      SetPrev(nextIdx, prevIdx);
      if prevIdx != UNDEF {
        SetNext(prevIdx, nextIdx);
      } else {
        frontIdx := nextIdx;
      }
      SetNext(backIdx, idx);
      SetPrev(idx, backIdx);
      SetNext(idx, UNDEF);
      backIdx := idx;
      order := RemoveAt(order, p) + [idx];
      MovedBack(ns, old(order), free, p);
    }
  }
}
