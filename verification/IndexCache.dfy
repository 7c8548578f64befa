/** The least-recently-used cache: a hash table whose entries carry the index of their
    node in a list of keys, kept in order of use. */
module IndexCache {
  import opened Sequences
  import opened Buckets
  import L = IndexList
  import H = IndexHash
  import M = LruModel

  const UNDEF := -1

  datatype CEntry<U> = CEntry(user: U, idx: int)

  /** The keys in the list, front to back. */
  function Order(lns: seq<L.Node<int>>, order: seq<int>): (r: seq<int>)
    requires InPool(|lns|, order)
    ensures |r| == |order|
  {
    seq(|order|, i requires 0 <= i < |order| => lns[order[i]].value)
  }

  /** Hash keys are list keys, and each entry's index names the list node that holds its key. */
  ghost predicate Agree<U>(m: map<int, CEntry<U>>, lns: seq<L.Node<int>>, order: seq<int>) {
    && InPool(|lns|, order) && NoDup(order)
    && (forall k {:trigger m[k]} :: k in m ==> m[k].idx in order && lns[m[k].idx].value == k)
    && (forall p {:trigger order[p]} :: 0 <= p < |order| ==> lns[order[p]].value in m && m[lns[order[p]].value].idx == order[p])
  }

  lemma SameKeys<U>(m: map<int, CEntry<U>>, lns: seq<L.Node<int>>, order: seq<int>)
    requires Agree(m, lns, order)
    ensures M.Keys(Order(lns, order)) == m.Keys && NoDup(Order(lns, order)) && |order| == |m|
  {
    var rec := Order(lns, order);
    forall i, j {:trigger rec[i], rec[j]} | 0 <= i < j < |rec| ensures rec[i] != rec[j] {
      assert m[rec[i]].idx == order[i] && m[rec[j]].idx == order[j];
    }
    forall k | k in m.Keys ensures k in rec {
      assert m[k].idx in order;
      var p :| 0 <= p < |order| && order[p] == m[k].idx;
      assert rec[p] == k;
    }
    assert M.Keys(rec) == m.Keys;
    M.KeysCount(rec);
  }

  lemma {:induction false} WithoutAt(rec: seq<int>, p: nat)
    requires NoDup(rec) && p < |rec|
    ensures M.Without(rec, rec[p]) == RemoveAt(rec, p)
  {
    if p == 0 {
      WithoutAbsent(rec[1..], rec[0]);
      assert RemoveAt(rec, 0) == rec[1..];
    } else {
      WithoutAt(rec[1..], p - 1);
      assert RemoveAt(rec, p) == [rec[0]] + RemoveAt(rec[1..], p - 1);
    }
  }

  lemma {:induction false} WithoutAbsent(rec: seq<int>, k: int)
    requires k !in rec
    ensures M.Without(rec, k) == rec
  {
    if rec != [] {
      WithoutAbsent(rec[1..], k);
    }
  }

  /** A hit: the node at position `p` moves to the front. */
  lemma Hit<U>(m: map<int, CEntry<U>>, lns: seq<L.Node<int>>, ls: seq<L.Node<int>>, order: seq<int>, p: nat)
    requires p < |order| && L.KeepsValues(lns, ls, UNDEF)
    ensures Agree(m, lns, order) ==>
      var order' := [order[p]] + RemoveAt(order, p);
      && Agree(m, ls, order')
      && Order(ls, order') == [lns[order[p]].value] + M.Without(Order(lns, order), lns[order[p]].value)
  {
    if Agree(m, lns, order) {
      hide M.Without, L.KeepsValues, RemoveAt, M.Keys;
      SameKeys(m, lns, order);
      WithoutAt(Order(lns, order), p);
      HitAgree(m, lns, ls, order, p);
      HitOrder(m, lns, ls, order, p);
    }
  }

  lemma HitOrder<U>(m: map<int, CEntry<U>>, lns: seq<L.Node<int>>, ls: seq<L.Node<int>>, order: seq<int>, p: nat)
    requires p < |order| && L.KeepsValues(lns, ls, UNDEF) && Agree(m, lns, order)
    ensures InPool(|ls|, [order[p]] + RemoveAt(order, p))
    ensures Order(ls, [order[p]] + RemoveAt(order, p)) == [Order(lns, order)[p]] + RemoveAt(Order(lns, order), p)
  {
    AllBut(order, p);
    AllBut(Order(lns, order), p);
  }

  lemma HitAgree<U>(m: map<int, CEntry<U>>, lns: seq<L.Node<int>>, ls: seq<L.Node<int>>, order: seq<int>, p: nat)
    requires p < |order| && L.KeepsValues(lns, ls, UNDEF) && Agree(m, lns, order)
    ensures Agree(m, ls, [order[p]] + RemoveAt(order, p))
  {
    var order' := [order[p]] + RemoveAt(order, p);
    AllBut(order, p);
    assert forall i {:trigger order'[i]} :: 0 < i < |order'| ==> order'[i] == RemoveAt(order, p)[i - 1];
    forall k {:trigger m[k]} | k in m ensures m[k].idx in order' && ls[m[k].idx].value == k {
      var i :| 0 <= i < |order| && order[i] == m[k].idx;
      assert order'[if i == p then 0 else if i < p then i + 1 else i] == order[i];
    }
    forall q {:trigger order'[q]} | 0 <= q < |order'|
      ensures 0 <= order'[q] < |ls| && ls[order'[q]].value in m && m[ls[order'[q]].value].idx == order'[q]
    {
      var i := if q == 0 then p else if q <= p then q - 1 else q;
      assert order'[q] == order[i];
      assert ls[order[i]].value == lns[order[i]].value;
    }
    MovedNoDup(order, p);
  }

  lemma MovedNoDup(order: seq<int>, p: nat)
    requires p < |order| && NoDup(order)
    ensures NoDup([order[p]] + RemoveAt(order, p))
  {
    AllBut(order, p);
  }

  /** A new key `k` goes to the front, in list node `x`. */
  lemma Pushed<U>(m: map<int, CEntry<U>>, m': map<int, CEntry<U>>, lns: seq<L.Node<int>>, ls: seq<L.Node<int>>,
                  order: seq<int>, x: int, k: int)
    requires L.KeepsValues(lns, ls, x) && 0 <= x < |ls| && ls[x].value == k && x !in order
    requires k !in m && k in m' && m'[k].idx == x && m' == m[k := m'[k]]
    ensures Agree(m, lns, order) ==>
      Agree(m', ls, [x] + order) && Order(ls, [x] + order) == [k] + Order(lns, order)
  {
    if Agree(m, lns, order) {
      assert forall i {:trigger order[i]} :: 0 <= i < |order| ==> order[i] != x;
      assert Order(ls, [x] + order) == [k] + Order(lns, order);
    }
  }

  /** The key in the last node leaves list and map. */
  lemma Dropped<U>(m: map<int, CEntry<U>>, lns: seq<L.Node<int>>, ls: seq<L.Node<int>>, order: seq<int>)
    requires order != [] && L.KeepsValues(lns, ls, UNDEF)
    ensures Agree(m, lns, order) ==>
      var n := |order| - 1;
      && 0 <= order[n] < |lns|
      && var lru := lns[order[n]].value;
      && lru in m && lru == Order(lns, order)[n]
      && Agree(m - {lru}, ls, order[..n]) && Order(ls, order[..n]) == Order(lns, order)[..n]
  {
    if Agree(m, lns, order) {
      var n := |order| - 1;
      var lru := lns[order[n]].value;
      var m' := m - {lru};
      forall k {:trigger m'[k]} | k in m' ensures m'[k].idx in order[..n] && ls[m'[k].idx].value == k {
        var i :| 0 <= i < |order| && order[i] == m[k].idx;
        assert order[..n][i] == m[k].idx;
      }
      assert Order(ls, order[..n]) == Order(lns, order)[..n];
    }
  }

  lemma NodeOf<U>(m: map<int, CEntry<U>>, lns: seq<L.Node<int>>, order: seq<int>, k: int)
    ensures Agree(m, lns, order) && k in m ==>
      && m[k].idx in order && 0 <= m[k].idx < |lns| && lns[m[k].idx].value == k && k in Order(lns, order)
  {
    if Agree(m, lns, order) && k in m {
      SameKeys(m, lns, order);
    }
  }

  /** The entry's own part does not matter to the list. */
  lemma UserWritten<U>(m: map<int, CEntry<U>>, lns: seq<L.Node<int>>, order: seq<int>, key: int, u: U)
    requires Agree(m, lns, order) && key in m
    ensures Agree(m[key := m[key].(user := u)], lns, order)
  {
  }

  /** What the list and the table say about each other's size. */
  lemma Sizes<U>(m: map<int, CEntry<U>>, lns: seq<L.Node<int>>, order: seq<int>)
    ensures Agree(m, lns, order) ==>
      && InPool(|lns|, order) && M.Keys(Order(lns, order)) == m.Keys && |order| == |m.Keys|
  {
    if Agree(m, lns, order) {
      SameKeys(m, lns, order);
    }
  }

  lemma NotEmpty(h: int -> nat, B: nat, C: nat, rec: seq<int>, k: int)
    requires B > 0 && NoRoom(h, B, C, M.Keys(rec), k)
    ensures rec != []
  {
    assert M.Keys(rec) != {};
  }

  class ICache<U(0)> {
    const hash: H.IHash<CEntry<U>>
    const list: L.IList<int>

    ghost predicate Valid()
      reads this, hash, hash.nodes, list, list.nodes
    {
      && hash.nodes as object != list.nodes
      && hash.Valid() && list.Valid()
      && list.nodes.Length == hash.nodes.Length
      && Agree(hash.m, list.nodes[..], list.order)
    }

    /** The resident keys, most recently used first. */
    ghost function Recency(): seq<int>
      requires Valid()
      reads this, hash, hash.nodes, list, list.nodes
    {
      Order(list.nodes[..], list.order)
    }

    constructor (bucketsz: nat, chainsz: nat, h: int -> nat, init: U)
      requires bucketsz > 0
      ensures Valid() && fresh(hash) && fresh(hash.nodes) && fresh(list) && fresh(list.nodes)
      ensures hash.hashFn == h && hash.bucketsz == bucketsz && hash.Chainsz() == chainsz
      ensures hash.m == map[] && Recency() == []
    {
      hash := new H.IHash(bucketsz, chainsz, h, CEntry(init, UNDEF));
      list := new L.IList(bucketsz + chainsz, UNDEF);
      new;
      assert Agree(hash.m, list.nodes[..], list.order);
    }

    method Clear(h: int -> nat)
      requires Valid()
      modifies hash, hash.nodes, list, list.nodes
      ensures Valid() && hash.hashFn == h && hash.m == map[] && Recency() == []
    {
      hash.Clear(h);
      list.Clear();
      assert Agree(hash.m, list.nodes[..], list.order);
    }

    method Get(key: int) returns (e: int)
      requires Valid() && key != UNDEF
      ensures e == UNDEF <==> key !in hash.m
      ensures e != UNDEF ==> hash.IsAt(e, key) && hash.nodes[e].val == hash.m[key]
    {
      e := hash.Get(key);
    }

    /** The caller writes its part of the entry at slot `e`. */
    method Put(e: int, key: int, u: U)
      requires Valid() && hash.IsAt(e, key)
      modifies hash, hash.nodes
      ensures Valid() && hash.hashFn == old(hash.hashFn) && Recency() == old(Recency())
      ensures key in old(hash.m) && hash.m == old(hash.m)[key := old(hash.m)[key].(user := u)] && hash.IsAt(e, key)
    {
      hide Agree, H.HashOk, L.Linked;
      hash.EntryAt(e, key);
      UserWritten(hash.m, list.nodes[..], list.order, key, u);
      hash.Put(e, key, hash.nodes[e].val.(user := u));
    }

    ghost predicate UsersKept(was: map<int, CEntry<U>>)
      reads hash
    {
      forall k {:trigger hash.m[k]} :: k in hash.m && k in was ==> hash.m[k].user == was[k].user
    }

    /** Entry `key` becomes the most recently used; a miss may cost the least recently used entry. */
    method Touch(key: int) returns (e: int)
      requires Valid() && key != UNDEF
      modifies hash, hash.nodes, list, list.nodes
      ensures Valid() && hash.hashFn == old(hash.hashFn)
      ensures var t := M.Touch(hash.hashFn, hash.bucketsz, hash.Chainsz(), old(Recency()), key);
        Recency() == t.rec && (e != UNDEF <==> t.ok)
      ensures e != UNDEF ==> hash.IsAt(e, key)
      ensures UsersKept(old(hash.m))
    {
      hide Valid, NoRoom, M.Without;
      Residents();
      e := Get(key);
      if e != UNDEF {
        Promote(e, key);
      } else {
        e := TryInsert(key);
        if e == UNDEF {
          NotEmpty(hash.hashFn, hash.bucketsz, hash.Chainsz(), Recency(), key);
          var lruKey, user := DropLast();
          Residents();
          e := TryInsert(key);
        }
      }
    }

    /** The table's keys are the list's. */
    lemma Residents()
      requires Valid()
      ensures hash.m.Keys == M.Keys(Recency()) && NoDup(Recency()) && hash.bucketsz > 0 && hash.Chainsz() >= 0
    {
      SameKeys(hash.m, list.nodes[..], list.order);
    }

    /** The resident keys fit the table. */
    lemma TableSize()
      requires Valid()
      ensures hash.bucketsz > 0 && hash.Chainsz() >= 0
      ensures M.Inv(hash.hashFn, hash.bucketsz, hash.Chainsz(), Recency())
    {
      hide Agree, L.Linked;
      hash.Size();
      Residents();
    }

    lemma EntryOf(e: int, key: int)
      requires Valid() && hash.IsAt(e, key)
      ensures key in hash.m && hash.m[key] == hash.nodes[e].val
    {
      hash.EntryAt(e, key);
    }

    /** The hit: `e` holds `key`, whose list node moves to the front. */
    method Promote(e: int, key: int)
      requires Valid() && hash.IsAt(e, key)
      modifies list, list.nodes
      ensures Valid() && Recency() == [key] + M.Without(old(Recency()), key) && key in old(Recency())
    {
      hide Agree, NoDup, L.KeepsValues, L.Linked, H.HashOk, RemoveAt, M.Without;
      ghost var m, lns, order := hash.m, list.nodes[..], list.order;
      Sizes(m, lns, order);
      hash.EntryAt(e, key);
      NodeOf(m, lns, order, key);
      var idx := hash.nodes[e].val.idx;
      ghost var p :| 0 <= p < |order| && order[p] == idx;
      list.MoveFrontByIdx(idx, p);
      Hit(m, lns, list.nodes[..], order, p);
    }

    /** A new key is entered, if the table has room for it, and becomes the most recently used. */
    method TryInsert(key: int) returns (e: int)
      requires Valid() && key != UNDEF && key !in hash.m
      modifies hash, hash.nodes, list, list.nodes
      ensures Valid() && hash.hashFn == old(hash.hashFn)
      ensures e == UNDEF <==> NoRoom(hash.hashFn, hash.bucketsz, hash.Chainsz(), old(hash.m).Keys, key)
      ensures e == UNDEF ==> hash.m == old(hash.m) && Recency() == old(Recency())
      ensures e != UNDEF ==> hash.IsAt(e, key) && Recency() == [key] + old(Recency())
      ensures e != UNDEF ==> key in hash.m && hash.m == old(hash.m)[key := hash.m[key]]
    {
      hide Agree, NoDup, L.KeepsValues, L.Linked, H.HashOk, ChainUse, Occupied;
      ghost var m := hash.m;
      e := hash.Touch(key);
      if e != UNDEF {
        Link(e, key, m);
      }
    }

    /** The least recently used entry leaves; its user part is what callers still need of it. */
    method DropLast() returns (lruKey: int, user: U)
      requires Valid() && Recency() != []
      modifies hash, hash.nodes, list, list.nodes
      ensures Valid() && hash.hashFn == old(hash.hashFn)
      ensures lruKey == old(Recency()[|Recency()| - 1]) && lruKey != UNDEF
      ensures Recency() == old(Recency())[..|old(Recency())| - 1]
      ensures lruKey in old(hash.m) && user == old(hash.m)[lruKey].user && hash.m == old(hash.m) - {lruKey}
    {
      hide Agree, NoDup, L.KeepsValues, L.Linked, H.HashOk;
      ghost var m, lns, order := hash.m, list.nodes[..], list.order;
      Sizes(m, lns, order);
      lruKey := list.PopBack();
      Dropped(m, lns, list.nodes[..], order);
      hash.KeyIsDefined(lruKey);
      var e := hash.Get(lruKey);
      user := hash.nodes[e].val.user;
      var erased := hash.Erase(lruKey);
    }

    /** The list has a node for one more key than it holds. */
    lemma RoomForOne(was: map<int, CEntry<U>>, key: int)
      requires hash.Valid() && list.Valid() && list.nodes.Length == hash.nodes.Length
      requires Agree(was, list.nodes[..], list.order) && key !in was && hash.m.Keys == was.Keys + {key}
      ensures list.free != [] && 0 <= list.free[0] < list.nodes.Length && list.free[0] !in list.order
    {
      hide Agree, NoDup, L.Linked, H.HashOk, ChainUse;
      L.FreeRoom(list.nodes[..], list.order, list.free);
      Sizes(was, list.nodes[..], list.order);
      hash.Size();
    }

    /** The list's half of an insertion: `key`, just entered into the table, gets a node at the front. */
    method Link(e: int, key: int, ghost was: map<int, CEntry<U>>)
      requires hash.nodes as object != list.nodes && hash.Valid() && list.Valid()
      requires list.nodes.Length == hash.nodes.Length
      requires Agree(was, list.nodes[..], list.order) && key !in was
      requires hash.IsAt(e, key) && hash.m == was[key := hash.nodes[e].val]
      modifies hash, hash.nodes, list, list.nodes
      ensures Valid() && hash.hashFn == old(hash.hashFn) && hash.IsAt(e, key)
      ensures Recency() == [key] + Order(old(list.nodes[..]), old(list.order))
      ensures key in hash.m && hash.m == was[key := hash.m[key]]
    {
      hide Agree, NoDup, L.KeepsValues, L.Linked, H.HashOk, ChainUse;
      ghost var lns, order := list.nodes[..], list.order;
      RoomForOne(was, key);
      var idx := list.PutFront(key);
      hash.Put(e, key, hash.nodes[e].val.(idx := idx));
      Pushed(was, hash.m, lns, list.nodes[..], order, idx, key);
    }
  }
}
