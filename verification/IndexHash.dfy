/** A chained hash table over one fixed pool of nodes: `bucketsz` primary slots
    followed by a pool of chain nodes, linked by index, with a freelist. */
module IndexHash {
  import opened Sequences
  import opened Buckets

  const UNDEF := -1

  /** `next` counts from the first chain node, so that chain node `n` is slot `bucketsz + n`. */
  datatype Node<V> = Node(key: int, val: V, next: int)

  /** How the slots are used: for each bucket its slots in chain order and what they store,
      the freelist, and for each slot its bucket (or -1 for a free one). */
  datatype Shape<V> = Shape(paths: seq<seq<int>>, rows: seq<seq<Entry<V>>>, free: seq<int>, owner: seq<int>)

  /** Following `next` from `s[0]` visits exactly the slots of `s`; all but the first are chain nodes. */
  ghost predicate Chain<V>(ns: seq<Node<V>>, B: nat, s: seq<int>) {
    && InPool(|ns|, s)
    && (forall i, j {:trigger s[i], s[j]} :: 0 <= i < j < |s| && j == i + 1 ==> B <= s[j] && ns[s[i]].next == s[j] - B)
    && (s != [] ==> ns[s[|s| - 1]].next == UNDEF)
  }

  ghost predicate BucketOk<V>(ns: seq<Node<V>>, B: nat, b: nat, path: seq<int>, row: seq<Entry<V>>) {
    && Chain(ns, B, path) && |row| == |path|
    && b < |ns| && (if path == [] then ns[b].key == UNDEF else path[0] == b)
    && (forall i {:trigger row[i]} {:trigger path[i]} :: 0 <= i < |path| ==>
         row[i] == Entry(ns[path[i]].key, ns[path[i]].val) && row[i].key != UNDEF)
  }

  /** `path` and `free` are all the slots that `owner` gives to bucket `b` and to nobody. */
  ghost predicate Owned(n: nat, B: nat, b: nat, path: seq<int>, free: seq<int>, owner: seq<int>) {
    && b < B <= n == |owner| && owner[b] == b
    && InPool(n, path) && InPool(n, free) && NoDup(path) && NoDup(free)
    && (forall i {:trigger path[i]} :: 0 <= i < |path| ==> owner[path[i]] == b)
    && (forall i {:trigger free[i]} :: 0 <= i < |free| ==> B <= free[i] && owner[free[i]] == UNDEF)
    && (forall s {:trigger owner[s]} :: B <= s < n ==>
         (owner[s] == UNDEF ==> s in free) && (owner[s] == b ==> s in path))
  }

  /** One bucket and the freelist: well linked, disjoint, and complete. */
  ghost predicate LocalOk<V>(ns: seq<Node<V>>, B: nat, b: nat, path: seq<int>, row: seq<Entry<V>>, free: seq<int>, owner: seq<int>) {
    BucketOk(ns, B, b, path, row) && Chain(ns, B, free) && Owned(|ns|, B, b, path, free, owner)
  }

  /** Every bucket's chain and the freelist are well linked and share no node. */
  ghost predicate Structure<V>(ns: seq<Node<V>>, B: nat, sh: Shape<V>) {
    && |sh.paths| == |sh.rows| == B
    && (forall b {:trigger sh.paths[b]} :: 0 <= b < B ==> LocalOk(ns, B, b, sh.paths[b], sh.rows[b], sh.free, sh.owner))
  }

  /** From `ns` to `ms` only bucket `b` and free slots change. */
  ghost predicate OthersKept<V>(ns: seq<Node<V>>, ms: seq<Node<V>>, b: nat, owner: seq<int>, owner': seq<int>) {
    && |ns| == |ms| == |owner| == |owner'|
    && (forall s {:trigger ms[s]} :: 0 <= s < |ns| && owner[s] != b && owner[s] != UNDEF ==> ms[s] == ns[s])
    && (forall s {:trigger owner'[s]} :: 0 <= s < |ns| ==>
         if owner[s] != b && owner[s] != UNDEF then owner'[s] == owner[s] else owner'[s] == b || owner'[s] == UNDEF)
  }

  lemma BucketKept<V>(ns: seq<Node<V>>, ms: seq<Node<V>>, B: nat, b: nat, path: seq<int>, row: seq<Entry<V>>)
    requires BucketOk(ns, B, b, path, row) && |ns| == |ms| && ms[b] == ns[b]
    requires forall i {:trigger path[i]} :: 0 <= i < |path| ==> ms[path[i]] == ns[path[i]]
    ensures BucketOk(ms, B, b, path, row)
  {
  }

  lemma OtherBucket<V>(ns: seq<Node<V>>, ms: seq<Node<V>>, B: nat, b: nat, c: nat,
                       path: seq<int>, row: seq<Entry<V>>, free: seq<int>, owner: seq<int>,
                       path': seq<int>, row': seq<Entry<V>>, free': seq<int>, owner': seq<int>)
    requires LocalOk(ns, B, c, path, row, free, owner) && c != b
    requires LocalOk(ms, B, b, path', row', free', owner') && OthersKept(ns, ms, b, owner, owner')
    ensures LocalOk(ms, B, c, path, row, free', owner')
  {
    assert owner'[c] == owner[c] == c && ms[c] == ns[c];
    forall i {:trigger path[i]} | 0 <= i < |path|
      ensures ms[path[i]] == ns[path[i]] && owner'[path[i]] == c
    {
    }
    BucketKept(ns, ms, B, c, path, row);
  }

  /** One bucket's chain and the freelist are replaced; everything else stays. */
  lemma OneBucket<V>(ns: seq<Node<V>>, ms: seq<Node<V>>, B: nat, sh: Shape<V>, b: nat,
                     path: seq<int>, row: seq<Entry<V>>, free: seq<int>, owner: seq<int>)
    requires Structure(ns, B, sh) && b < B
    requires OthersKept(ns, ms, b, sh.owner, owner) && LocalOk(ms, B, b, path, row, free, owner)
    ensures Structure(ms, B, Shape(sh.paths[b := path], sh.rows[b := row], free, owner))
  {
    hide LocalOk, OthersKept;
    var r := Shape(sh.paths[b := path], sh.rows[b := row], free, owner);
    forall c {:trigger r.paths[c]} | 0 <= c < B
      ensures LocalOk(ms, B, c, r.paths[c], r.rows[c], free, owner)
    {
      if c != b {
        OtherBucket(ns, ms, B, b, c, sh.paths[c], sh.rows[c], sh.free, sh.owner, path, row, free, owner);
      }
    }
  }

  // ----- one operation, seen from its bucket

  lemma FilledLocal<V>(ns: seq<Node<V>>, B: nat, b: nat, free: seq<int>, owner: seq<int>, k: int)
    requires LocalOk(ns, B, b, [], [], free, owner) && k != UNDEF
    ensures var ms := ns[b := Node(k, ns[b].val, UNDEF)];
      && LocalOk(ms, B, b, [b], [Entry(k, ns[b].val)], free, owner)
      && OthersKept(ns, ms, b, owner, owner)
  {
  }

  /** The nodes after the free slot `x` is linked, with key `k`, behind slot `e`. */
  function Chained<V>(ns: seq<Node<V>>, B: nat, e: int, x: int, k: int): seq<Node<V>>
    requires 0 <= e < |ns| && 0 <= x < |ns|
  {
    ns[e := ns[e].(next := x - B)][x := Node(k, ns[x].val, UNDEF)]
  }

  lemma ChainedLocal<V>(ns: seq<Node<V>>, B: nat, b: nat, path: seq<int>, row: seq<Entry<V>>, free: seq<int>, owner: seq<int>, k: int)
    requires LocalOk(ns, B, b, path, row, free, owner) && path != [] && free != [] && k != UNDEF
    ensures var x := free[0];
      var ms := Chained(ns, B, path[|path| - 1], x, k);
      && LocalOk(ms, B, b, path + [x], row + [Entry(k, ns[x].val)], free[1..], owner[x := b])
      && OthersKept(ns, ms, b, owner, owner[x := b])
  {
    var x, e := free[0], path[|path| - 1];
    var ms := Chained(ns, B, e, x, k);
    assert owner[e] == b && owner[x] == UNDEF;
    ChainedBucket(ns, ms, B, b, path, row, x, k);
    ChainedFree(ns, ms, B, b, path, free, owner, k);
    OwnersTaken(|ns|, B, b, path, free, owner);
  }

  lemma ChainedFree<V>(ns: seq<Node<V>>, ms: seq<Node<V>>, B: nat, b: nat, path: seq<int>, free: seq<int>, owner: seq<int>, k: int)
    requires Chain(ns, B, free) && Owned(|ns|, B, b, path, free, owner) && path != [] && free != []
    requires ms == Chained(ns, B, path[|path| - 1], free[0], k)
    ensures Chain(ms, B, free[1..])
    ensures OthersKept(ns, ms, b, owner, owner[free[0] := b])
  {
    assert owner[path[|path| - 1]] == b && owner[free[0]] == UNDEF;
    ChainTail(ns, ms, B, free);
  }

  lemma ChainedBucket<V>(ns: seq<Node<V>>, ms: seq<Node<V>>, B: nat, b: nat, path: seq<int>, row: seq<Entry<V>>, x: int, k: int)
    requires BucketOk(ns, B, b, path, row) && NoDup(path) && path != [] && x !in path && B <= x < |ns| && k != UNDEF
    requires ms == Chained(ns, B, path[|path| - 1], x, k)
    ensures BucketOk(ms, B, b, path + [x], row + [Entry(k, ns[x].val)])
  {
    ChainGrows(ns, ms, B, path, x);
  }

  /** The freelist's head joins bucket `b`. */
  lemma OwnersTaken(n: nat, B: nat, b: nat, path: seq<int>, free: seq<int>, owner: seq<int>)
    requires Owned(n, B, b, path, free, owner) && free != []
    ensures Owned(n, B, b, path + [free[0]], free[1..], owner[free[0] := b])
  {
  }

  lemma ChainGrows<V>(ns: seq<Node<V>>, ms: seq<Node<V>>, B: nat, s: seq<int>, x: int)
    requires Chain(ns, B, s) && s != [] && B <= x < |ns| && |ms| == |ns|
    requires forall i {:trigger s[i]} :: 0 <= i < |s| - 1 ==> ms[s[i]].next == ns[s[i]].next
    requires ms[s[|s| - 1]].next == x - B && ms[x].next == UNDEF
    ensures Chain(ms, B, s + [x])
  {
  }

  lemma ChainTail<V>(ns: seq<Node<V>>, ms: seq<Node<V>>, B: nat, s: seq<int>)
    requires Chain(ns, B, s) && s != [] && |ms| == |ns|
    requires forall i {:trigger s[i]} :: 0 < i < |s| ==> ms[s[i]].next == ns[s[i]].next
    ensures Chain(ms, B, s[1..])
  {
  }

  function LinkTo(B: nat, s: seq<int>): int {
    if s == [] then UNDEF else s[0] - B
  }

  lemma ChainCons<V>(ns: seq<Node<V>>, ms: seq<Node<V>>, B: nat, s: seq<int>, x: int)
    requires Chain(ns, B, s) && |ms| == |ns| && 0 <= x < |ns| && (s != [] ==> B <= s[0])
    requires forall i {:trigger s[i]} :: 0 <= i < |s| ==> ms[s[i]].next == ns[s[i]].next
    requires ms[x].next == LinkTo(B, s)
    ensures Chain(ms, B, [x] + s)
  {
    ChainBehind(ns, ms, B, s, [x] + s);
  }

  lemma ChainBehind<V>(ns: seq<Node<V>>, ms: seq<Node<V>>, B: nat, s: seq<int>, r: seq<int>)
    requires Chain(ns, B, s) && |ms| == |ns| && (s != [] ==> B <= s[0])
    requires forall i {:trigger s[i]} :: 0 <= i < |s| ==> ms[s[i]].next == ns[s[i]].next
    requires |r| == |s| + 1 && 0 <= r[0] < |ns| && ms[r[0]].next == LinkTo(B, s)
    requires forall i {:trigger r[i]} :: 0 < i < |r| ==> r[i] == s[i - 1]
    ensures Chain(ms, B, r)
  {
    forall j {:trigger r[j]} | 0 < j < |r|
      ensures B <= r[j] && ms[r[j - 1]].next == r[j] - B
    {
      assert r[j] == s[j - 1];
      if j > 1 { assert r[j - 1] == s[j - 2] && B <= s[j - 1] && ns[s[j - 2]].next == s[j - 1] - B; }
    }
    assert s != [] ==> r[|r| - 1] == s[|s| - 1];
  }

  lemma ChainByStep<V>(ns: seq<Node<V>>, B: nat, s: seq<int>)
    requires InPool(|ns|, s) && s != [] && ns[s[|s| - 1]].next == UNDEF
    requires forall j {:trigger s[j]} :: 0 < j < |s| ==> B <= s[j] && ns[s[j - 1]].next == s[j] - B
    ensures Chain(ns, B, s)
  {
    forall i, j {:trigger s[i], s[j]} | 0 <= i < j < |s| && j == i + 1
      ensures B <= s[j] && ns[s[i]].next == s[j] - B
    {
      assert i == j - 1;
    }
  }

  lemma ChainCut<V>(ns: seq<Node<V>>, ms: seq<Node<V>>, B: nat, s: seq<int>, p: nat)
    requires Chain(ns, B, s) && |ms| == |ns| && 0 < p < |s|
    requires forall i {:trigger s[i]} :: 0 <= i < |s| && i != p && i != p - 1 ==> ms[s[i]].next == ns[s[i]].next
    requires ms[s[p - 1]].next == ns[s[p]].next
    ensures Chain(ms, B, RemoveAt(s, p))
  {
    hide RemoveAt, Chain;
    var r := RemoveAt(s, p);
    AllBut(s, p);
    forall i {:trigger r[i]} | 0 <= i < |r|
      ensures 0 <= r[i] < |ms|
    {
      InChain(ns, B, s, if i < p then i else i + 1);
      assert r[i] == s[if i < p then i else i + 1];
    }
    forall j {:trigger r[j]} | 0 < j < |r|
      ensures B <= r[j] && ms[r[j - 1]].next == r[j] - B
    {
      assert r[j - 1] == s[if j - 1 < p then j - 1 else j] && r[j] == s[if j < p then j else j + 1];
      CutStep(ns, ms, B, s, p, j);
    }
    assert r[|r| - 1] == s[if |r| - 1 < p then |r| - 1 else |r|];
    InChain(ns, B, s, |s| - 1);
    assert p < |s| - 1 ==> ms[s[|s| - 1]].next == ns[s[|s| - 1]].next;
    ChainByStep(ms, B, r);
  }

  lemma InChain<V>(ns: seq<Node<V>>, B: nat, s: seq<int>, i: nat)
    requires Chain(ns, B, s) && i < |s|
    ensures 0 <= s[i] < |ns| && (i == |s| - 1 ==> ns[s[i]].next == UNDEF)
  {
  }

  lemma CutStep<V>(ns: seq<Node<V>>, ms: seq<Node<V>>, B: nat, s: seq<int>, p: nat, j: nat)
    requires Chain(ns, B, s) && |ms| == |ns| && 0 < p < |s| && 0 < j < |s| - 1
    requires forall i {:trigger s[i]} :: 0 <= i < |s| && i != p && i != p - 1 ==> ms[s[i]].next == ns[s[i]].next
    requires ms[s[p - 1]].next == ns[s[p]].next
    ensures var x, y := s[if j - 1 < p then j - 1 else j], s[if j < p then j else j + 1];
      0 <= x < |ms| && B <= y && ms[x].next == y - B
  {
    if j == p {
      assert ns[s[p]].next == s[p + 1] - B;
    } else {
      var k := if j < p then j else j + 1;
      assert ms[s[k - 1]].next == ns[s[k - 1]].next == s[k] - B;
    }
  }

  /** The slot at position `p` of bucket `b`'s chain joins the freelist. */
  lemma OwnersFreed(n: nat, B: nat, b: nat, path: seq<int>, free: seq<int>, owner: seq<int>, p: nat)
    requires Owned(n, B, b, path, free, owner) && p < |path| && B <= path[p]
    ensures Owned(n, B, b, RemoveAt(path, p), [path[p]] + free, owner[path[p] := UNDEF])
  {
    AllBut(path, p);
    var x, path', free' := path[p], RemoveAt(path, p), [path[p]] + free;
    var owner' := owner[x := UNDEF];
    forall s {:trigger owner'[s]} | B <= s < n
      ensures (owner'[s] == UNDEF ==> s in free') && (owner'[s] == b ==> s in path')
    {
      if owner[s] == b && s != x {
        var i :| 0 <= i < |path| && path[i] == s;
        assert path'[if i < p then i else i - 1] == s;
      } else if owner[s] == UNDEF {
        assert s in free;
      }
    }
  }

  lemma ClearedLocal<V>(ns: seq<Node<V>>, B: nat, b: nat, path: seq<int>, row: seq<Entry<V>>, free: seq<int>, owner: seq<int>)
    requires LocalOk(ns, B, b, path, row, free, owner) && |path| == 1
    ensures var ms := ns[b := ns[b].(key := UNDEF, next := UNDEF)];
      LocalOk(ms, B, b, [], [], free, owner) && OthersKept(ns, ms, b, owner, owner)
  {
    assert path[0] == b;
  }

  /** The nodes after slot `x` is taken out behind slot `prev` and put on top of the freelist. */
  function Unchained<V>(ns: seq<Node<V>>, B: nat, prev: int, x: int, free: seq<int>): seq<Node<V>>
    requires 0 <= prev < |ns| && 0 <= x < |ns|
  {
    ns[prev := ns[prev].(next := ns[x].next)][x := Node(UNDEF, ns[x].val, LinkTo(B, free))]
  }

  /** The nodes after bucket `b` takes over its first chain node `x`, which goes on top of the freelist. */
  function Promoted<V>(ns: seq<Node<V>>, B: nat, b: int, x: int, free: seq<int>): seq<Node<V>>
    requires 0 <= b < |ns| && 0 <= x < |ns|
  {
    ns[b := ns[x]][x := Node(UNDEF, ns[x].val, LinkTo(B, free))]
  }

  lemma UnchainedLocal<V>(ns: seq<Node<V>>, B: nat, b: nat, path: seq<int>, row: seq<Entry<V>>, free: seq<int>, owner: seq<int>, p: nat)
    requires LocalOk(ns, B, b, path, row, free, owner) && 0 < p < |path|
    ensures var ms := Unchained(ns, B, path[p - 1], path[p], free);
      && LocalOk(ms, B, b, RemoveAt(path, p), RemoveAt(row, p), [path[p]] + free, owner[path[p] := UNDEF])
      && OthersKept(ns, ms, b, owner, owner[path[p] := UNDEF])
  {
    var ms := Unchained(ns, B, path[p - 1], path[p], free);
    assert path[p] >= B by { assert path[p - 1] >= 0; }
    UnchainedBucket(ns, ms, B, b, path, row, free, p);
    FreedChain(ns, ms, B, b, path, free, owner, p);
    OwnersFreed(|ns|, B, b, path, free, owner, p);
  }

  lemma UnchainedBucket<V>(ns: seq<Node<V>>, ms: seq<Node<V>>, B: nat, b: nat, path: seq<int>, row: seq<Entry<V>>, free: seq<int>, p: nat)
    requires BucketOk(ns, B, b, path, row) && NoDup(path) && 0 < p < |path|
    requires ms == Unchained(ns, B, path[p - 1], path[p], free)
    ensures BucketOk(ms, B, b, RemoveAt(path, p), RemoveAt(row, p))
  {
    AllBut(path, p);
    AllBut(row, p);
    ChainCut(ns, ms, B, path, p);
  }

  lemma FreedChain<V>(ns: seq<Node<V>>, ms: seq<Node<V>>, B: nat, b: nat, path: seq<int>, free: seq<int>, owner: seq<int>, p: nat)
    requires Chain(ns, B, free) && Owned(|ns|, B, b, path, free, owner) && 0 < p < |path| && |ms| == |ns|
    requires forall s {:trigger ms[s]} :: 0 <= s < |ns| && s != path[p - 1] && s != path[p] ==> ms[s] == ns[s]
    requires ms[path[p]].next == LinkTo(B, free)
    ensures Chain(ms, B, [path[p]] + free) && OthersKept(ns, ms, b, owner, owner[path[p] := UNDEF])
  {
    assert owner[path[p]] == owner[path[p - 1]] == b;
    ChainCons(ns, ms, B, free, path[p]);
  }

  lemma PromotedLocal<V>(ns: seq<Node<V>>, B: nat, b: nat, path: seq<int>, row: seq<Entry<V>>, free: seq<int>, owner: seq<int>)
    requires LocalOk(ns, B, b, path, row, free, owner) && |path| > 1
    ensures var ms := Promoted(ns, B, b, path[1], free);
      && LocalOk(ms, B, b, RemoveAt(path, 1), RemoveAt(row, 0), [path[1]] + free, owner[path[1] := UNDEF])
      && OthersKept(ns, ms, b, owner, owner[path[1] := UNDEF])
  {
    var ms := Promoted(ns, B, b, path[1], free);
    assert path[0] == b && path[1] >= B;
    PromotedBucket(ns, ms, B, b, path, row, free);
    FreedChain(ns, ms, B, b, path, free, owner, 1);
    OwnersFreed(|ns|, B, b, path, free, owner, 1);
  }

  lemma PromotedBucket<V>(ns: seq<Node<V>>, ms: seq<Node<V>>, B: nat, b: nat, path: seq<int>, row: seq<Entry<V>>, free: seq<int>)
    requires BucketOk(ns, B, b, path, row) && NoDup(path) && |path| > 1
    requires ms == Promoted(ns, B, b, path[1], free)
    ensures BucketOk(ms, B, b, RemoveAt(path, 1), RemoveAt(row, 0))
  {
    AllBut(path, 1);
    AllBut(row, 0);
    ChainCut(ns, ms, B, path, 1);
  }

  lemma WrittenLocal<V>(ns: seq<Node<V>>, B: nat, b: nat, path: seq<int>, row: seq<Entry<V>>, free: seq<int>, owner: seq<int>, p: nat, v: V)
    requires LocalOk(ns, B, b, path, row, free, owner) && p < |path|
    ensures var ms := ns[path[p] := ns[path[p]].(val := v)];
      && LocalOk(ms, B, b, path, row[p := Entry(row[p].key, v)], free, owner)
      && OthersKept(ns, ms, b, owner, owner)
  {
    assert owner[path[p]] == b;
    var ms := ns[path[p] := ns[path[p]].(val := v)];
    ChainKept(ns, ms, B, path);
    ChainKept(ns, ms, B, free);
    WrittenRow(ns, B, b, path, row, p, v);
  }

  lemma ChainKept<V>(ns: seq<Node<V>>, ms: seq<Node<V>>, B: nat, s: seq<int>)
    requires Chain(ns, B, s) && |ms| == |ns|
    requires forall n {:trigger ms[n]} :: 0 <= n < |ns| ==> ms[n].next == ns[n].next
    ensures Chain(ms, B, s)
  {
    forall i, j {:trigger s[i], s[j]} | 0 <= i < j < |s| && j == i + 1
      ensures B <= s[j] && ms[s[i]].next == s[j] - B
    {
      assert ns[s[i]].next == s[j] - B;
    }
  }

  lemma WrittenRow<V>(ns: seq<Node<V>>, B: nat, b: nat, path: seq<int>, row: seq<Entry<V>>, p: nat, v: V)
    requires BucketOk(ns, B, b, path, row) && NoDup(path) && p < |path|
    ensures var ms := ns[path[p] := ns[path[p]].(val := v)];
      Chain(ms, B, path) ==> BucketOk(ms, B, b, path, row[p := Entry(row[p].key, v)])
  {
    var ms := ns[path[p] := ns[path[p]].(val := v)];
    var qs := row[p := Entry(row[p].key, v)];
    forall i {:trigger qs[i]} {:trigger path[i]} | 0 <= i < |path|
      ensures qs[i] == Entry(ms[path[i]].key, ms[path[i]].val) && qs[i].key != UNDEF
    {
      assert row[i] == Entry(ns[path[i]].key, ns[path[i]].val);
      assert i != p ==> path[i] != path[p];
    }
  }

  // ----- the whole table

  /** The nodes store exactly the map `m`; free chain nodes are those that `m` does not take. */
  ghost predicate HashOk<V>(ns: seq<Node<V>>, B: nat, h: int -> nat, sh: Shape<V>, m: map<int, V>) {
    && Structure(ns, B, sh) && Holds(h, B, sh.rows, m)
    && |sh.free| + ChainUse(h, B, m.Keys) == |ns| - B
  }

  lemma BucketView<V>(ns: seq<Node<V>>, B: nat, h: int -> nat, sh: Shape<V>, m: map<int, V>, k: int)
    requires B > 0
    ensures HashOk(ns, B, h, sh, m) ==>
      var b := Bucket(h, B, k);
      && |sh.paths| == |sh.rows| == B <= |ns| && |sh.paths[b]| == |sh.rows[b]|
      && (ns[b].key == UNDEF <==> sh.paths[b] == []) && (sh.paths[b] != [] ==> sh.paths[b][0] == b)
      && (k in m <==> HasKey(sh.rows[b], k))
      && (b in Occupied(h, B, m.Keys) <==> sh.rows[b] != [])
      && (sh.free == [] <==> ChainUse(h, B, m.Keys) == |ns| - B)
      && (sh.free != [] ==> B <= sh.free[0] < |ns| && ns[sh.free[0]].next == LinkTo(B, sh.free[1..]))
  {
    if HashOk(ns, B, h, sh, m) {
      var b := Bucket(h, B, k);
      assert LocalOk(ns, B, b, sh.paths[b], sh.rows[b], sh.free, sh.owner);
      OccupiedIff(h, B, sh.rows, m, b);
    }
  }

  lemma NodeView<V>(ns: seq<Node<V>>, B: nat, h: int -> nat, sh: Shape<V>, m: map<int, V>, b: nat, i: nat)
    ensures HashOk(ns, B, h, sh, m) && b < B && i < |sh.paths[b]| ==>
      var path, row := sh.paths[b], sh.rows[b];
      && |path| == |row| && 0 <= path[i] < |ns|
      && ns[path[i]].key == row[i].key != UNDEF && ns[path[i]].val == row[i].val
      && ns[path[i]].next == (if i + 1 < |path| then path[i + 1] - B else UNDEF)
      && (i + 1 < |path| ==> B <= path[i + 1] < |ns|)
      && row[i].key in m && m[row[i].key] == row[i].val && Bucket(h, B, row[i].key) == b
  {
    if HashOk(ns, B, h, sh, m) && b < B && i < |sh.paths[b]| {
      assert LocalOk(ns, B, b, sh.paths[b], sh.rows[b], sh.free, sh.owner);
      var path := sh.paths[b];
      assert path[i] >= 0;
      if i + 1 < |path| { assert path[i + 1] >= 0; }
    }
  }

  function Filled<V>(sh: Shape<V>, b: nat, e: Entry<V>): Shape<V>
    requires b < |sh.paths| == |sh.rows|
  {
    Shape(sh.paths[b := [b]], sh.rows[b := [e]], sh.free, sh.owner)
  }

  lemma FilledOk<V>(ns: seq<Node<V>>, B: nat, h: int -> nat, sh: Shape<V>, m: map<int, V>, k: int)
    requires 0 < B <= |ns| && k != UNDEF
    ensures var b := Bucket(h, B, k);
      HashOk(ns, B, h, sh, m) && ns[b].key == UNDEF ==>
        && |sh.paths| == |sh.rows| == B
        && HashOk(ns[b := Node(k, ns[b].val, UNDEF)], B, h, Filled(sh, b, Entry(k, ns[b].val)), m[k := ns[b].val])
  {
    var b := Bucket(h, B, k);
    if HashOk(ns, B, h, sh, m) && ns[b].key == UNDEF {
      BucketView(ns, B, h, sh, m, k);
      var v := ns[b].val;
      FilledLocal(ns, B, b, sh.free, sh.owner, k);
      OneBucket(ns, ns[b := Node(k, v, UNDEF)], B, sh, b, [b], [Entry(k, v)], sh.free, sh.owner);
      Grown(h, B, sh.rows, m, k, v);
      GrownUse(h, B, sh.rows, m, k, v);
      assert sh.rows[b] + [Entry(k, v)] == [Entry(k, v)];
    }
  }

  function Extended<V>(sh: Shape<V>, b: nat, e: Entry<V>): Shape<V>
    requires b < |sh.paths| == |sh.rows| && sh.free != [] && 0 <= sh.free[0] < |sh.owner|
  {
    Shape(sh.paths[b := sh.paths[b] + [sh.free[0]]], sh.rows[b := sh.rows[b] + [e]], sh.free[1..], sh.owner[sh.free[0] := b])
  }

  lemma ExtendedOk<V>(ns: seq<Node<V>>, B: nat, h: int -> nat, sh: Shape<V>, m: map<int, V>, k: int, e: int)
    requires B > 0 && k != UNDEF
    ensures var b := Bucket(h, B, k);
      HashOk(ns, B, h, sh, m) && k !in m && sh.free != [] && |sh.paths| == B && sh.paths[b] != []
      && e == sh.paths[b][|sh.paths[b]| - 1] ==>
        var x := sh.free[0];
        && 0 <= x < |ns| == |sh.owner| && 0 <= e < |ns| && e != x && |sh.rows| == B
        && HashOk(Chained(ns, B, e, x, k), B, h, Extended(sh, b, Entry(k, ns[x].val)), m[k := ns[x].val])
  {
    var b := Bucket(h, B, k);
    if HashOk(ns, B, h, sh, m) && k !in m && sh.free != [] && sh.paths[b] != [] && e == sh.paths[b][|sh.paths[b]| - 1] {
      var x := sh.free[0];
      assert LocalOk(ns, B, b, sh.paths[b], sh.rows[b], sh.free, sh.owner);
      var ent := Entry(k, ns[x].val);
      assert sh.owner[e] == b && sh.owner[x] == UNDEF;
      ChainedLocal(ns, B, b, sh.paths[b], sh.rows[b], sh.free, sh.owner, k);
      OneBucket(ns, Chained(ns, B, e, x, k), B, sh, b, sh.paths[b] + [x], sh.rows[b] + [ent], sh.free[1..], sh.owner[x := b]);
      Grown(h, B, sh.rows, m, k, ent.val);
      GrownUse(h, B, sh.rows, m, k, ent.val);
    }
  }

  function Emptied<V>(sh: Shape<V>, b: nat): Shape<V>
    requires b < |sh.paths| == |sh.rows|
  {
    Shape(sh.paths[b := []], sh.rows[b := []], sh.free, sh.owner)
  }

  lemma EmptiedOk<V>(ns: seq<Node<V>>, B: nat, h: int -> nat, sh: Shape<V>, m: map<int, V>, b: nat)
    requires b < B <= |ns|
    ensures HashOk(ns, B, h, sh, m) && ns[b].key != UNDEF && ns[b].next == UNDEF ==>
      && |sh.paths| == |sh.rows| == B
      && HashOk(ns[b := ns[b].(key := UNDEF, next := UNDEF)], B, h, Emptied(sh, b), m - {ns[b].key})
  {
    if HashOk(ns, B, h, sh, m) && ns[b].key != UNDEF && ns[b].next == UNDEF {
      assert LocalOk(ns, B, b, sh.paths[b], sh.rows[b], sh.free, sh.owner);
      var path, row := sh.paths[b], sh.rows[b];
      assert path[0] == b;
      NodeView(ns, B, h, sh, m, b, 0);
      ClearedLocal(ns, B, b, path, row, sh.free, sh.owner);
      OneBucket(ns, ns[b := ns[b].(key := UNDEF, next := UNDEF)], B, sh, b, [], [], sh.free, sh.owner);
      Shrunk(h, B, sh.rows, m, b, 0);
      assert RemoveAt(row, 0) == [];
    }
  }

  /** The shape after bucket `b` loses the slot at `p` of its path and the entry at `q` of its row. */
  function Returned<V>(sh: Shape<V>, b: nat, p: nat, q: nat): Shape<V>
    requires b < |sh.paths| == |sh.rows| && p < |sh.paths[b]| && q < |sh.rows[b]| && 0 <= sh.paths[b][p] < |sh.owner|
  {
    Shape(sh.paths[b := RemoveAt(sh.paths[b], p)], sh.rows[b := RemoveAt(sh.rows[b], q)],
          [sh.paths[b][p]] + sh.free, sh.owner[sh.paths[b][p] := UNDEF])
  }

  lemma PromotedOk<V>(ns: seq<Node<V>>, B: nat, h: int -> nat, sh: Shape<V>, m: map<int, V>, b: nat)
    requires b < B <= |ns|
    ensures HashOk(ns, B, h, sh, m) && ns[b].key != UNDEF && ns[b].next != UNDEF ==>
      && |sh.paths| == |sh.rows| == B && 1 < |sh.paths[b]| == |sh.rows[b]| && |sh.owner| == |ns|
      && B <= sh.paths[b][1] == B + ns[b].next < |ns|
      && HashOk(Promoted(ns, B, b, sh.paths[b][1], sh.free), B, h, Returned(sh, b, 1, 0), m - {ns[b].key})
  {
    if HashOk(ns, B, h, sh, m) && ns[b].key != UNDEF && ns[b].next != UNDEF {
      assert LocalOk(ns, B, b, sh.paths[b], sh.rows[b], sh.free, sh.owner);
      var path, row := sh.paths[b], sh.rows[b];
      assert path[0] == b;
      var x := path[1];
      assert B <= x;
      PromotedLocal(ns, B, b, path, row, sh.free, sh.owner);
      OneBucket(ns, Promoted(ns, B, b, x, sh.free), B, sh, b, RemoveAt(path, 1), RemoveAt(row, 0), [x] + sh.free, sh.owner[x := UNDEF]);
      Shrunk(h, B, sh.rows, m, b, 0);
    }
  }

  lemma UnchainedOk<V>(ns: seq<Node<V>>, B: nat, h: int -> nat, sh: Shape<V>, m: map<int, V>, b: nat, p: nat)
    requires b < B <= |ns| && p > 0
    ensures HashOk(ns, B, h, sh, m) && |sh.paths| == B && p < |sh.paths[b]| ==>
      var path := sh.paths[b];
      && |sh.rows| == B && |path| == |sh.rows[b]| && |sh.owner| == |ns|
      && 0 <= path[p - 1] < |ns| && B <= path[p] < |ns| && path[p - 1] != path[p]
      && HashOk(Unchained(ns, B, path[p - 1], path[p], sh.free), B, h, Returned(sh, b, p, p), m - {ns[path[p]].key})
  {
    if HashOk(ns, B, h, sh, m) && p < |sh.paths[b]| {
      assert LocalOk(ns, B, b, sh.paths[b], sh.rows[b], sh.free, sh.owner);
      var path, row := sh.paths[b], sh.rows[b];
      var x := path[p];
      assert path[p - 1] >= 0 && B <= x && row[p].key == ns[x].key;
      UnchainedLocal(ns, B, b, path, row, sh.free, sh.owner, p);
      OneBucket(ns, Unchained(ns, B, path[p - 1], x, sh.free), B, sh, b, RemoveAt(path, p), RemoveAt(row, p), [x] + sh.free, sh.owner[x := UNDEF]);
      Shrunk(h, B, sh.rows, m, b, p);
    }
  }

  function Rewritten<V>(sh: Shape<V>, b: nat, p: nat, v: V): Shape<V>
    requires b < |sh.paths| == |sh.rows| && p < |sh.rows[b]|
  {
    sh.(rows := sh.rows[b := sh.rows[b][p := Entry(sh.rows[b][p].key, v)]])
  }

  lemma RewrittenOk<V>(ns: seq<Node<V>>, B: nat, h: int -> nat, sh: Shape<V>, m: map<int, V>, b: nat, p: nat, v: V)
    requires b < B <= |ns|
    ensures HashOk(ns, B, h, sh, m) && |sh.paths| == B && p < |sh.paths[b]| ==>
      var e := sh.paths[b][p];
      && |sh.rows| == B && p < |sh.rows[b]| && 0 <= e < |ns|
      && HashOk(ns[e := ns[e].(val := v)], B, h, Rewritten(sh, b, p, v), m[ns[e].key := v])
      && m[ns[e].key := v].Keys == m.Keys
  {
    hide LocalOk, Holds;
    if HashOk(ns, B, h, sh, m) && p < |sh.paths[b]| {
      var path, row := sh.paths[b], sh.rows[b];
      var e := path[p];
      InBucket(ns, B, b, path, row, sh.free, sh.owner, p);
      RewrittenStructure(ns, B, sh, b, p, v);
      Replaced(h, B, sh.rows, m, b, p, v);
    }
  }

  lemma InBucket<V>(ns: seq<Node<V>>, B: nat, b: nat, path: seq<int>, row: seq<Entry<V>>, free: seq<int>, owner: seq<int>, p: nat)
    requires LocalOk(ns, B, b, path, row, free, owner) && p < |path|
    ensures |row| == |path| && 0 <= path[p] < |ns| && row[p].key == ns[path[p]].key
  {
  }

  lemma RewrittenStructure<V>(ns: seq<Node<V>>, B: nat, sh: Shape<V>, b: nat, p: nat, v: V)
    requires Structure(ns, B, sh) && b < B && p < |sh.paths[b]| == |sh.rows[b]| && 0 <= sh.paths[b][p] < |ns|
    ensures var e := sh.paths[b][p];
      Structure(ns[e := ns[e].(val := v)], B, Rewritten(sh, b, p, v))
  {
    hide LocalOk, OthersKept;
    var path, row := sh.paths[b], sh.rows[b];
    var e := path[p];
    WrittenLocal(ns, B, b, path, row, sh.free, sh.owner, p, v);
    OneBucket(ns, ns[e := ns[e].(val := v)], B, sh, b, path, row[p := Entry(row[p].key, v)], sh.free, sh.owner);
    assert sh.paths[b := path] == sh.paths;
  }

  class IHash<V(0)> {
    const bucketsz: nat
    const nodes: array<Node<V>>
    var hashFn: int -> nat
    var chainHead: int

    ghost var shape: Shape<V>
    ghost var m: map<int, V>  // the table's contents

    ghost predicate Valid()
      reads this, nodes
    {
      && 0 < bucketsz <= nodes.Length
      && HashOk(nodes[..], bucketsz, hashFn, shape, m)
      && chainHead == LinkTo(bucketsz, shape.free)
    }

    function Chainsz(): int {
      nodes.Length - bucketsz
    }

    /** Slot `e` stores key `k`. */
    ghost predicate IsAt(e: int, k: int)
      reads this, nodes
    {
      && 0 <= e < nodes.Length && nodes[e].key == k && bucketsz > 0
      && var b := Bucket(hashFn, bucketsz, k);
      && b < |shape.paths| && e in shape.paths[b]
    }

    /** The table holds at most as many keys as it has nodes. */
    lemma Size()
      requires Valid()
      ensures ChainUse(hashFn, bucketsz, m.Keys) <= Chainsz() && |m.Keys| <= nodes.Length
    {
      hide Structure, Holds;
      OccupiedBound(hashFn, bucketsz, m.Keys);
    }

    lemma KeyIsDefined(k: int)
      requires Valid() && k in m
      ensures k != UNDEF
    {
      var b := Bucket(hashFn, bucketsz, k);
      var i :| 0 <= i < |shape.rows[b]| && shape.rows[b][i].key == k;
      NodeView(nodes[..], bucketsz, hashFn, shape, m, b, i);
    }

    lemma EntryAt(e: int, k: int)
      requires Valid() && IsAt(e, k)
      ensures k in m && m[k] == nodes[e].val && k != UNDEF
    {
      hide HashOk;
      var b := Bucket(hashFn, bucketsz, k);
      var p :| 0 <= p < |shape.paths[b]| && shape.paths[b][p] == e;
      NodeView(nodes[..], bucketsz, hashFn, shape, m, b, p);
    }

    method Get(key: int) returns (e: int)
      requires Valid() && key != UNDEF
      ensures e == UNDEF <==> key !in m
      ensures e != UNDEF ==> IsAt(e, key) && nodes[e].val == m[key]
    {
      hide HashOk, HasKey;
      ghost var ns := nodes[..];
      BucketView(ns, bucketsz, hashFn, shape, m, key);
      var b := Bucket(hashFn, bucketsz, key);
      e := b;
      if nodes[e].key == UNDEF {
        NotInEmptyRow(shape.rows[b], key);
        return UNDEF;
      }
      ghost var i := 0;
      while true
        invariant 0 <= i < |shape.paths[b]| == |shape.rows[b]| && e == shape.paths[b][i]
        invariant forall j :: 0 <= j < i ==> shape.rows[b][j].key != key
        decreases |shape.paths[b]| - i
      {
        NodeView(ns, bucketsz, hashFn, shape, m, b, i);
        if nodes[e].key == key {
          return;
        }
        if nodes[e].next == UNDEF {
          NotInRow(shape.rows[b], key);
          return UNDEF;
        }
        e := bucketsz + nodes[e].next;
        i := i + 1;
      }
    }

    /** The new key goes into its empty bucket. */
    method FillBucket(b: nat, key: int)
      requires Valid() && key != UNDEF && b == Bucket(hashFn, bucketsz, key) && nodes[b].key == UNDEF
      modifies this, nodes
      ensures Valid() && hashFn == old(hashFn) && key !in old(m)
      ensures IsAt(b, key) && m == old(m)[key := nodes[b].val]
      ensures b !in Occupied(hashFn, bucketsz, old(m).Keys)
    {
      hide HashOk, HasKey, Occupied, ChainUse;
      ghost var ns, sh := nodes[..], shape;
      BucketView(ns, bucketsz, hashFn, sh, m, key);
      NotInEmptyRow(sh.rows[b], key);
      FilledOk(ns, bucketsz, hashFn, sh, m, key);
      shape, m := Filled(sh, b, Entry(key, nodes[b].val)), m[key := nodes[b].val];
      nodes[b] := Node(key, nodes[b].val, UNDEF);
      assert nodes[..] == ns[b := Node(key, ns[b].val, UNDEF)];
      assert shape.paths[b][0] == b;
    }

    /** The new key goes into a free node, linked behind `e`, the last of its chain. */
    method LinkNew(e: int, key: int) returns (x: int)
      requires Valid() && key != UNDEF && key !in m && chainHead != UNDEF
      requires IsAtEnd(e, Bucket(hashFn, bucketsz, key))
      modifies this, nodes
      ensures Valid() && hashFn == old(hashFn)
      ensures x != UNDEF && IsAt(x, key) && m == old(m)[key := nodes[x].val]
    {
      hide HashOk, HasKey, Chained, Occupied, ChainUse;
      ghost var ns, sh, b := nodes[..], shape, Bucket(hashFn, bucketsz, key);
      BucketView(ns, bucketsz, hashFn, sh, m, key);
      ExtendedOk(ns, bucketsz, hashFn, sh, m, key, e);
      x := bucketsz + chainHead;
      shape, m := Extended(sh, b, Entry(key, nodes[x].val)), m[key := nodes[x].val];
      nodes[e] := nodes[e].(next := chainHead);
      chainHead := nodes[x].next;
      nodes[x] := Node(key, nodes[x].val, UNDEF);
      ChainedIs(ns, nodes[..], bucketsz, e, x, key);
      assert shape.paths[b][|sh.paths[b]|] == x;
    }

    ghost predicate IsAtEnd(e: int, b: nat)
      reads this
    {
      b < |shape.paths| && shape.paths[b] != [] && e == shape.paths[b][|shape.paths[b]| - 1]
    }

    /** `e` is -1 exactly when the key is new, its bucket is taken and no chain node is free.
        The value of a new entry is whatever the slot held before. */
    method Touch(key: int) returns (e: int)
      requires Valid() && key != UNDEF
      modifies this, nodes
      ensures Valid() && hashFn == old(hashFn)
      ensures e == UNDEF <==> NoRoom(hashFn, bucketsz, Chainsz(), old(m).Keys, key)
      ensures e == UNDEF || key in old(m) ==> m == old(m)
      ensures e != UNDEF ==> IsAt(e, key) && key in m && m[key] == nodes[e].val
      ensures e != UNDEF && key !in old(m) ==> m == old(m)[key := nodes[e].val]
    {
      hide HashOk, HasKey, Occupied, ChainUse;
      ghost var ns, sh := nodes[..], shape;
      BucketView(ns, bucketsz, hashFn, shape, m, key);
      var b := Bucket(hashFn, bucketsz, key);
      e := b;
      if nodes[e].key == UNDEF {
        FillBucket(b, key);
        return;
      }
      ghost var i := 0;
      while true
        invariant nodes[..] == ns && shape == sh && m == old(m) && chainHead == old(chainHead) && hashFn == old(hashFn)
        invariant 0 <= i < |sh.paths[b]| == |sh.rows[b]| && e == sh.paths[b][i]
        invariant forall j :: 0 <= j < i ==> sh.rows[b][j].key != key
        decreases |sh.paths[b]| - i
      {
        NodeView(ns, bucketsz, hashFn, sh, m, b, i);
        if nodes[e].key == key {
          return;
        }
        if nodes[e].next == UNDEF {
          NotInRow(sh.rows[b], key);
          if chainHead == UNDEF {
            return UNDEF;
          }
          e := LinkNew(e, key);
          return;
        }
        e := bucketsz + nodes[e].next;
        i := i + 1;
      }
    }

    /** The value of the entry at slot `e` is replaced. */
    method Put(e: int, key: int, v: V)
      requires Valid() && IsAt(e, key)
      modifies this, nodes
      ensures Valid() && hashFn == old(hashFn)
      ensures m == old(m)[key := v] && m.Keys == old(m).Keys && IsAt(e, key) && nodes[e].val == v
    {
      hide HashOk;
      ghost var ns, b := nodes[..], Bucket(hashFn, bucketsz, key);
      ghost var p :| 0 <= p < |shape.paths[b]| && shape.paths[b][p] == e;
      BucketView(ns, bucketsz, hashFn, shape, m, key);
      RewrittenOk(ns, bucketsz, hashFn, shape, m, b, p, v);
      shape, m := Rewritten(shape, b, p, v), m[key := v];
      nodes[e] := nodes[e].(val := v);
      assert nodes[..] == ns[e := ns[e].(val := v)];
    }

    method EraseHead(b: nat)
      requires Valid() && b < bucketsz && nodes[b].key != UNDEF
      modifies this, nodes
      ensures Valid() && hashFn == old(hashFn) && m == old(m) - {old(nodes[b].key)}
    {
      hide HashOk, Promoted, RemoveAt;
      ghost var ns, sh := nodes[..], shape;
      var nextIdx := nodes[b].next;
      m := m - {nodes[b].key};
      if nextIdx == UNDEF {
        EmptiedOk(ns, bucketsz, hashFn, sh, old(m), b);
        shape := Emptied(sh, b);
        nodes[b] := nodes[b].(key := UNDEF, next := UNDEF);
        assert nodes[..] == ns[b := ns[b].(key := UNDEF, next := UNDEF)];
      } else {
        PromotedOk(ns, bucketsz, hashFn, sh, old(m), b);
        var x := bucketsz + nextIdx;
        shape := Returned(sh, b, 1, 0);
        nodes[b] := nodes[x];
        nodes[x] := nodes[x].(key := UNDEF, next := chainHead);
        chainHead := nextIdx;
        PromotedIs(ns, nodes[..], bucketsz, b, x, sh.free);
      }
    }

    /** The node `e`, which follows `prev` in bucket `b`'s chain, is unlinked. */
    method EraseBehind(prev: int, e: int, b: nat, ghost p: nat)
      requires Valid() && b < bucketsz && b < |shape.paths| && 0 < p < |shape.paths[b]|
      requires prev == shape.paths[b][p - 1] && e == shape.paths[b][p] && 0 <= e < nodes.Length
      modifies this, nodes
      ensures Valid() && hashFn == old(hashFn) && m == old(m) - {old(nodes[e].key)}
    {
      hide HashOk, Unchained, RemoveAt;
      ghost var ns, sh := nodes[..], shape;
      BucketsCount(ns, bucketsz, hashFn, sh, m);
      UnchainedOk(ns, bucketsz, hashFn, sh, m, b, p);
      m := m - {nodes[e].key};
      shape := Returned(sh, b, p, p);
      nodes[prev] := nodes[prev].(next := nodes[e].next);
      nodes[e] := nodes[e].(key := UNDEF, next := chainHead);
      chainHead := e - bucketsz;
      UnchainedIs(ns, nodes[..], bucketsz, prev, e, sh.free);
    }

    method Erase(key: int) returns (found: bool)
      requires Valid() && key != UNDEF
      modifies this, nodes
      ensures Valid() && hashFn == old(hashFn)
      ensures found <==> key in old(m)
      ensures m == old(m) - {key}
    {
      hide HashOk, HasKey, Occupied, ChainUse;
      ghost var ns, sh := nodes[..], shape;
      BucketView(ns, bucketsz, hashFn, sh, m, key);
      var b := Bucket(hashFn, bucketsz, key);
      var e: int := b;
      if nodes[e].key == UNDEF {
        NotInEmptyRow(sh.rows[b], key);
        return false;
      }
      NodeView(ns, bucketsz, hashFn, sh, m, b, 0);
      if nodes[e].key == key {
        EraseHead(b);
        return true;
      }
      var cur := nodes[e].next;
      ghost var i := 0;
      while cur != UNDEF
        invariant nodes[..] == ns && shape == sh && m == old(m) && chainHead == old(chainHead) && hashFn == old(hashFn)
        invariant 0 <= i < |sh.paths[b]| == |sh.rows[b]| && e == sh.paths[b][i]
        invariant cur == (if i + 1 < |sh.paths[b]| then sh.paths[b][i + 1] - bucketsz else UNDEF)
        invariant forall j :: 0 <= j <= i ==> sh.rows[b][j].key != key
        invariant i + 1 < |sh.paths[b]| <==> cur != UNDEF
        decreases |sh.paths[b]| - i
      {
        var prev := e;
        e := bucketsz + cur;
        i := i + 1;
        NodeView(ns, bucketsz, hashFn, sh, m, b, i);
        if nodes[e].key == key {
          EraseBehind(prev, e, b, i);
          return true;
        }
        cur := nodes[e].next;
      }
      NotInRow(sh.rows[b], key);
      found := false;
    }

    method Clear(h: int -> nat)
      requires 0 < bucketsz <= nodes.Length
      modifies this, nodes
      ensures Valid() && hashFn == h && m == map[]
    {
      hashFn := h;
      var n := nodes.Length;
      for i := 0 to bucketsz
        invariant hashFn == h
        invariant forall s {:trigger nodes[s]} :: 0 <= s < i ==> nodes[s].key == nodes[s].next == UNDEF
      {
        nodes[i] := nodes[i].(key := UNDEF, next := UNDEF);
      }
      for i := bucketsz to n
        invariant hashFn == h
        invariant forall s {:trigger nodes[s]} :: 0 <= s < bucketsz ==> nodes[s].key == nodes[s].next == UNDEF
        invariant forall s {:trigger nodes[s]} :: bucketsz <= s < i ==> nodes[s].next == s - bucketsz + 1
      {
        nodes[i] := nodes[i].(key := UNDEF, next := i - bucketsz + 1);
      }
      if n > bucketsz {
        chainHead := 0;
        nodes[n - 1] := nodes[n - 1].(next := UNDEF);
      } else {
        chainHead := UNDEF;
      }
      shape, m := EmptyShape(bucketsz, n), map[];
      ClearOk(nodes[..], bucketsz, h);
    }

    constructor (bucketsz: nat, chainsz: nat, h: int -> nat, init: V)
      requires bucketsz > 0
      ensures Valid() && fresh(nodes) && hashFn == h && m == map[]
      ensures this.bucketsz == bucketsz && Chainsz() == chainsz
    {
      this.bucketsz := bucketsz;
      nodes := new Node<V>[bucketsz + chainsz](_ => Node(UNDEF, init, UNDEF));
      new;
      Clear(h);
    }

    // ----- iteration

    /** The iterator `it` stands at the first entry of `rest`, the entries still to be visited. */
    ghost predicate Points(it: Iter, rest: seq<Entry<V>>)
      reads this
    {
      && |shape.paths| == |shape.rows| == bucketsz && it.bucket <= bucketsz
      && if it.bucket == bucketsz then it.slot == UNDEF && rest == [] else
         exists i :: 0 <= i < |shape.paths[it.bucket]| == |shape.rows[it.bucket]|
           && it.slot == shape.paths[it.bucket][i]
           && rest == shape.rows[it.bucket][i..] + Flat(shape.rows[it.bucket + 1..])
    }

    method NextOccupiedBucket(from: nat) returns (idx: nat)
      requires Valid() && from <= bucketsz
      ensures from <= idx <= bucketsz && |shape.rows| == bucketsz
      ensures idx < bucketsz ==> nodes[idx].key != UNDEF
      ensures Flat(shape.rows[from..]) == Flat(shape.rows[idx..])
    {
      hide HashOk;
      BucketsCount(nodes[..], bucketsz, hashFn, shape, m);
      idx := from;
      while idx < bucketsz
        invariant from <= idx <= bucketsz
        invariant Flat(shape.rows[from..]) == Flat(shape.rows[idx..])
      {
        if nodes[idx].key != UNDEF {
          break;
        }
        RowView(nodes[..], bucketsz, hashFn, shape, m, idx);
        assert shape.rows[idx..][1..] == shape.rows[idx + 1..];
        idx := idx + 1;
      }
    }

    method Begin() returns (it: Iter, ghost rest: seq<Entry<V>>)
      requires Valid()
      ensures Points(it, rest) && Enumerates(rest, m)
    {
      hide HashOk, Enumerates;
      BucketsCount(nodes[..], bucketsz, hashFn, shape, m);
      AllEntries(nodes[..], bucketsz, hashFn, shape, m);
      rest := Flat(shape.rows);
      assert shape.rows[0..] == shape.rows;
      var b := NextOccupiedBucket(0);
      it := At(b, rest);
    }

    /** The iterator at bucket `b`, occupied or past the last one. */
    method At(b: nat, ghost rest: seq<Entry<V>>) returns (it: Iter)
      requires Valid() && b <= bucketsz == |shape.rows| && rest == Flat(shape.rows[b..])
      requires b < bucketsz ==> nodes[b].key != UNDEF
      ensures Points(it, rest)
    {
      hide HashOk;
      BucketsCount(nodes[..], bucketsz, hashFn, shape, m);
      if b != bucketsz {
        RowView(nodes[..], bucketsz, hashFn, shape, m, b);
        assert shape.rows[b..][1..] == shape.rows[b + 1..];
        assert shape.rows[b][0..] == shape.rows[b];
        it := Iter(b, b);
        assert it.slot == shape.paths[b][0];
      } else {
        it := Iter(b, UNDEF);
      }
    }

    /** The iterator moves past the first entry of `rest`. */
    method Next(it: Iter, ghost rest: seq<Entry<V>>) returns (it': Iter)
      requires Valid() && Points(it, rest) && it.slot != UNDEF
      ensures rest != [] && Points(it', rest[1..])
    {
      hide HashOk;
      var b := it.bucket;
      BucketsCount(nodes[..], bucketsz, hashFn, shape, m);
      ghost var i :| 0 <= i < |shape.paths[b]| && it.slot == shape.paths[b][i]
        && rest == shape.rows[b][i..] + Flat(shape.rows[b + 1..]);
      NodeView(nodes[..], bucketsz, hashFn, shape, m, b, i);
      var nextIdx := nodes[it.slot].next;
      if nextIdx == UNDEF {
        assert rest[1..] == Flat(shape.rows[b + 1..]);
        var c := NextOccupiedBucket(b + 1);
        it' := At(c, rest[1..]);
      } else {
        it' := Iter(b, bucketsz + nextIdx);
        assert it'.slot == shape.paths[b][i + 1];
        assert rest[1..] == shape.rows[b][i + 1..] + Flat(shape.rows[b + 1..]);
      }
    }

    /** The entry under a valid iterator is the first one still to be visited. */
    lemma Current(it: Iter, rest: seq<Entry<V>>)
      requires Valid() && Points(it, rest)
      ensures it.slot == UNDEF <==> rest == []
      ensures it.slot != UNDEF ==> 0 <= it.slot < nodes.Length && rest[0] == Entry(nodes[it.slot].key, nodes[it.slot].val)
    {
      hide HashOk;
      var b := it.bucket;
      BucketsCount(nodes[..], bucketsz, hashFn, shape, m);
      if b < bucketsz {
        var i :| 0 <= i < |shape.paths[b]| && it.slot == shape.paths[b][i]
          && rest == shape.rows[b][i..] + Flat(shape.rows[b + 1..]);
        NodeView(nodes[..], bucketsz, hashFn, shape, m, b, i);
      }
    }
  }

  datatype Iter = Iter(bucket: nat, slot: int)

  lemma RowView<V>(ns: seq<Node<V>>, B: nat, h: int -> nat, sh: Shape<V>, m: map<int, V>, b: nat)
    requires b < B
    ensures HashOk(ns, B, h, sh, m) ==>
      && |sh.paths| == |sh.rows| == B <= |ns| && |sh.paths[b]| == |sh.rows[b]|
      && (ns[b].key == UNDEF <==> sh.rows[b] == []) && (sh.paths[b] != [] ==> sh.paths[b][0] == b)
  {
    if HashOk(ns, B, h, sh, m) {
      assert LocalOk(ns, B, b, sh.paths[b], sh.rows[b], sh.free, sh.owner);
    }
  }

  lemma AllEntries<V>(ns: seq<Node<V>>, B: nat, h: int -> nat, sh: Shape<V>, m: map<int, V>)
    ensures HashOk(ns, B, h, sh, m) ==> Enumerates(Flat(sh.rows), m)
  {
    if HashOk(ns, B, h, sh, m) {
      FlatEnumerates(h, B, sh.rows, m);
    }
  }

  function EmptyShape<V>(B: nat, n: nat): Shape<V>
    requires B <= n
  {
    Shape(seq(B, _ => []), seq(B, _ => []), seq(n - B, i => B + i), seq(n, s => if s < B then s else UNDEF))
  }

  lemma ClearOk<V>(ns: seq<Node<V>>, B: nat, h: int -> nat)
    requires 0 < B <= |ns|
    requires forall s {:trigger ns[s]} :: 0 <= s < B ==> ns[s].key == UNDEF
    requires forall s {:trigger ns[s]} :: B <= s < |ns| ==> ns[s].next == if s + 1 < |ns| then s - B + 1 else UNDEF
    ensures HashOk(ns, B, h, EmptyShape(B, |ns|), map[])
  {
    var sh: Shape<V> := EmptyShape(B, |ns|);
    assert Chain(ns, B, sh.free);
    forall s {:trigger sh.owner[s]} | B <= s < |ns| ensures s in sh.free {
      assert sh.free[s - B] == s;
    }
    forall b {:trigger sh.paths[b]} | 0 <= b < B
      ensures LocalOk(ns, B, b, sh.paths[b], sh.rows[b], sh.free, sh.owner)
    {
    }
    var m: map<int, V> := map[];
    assert Occupied(h, B, m.Keys) == {};
  }

  lemma BucketsCount<V>(ns: seq<Node<V>>, B: nat, h: int -> nat, sh: Shape<V>, m: map<int, V>)
    ensures HashOk(ns, B, h, sh, m) ==> |sh.paths| == |sh.rows| == B
  {
  }

  lemma PromotedIs<V>(ns: seq<Node<V>>, ms: seq<Node<V>>, B: nat, b: int, x: int, free: seq<int>)
    requires 0 <= b < |ns| && 0 <= x < |ns| && b != x
    requires ms == ns[b := ns[x]][x := ns[x].(key := UNDEF, next := LinkTo(B, free))]
    ensures ms == Promoted(ns, B, b, x, free)
  {
  }

  lemma UnchainedIs<V>(ns: seq<Node<V>>, ms: seq<Node<V>>, B: nat, prev: int, x: int, free: seq<int>)
    requires 0 <= prev < |ns| && 0 <= x < |ns| && prev != x
    requires ms == ns[prev := ns[prev].(next := ns[x].next)][x := ns[x].(key := UNDEF, next := LinkTo(B, free))]
    ensures ms == Unchained(ns, B, prev, x, free)
  {
  }

  lemma ChainedIs<V>(ns: seq<Node<V>>, ms: seq<Node<V>>, B: nat, e: int, x: int, k: int)
    requires 0 <= e < |ns| && 0 <= x < |ns| && e != x
    requires ms == ns[e := ns[e].(next := x - B)][x := Node(k, ns[x].val, UNDEF)]
    ensures ms == Chained(ns, B, e, x, k)
  {
  }

  lemma NotInEmptyRow<V>(row: seq<Entry<V>>, k: int)
    requires row == []
    ensures !HasKey(row, k)
  {
  }

  lemma NotInRow<V>(row: seq<Entry<V>>, k: int)
    requires forall j :: 0 <= j < |row| ==> row[j].key != k
    ensures !HasKey(row, k)
  {
  }
}
