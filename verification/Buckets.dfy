/** How a set of keys spreads over the buckets of a hash table. */
module Buckets {
  import opened Sequences

  datatype Entry<V> = Entry(key: int, val: V)

  function Bucket(h: int -> nat, B: nat, k: int): (b: nat)
    requires B > 0
    ensures b < B
  {
    h(k) % B
  }

  /** The buckets that hold at least one of `keys`. */
  function Occupied(h: int -> nat, B: nat, keys: set<int>): set<nat>
    requires B > 0
  {
    set k | k in keys :: Bucket(h, B, k)
  }

  /** The number of chain nodes that `keys` take: all keys but one in every occupied bucket. */
  function ChainUse(h: int -> nat, B: nat, keys: set<int>): int
    requires B > 0
  {
    |keys| - |Occupied(h, B, keys)|
  }

  lemma OccupiedAdd(h: int -> nat, B: nat, keys: set<int>, k: int)
    requires B > 0 && k !in keys
    ensures Occupied(h, B, keys + {k}) == Occupied(h, B, keys) + {Bucket(h, B, k)}
    ensures ChainUse(h, B, keys + {k}) ==
      ChainUse(h, B, keys) + (if Bucket(h, B, k) in Occupied(h, B, keys) then 1 else 0)
  {
    var o, p, b := Occupied(h, B, keys), Occupied(h, B, keys + {k}), Bucket(h, B, k);
    forall c | c in p ensures c in o + {b} {
      var j :| j in keys + {k} && Bucket(h, B, j) == c;
      if j in keys { assert Bucket(h, B, j) in o; }
    }
    forall c | c in o + {b} ensures c in p {
      if c == b {
        assert k in keys + {k};
      } else {
        var j :| j in keys && Bucket(h, B, j) == c;
        assert j in keys + {k};
      }
    }
    assert p == o + {b};
    if b in o { assert p == o; } else { assert |p| == |o| + 1; }
  }

  lemma OccupiedBound(h: int -> nat, B: nat, keys: set<int>)
    requires B > 0
    ensures |Occupied(h, B, keys)| <= B
  {
    SubsetSize(Occupied(h, B, keys), Below(B));
  }

  function Below(n: nat): (r: set<nat>)
    ensures |r| == n
    ensures forall b: nat {:trigger b in r} :: b in r <==> b < n
  {
    if n == 0 then {} else Below(n - 1) + {n - 1}
  }

  lemma SubsetSize<T>(a: set<T>, b: set<T>)
    requires a <= b
    ensures |a| <= |b|
  {
    if a != {} {
      var x :| x in a;
      SubsetSize(a - {x}, b - {x});
    }
  }

  lemma OccupiedRemove(h: int -> nat, B: nat, keys: set<int>, k: int)
    requires B > 0 && k in keys
    ensures Occupied(h, B, keys) == Occupied(h, B, keys - {k}) + {Bucket(h, B, k)}
    ensures ChainUse(h, B, keys - {k}) ==
      ChainUse(h, B, keys) - (if Bucket(h, B, k) in Occupied(h, B, keys - {k}) then 1 else 0)
  {
    assert keys - {k} + {k} == keys;
    OccupiedAdd(h, B, keys - {k}, k);
  }

  /** Why a new key cannot be inserted: its bucket is taken and every one of the `C` chain nodes is in use. */
  predicate NoRoom(h: int -> nat, B: nat, C: nat, keys: set<int>, k: int)
    requires B > 0
  {
    k !in keys && Bucket(h, B, k) in Occupied(h, B, keys) && ChainUse(h, B, keys) == C
  }

  // ----- the table as a sequence of rows, one per bucket

  ghost predicate HasKey<V>(row: seq<Entry<V>>, k: int) {
    exists i :: 0 <= i < |row| && row[i].key == k
  }

  ghost predicate DistinctKeys<V>(row: seq<Entry<V>>) {
    forall i, j {:trigger row[i], row[j]} :: 0 <= i < j < |row| ==> row[i].key != row[j].key
  }

  /** The rows store exactly the entries of `m`, each key once and in its own bucket. */
  ghost predicate Holds<V>(h: int -> nat, B: nat, rows: seq<seq<Entry<V>>>, m: map<int, V>) {
    && 0 < B == |rows|
    && (forall b {:trigger rows[b]} :: 0 <= b < B ==> DistinctKeys(rows[b]))
    && (forall k {:trigger k in m} :: k in m ==> HasKey(rows[Bucket(h, B, k)], k))
    && (forall b, i {:trigger rows[b][i]} :: 0 <= b < B && 0 <= i < |rows[b]| ==>
         && Bucket(h, B, rows[b][i].key) == b
         && rows[b][i].key in m && m[rows[b][i].key] == rows[b][i].val)
  }

  lemma OccupiedIff<V>(h: int -> nat, B: nat, rows: seq<seq<Entry<V>>>, m: map<int, V>, b: nat)
    requires Holds(h, B, rows, m) && b < B
    ensures b in Occupied(h, B, m.Keys) <==> rows[b] != []
  {
    if rows[b] != [] {
      assert rows[b][0].key in m.Keys && Bucket(h, B, rows[b][0].key) == b;
    }
  }

  lemma GrownUse<V>(h: int -> nat, B: nat, rows: seq<seq<Entry<V>>>, m: map<int, V>, k: int, v: V)
    requires Holds(h, B, rows, m) && k !in m
    ensures ChainUse(h, B, m[k := v].Keys) == ChainUse(h, B, m.Keys) + (if rows[Bucket(h, B, k)] == [] then 0 else 1)
  {
    OccupiedIff(h, B, rows, m, Bucket(h, B, k));
    OccupiedAdd(h, B, m.Keys, k);
    assert m[k := v].Keys == m.Keys + {k};
  }

  lemma GrownRow<V>(h: int -> nat, B: nat, rows: seq<seq<Entry<V>>>, m: map<int, V>, k: int, v: V)
    requires Holds(h, B, rows, m) && k !in m
    ensures DistinctKeys(rows[Bucket(h, B, k)] + [Entry(k, v)])
  {
    var b := Bucket(h, B, k);
    assert DistinctKeys(rows[b]);
    forall i | 0 <= i < |rows[b]| ensures rows[b][i].key != k { assert rows[b][i].key in m; }
  }

  /** Key `k` with value `v` is added at the end of its bucket's row. */
  lemma Grown<V>(h: int -> nat, B: nat, rows: seq<seq<Entry<V>>>, m: map<int, V>, k: int, v: V)
    requires Holds(h, B, rows, m) && k !in m
    ensures var b := Bucket(h, B, k); Holds(h, B, rows[b := rows[b] + [Entry(k, v)]], m[k := v])
  {
    hide DistinctKeys;
    var b, m' := Bucket(h, B, k), m[k := v];
    var rs := rows[b := rows[b] + [Entry(k, v)]];
    GrownRow(h, B, rows, m, k, v);
    forall j {:trigger j in m'} | j in m' ensures HasKey(rs[Bucket(h, B, j)], j) {
      if j == k {
        assert rs[b][|rows[b]|].key == k;
      } else {
        var i :| 0 <= i < |rows[Bucket(h, B, j)]| && rows[Bucket(h, B, j)][i].key == j;
        assert rs[Bucket(h, B, j)][i].key == j;
      }
    }
    forall c, i {:trigger rs[c][i]} | 0 <= c < B && 0 <= i < |rs[c]|
      ensures Bucket(h, B, rs[c][i].key) == c && rs[c][i].key in m' && m'[rs[c][i].key] == rs[c][i].val
    {
      if i < |rows[c]| { assert rs[c][i] == rows[c][i]; }
    }
    forall c {:trigger rs[c]} | 0 <= c < B ensures DistinctKeys(rs[c]) {
      if c != b { assert DistinctKeys(rows[c]); }
    }
  }

  lemma ShrunkHolds<V>(h: int -> nat, B: nat, rows: seq<seq<Entry<V>>>, m: map<int, V>, b: nat, p: nat)
    requires Holds(h, B, rows, m) && b < B && p < |rows[b]|
    ensures Holds(h, B, rows[b := RemoveAt(rows[b], p)], m - {rows[b][p].key})
  {
    var k := rows[b][p].key;
    var m' := m - {k};
    var rs := rows[b := RemoveAt(rows[b], p)];
    AllBut(rows[b], p);
    assert k in m && Bucket(h, B, k) == b && DistinctKeys(rows[b]);
    forall j {:trigger j in m'} | j in m' ensures HasKey(rs[Bucket(h, B, j)], j) {
      var c := Bucket(h, B, j);
      var i :| 0 <= i < |rows[c]| && rows[c][i].key == j;
      assert rs[c][if c == b && i > p then i - 1 else i].key == j;
    }
    forall c, i {:trigger rs[c][i]} | 0 <= c < B && 0 <= i < |rs[c]|
      ensures Bucket(h, B, rs[c][i].key) == c && rs[c][i].key in m' && m'[rs[c][i].key] == rs[c][i].val
    {
      var j := if c == b && i >= p then i + 1 else i;
      assert rs[c][i] == rows[c][j];
    }
    forall c {:trigger rs[c]} | 0 <= c < B ensures DistinctKeys(rs[c]) {
      assert DistinctKeys(rows[c]);
    }
  }

  lemma ShrunkUse<V>(h: int -> nat, B: nat, rows: seq<seq<Entry<V>>>, m: map<int, V>, b: nat, p: nat)
    requires Holds(h, B, rows, m) && b < B && p < |rows[b]|
    requires Holds(h, B, rows[b := RemoveAt(rows[b], p)], m - {rows[b][p].key})
    ensures ChainUse(h, B, (m - {rows[b][p].key}).Keys) == ChainUse(h, B, m.Keys) - (if |rows[b]| == 1 then 0 else 1)
  {
    var k := rows[b][p].key;
    assert k in m && Bucket(h, B, k) == b;
    OccupiedIff(h, B, rows[b := RemoveAt(rows[b], p)], m - {k}, b);
    hide Holds;
    OccupiedRemove(h, B, m.Keys, k);
    assert (m - {k}).Keys == m.Keys - {k};
  }

  /** The entry at position `p` of bucket `b`'s row is removed. */
  lemma Shrunk<V>(h: int -> nat, B: nat, rows: seq<seq<Entry<V>>>, m: map<int, V>, b: nat, p: nat)
    requires Holds(h, B, rows, m) && b < B && p < |rows[b]|
    ensures var k := rows[b][p].key;
      && Holds(h, B, rows[b := RemoveAt(rows[b], p)], m - {k})
      && ChainUse(h, B, (m - {k}).Keys) == ChainUse(h, B, m.Keys) - (if |rows[b]| == 1 then 0 else 1)
  {
    ShrunkHolds(h, B, rows, m, b, p);
    ShrunkUse(h, B, rows, m, b, p);
  }

  /** The value at position `p` of bucket `b`'s row is replaced. */
  lemma Replaced<V>(h: int -> nat, B: nat, rows: seq<seq<Entry<V>>>, m: map<int, V>, b: nat, p: nat, v: V)
    requires Holds(h, B, rows, m) && b < B && p < |rows[b]|
    ensures var k := rows[b][p].key;
      Holds(h, B, rows[b := rows[b][p := Entry(k, v)]], m[k := v]) && m[k := v].Keys == m.Keys
  {
    var k := rows[b][p].key;
    var m' := m[k := v];
    var rs := rows[b := rows[b][p := Entry(k, v)]];
    assert k in m && Bucket(h, B, k) == b && DistinctKeys(rows[b]);
    forall j {:trigger j in m'} | j in m' ensures HasKey(rs[Bucket(h, B, j)], j) {
      var c := Bucket(h, B, j);
      assert j in m;
      var i :| 0 <= i < |rows[c]| && rows[c][i].key == j;
      assert rs[c][i].key == j;
    }
    forall c, i {:trigger rs[c][i]} | 0 <= c < B && 0 <= i < |rs[c]|
      ensures Bucket(h, B, rs[c][i].key) == c && rs[c][i].key in m' && m'[rs[c][i].key] == rs[c][i].val
    {
      assert rows[c][i].key in m;
    }
    forall c {:trigger rs[c]} | 0 <= c < B ensures DistinctKeys(rs[c]) {
      assert DistinctKeys(rows[c]);
    }
  }

  // ----- enumeration

  function Flat<V>(rows: seq<seq<Entry<V>>>): seq<Entry<V>> {
    if rows == [] then [] else rows[0] + Flat(rows[1..])
  }

  /** `es` lists every entry of `m` exactly once. */
  ghost predicate Enumerates<V>(es: seq<Entry<V>>, m: map<int, V>) {
    && DistinctKeys(es)
    && (forall i {:trigger es[i]} :: 0 <= i < |es| ==> es[i].key in m && m[es[i].key] == es[i].val)
    && (forall k {:trigger k in m} :: k in m ==> HasKey(es, k))
  }

  ghost predicate InRows<V>(rows: seq<seq<Entry<V>>>, e: Entry<V>) {
    exists b, j :: 0 <= b < |rows| && 0 <= j < |rows[b]| && rows[b][j] == e
  }

  lemma {:induction false} FlatRows<V>(rows: seq<seq<Entry<V>>>, e: Entry<V>)
    ensures e in Flat(rows) <==> InRows(rows, e)
  {
    if rows != [] {
      FlatRows(rows[1..], e);
      if InRows(rows[1..], e) {
        var b, j :| 0 <= b < |rows[1..]| && 0 <= j < |rows[1..][b]| && rows[1..][b][j] == e;
        assert rows[b + 1][j] == e;
      }
      if InRows(rows, e) {
        var b, j :| 0 <= b < |rows| && 0 <= j < |rows[b]| && rows[b][j] == e;
        if b > 0 { assert rows[1..][b - 1][j] == e; }
      }
      if e in rows[0] {
        var j :| 0 <= j < |rows[0]| && rows[0][j] == e;
      }
    }
  }

  lemma {:induction false} FlatDistinct<V>(rows: seq<seq<Entry<V>>>)
    requires forall b {:trigger rows[b]} :: 0 <= b < |rows| ==> DistinctKeys(rows[b])
    requires forall b, i, c, j {:trigger rows[b][i], rows[c][j]} ::
      0 <= b < c < |rows| && 0 <= i < |rows[b]| && 0 <= j < |rows[c]| ==> rows[b][i].key != rows[c][j].key
    ensures DistinctKeys(Flat(rows))
  {
    if rows != [] {
      var f, t, n := Flat(rows), Flat(rows[1..]), |rows[0]|;
      FlatDistinct(rows[1..]);
      forall i, j {:trigger f[i], f[j]} | 0 <= i < j < |f| ensures f[i].key != f[j].key {
        if j >= n {
          assert f[j] == t[j - n];
          if i >= n {
            assert f[i] == t[i - n];
          } else {
            FlatRows(rows[1..], t[j - n]);
            var b, l :| 0 <= b < |rows[1..]| && 0 <= l < |rows[1..][b]| && rows[1..][b][l] == t[j - n];
            assert rows[0][i].key != rows[b + 1][l].key;
          }
        } else {
          assert DistinctKeys(rows[0]);
        }
      }
    }
  }

  lemma FlatEnumerates<V>(h: int -> nat, B: nat, rows: seq<seq<Entry<V>>>, m: map<int, V>)
    requires Holds(h, B, rows, m)
    ensures Enumerates(Flat(rows), m)
  {
    var f := Flat(rows);
    FlatDistinct(rows);
    forall i {:trigger f[i]} | 0 <= i < |f| ensures f[i].key in m && m[f[i].key] == f[i].val {
      FlatRows(rows, f[i]);
      var b, j :| 0 <= b < |rows| && 0 <= j < |rows[b]| && rows[b][j] == f[i];
    }
    forall k {:trigger k in m} | k in m ensures HasKey(f, k) {
      var b := Bucket(h, B, k);
      var i :| 0 <= i < |rows[b]| && rows[b][i].key == k;
      FlatRows(rows, rows[b][i]);
      var j :| 0 <= j < |f| && f[j] == rows[b][i];
      assert f[j].key == k;
    }
  }
}
