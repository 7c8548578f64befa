/** The recency order of a cache over a hash table with limited chain nodes, as a pure
    state machine: a state lists the resident keys, most recently used first. */
module LruModel {
  import opened Sequences
  import opened Buckets

  function Keys(rec: seq<int>): set<int> {
    set k | k in rec
  }

  /** What one touch does to the order, and whether the key is resident afterwards. */
  datatype Touched = Touched(rec: seq<int>, ok: bool)

  function Without(rec: seq<int>, k: int): (r: seq<int>)
    ensures k !in r && |r| <= |rec|
    ensures forall j {:trigger j in r} :: j in r <==> j in rec && j != k
  {
    if rec == [] then [] else if rec[0] == k then Without(rec[1..], k) else [rec[0]] + Without(rec[1..], k)
  }

  /** A hit moves the key to the front. A miss inserts it there, if need be after the one
      least recently used key is dropped; when that does not help the touch fails. */
  function Touch(h: int -> nat, B: nat, C: nat, rec: seq<int>, k: int): Touched
    requires B > 0
  {
    if k in rec then Touched([k] + Without(rec, k), true)
    else if !NoRoom(h, B, C, Keys(rec), k) then Touched([k] + rec, true)
    else if rec == [] then Touched(rec, false)
    else
      var rest := rec[..|rec| - 1];
      if !NoRoom(h, B, C, Keys(rest), k) then Touched([k] + rest, true) else Touched(rest, false)
  }

  /** Resident keys are distinct and fit the table. */
  ghost predicate Inv(h: int -> nat, B: nat, C: nat, rec: seq<int>)
    requires B > 0
  {
    NoDup(rec) && ChainUse(h, B, Keys(rec)) <= C
  }

  lemma KeysCount(rec: seq<int>)
    requires NoDup(rec)
    ensures |Keys(rec)| == |rec|
  {
    if rec != [] {
      var t := rec[1..];
      KeysCount(t);
      assert Keys(rec) == Keys(t) + {rec[0]};
    }
  }

  /** The table never holds more keys than it has nodes. */
  lemma Capacity(h: int -> nat, B: nat, C: nat, rec: seq<int>)
    requires B > 0 && Inv(h, B, C, rec)
    ensures |rec| <= B + C
  {
    KeysCount(rec);
    OccupiedBound(h, B, Keys(rec));
  }

  lemma LastKey(rec: seq<int>)
    requires NoDup(rec) && rec != []
    ensures Keys(rec[..|rec| - 1]) == Keys(rec) - {rec[|rec| - 1]} && NoDup(rec[..|rec| - 1])
  {
  }

  lemma {:induction false} WithoutNoDup(rec: seq<int>, k: int)
    requires NoDup(rec)
    ensures NoDup(Without(rec, k)) && |Without(rec, k)| == (if k in rec then |rec| - 1 else |rec|)
  {
    if rec != [] {
      WithoutNoDup(rec[1..], k);
      var t := Without(rec[1..], k);
      forall i {:trigger t[i]} | 0 <= i < |t| ensures t[i] != rec[0] {
        assert t[i] in t;
      }
    }
  }

  lemma PushKeepsInv(h: int -> nat, B: nat, C: nat, rec: seq<int>, k: int)
    requires B > 0 && Inv(h, B, C, rec) && k !in rec && !NoRoom(h, B, C, Keys(rec), k)
    ensures Inv(h, B, C, [k] + rec)
  {
    KeysPushed(rec, k);
    OccupiedAdd(h, B, Keys(rec), k);
    hide ChainUse, Occupied, Keys;
  }

  lemma KeysPushed(rec: seq<int>, k: int)
    requires k !in rec
    ensures k !in Keys(rec) && Keys([k] + rec) == Keys(rec) + {k} && (NoDup(rec) ==> NoDup([k] + rec))
  {
  }

  lemma DropKeepsInv(h: int -> nat, B: nat, C: nat, rec: seq<int>)
    requires B > 0 && Inv(h, B, C, rec) && rec != []
    ensures Inv(h, B, C, rec[..|rec| - 1])
  {
    LastKey(rec);
    OccupiedRemove(h, B, Keys(rec), rec[|rec| - 1]);
  }

  lemma TouchKeepsInv(h: int -> nat, B: nat, C: nat, rec: seq<int>, k: int)
    requires B > 0 && Inv(h, B, C, rec)
    ensures Inv(h, B, C, Touch(h, B, C, rec, k).rec)
  {
    if k in rec {
      WithoutNoDup(rec, k);
      assert Keys([k] + Without(rec, k)) == Keys(rec);
    } else if !NoRoom(h, B, C, Keys(rec), k) {
      PushKeepsInv(h, B, C, rec, k);
    } else if rec != [] {
      var rest := rec[..|rec| - 1];
      DropKeepsInv(h, B, C, rec);
      if !NoRoom(h, B, C, Keys(rest), k) {
        PushKeepsInv(h, B, C, rest, k);
      }
    }
  }

  // ----- the retry after an eviction

  ghost predicate SharesBucket(h: int -> nat, B: nat, keys: set<int>, k: int)
    requires B > 0
  {
    exists j :: j in keys && j != k && Bucket(h, B, j) == Bucket(h, B, k)
  }

  /** After key `lru` is evicted to make room for `k`, `k` fits exactly when `lru` left a chain
      node free or its bucket was `k`'s. */
  lemma RetryOutcome(h: int -> nat, B: nat, C: nat, keys: set<int>, k: int, lru: int)
    requires B > 0 && NoRoom(h, B, C, keys, k) && lru in keys
    ensures !NoRoom(h, B, C, keys - {lru}, k) <==>
      SharesBucket(h, B, keys, lru) || Bucket(h, B, lru) == Bucket(h, B, k)
  {
    OccupiedRemove(h, B, keys, lru);
    var o, p, b := Occupied(h, B, keys), Occupied(h, B, keys - {lru}), Bucket(h, B, lru);
    if SharesBucket(h, B, keys, lru) {
      var j :| j in keys && j != lru && Bucket(h, B, j) == b;
      assert j in keys - {lru};
      assert b in p;
    } else {
      assert forall j {:trigger j in keys} :: j in keys - {lru} ==> Bucket(h, B, j) != b;
      assert b !in p;
    }
  }

  /** When a touch succeeds, exactly. */
  lemma TouchFails(h: int -> nat, B: nat, C: nat, rec: seq<int>, k: int)
    requires B > 0 && Inv(h, B, C, rec)
    ensures !Touch(h, B, C, rec, k).ok <==>
      && k !in rec && NoRoom(h, B, C, Keys(rec), k)
      && rec != [] && !SharesBucket(h, B, Keys(rec), rec[|rec| - 1])
      && Bucket(h, B, rec[|rec| - 1]) != Bucket(h, B, k)
  {
    if k !in rec && NoRoom(h, B, C, Keys(rec), k) {
      EvictionNeedsFullTable(h, B, C, rec, k);
      assert rec[|rec| - 1] in Keys(rec);
      LastKey(rec);
      RetryOutcome(h, B, C, Keys(rec), k, rec[|rec| - 1]);
    }
  }

  /** With a single bucket every touch succeeds: an evicted key always makes room. */
  lemma OneBucketNeverFails(h: int -> nat, C: nat, rec: seq<int>, k: int)
    requires Inv(h, 1, C, rec)
    ensures Touch(h, 1, C, rec, k).ok
  {
    TouchFails(h, 1, C, rec, k);
  }

  function Natural(x: int): nat {
    if x < 0 then 0 else x
  }

  lemma TwoBuckets(keys: set<int>, k: int)
    requires keys <= {0, 1} && k >= 0 && k !in keys
    ensures Occupied(Natural, 2, keys) == keys && ChainUse(Natural, 2, keys) == 0 && (NoRoom(Natural, 2, 0, keys, k) <==> k % 2 in keys)
  {
    assert forall j :: j in keys ==> Bucket(Natural, 2, j) == j;
  }

  /** It does happen: two buckets without chain nodes hold 0 and 1, and the touch of 2 drops 1 and still fails. */
  lemma TouchCanFail()
    ensures var rec := Run(Natural, 2, 0, [], [1, 0]);
      rec == [0, 1] && Inv(Natural, 2, 0, rec) && Touch(Natural, 2, 0, rec, 2) == Touched([0], false)
  {
    hide NoRoom, Occupied;
    assert Keys([]) == {} && Keys([1]) == {1} && Keys([0, 1]) == {0, 1} && Keys([0]) == {0};
    TwoBuckets({}, 1);
    TwoBuckets({1}, 0);
    TwoBuckets({0, 1}, 2);
    TwoBuckets({0}, 2);
    assert Touch(Natural, 2, 0, [], 1).rec == [1] && Touch(Natural, 2, 0, [1], 0).rec == [0, 1];
    assert Run(Natural, 2, 0, [1], [0]) == Run(Natural, 2, 0, [0, 1], []);
    assert [1, 0][1..] == [0] && [0, 1][..1] == [0];
  }

  /** A touch never loses more than the least recently used key, and loses it only when the new
      key's bucket is taken and all chain nodes are in use: then more than `C` keys are resident. */
  lemma EvictionNeedsFullTable(h: int -> nat, B: nat, C: nat, rec: seq<int>, k: int)
    requires B > 0 && Inv(h, B, C, rec) && NoRoom(h, B, C, Keys(rec), k)
    ensures |rec| >= C + 1
  {
    KeysCount(rec);
    var o := Occupied(h, B, Keys(rec));
    assert o != {} by { assert Bucket(h, B, k) in o; }
  }

  // ----- working sets

  function Run(h: int -> nat, B: nat, C: nat, rec: seq<int>, ks: seq<int>): seq<int>
    requires B > 0
    decreases |ks|
  {
    if ks == [] then rec else Run(h, B, C, Touch(h, B, C, rec, ks[0]).rec, ks[1..])
  }

  /** The keys in front of `k`, that is, used more recently than `k`. */
  function Ahead(rec: seq<int>, k: int): set<int> {
    if rec == [] || rec[0] == k then {} else {rec[0]} + Ahead(rec[1..], k)
  }

  lemma {:induction false} AheadOfLast(rec: seq<int>)
    requires NoDup(rec) && rec != []
    ensures Ahead(rec, rec[|rec| - 1]) == Keys(rec) - {rec[|rec| - 1]}
  {
    if |rec| > 1 {
      AheadOfLast(rec[1..]);
      assert Keys(rec) == Keys(rec[1..]) + {rec[0]};
    } else {
      assert Keys(rec) == {rec[0]};
    }
  }

  lemma {:induction false} AheadWithout(rec: seq<int>, k: int, x: int)
    requires x != k && NoDup(rec)
    ensures Ahead(Without(rec, x), k) <= Ahead(rec, k)
  {
    if rec != [] && rec[0] != k {
      AheadWithout(rec[1..], k, x);
    }
  }

  lemma {:induction false} AheadPrefix(rec: seq<int>, n: nat, k: int)
    requires n <= |rec|
    ensures Ahead(rec[..n], k) <= Ahead(rec, k)
  {
    if n > 0 && rec[0] != k {
      AheadPrefix(rec[1..], n - 1, k);
      assert rec[..n][1..] == rec[1..][..n - 1];
    }
  }

  /** The last key is not `k`: the full table holds more other keys than the working set. */
  lemma EvictionSparesWorkingSet(h: int -> nat, B: nat, C: nat, rec: seq<int>, k: int, x: int, w: set<int>)
    requires B > 0 && Inv(h, B, C, rec) && k in rec && Ahead(rec, k) <= w
    requires k !in w && |w| <= C && x in w && x !in rec && NoRoom(h, B, C, Keys(rec), x)
    ensures k in rec[..|rec| - 1]
  {
    EvictionNeedsFullTable(h, B, C, rec, x);
    if rec[|rec| - 1] == k {
      AheadOfLast(rec);
      KeysCount(rec);
      SubsetSize(Keys(rec) - {k}, w - {x});
      assert false;
    }
  }

  /** One touch of another key of the working set `w` leaves `k` resident, with only keys of `w` ahead. */
  lemma TouchKeepsWorkingSet(h: int -> nat, B: nat, C: nat, rec: seq<int>, k: int, x: int, w: set<int>)
    requires B > 0 && Inv(h, B, C, rec) && k in rec && Ahead(rec, k) <= w
    requires k !in w && |w| <= C && (x == k || x in w)
    ensures var r := Touch(h, B, C, rec, x).rec; k in r && Ahead(r, k) <= w
  {
    hide NoRoom, Ahead, Without, Inv, Keys;
    if x == k {
      AheadPushed(Without(rec, x), x, k);
    } else if x in rec {
      AheadIfMoved(h, B, C, rec, k, x);
      AheadPushed(Without(rec, x), x, k);
    } else if !NoRoom(h, B, C, Keys(rec), x) {
      AheadPushed(rec, x, k);
    } else {
      EvictionSparesWorkingSet(h, B, C, rec, k, x, w);
      AheadPrefix(rec, |rec| - 1, k);
      AheadPushed(rec[..|rec| - 1], x, k);
    }
  }

  lemma AheadIfMoved(h: int -> nat, B: nat, C: nat, rec: seq<int>, k: int, x: int)
    requires B > 0 && Inv(h, B, C, rec) && k in rec && x != k
    ensures Ahead(Without(rec, x), k) <= Ahead(rec, k)
  {
    AheadWithout(rec, k, x);
  }

  lemma AheadPushed(rec: seq<int>, x: int, k: int)
    ensures Ahead([x] + rec, k) == if x == k then {} else {x} + Ahead(rec, k)
  {
    assert ([x] + rec)[1..] == rec;
  }

  lemma {:induction false} RunKeepsWorkingSet(h: int -> nat, B: nat, C: nat, rec: seq<int>, k: int, ks: seq<int>, w: set<int>)
    requires B > 0 && Inv(h, B, C, rec) && k in rec && Ahead(rec, k) <= w
    requires k !in w && |w| <= C && forall x {:trigger x in ks} :: x in ks ==> x == k || x in w
    ensures k in Run(h, B, C, rec, ks)
    decreases |ks|
  {
    if ks != [] {
      assert ks[0] in ks;
      TouchKeepsWorkingSet(h, B, C, rec, k, ks[0], w);
      TouchKeepsInv(h, B, C, rec, ks[0]);
      assert forall x {:trigger x in ks[1..]} :: x in ks[1..] ==> x in ks;
      RunKeepsWorkingSet(h, B, C, Touch(h, B, C, rec, ks[0]).rec, k, ks[1..], w);
    }
  }

  /** After a successful touch, key `k` stays resident through any touches of at most `C` other keys. */
  lemma WorkingSet(h: int -> nat, B: nat, C: nat, rec: seq<int>, k: int, ks: seq<int>)
    requires B > 0 && Inv(h, B, C, rec) && Touch(h, B, C, rec, k).ok
    requires |Keys(ks) - {k}| <= C
    ensures forall n {:trigger ks[..n]} :: 0 <= n <= |ks| ==> k in Run(h, B, C, Touch(h, B, C, rec, k).rec, ks[..n])
  {
    var r := Touch(h, B, C, rec, k).rec;
    TouchKeepsInv(h, B, C, rec, k);
    assert r[0] == k;
    forall n {:trigger ks[..n]} | 0 <= n <= |ks| ensures k in Run(h, B, C, r, ks[..n]) {
      RunKeepsWorkingSet(h, B, C, r, k, ks[..n], Keys(ks) - {k});
    }
  }
}
