/** Facts about sequences, most of them without duplicates, that several parts share. */
module Sequences {
  datatype Option<T> = None | Some(value: T)

  /** The elements that are kept, in order. */
  function Filter<T>(s: seq<T>, keep: T -> bool): seq<T> {
    if s == [] then [] else (if keep(s[0]) then [s[0]] else []) + Filter(s[1..], keep)
  }

  /** Element by element, in order. */
  lemma {:induction false} FilterJoins<T>(s: seq<T>, t: seq<T>, keep: T -> bool)
    ensures Filter(s + t, keep) == Filter(s, keep) + Filter(t, keep)
    decreases |s|
  {
    if s == [] {
      assert s + t == t;
    } else {
      FilterJoins(s[1..], t, keep);
      assert (s + t)[0] == s[0] && (s + t)[1..] == s[1..] + t;
      hide Filter;
      FilterHead(s + t, keep);
      FilterHead(s, keep);
      Appended(if keep(s[0]) then [s[0]] else [], Filter(s[1..], keep), Filter(t, keep));
    }
  }

  lemma FilterHead<T>(s: seq<T>, keep: T -> bool)
    requires s != []
    ensures Filter(s, keep) == (if keep(s[0]) then [s[0]] else []) + Filter(s[1..], keep)
  {
  }

  lemma Appended<T>(a: seq<T>, b: seq<T>, c: seq<T>)
    ensures (a + b) + c == a + (b + c)
  {
  }

  lemma FilterOne<T>(x: T, keep: T -> bool)
    ensures Filter([x], keep) == if keep(x) then [x] else []
  {
  }

  lemma {:induction false} FilterTwice<T>(s: seq<T>, p: T -> bool, q: T -> bool, both: T -> bool)
    requires forall x :: both(x) <==> p(x) && q(x)
    ensures Filter(Filter(s, p), q) == Filter(s, both)
  {
    if s != [] {
      FilterTwice(s[1..], p, q, both);
      var rest := Filter(s[1..], p);
      if p(s[0]) {
        assert Filter(s, p)[1..] == rest;
      } else {
        assert Filter(s, p) == rest;
      }
    }
  }

  lemma FilterAt<T>(s: seq<T>, keep: T -> bool, i: nat, done: seq<T>)
    requires i < |s|
    ensures done + Filter(s[i..], keep) == (if keep(s[i]) then done + [s[i]] else done) + Filter(s[i + 1..], keep)
  {
    assert s[i..][1..] == s[i + 1..];
    var rest := Filter(s[i + 1..], keep);
    assert done + ([s[i]] + rest) == (done + [s[i]]) + rest;
  }

  lemma FilterOver<T>(s: seq<T>, keep: T -> bool, done: seq<T>)
    ensures done + Filter(s[|s|..], keep) == done
  {
  }

  /** Two stretches are equal element by element. */
  lemma SameSlice<T>(s: seq<T>, t: seq<T>, i: nat, j: nat, n: nat)
    requires i + n <= |s| && j + n <= |t|
    requires forall k {:trigger s[i + k]} {:trigger t[j + k]} :: 0 <= k < n ==> s[i + k] == t[j + k]
    ensures s[i..i + n] == t[j..j + n]
  {
    var a, b := s[i..i + n], t[j..j + n];
    forall k | 0 <= k < n
      ensures a[k] == b[k]
    {
      assert s[i + k] == t[j + k];
    }
  }

  ghost predicate InPool(n: nat, s: seq<int>) {
    forall i {:trigger s[i]} :: 0 <= i < |s| ==> 0 <= s[i] < n
  }

  ghost predicate NoDup<T>(s: seq<T>) {
    forall i, j {:trigger s[i], s[j]} :: 0 <= i < j < |s| ==> s[i] != s[j]
  }

  ghost predicate Disjoint<T>(s: seq<T>, t: seq<T>) {
    forall i, j {:trigger s[i], t[j]} :: 0 <= i < |s| && 0 <= j < |t| ==> s[i] != t[j]
  }

  /** `used` and `free` together list every slot of a pool of `n` exactly once. */
  ghost predicate Partition(n: nat, used: seq<int>, free: seq<int>) {
    && InPool(n, used) && InPool(n, free)
    && NoDup(used) && NoDup(free) && Disjoint(used, free)
    && |used| + |free| == n
  }

  function RemoveAt<T>(s: seq<T>, p: nat): (r: seq<T>)
    requires p < |s|
    ensures |r| == |s| - 1
  {
    s[..p] + s[p + 1..]
  }

  lemma RemoveAtEnd<T>(s: seq<T>, p: nat)
    requires p < |s|
    ensures p == 0 ==> RemoveAt(s, p) == s[1..]
    ensures p == |s| - 1 ==> RemoveAt(s, p) == s[..p]
  {
  }

  lemma AllBut<T>(s: seq<T>, p: nat)
    requires p < |s|
    ensures forall i {:trigger RemoveAt(s, p)[i]} :: 0 <= i < |s| - 1 ==> RemoveAt(s, p)[i] == s[if i < p then i else i + 1]
  {
  }

  lemma AlreadyThere<T>(s: seq<T>)
    requires s != []
    ensures s == [s[0]] + RemoveAt(s, 0) == RemoveAt(s, |s| - 1) + [s[|s| - 1]]
    ensures |s| > 1 ==> RemoveAt(s, 0)[|s| - 2] == s[|s| - 1] && RemoveAt(s, |s| - 1)[0] == s[0]
  {
  }

  /** Slot `used[p]` goes to the head of the freelist. */
  lemma PartitionMove(n: nat, free: seq<int>, used: seq<int>, p: nat)
    requires Partition(n, used, free) && p < |used|
    ensures Partition(n, RemoveAt(used, p), [used[p]] + free)
  {
    var r := RemoveAt(used, p);
    forall i {:trigger r[i]} | 0 <= i < |r|
      ensures r[i] == used[if i < p then i else i + 1]
    {}
  }

  lemma PartitionKept(n: nat, used: seq<int>, free: seq<int>, p: nat)
    requires Partition(n, used, free) && p < |used|
    ensures Partition(n, [used[p]] + RemoveAt(used, p), free)
    ensures Partition(n, RemoveAt(used, p) + [used[p]], free)
  {
    var r := RemoveAt(used, p);
    forall i {:trigger r[i]} | 0 <= i < |r|
      ensures r[i] == used[if i < p then i else i + 1]
    {}
  }

  lemma PartitionTake(n: nat, used: seq<int>, free: seq<int>)
    requires Partition(n, used, free) && free != []
    ensures Partition(n, [free[0]] + used, free[1..])
    ensures Partition(n, used + [free[0]], free[1..])
  {
  }
}
