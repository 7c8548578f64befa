/** The cache of open file descriptors. The operating system is a table of open
    descriptors; whether it grants an `open` is a parameter of each call that may ask for one. */
module FdCaching {
  import opened Sequences
  import opened Buckets
  import opened IndexCache
  import H = IndexHash
  import M = LruModel

  class Os {
    var open: map<int, int>  // open descriptors and their files

    constructor ()
      ensures open == map[]
    {
      open := map[];
    }

    /** The lowest descriptor not in use, or -1 when the kernel refuses (`granted` is false). */
    method Open(file: int, granted: bool) returns (fd: int)
      modifies this
      ensures granted ==> fd >= 0 && fd !in old(open) && open == old(open)[fd := file]
      ensures granted ==> forall g :: 0 <= g < fd ==> g in old(open)
      ensures !granted ==> fd == -1 && open == old(open)
    {
      if !granted {
        return -1;
      }
      fd := 0;
      while fd in open
        invariant 0 <= fd && open == old(open)
        invariant forall g :: 0 <= g < fd ==> g in open
        decreases |set g | g in open && g >= fd|
      {
        assert fd in (set g | g in open && g >= fd);
        assert (set g | g in open && g >= fd + 1) == (set g | g in open && g >= fd) - {fd};
        fd := fd + 1;
      }
      open := open[fd := file];
    }

    method Close(fd: int)
      requires fd in open
      modifies this
      ensures open == old(open) - {fd}
    {
      open := open - {fd};
    }
  }

  /** The open descriptors are exactly those stored in live entries, each for its entry's file. */
  ghost predicate Descriptors(m: map<int, CEntry<int>>, open: map<int, int>) {
    && (forall k {:trigger m[k]} :: k in m ==> m[k].user in open && open[m[k].user] == k)
    && (forall fd {:trigger open[fd]} :: fd in open ==> fd >= 0 && open[fd] in m && m[open[fd]].user == fd)
  }

  lemma EntryRemoved(m: map<int, CEntry<int>>, open: map<int, int>, fd: int, k: int)
    requires k in m
    ensures Descriptors(m, open - {fd}) ==> m[k].user in open && m[k].user != fd
    ensures Descriptors(m, open - {fd}) ==> Descriptors(m - {k}, open - {m[k].user} - {fd})
  {
    if Descriptors(m, open - {fd}) {
      assert open - {m[k].user} - {fd} == open - {fd} - {m[k].user};
    }
  }

  lemma EntryAdded(m: map<int, CEntry<int>>, m': map<int, CEntry<int>>, open: map<int, int>, k: int, fd: int)
    requires k !in m && k in m' && m' == m[k := m'[k]] && m'[k].user == fd && fd in open && fd >= 0 && open[fd] == k
    ensures Descriptors(m, open - {fd}) ==> Descriptors(m', open)
  {
    if Descriptors(m, open - {fd}) {
      forall g {:trigger open[g]} | g in open ensures g >= 0 && open[g] in m' && m'[open[g]].user == g {
        assert g != fd ==> (open - {fd})[g] in m;
      }
    }
  }

  /** The hash function and the sizes of a cache's table. */
  datatype Table = Table(h: int -> nat, B: nat, C: nat)

  /** A touch of `file` in a descriptor cache of recency order `rec`: the order afterwards, and whether there is a
      descriptor. A file that is not open needs the kernel to grant it. */
  function Reached(t: Table, rec: seq<int>, file: int, granted: bool): M.Touched
    requires t.B > 0
  {
    if file !in rec && !granted then M.Touched(rec, false) else M.Touch(t.h, t.B, t.C, rec, file)
  }

  class FdCache {
    const cache: ICache<int>
    const os: Os

    ghost function Sizes(): (t: Table)
      requires Valid()
      reads this, os, cache, cache.hash, cache.hash.nodes, cache.list, cache.list.nodes
      ensures t.B > 0
    {
      cache.TableSize();
      Table(cache.hash.hashFn, cache.hash.bucketsz, cache.hash.Chainsz())
    }

    ghost predicate Valid()
      reads this, os, cache, cache.hash, cache.hash.nodes, cache.list, cache.list.nodes
    {
      && cache.Valid()
      && Descriptors(cache.hash.m, os.open)
    }

    constructor (os: Os, bucketsz: nat, chainsz: nat, h: int -> nat)
      requires bucketsz > 0 && os.open == map[]
      ensures Valid() && this.os == os && cache.hash.m == map[]
    {
      this.os := os;
      cache := new ICache<int>(bucketsz, chainsz, h, 0);
    }

    /** `granted` is whether the kernel would open the file. One that is open already costs no call. */
    method Touch(key: int, granted: bool) returns (e: int)
      requires Valid() && key != -1
      modifies os, cache.hash, cache.hash.nodes, cache.list, cache.list.nodes
      ensures Valid() && Sizes() == old(Sizes())
      ensures var r := Reached(Sizes(), old(cache.Recency()), key, granted);
        cache.Recency() == r.rec && (e != -1 <==> r.ok)
      ensures key !in old(cache.hash.m) && !granted ==> os.open == old(os.open)
      ensures key in old(cache.hash.m) ==> os.open == old(os.open)
      ensures e != -1 ==> Serves(e, key)
      ensures cache.UsersKept(old(cache.hash.m))
    {
      hide ICache.Valid, NoRoom, M.Without, H.IHash.IsAt;
      cache.Residents();
      e := cache.Get(key);
      if e != -1 {
        cache.Promote(e, key);
        return;
      }
      var fd := os.Open(key, granted);
      if fd == -1 {
        return -1;
      }
      assert os.open - {fd} == old(os.open);
      e := Insert(key, fd);
    }

    /** An open descriptor of the file, or -1 exactly if the touch fails. */
    method Descriptor(file: int, granted: bool) returns (fd: int)
      requires Valid() && file != -1
      modifies os, cache.hash, cache.hash.nodes, cache.list, cache.list.nodes
      ensures Valid() && Sizes() == old(Sizes())
      ensures var r := Reached(Sizes(), old(cache.Recency()), file, granted);
        cache.Recency() == r.rec && (fd != -1 <==> r.ok)
      ensures fd != -1 ==> fd in os.open && os.open[fd] == file
    {
      hide ICache.Valid, Descriptors, NoRoom, Reached;
      var e := Touch(file, granted);
      fd := if e == -1 then -1 else cache.hash.nodes[e].val.user;
    }

    /** The newly opened `fd` is entered for `key`, in place of the least recently used entry if
        need be; when that fails as well `fd` is closed again. */
    method Insert(key: int, fd: int) returns (e: int)
      requires cache.Valid() && key != -1 && key !in cache.hash.m
      requires fd in os.open && fd >= 0 && os.open[fd] == key && Descriptors(cache.hash.m, os.open - {fd})
      modifies os, cache.hash, cache.hash.nodes, cache.list, cache.list.nodes
      ensures Valid() && cache.hash.hashFn == old(cache.hash.hashFn)
      ensures var t := M.Touch(cache.hash.hashFn, cache.hash.bucketsz, cache.hash.Chainsz(), old(cache.Recency()), key);
        cache.Recency() == t.rec && (e != -1 <==> t.ok)
      ensures e != -1 ==> Serves(e, key)
      ensures cache.UsersKept(old(cache.hash.m))
    {
      hide ICache.Valid, NoRoom, M.Without, H.IHash.IsAt, Descriptors, Order, Serves;
      cache.Residents();
      ghost var m := cache.hash.m;
      e := Enter(key, fd);
      if e == -1 {
        NotEmpty(cache.hash.hashFn, cache.hash.bucketsz, cache.hash.Chainsz(), cache.Recency(), key);
        var lruKey, lruFd := cache.DropLast();
        EntryRemoved(m, os.open, fd, lruKey);
        os.Close(lruFd);
        cache.Residents();
        e := Enter(key, fd);
        if e == -1 {
          os.Close(fd);
        }
      }
    }

    /** An entry for `key` that stores `fd`, if the table has room for it. */
    method Enter(key: int, fd: int) returns (e: int)
      requires cache.Valid() && key != -1 && key !in cache.hash.m
      requires fd in os.open && fd >= 0 && os.open[fd] == key && Descriptors(cache.hash.m, os.open - {fd})
      modifies cache.hash, cache.hash.nodes, cache.list, cache.list.nodes
      ensures cache.Valid() && cache.hash.hashFn == old(cache.hash.hashFn)
      ensures e == -1 <==> NoRoom(cache.hash.hashFn, cache.hash.bucketsz, cache.hash.Chainsz(), old(cache.hash.m).Keys, key)
      ensures e == -1 ==> cache.hash.m == old(cache.hash.m) && cache.Recency() == old(cache.Recency())
      ensures e != -1 ==> Descriptors(cache.hash.m, os.open) && Serves(e, key)
      ensures e != -1 ==> cache.Recency() == [key] + old(cache.Recency())
      ensures e != -1 ==> key in cache.hash.m && cache.hash.m == old(cache.hash.m)[key := cache.hash.m[key]]
    {
      hide ICache.Valid, NoRoom, H.IHash.IsAt, Descriptors;
      ghost var m := cache.hash.m;
      e := cache.TryInsert(key);
      if e != -1 {
        cache.Put(e, key, fd);
        EntryAdded(m, cache.hash.m, os.open, key, fd);
        cache.EntryOf(e, key);
      }
    }

    /** Slot `e` is `key`'s entry and stores an open descriptor of that file. */
    ghost predicate Serves(e: int, key: int)
      reads os, cache, cache.hash, cache.hash.nodes
    {
      && cache.hash.IsAt(e, key) && cache.hash.nodes[e].val.user >= 0
      && cache.hash.nodes[e].val.user in os.open && os.open[cache.hash.nodes[e].val.user] == key
    }

    /** Every open descriptor is closed, none twice, and the cache is empty. */
    method Clear(h: int -> nat)
      requires Valid()
      modifies os, cache.hash, cache.hash.nodes, cache.list, cache.list.nodes
      ensures Valid() && os.open == map[] && cache.hash.m == map[] && cache.hash.hashFn == h
    {
      hide Descriptors, H.HashOk, H.IHash.Points, Agree, Enumerates, LeftOpen, DistinctKeys;
      var it, rest := cache.hash.Begin();
      AllLeftOpen(cache.hash.m, os.open, rest);
      cache.hash.Current(it, rest);
      while it.slot != -1
        invariant cache.Valid() && cache.hash.Points(it, rest) && DistinctKeys(rest) && LeftOpen(os.open, rest)
        invariant it.slot == -1 <==> rest == []
        invariant it.slot != -1 ==> 0 <= it.slot < cache.hash.nodes.Length && cache.hash.nodes[it.slot].val == rest[0].val
        modifies os
        decreases |rest|
      {
        OneClosed(os.open, rest);
        os.Close(cache.hash.nodes[it.slot].val.user);
        it := cache.hash.Next(it, rest);
        rest := rest[1..];
        cache.hash.Current(it, rest);
      }
      NoneLeftOpen(os.open, rest);
      cache.Clear(h);
      NothingOpen();
    }
  }

  function Fds(rest: seq<Entry<CEntry<int>>>): set<int> {
    set e | e in rest :: e.val.user
  }

  /** The open descriptors are those of the entries `rest`. */
  ghost predicate LeftOpen(open: map<int, int>, rest: seq<Entry<CEntry<int>>>) {
    && (forall i {:trigger rest[i]} :: 0 <= i < |rest| ==> rest[i].val.user in open && open[rest[i].val.user] == rest[i].key)
    && open.Keys <= Fds(rest)
  }

  lemma AllLeftOpen(m: map<int, CEntry<int>>, open: map<int, int>, rest: seq<Entry<CEntry<int>>>)
    ensures Descriptors(m, open) && Enumerates(rest, m) ==> LeftOpen(open, rest) && DistinctKeys(rest)
  {
    if Descriptors(m, open) && Enumerates(rest, m) {
      forall fd | fd in open.Keys ensures fd in Fds(rest) {
        var k := open[fd];
        assert k in m && HasKey(rest, k);
        var i :| 0 <= i < |rest| && rest[i].key == k;
        assert rest[i] in rest;
      }
    }
  }

  lemma OneClosed(open: map<int, int>, rest: seq<Entry<CEntry<int>>>)
    requires rest != []
    ensures LeftOpen(open, rest) && DistinctKeys(rest) ==>
      && rest[0].val.user in open
      && LeftOpen(open - {rest[0].val.user}, rest[1..]) && DistinctKeys(rest[1..])
  {
    if LeftOpen(open, rest) && DistinctKeys(rest) {
      var open' := open - {rest[0].val.user};
      forall fd | fd in open'.Keys ensures fd in Fds(rest[1..]) {
        assert fd in open.Keys;
        var e :| e in rest && e.val.user == fd;
        assert e in rest[1..];
      }
    }
  }

  lemma NoneLeftOpen(open: map<int, int>, rest: seq<Entry<CEntry<int>>>)
    requires rest == []
    ensures LeftOpen(open, rest) ==> open == map[]
  {
    if LeftOpen(open, rest) {
      assert Fds(rest) == {};
    }
  }

  lemma NothingOpen()
    ensures Descriptors(map[], map[])
  {
  }
}
