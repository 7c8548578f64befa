/** Pages of fixed-size rows: the layout of columns, the cells of rows, and row removal. */
module Grids {
  import opened Sequences
  import opened Types
  import opened Align
  import opened Wire

  // ----- columns

  datatype ColType = Number(ik: IntKind) | Text

  datatype Column = Column(name: string, offs: nat, typ: ColType, size: nat)

  /** Bytes a value takes in a row. */
  function TypeSize(t: ColType, size: nat): nat {
    match t
    case Number(Smallint) => 2
    case Number(Integer) => 4
    case Number(Bigint) => 8
    case Text => size
  }

  function Width(c: Column): nat {
    TypeSize(c.typ, c.size)
  }

  predicate Apart(c: Column, d: Column) {
    c.offs + Width(c) <= d.offs || d.offs + Width(d) <= c.offs
  }

  const NAMESZ: nat := 16
  const INVALID: nat := 65535

  function ShortName(name: string): string {
    if |name| < NAMESZ then name else name[..NAMESZ - 1]
  }

  // ----- the layout of a row

  function EndOf(c: Column): nat {
    c.offs + Width(c)
  }

  /** The columns and how many bytes of a row they take, kept in 16 bits. */
  datatype Layout = Layout(cols: seq<Column>, datasz: nat)

  datatype Decl = Decl(name: string, typ: ColType, size: nat)

  function DeclWidth(d: Decl): nat {
    TypeSize(d.typ, d.size)
  }

  /** A new column's offset is aligned to its width by masking. */
  function Placed(l: Layout, d: Decl): Column {
    Column.Column(ShortName(d.name), AlignTo(l.datasz, DeclWidth(d)), d.typ, d.size)
  }

  function Added(l: Layout, d: Decl): (r: Layout)
    ensures r.datasz < 65536
  {
    Layout(l.cols + [Placed(l, d)], EndOf(Placed(l, d)) % 65536)
  }

  function Laid(ds: seq<Decl>): (l: Layout)
    ensures |l.cols| == |ds| && l.datasz < 65536
  {
    if ds == [] then Layout([], 0) else Added(Laid(ds[..|ds| - 1]), ds[|ds| - 1])
  }

  /** What a layout is for: no two columns share a byte, and all lie in the row. */
  ghost predicate Separate(l: Layout) {
    && (forall i :: 0 <= i < |l.cols| ==> EndOf(l.cols[i]) <= l.datasz)
    && (forall i, j {:trigger l.cols[i], l.cols[j]} :: 0 <= i < j < |l.cols| ==> Apart(l.cols[i], l.cols[j]))
  }

  /** The columns follow each other, from the first byte on. */
  ghost predicate Sound(l: Layout) {
    && l.datasz < 65536
    && (if l.cols == [] then l.datasz == 0 else l.datasz == EndOf(l.cols[|l.cols| - 1]))
    && (forall i :: 0 <= i < |l.cols| ==> EndOf(l.cols[i]) <= l.datasz)
    && (forall i, j {:trigger l.cols[i], l.cols[j]} :: 0 <= i < j < |l.cols| ==> EndOf(l.cols[i]) <= l.cols[j].offs)
    && (l.datasz > 0 ==> exists i :: 0 <= i < |l.cols| && Opens(l.cols[i]))
  }

  predicate Opens(c: Column) {
    c.offs == 0 && Width(c) > 0
  }

  /** A column of width `w` finds room behind `datasz` bytes: it has bytes, and ends within 16 bits. Without bytes it is
      harmless only in front of all others. */
  predicate Takes(datasz: nat, w: nat) {
    if w == 0 then datasz == 0 else AlignUp(datasz, w) + w < 65536
  }

  lemma TakesNarrow(datasz: nat, w: nat)
    requires datasz < 65536
    ensures Takes(datasz, w) ==> w < 65536
    ensures 0 < w < 65536 ==> ToInt(w) == w && AlignTo(datasz, w) == AlignUp(datasz, w) >= datasz
    ensures w == 0 ==> AlignTo(datasz, w) == 0
  {
    hide AlignUp, AlignTo;
    AlignToCases(datasz, w);
    if w > 0 {
      AlignUpBounds(datasz, w);
    }
  }

  /** A sound layout stays sound exactly if the column takes room. */
  lemma AddedSound(l: Layout, d: Decl)
    requires Sound(l)
    ensures Sound(Added(l, d)) <==> Takes(l.datasz, DeclWidth(d))
  {
    hide AlignUp, Sound, Added;
    if DeclWidth(d) > 0 {
      PositiveAdded(l, d);
    } else {
      EmptyAdded(l, d);
    }
  }

  lemma PositiveAdded(l: Layout, d: Decl)
    requires Sound(l) && DeclWidth(d) > 0
    ensures Sound(Added(l, d)) <==> Takes(l.datasz, DeclWidth(d))
  {
    hide AlignUp, AlignTo, ToInt;
    var n, c := Added(l, d), Placed(l, d);
    TakesNarrow(l.datasz, DeclWidth(d));
    assert n.cols[|l.cols|] == c;
    if Takes(l.datasz, DeclWidth(d)) {
      if l.datasz == 0 {
        AlignUpZero(DeclWidth(d));
        assert Opens(n.cols[|l.cols|]);
      } else {
        var i :| 0 <= i < |l.cols| && Opens(l.cols[i]);
        assert Opens(n.cols[i]);
      }
    } else {
      assert EndOf(c) >= 65536 > n.datasz;
    }
  }

  lemma EmptyAdded(l: Layout, d: Decl)
    requires Sound(l) && DeclWidth(d) == 0
    ensures Sound(Added(l, d)) <==> l.datasz == 0
  {
    hide AlignUp, AlignTo, ToInt;
    var n, c := Added(l, d), Placed(l, d);
    TakesNarrow(l.datasz, 0);
    assert n.cols[|l.cols|] == c && n.datasz == 0;
    if l.datasz > 0 {
      assert EndOf(n.cols[|l.cols| - 1]) == l.datasz;
    }
  }

  /** Whatever column with bytes comes next lies behind all earlier ones if and only if this one took room. */
  lemma NextBehind(l: Layout, d: Decl)
    requires Sound(l)
    ensures Takes(l.datasz, DeclWidth(d)) <==>
      forall e: Decl, i :: ToInt(DeclWidth(e)) > 0 && 0 <= i <= |l.cols| ==>
        EndOf(Added(l, d).cols[i]) <= Placed(Added(l, d), e).offs
  {
    hide AlignUp, AlignTo, Takes, ToInt;
    var n := Added(l, d);
    AddedSound(l, d);
    forall e: Decl | ToInt(DeclWidth(e)) > 0
      ensures Placed(n, e).offs >= n.datasz
    {
      AlignToCases(n.datasz, DeclWidth(e));
      AlignUpBounds(n.datasz, ToInt(DeclWidth(e)));
    }
    if !Takes(l.datasz, DeclWidth(d)) {
      var e := Decl("", Text, 1);
      OneByte(n.datasz);
      assert ToInt(DeclWidth(e)) > 0 && Placed(n, e).offs == n.datasz;
      TakesNarrow(l.datasz, DeclWidth(d));
      TooWide(l, d);
    }
  }

  lemma OneByte(datasz: nat)
    requires datasz < 65536
    ensures ToInt(1) == 1 && AlignTo(datasz, 1) == datasz
  {
    AlignToCases(datasz, 1);
    AlignUpBounds(datasz, 1);
  }

  /** A column that takes no room leaves another one beyond the end of the row. */
  lemma TooWide(l: Layout, d: Decl)
    requires Sound(l) && !Takes(l.datasz, DeclWidth(d))
    ensures exists i :: 0 <= i <= |l.cols| && EndOf(Added(l, d).cols[i]) > Added(l, d).datasz
  {
    hide AlignUp, AlignTo, ToInt;
    var n, c := Added(l, d), Placed(l, d);
    TakesNarrow(l.datasz, DeclWidth(d));
    if DeclWidth(d) == 0 {
      assert EndOf(n.cols[|l.cols| - 1]) == l.datasz > n.datasz;
    } else {
      assert n.cols[|l.cols|] == c && EndOf(c) >= 65536;
    }
  }

  // ----- names

  /** `n` is the first column of that name, or the invalid index if there is none. */
  ghost predicate Finds(cols: seq<Column>, name: string, n: nat) {
    && (n == INVALID || (n < |cols| && cols[n].name == name))
    && forall i :: 0 <= i < |cols| && (n == INVALID || i < n) ==> cols[i].name != name
  }

  /** A new column is found under its name if that has fewer than 16 characters and is new, and otherwise under the first
      15 of them; every column found before is still found. */
  lemma FoundUnderItsName(l: Layout, d: Decl)
    requires |l.cols| < INVALID
    ensures |d.name| < 16 && Finds(l.cols, d.name, INVALID) ==> Finds(Added(l, d).cols, d.name, |l.cols|)
    ensures |d.name| >= 16 && Finds(l.cols, d.name[..15], INVALID) ==> Finds(Added(l, d).cols, d.name[..15], |l.cols|)
    ensures forall name, n :: n != INVALID && Finds(l.cols, name, n) ==> Finds(Added(l, d).cols, name, n)
    ensures forall name :: Finds(l.cols, name, INVALID) && name != d.name && name != d.name[..Min(15, |d.name|)] ==>
      Finds(Added(l, d).cols, name, INVALID)
  {
    var cols := Added(l, d).cols;
    assert cols[|l.cols|].name == if |d.name| < 16 then d.name else d.name[..15];
    assert forall i :: 0 <= i < |l.cols| ==> cols[i] == l.cols[i];
  }

  /** No column is found under a name of 16 characters or more, whatever was declared. */
  lemma {:induction false} LongNameIsLost(ds: seq<Decl>, name: string)
    requires |name| >= 16
    ensures Finds(Laid(ds).cols, name, INVALID)
    decreases |ds|
  {
    if ds != [] {
      LongNameIsLost(ds[..|ds| - 1], name);
    }
  }

  // ----- whole tables

  ghost predicate AllTake(ds: seq<Decl>) {
    forall n :: 0 <= n < |ds| ==> Takes(Laid(ds[..n]).datasz, DeclWidth(ds[n]))
  }

  /** No further column can repair this: one lies beyond 16 bits, the first bytes are given away again, or two share a
      byte. */
  ghost predicate Broken(l: Layout) {
    || (exists i :: 0 <= i < |l.cols| && EndOf(l.cols[i]) >= 65536)
    || (l.datasz == 0 && exists i :: 0 <= i < |l.cols| && Opens(l.cols[i]))
    || (exists i, j {:trigger l.cols[i], l.cols[j]} :: 0 <= i < j < |l.cols| && !Apart(l.cols[i], l.cols[j]))
  }

  lemma BrokenStays(l: Layout, d: Decl)
    requires Broken(l) && l.datasz < 65536
    ensures Broken(Added(l, d))
  {
    hide AlignUp, AlignTo, ToInt;
    var n, c, w := Added(l, d), Placed(l, d), DeclWidth(d);
    assert n.cols[|l.cols|] == c;
    assert forall i :: 0 <= i < |l.cols| ==> n.cols[i] == l.cols[i];
    TakesNarrow(l.datasz, w);
    if i, j :| 0 <= i < j < |l.cols| && !Apart(l.cols[i], l.cols[j]) {
      assert !Apart(n.cols[i], n.cols[j]);
    } else if i :| 0 <= i < |l.cols| && EndOf(l.cols[i]) >= 65536 {
      assert EndOf(n.cols[i]) >= 65536;
    } else {
      var i :| 0 <= i < |l.cols| && Opens(l.cols[i]);
      assert Opens(n.cols[i]);
      if w >= 65536 {
        assert EndOf(n.cols[|l.cols|]) >= 65536;
      } else if w > 0 {
        AlignUpZero(w);
        assert !Apart(n.cols[i], n.cols[|l.cols|]);
      }
    }
  }

  lemma FirstBreak(l: Layout, d: Decl)
    requires Sound(l) && !Takes(l.datasz, DeclWidth(d))
    ensures Broken(Added(l, d))
  {
    hide AlignUp, AlignTo, ToInt;
    var n, c, w := Added(l, d), Placed(l, d), DeclWidth(d);
    TakesNarrow(l.datasz, w);
    if w == 0 {
      var i :| 0 <= i < |l.cols| && Opens(l.cols[i]);
      assert n.datasz == 0 && Opens(n.cols[i]);
    } else {
      assert n.cols[|l.cols|] == c && EndOf(c) >= 65536;
    }
  }

  lemma BrokenOverlaps(l: Layout)
    requires Broken(l) && l.datasz < 65536
    ensures !Separate(l)
  {
  }

  lemma SoundSeparate(l: Layout)
    requires Sound(l)
    ensures Separate(l)
  {
  }

  lemma {:induction false} SoundOrBroken(ds: seq<Decl>)
    ensures if AllTake(ds) then Sound(Laid(ds)) else Broken(Laid(ds))
    decreases |ds|
  {
    hide Takes, Sound, Broken, AllTake, Added;
    if ds == [] {
      NothingLaid();
    } else {
      var k := |ds| - 1;
      var before := ds[..k];
      SoundOrBroken(before);
      AllTakeLast(ds);
      if !AllTake(before) {
        BrokenStays(Laid(before), ds[k]);
      } else if Takes(Laid(before).datasz, DeclWidth(ds[k])) {
        AddedSound(Laid(before), ds[k]);
      } else {
        FirstBreak(Laid(before), ds[k]);
      }
    }
  }

  lemma AllTakeLast(ds: seq<Decl>)
    requires ds != []
    ensures var before := ds[..|ds| - 1];
      AllTake(ds) <==> AllTake(before) && Takes(Laid(before).datasz, DeclWidth(ds[|ds| - 1]))
  {
    hide Takes, Laid;
    var before := ds[..|ds| - 1];
    assert forall n :: 0 <= n < |before| ==> before[..n] == ds[..n] && before[n] == ds[n];
    if AllTake(ds) {
      forall n | 0 <= n < |before|
        ensures Takes(Laid(before[..n]).datasz, DeclWidth(before[n]))
      {
        assert before[..n] == ds[..n];
      }
    }
  }

  lemma NothingLaid()
    ensures Laid([]) == Layout([], 0) && Sound(Laid([])) && AllTake([])
  {
  }

  /** The columns of a table share no byte and lie in its rows if and only if each one took room when it was added. */
  lemma LayoutExactly(ds: seq<Decl>)
    ensures Separate(Laid(ds)) <==> AllTake(ds)
  {
    hide Sound, Broken, Separate;
    SoundOrBroken(ds);
    if AllTake(ds) {
      SoundSeparate(Laid(ds));
    } else {
      BrokenOverlaps(Laid(ds));
    }
  }

  /** Behind a column without bytes, or one that makes the size wrap to 0, the next one starts at the first byte again. */
  lemma StartsAgain(l: Layout, d: Decl, e: Decl)
    requires EndOf(Placed(l, d)) % 65536 == 0 && 0 < DeclWidth(e) < 65536
    ensures Placed(Added(l, d), e).offs == 0
  {
    TakesNarrow(0, DeclWidth(e));
    AlignUpZero(DeclWidth(e));
  }

  /** A character column of no bytes, or of 65536 behind a short row, does that. */
  lemma WidthsThatRestart(l: Layout, name: string)
    requires 0 < l.datasz < 65536
    ensures EndOf(Placed(l, Decl(name, Text, 0))) % 65536 == 0
    ensures EndOf(Placed(l, Decl(name, Text, 65536))) % 65536 == 0
  {
    hide AlignTo;
    TakesNarrow(l.datasz, 0);
    AlignTo65536(l.datasz);
  }

  /** The header page: the columns and how many bytes of a row they take. */
  class Header {
    const rown: nat
    var cols: seq<Column>
    var datasz: nat

    constructor (rown: nat)
      requires rown < INVALID
      ensures Valid() && Abs() == Laid([]) && this.rown == rown
    {
      this.rown, cols, datasz := rown, [], 0;
    }

    predicate Valid()
      reads this
    {
      |cols| <= rown < INVALID && datasz < 65536
    }

    function Abs(): Layout
      reads this
    {
      Layout(cols, datasz)
    }

    /** A new column is placed as its width says; refused exactly if the page is full. A sound layout stays so exactly if
        the column takes room, and then the column is behind the others. */
    method AddColumn(name: string, typ: ColType, size: nat) returns (ok: bool)
      requires Valid()
      modifies this`cols, this`datasz
      ensures Valid() && (ok <==> |old(cols)| < rown)
      ensures Abs() == if ok then Added(old(Abs()), Decl(name, typ, size)) else old(Abs())
      ensures ok && old(Sound(Abs())) ==> (Sound(Abs()) <==> Takes(old(datasz), TypeSize(typ, size)))
      ensures ok && Takes(old(datasz), TypeSize(typ, size)) && TypeSize(typ, size) > 0 ==>
        var c := cols[|cols| - 1]; old(datasz) <= c.offs < old(datasz) + Width(c) && datasz == EndOf(c)
    {
      hide AlignUp, AlignTo, ToInt, Sound;
      if |cols| >= rown {
        return false;
      }
      ghost var d := Decl(name, typ, size);
      ghost var before := Abs();
      TakesNarrow(datasz, DeclWidth(d));
      if DeclWidth(d) > 0 {
        AlignUpBounds(datasz, DeclWidth(d));
      }
      if Sound(before) {
        AddedSound(before, d);
      }
      var cursz := TypeSize(typ, size);
      var offs := AlignTo(datasz, cursz);
      cols := cols + [Column.Column(ShortName(name), offs, typ, size)];
      datasz := (offs + cursz) % 65536;
      ok := true;
    }

    /** The first column of that name. */
    method ColumnIdx(name: string) returns (n: nat)
      requires Valid()
      ensures Finds(cols, name, n)
    {
      for i := 0 to |cols|
        invariant forall j :: 0 <= j < i ==> cols[j].name != name
      {
        if cols[i].name == name {
          return i;
        }
      }
      n := INVALID;
    }

    function RowSize(): nat
      reads this
    {
      AlignUp(datasz, 4)
    }

    /** Every two columns of a sound layout are apart and all fit the row. */
    lemma ColumnsFit(i: nat, j: nat)
      requires Valid() && Sound(Abs()) && i < |cols| && j < |cols|
      ensures EndOf(cols[i]) <= RowSize() < datasz + 4
      ensures i != j ==> Apart(cols[i], cols[j])
    {
      AlignUpBounds(datasz, 4);
      SoundSeparate(Abs());
      assert i < j ==> Apart(Abs().cols[i], Abs().cols[j]);
      assert j < i ==> Apart(Abs().cols[j], Abs().cols[i]);
    }
  }

  // ----- cells

  function Chars(s: string): (r: seq<byte>)
    requires Narrow(s)
    ensures |r| == |s|
  {
    if s == [] then [] else [s[0] as int] + Chars(s[1..])
  }

  function Text0(bs: seq<byte>): (r: string)
    ensures |r| == |bs|
  {
    if bs == [] then [] else [bs[0] as char] + Text0(bs[1..])
  }

  predicate Narrow(s: string) {
    forall i :: 0 <= i < |s| ==> s[i] as int < 256
  }

  lemma {:induction false} CharsTrip(s: string)
    requires Narrow(s)
    ensures Text0(Chars(s)) == s
  {
    if s != [] {
      CharsTrip(s[1..]);
      assert Chars(s)[1..] == Chars(s[1..]);
    }
  }

  /** The characters before a terminator, `n` at most. */
  function StrN(s: string, n: nat): (r: string)
    ensures |r| <= n && r <= s
  {
    if n == 0 || s == [] || s[0] == '\0' then [] else [s[0]] + StrN(s[1..], n - 1)
  }

  /** All characters up to the first terminator, or the first `n` of them. */
  lemma {:induction false} StrNIs(s: string, n: nat)
    ensures var k := |StrN(s, n)|;
      && StrN(s, n) == s[..k] && (forall i :: 0 <= i < k ==> s[i] != '\0')
      && (k == n || k == |s| || s[k] == '\0')
    decreases n
  {
    if n > 0 && s != [] && s[0] != '\0' {
      StrNIs(s[1..], n - 1);
      var t := StrN(s[1..], n - 1);
      assert forall i :: 0 < i < |t| + 1 ==> s[i] == s[1..][i - 1];
    }
  }

  /** A text without terminator is cut to the column's width, or filled up to it with spaces. */
  lemma PaddedIs(s: string, n: nat)
    requires forall i :: 0 <= i < |s| ==> s[i] != '\0'
    ensures Padded(s, n) == if |s| >= n then s[..n] else s + Spaces(n - |s|)
  {
    StrNIs(s, n);
  }

  function Spaces(n: nat): (r: string)
    ensures |r| == n && forall i :: 0 <= i < n ==> r[i] == ' '
  {
    if n == 0 then [] else [' '] + Spaces(n - 1)
  }

  function Padded(s: string, n: nat): (r: string)
    ensures |r| == n
  {
    StrN(s, n) + Spaces(n - |StrN(s, n)|)
  }

  /** Two's complement in `k` bytes, least significant first. */
  function Twos(v: int, k: nat): (r: seq<byte>)
    ensures |r| == k
    decreases k
  {
    if k == 0 then [] else [v % 256] + Twos(v / 256, k - 1)
  }

  lemma {:induction false} TwosPrefix(v: int, k: nat, j: nat)
    requires j <= k
    ensures Twos(v, k)[..j] == Twos(v, j)
    decreases k
  {
    if j > 0 {
      TwosPrefix(v / 256, k - 1, j - 1);
      assert Twos(v, k)[..j] == [v % 256] + Twos(v / 256, k - 1)[..j - 1];
    }
  }

  lemma {:induction false} TwosValue(v: int, k: nat)
    ensures Pow256(k) > 0 && Value(Twos(v, k)) == v % Pow256(k)
    decreases k
  {
    PowPositive(k);
    if k > 0 {
      PowPositive(k - 1);
      TwosValue(v / 256, k - 1);
      assert Twos(v, k)[1..] == Twos(v / 256, k - 1);
      ModSplit(v, Pow256(k - 1));
    }
  }

  lemma ModSplit(v: int, p: nat)
    requires p > 0
    ensures v % (256 * p) == v % 256 + 256 * ((v / 256) % p)
  {
    var q, m := v / 256, v % 256;
    var d, e := q / p, q % p;
    assert q == d * p + e;
    assert v == d * (256 * p) + (256 * e + m);
    ModUnique(v, 256 * p, d, 256 * e + m);
  }

  lemma ModUnique(x: int, p: nat, q: int, r: int)
    requires p > 0 && x == q * p + r && 0 <= r < p
    ensures x % p == r
  {
    var d := x / p - q;
    assert x == (x / p) * p + x % p;
    assert d * p == (x / p) * p - q * p;
  }

  lemma {:induction false} ValueInjective(a: seq<byte>, b: seq<byte>)
    requires |a| == |b| && Value(a) == Value(b)
    ensures a == b
    decreases |a|
  {
    if a != [] {
      ValueInjective(a[1..], b[1..]);
      assert a == [a[0]] + a[1..] && b == [b[0]] + b[1..];
    }
  }

  lemma {:induction false} ValueBound(a: seq<byte>)
    ensures Value(a) < Pow256(|a|)
  {
    if a != [] {
      ValueBound(a[1..]);
    }
  }

  /** The number in those bytes, high bit as sign. */
  function NumberIn(bs: seq<byte>): int {
    Signed(Value(bs), |bs|)
  }

  /** The bytes hold the number exactly if they are its two's complement and it fits. */
  lemma HoldsExactly(bs: seq<byte>, v: int)
    ensures NumberIn(bs) == v <==> Fits(v, |bs|) && bs == Twos(v, |bs|)
  {
    hide Value, Pow256, Twos;
    var k := |bs|;
    ValueBound(bs);
    TwosValue(v, k);
    if Fits(v, k) {
      Remainder(v, Pow256(k));
      if Value(bs) == Value(Twos(v, k)) {
        ValueInjective(bs, Twos(v, k));
      }
    }
  }

  lemma {:induction false} PowPositive(k: nat)
    ensures Pow256(k) > 0
  {
    if k > 0 {
      PowPositive(k - 1);
    }
  }

  function Signed(u: nat, k: nat): int {
    if 2 * u >= Pow256(k) then u - Pow256(k) else u
  }

  predicate Fits(v: int, k: nat) {
    -(Pow256(k) as int) <= 2 * v < Pow256(k)
  }

  lemma Remainder(v: int, p: int)
    requires p > 0 && -p <= 2 * v < p
    ensures v % p == if v < 0 then v + p else v
  {
    var q := v / p;
    assert v == q * p + v % p;
  }

  /** The column takes data of this group. */
  predicate Accepts(c: Column, d: Datum) {
    if c.typ.Number? then d.Int? else d.Chr?
  }

  /** The bytes of the union a number is passed in: those of its own kind, and beyond them whatever is there. */
  function UnionBytes(d: Datum, junk: seq<byte>): (r: seq<byte>)
    requires d.Int? && |junk| == 8
    ensures |r| == 8
  {
    var own := TypeSize(Number(d.ik), 0);
    Twos(d.v, own) + junk[own..]
  }

  /** The bytes of a datum in the column's cell. Between different kinds of numbers all eight bytes of the union are
      read, and as many stored as the column has. */
  function Encoded(c: Column, d: Datum, junk: seq<byte>): (r: seq<byte>)
    requires Accepts(c, d) && (d.Chr? ==> Narrow(d.s)) && |junk| == 8
    ensures |r| == Width(c)
  {
    if d.Int? then UnionBytes(d, junk)[..Width(c)] else PaddedNarrow(d.s, c.size); Chars(Padded(d.s, c.size))
  }

  /** The number fits the column, and where the column is wider than its kind the bytes beyond happen to continue it. */
  predicate Intact(c: Column, d: Datum, junk: seq<byte>)
    requires d.Int? && |junk| == 8
  {
    var own := TypeSize(Number(d.ik), 0);
    Fits(d.v, Width(c)) && (Width(c) <= 8 && own < Width(c) ==> junk[own..Width(c)] == Twos(d.v, Width(c))[own..])
  }

  lemma PaddedNarrow(s: string, n: nat)
    requires Narrow(s)
    ensures Narrow(Padded(s, n))
  {
    var t := StrN(s, n);
    assert forall i :: 0 <= i < |t| ==> t[i] == s[i];
  }

  /** The datum in the column's cell. */
  function Decoded(c: Column, bs: seq<byte>): Datum {
    match c.typ
    case Number(ik) => Int(ik, NumberIn(bs))
    case Text => Chr(Char, Text0(bs))
  }

  /** What a datum becomes in a column: a number stays if it fits, a text is cut and filled up with spaces. */
  function Stored(c: Column, d: Datum): Datum {
    match d
    case Int(_, v) => Int(if c.typ.Number? then c.typ.ik else Bigint, v)
    case Chr(_, s) => Chr(Char, Padded(s, c.size))
    case Name(_) => d
  }

  /** A cell gives back what was put exactly if the number arrives intact; a text always as stored. */
  lemma CellTrip(c: Column, d: Datum, junk: seq<byte>)
    requires Accepts(c, d) && (d.Chr? ==> Narrow(d.s)) && |junk| == 8
    ensures Decoded(c, Encoded(c, d, junk)) == Stored(c, d) <==> (d.Int? ==> Intact(c, d, junk))
  {
    hide Twos, NumberIn, Fits, Chars, Text0, Padded;
    if d.Int? {
      var own, w := TypeSize(Number(d.ik), 0), Width(c);
      var bs := Encoded(c, d, junk);
      HoldsExactly(bs, d.v);
      if own < w {
        TwosPrefix(d.v, w, own);
        assert bs == Twos(d.v, own) + junk[own..w];
        assert Twos(d.v, w) == Twos(d.v, own) + Twos(d.v, w)[own..];
        assert bs[own..] == junk[own..w];
      } else {
        TwosPrefix(d.v, own, w);
        assert bs == Twos(d.v, own)[..w];
      }
    } else {
      PaddedNarrow(d.s, c.size);
      CharsTrip(Padded(d.s, c.size));
    }
  }

  /** A number of the column's own kind, or a bigint, arrives intact exactly if it fits. */
  lemma SameKindIntact(c: Column, d: Datum, junk: seq<byte>)
    requires c.typ.Number? && d.Int? && |junk| == 8 && (d.ik == Bigint || d.ik == c.typ.ik)
    ensures Intact(c, d, junk) <==> Fits(d.v, Width(c))
  {
  }

  /** The numbers that each kind of column holds. */
  lemma NumbersHeld(c: Column, d: Datum, junk: seq<byte>)
    requires c.typ.Number? && d.Int? && |junk| == 8 && (d.ik == Bigint || d.ik == c.typ.ik)
    ensures c.typ.ik == Smallint ==> (Intact(c, d, junk) <==> -32768 <= d.v <= 32767)
    ensures c.typ.ik == Integer ==> (Intact(c, d, junk) <==> -0x8000_0000 <= d.v <= 0x7FFF_FFFF)
    ensures c.typ.ik == Bigint ==> (Intact(c, d, junk) <==> InInt64(d.v))
  {
    SameKindIntact(c, d, junk);
    assert Pow256(2) == 0x1_0000 && Pow256(4) == 0x1_0000_0000;
    assert Pow256(8) == 0x1_0000_0000_0000_0000;
  }

  /** A text that fits compares as it did before it was stored. */
  lemma StoredTextEqual(c: Column, s: string)
    requires |s| <= c.size && forall i :: 0 <= i < |s| ==> s[i] != '\0'
    ensures ToBase(Stored(c, Chr(Char, s))) == ToBase(Chr(Char, s))
  {
    StrNWhole(s, c.size);
    TrimPadded(s, Spaces(c.size - |s|));
  }

  lemma TrimPadded(s: string, spaces: string)
    requires forall i :: 0 <= i < |spaces| ==> spaces[i] == ' '
    ensures TrimRight(s + spaces) == TrimRight(s)
  {
    hide TrimRight;
    var p, t := s + spaces, TrimRight(s);
    forall i | |t| <= i < |p|
      ensures p[i] == ' '
    {
      if i < |s| {
        assert p[i] == s[i];
      } else {
        assert p[i] == spaces[i - |s|];
      }
    }
    assert t != [] ==> p[|t| - 1] == s[|t| - 1] == t[|t| - 1];
    TrimRightUnique(p, |t|);
    assert p[..|t|] == s[..|t|] == t;
  }

  lemma {:induction false} StrNWhole(s: string, n: nat)
    requires |s| <= n && forall i :: 0 <= i < |s| ==> s[i] != '\0'
    ensures StrN(s, n) == s
  {
    if s != [] {
      StrNWhole(s[1..], n - 1);
    }
  }

  // ----- rows

  const GRIDSZ: nat := 24

  /** Where row `r` begins. */
  function At(r: nat, rowsz: nat): nat {
    r * rowsz
  }

  lemma AtNext(r: nat, rowsz: nat)
    ensures At(r + 1, rowsz) == At(r, rowsz) + rowsz
  {
  }

  /** Rows follow each other without overlap. */
  lemma AtBefore(q: nat, r: nat, rowsz: nat)
    ensures q < r ==> At(q, rowsz) + rowsz <= At(r, rowsz)
    ensures q <= r ==> At(q, rowsz) <= At(r, rowsz)
  {
    hide At;
    if q <= r {
      AtSum(q, r - q, rowsz);
    }
    if q < r {
      AtNext(r - q - 1, rowsz);
    }
  }

  lemma AtSum(q: nat, r: nat, rowsz: nat)
    ensures At(q, rowsz) + At(r, rowsz) == At(q + r, rowsz)
  {
  }

  /** The bytes of row `r` of `rown` in a page's bytes. */
  function RowOf(ds: seq<byte>, r: nat, rown: nat, rowsz: nat): (s: seq<byte>)
    requires |ds| == At(rown, rowsz) && r < rown
    ensures |s| == rowsz
  {
    AtBefore(r, rown, rowsz);
    ds[At(r, rowsz)..At(r, rowsz) + rowsz]
  }

  lemma Removed<T>(before: seq<T>, moved: seq<T>, r: nat)
    requires r < |before| == |moved|
    requires forall q :: 0 <= q < |before| ==> moved[q] == before[Source(q, r, |before|)]
    ensures moved[..|before| - 1] == before[..r] + before[r + 1..] && moved[|before| - 1] == before[|before| - 1]
  {
  }

  predicate AllZero(row: seq<byte>) {
    forall i :: 0 <= i < |row| ==> row[i] == 0
  }

  class Grid {
    const rowsz: nat
    const rown: nat
    const datum: array<byte>
    var occupied: nat

    constructor (pagesz: nat, rowsz: nat)
      requires GRIDSZ <= pagesz < 65536 && rowsz > 0
      ensures Valid() && this.rowsz == rowsz && rown == (pagesz - GRIDSZ) / rowsz && occupied == 0 && fresh(datum)
      ensures Clean()
    {
      this.rowsz, rown, occupied := rowsz, (pagesz - GRIDSZ) / rowsz, 0;
      datum := new byte[At((pagesz - GRIDSZ) / rowsz, rowsz)](_ => 0);
      new;
      forall q | occupied <= q < rown
        ensures AllZero(RowAt(q))
      {
        AtBefore(q, rown, rowsz);
      }
    }

    predicate Valid()
      reads this
    {
      occupied <= rown < INVALID && rowsz > 0 && datum.Length == At(rown, rowsz)
    }

    /** The bytes of row `r`. */
    function RowAt(r: nat): (s: seq<byte>)
      requires Valid() && r < rown
      reads this, datum
      ensures |s| == rowsz
    {
      RowOf(datum[..], r, rown, rowsz)
    }

    ghost function Rows(): (s: seq<seq<byte>>)
      requires Valid()
      reads this, datum
      ensures |s| == occupied
    {
      seq(occupied, r requires 0 <= r < occupied reads this, datum requires Valid() => RowAt(r))
    }

    /** Every row yet to be allocated is zero: so far allocation keeps its promise. */
    ghost predicate Clean()
      requires Valid()
      reads this, datum
    {
      forall q :: occupied <= q < rown ==> AllZero(RowAt(q))
    }

    predicate InRow(c: Column) {
      c.offs + Width(c) <= rowsz
    }

    function GetDatum(r: nat, c: Column): Datum
      requires Valid() && r < occupied && InRow(c)
      reads this, datum
    {
      Decoded(c, RowAt(r)[c.offs..c.offs + Width(c)])
    }

    /** A row's number, or `INVALID` exactly if the page is full. Its bytes are what they were: zero only if they were. */
    method AllocRow() returns (r: nat)
      requires Valid()
      modifies this`occupied
      ensures Valid() && datum[..] == old(datum[..])
      ensures if old(occupied) < rown then r == old(occupied) && occupied == r + 1 && Rows() == old(Rows()) + [RowAt(r)]
              else r == INVALID && occupied == old(occupied)
      ensures r != INVALID ==> RowAt(r) == old(RowAt(occupied))
      ensures old(Clean()) ==> Clean() && (r != INVALID ==> AllZero(RowAt(r)))
    {
      hide AllZero, RowOf, At;
      if occupied < rown {
        r := occupied;
        occupied := occupied + 1;
        assert forall q :: 0 <= q < rown ==> RowAt(q) == old(RowAt(q));
      } else {
        r := INVALID;
      }
    }

    /** Changes the bytes of one cell, all others stay. */
    method PutBytes(r: nat, c: Column, bs: seq<byte>)
      requires Valid() && r < occupied && InRow(c) && |bs| == Width(c)
      modifies datum
      ensures RowAt(r) == old(RowAt(r))[..c.offs] + bs + old(RowAt(r))[c.offs + Width(c)..]
      ensures forall q :: 0 <= q < rown && q != r ==> RowAt(q) == old(RowAt(q))
    {
      hide At, AllZero;
      ghost var was := datum[..];
      AtBefore(r, rown, rowsz);
      var at := At(r, rowsz) + c.offs;
      forall k | 0 <= k < |bs| {
        datum[at + k] := bs[k];
      }
      RowPut(was, datum[..], At(r, rowsz), rowsz, c.offs, bs);
      forall q | 0 <= q < rown && q != r
        ensures RowAt(q) == old(RowAt(q))
      {
        AtBefore(q, r, rowsz);
        AtBefore(r, q, rowsz);
        AtBefore(q, rown, rowsz);
        var to := At(q, rowsz);
        forall k {:trigger was[to + k]} | 0 <= k < rowsz
          ensures datum[..][to + k] == was[to + k]
        {
        }
        SameSlice(datum[..], was, to, to, rowsz);
      }
    }

    /** Refuses data of another group, changing nothing. Otherwise the cell gives back the datum exactly if it arrives
        intact, and no other cell of any row changes. `junk` are the union's bytes before the number was put in it. */
    method PutDatum(r: nat, c: Column, d: Datum, junk: seq<byte>) returns (err: int)
      requires Valid() && r < occupied && InRow(c) && (d.Chr? ==> Narrow(d.s)) && |junk| == 8
      modifies datum
      ensures err == if Accepts(c, d) then 0 else 1
      ensures err == 0 <==> (c.typ.Number? && d.Int?) || (c.typ == Text && d.Chr?)
      ensures err == 1 ==> Rows() == old(Rows())
      ensures err == 0 ==> (GetDatum(r, c) == Stored(c, d) <==> (d.Int? ==> Intact(c, d, junk)))
      ensures forall q, e: Column {:trigger GetDatum(q, e)} :: 0 <= q < occupied && InRow(e) && (q != r || Apart(c, e)) ==>
        GetDatum(q, e) == old(GetDatum(q, e))
      ensures old(Clean()) ==> Clean()
    {
      hide Encoded, Decoded, Stored, Intact, RowOf, At, AllZero;
      if !Accepts(c, d) {
        return 1;
      }
      PutBytes(r, c, Encoded(c, d, junk));
      CellTrip(c, d, junk);
      CellPut(old(RowAt(r)), RowAt(r), c.offs, Encoded(c, d, junk));
      forall e: Column | InRow(e) && Apart(c, e)
        ensures RowAt(r)[e.offs..e.offs + Width(e)] == old(RowAt(r)[e.offs..e.offs + Width(e)])
      {
        CellKept(old(RowAt(r)), RowAt(r), c.offs, Encoded(c, d, junk), e.offs, Width(e));
      }
      err := 0;
    }

    /** Removes one row; the ones behind it move up and keep their order. The slot given up keeps the bytes of the last
        row, so that allocation stays clean exactly if that row was zero. */
    method DeleteRow(r: nat) returns (left: nat)
      requires Valid() && (r < occupied ==> r + 1 < rown)
      modifies this`occupied, datum
      ensures Valid()
      ensures if r < old(occupied) then left == occupied && Rows() == old(Rows())[..r] + old(Rows())[r + 1..]
              else left == INVALID && Rows() == old(Rows())
      ensures r < old(occupied) ==> RowAt(occupied) == old(RowAt(occupied - 1))
      ensures r < old(occupied) ==> (Clean() <==> old(Clean()) && AllZero(old(RowAt(occupied - 1))))
    {
      hide AllZero, RowOf, At;
      if r >= occupied {
        return INVALID;
      }
      left := occupied - 1;
      DropRow(r);
      if Clean() {
        forall q | left < q < rown
          ensures AllZero(old(RowAt(q)))
        {
          assert AllZero(RowAt(q));
        }
        assert AllZero(RowAt(left));
      }
      if old(Clean()) && AllZero(RowAt(left)) {
        forall q | left <= q < rown
          ensures AllZero(RowAt(q))
        {
          assert q > left ==> AllZero(old(RowAt(q)));
        }
      }
    }

    method DropRow(r: nat)
      requires Valid() && r < occupied
      modifies this`occupied, datum
      ensures Valid() && occupied == old(occupied) - 1
      ensures Rows() == old(Rows())[..r] + old(Rows())[r + 1..]
      ensures forall q :: occupied <= q < rown ==> RowAt(q) == old(RowAt(q))
    {
      hide AllZero, RowOf, At;
      ghost var before := Rows();
      MoveUp(r);
      ghost var moved := Rows();
      Removed(before, moved, r);
      assert forall q :: occupied - 1 <= q < rown ==> RowAt(q) == old(RowAt(q));
      occupied := occupied - 1;
      assert Rows() == moved[..occupied];
    }

    method MoveUp(r: nat)
      requires Valid() && r < occupied
      modifies datum
      ensures forall q :: 0 <= q < rown ==> RowAt(q) == old(RowAt(Source(q, r, occupied)))
    {
      hide AllZero, RowOf, At;
      var size := At(occupied - 1 - r, rowsz);
      var dest := At(r, rowsz);
      AtSum(r, occupied - 1 - r, rowsz);
      AtBefore(occupied - 1, rown, rowsz);
      ghost var was := datum[..];
      forall k | dest <= k < dest + size {
        datum[k] := datum[k + rowsz];
      }
      forall q | 0 <= q < rown
        ensures RowAt(q) == old(RowAt(Source(q, r, occupied)))
      {
        RowMoved(was, datum[..], r, q, occupied, rown, rowsz);
      }
    }
  }

  /** `bs` was put at `offs` in the row that starts at `at`. */
  lemma RowPut(ds: seq<byte>, es: seq<byte>, at: nat, rowsz: nat, offs: nat, bs: seq<byte>)
    requires at + rowsz <= |ds| == |es| && offs + |bs| <= rowsz
    requires forall k :: 0 <= k < |ds| ==> es[k] == if at + offs <= k < at + offs + |bs| then bs[k - at - offs] else ds[k]
    ensures var row := ds[at..at + rowsz];
      es[at..at + rowsz] == row[..offs] + bs + row[offs + |bs|..]
  {
    var was, now := ds[at..at + rowsz], es[at..at + rowsz];
    var r := was[..offs] + bs + was[offs + |bs|..];
    forall k | 0 <= k < rowsz
      ensures now[k] == r[k]
    {
      assert now[k] == es[at + k] && was[k] == ds[at + k];
    }
  }

  lemma CellPut(was: seq<byte>, now: seq<byte>, at: nat, bs: seq<byte>)
    requires at + |bs| <= |was| && now == was[..at] + bs + was[at + |bs|..]
    ensures |now| == |was| && now[at..at + |bs|] == bs
  {
  }

  lemma CellKept(was: seq<byte>, now: seq<byte>, at: nat, bs: seq<byte>, offs: nat, width: nat)
    requires at + |bs| <= |was| && now == was[..at] + bs + was[at + |bs|..] && offs + width <= |was|
    requires at + |bs| <= offs || offs + width <= at
    ensures now[offs..offs + width] == was[offs..offs + width]
  {
    forall k {:trigger now[offs + k]} {:trigger was[offs + k]} | 0 <= k < width
      ensures now[offs + k] == was[offs + k]
    {
      if offs + k >= at + |bs| {
        assert now[offs + k] == was[at + |bs|..][offs + k - at - |bs|];
      }
    }
    SameSlice(now, was, offs, offs, width);
  }

  /** Which row is in place `q` after the rows behind `r` have moved up. */
  function Source(q: nat, r: nat, occupied: nat): nat {
    if r <= q < occupied - 1 then q + 1 else q
  }

  lemma RowMoved(ds: seq<byte>, es: seq<byte>, r: nat, q: nat, occupied: nat, rown: nat, rowsz: nat)
    requires r < occupied <= rown && q < rown && |ds| == |es| == At(rown, rowsz)
    requires At(occupied - 1, rowsz) + rowsz <= |ds|
    requires forall k {:trigger es[k]} :: At(r, rowsz) <= k < At(occupied - 1, rowsz) ==> es[k] == ds[k + rowsz]
    requires forall k {:trigger es[k]} :: 0 <= k < |ds| && !(At(r, rowsz) <= k < At(occupied - 1, rowsz)) ==> es[k] == ds[k]
    ensures RowOf(es, q, rown, rowsz) == RowOf(ds, Source(q, r, occupied), rown, rowsz)
  {
    hide At;
    AtBefore(q, rown, rowsz);
    AtBefore(q, r, rowsz);
    AtBefore(r, q, rowsz);
    AtBefore(q, occupied - 1, rowsz);
    AtBefore(occupied - 1, q, rowsz);
    AtNext(q, rowsz);
    var from := At(Source(q, r, occupied), rowsz);
    AtBefore(Source(q, r, occupied), rown, rowsz);
    var d := if r <= q < occupied - 1 then rowsz else 0;
    assert from == At(q, rowsz) + d;
    var to := At(q, rowsz);
    forall t {:trigger es[to + t]} {:trigger ds[from + t]} | 0 <= t < rowsz
      ensures es[to + t] == ds[from + t]
    {
      var k := to + t;
      if q < r {
        assert k < At(r, rowsz);
        assert es[k] == ds[k];
      } else if q < occupied - 1 {
        assert At(r, rowsz) <= k < At(occupied - 1, rowsz);
        assert es[k] == ds[k + rowsz];
      } else {
        assert k >= At(occupied - 1, rowsz);
        assert es[k] == ds[k];
      }
    }
    SameSlice(es, ds, to, from, rowsz);
  }

  /** A row that is not zeroed when it is allocated: one number was put, its row removed, and a row allocated again. */
  method StaleRow() returns (row: seq<byte>)
    ensures !AllZero(row)
  {
    var grid := new Grid(4096, 8);
    var c := Column.Column("id", 0, Number(Bigint), 0);
    var r := grid.AllocRow();
    var err := grid.PutDatum(r, c, Int(Bigint, 1), [0, 0, 0, 0, 0, 0, 0, 0]);
    NotZero(c, grid.RowAt(r));
    var left := grid.DeleteRow(r);
    r := grid.AllocRow();
    row := grid.RowAt(r);
  }

  /** Columns stay where they were placed. */
  lemma {:induction false} LaidAt(ds: seq<Decl>, n: nat)
    requires n < |ds|
    ensures Laid(ds).cols[n] == Placed(Laid(ds[..n]), ds[n])
    ensures Laid(ds[..n + 1]) == Added(Laid(ds[..n]), ds[n])
    decreases |ds|
  {
    assert ds[..n + 1][..n] == ds[..n];
    if n == |ds| - 1 {
      assert ds[..n + 1] == ds;
    } else {
      LaidAt(ds[..|ds| - 1], n);
      assert ds[..|ds| - 1][..n] == ds[..n];
    }
  }

  /** The last column of a table lies over the first one if the column between has no bytes. */
  lemma {:induction false} LastOverFirst(ds: seq<Decl>)
    requires |ds| >= 3 && DeclWidth(ds[|ds| - 2]) == 0
    requires 0 < DeclWidth(ds[0]) < 65536 && 0 < DeclWidth(ds[|ds| - 1]) < 65536
    ensures var l := Laid(ds);
      var first, last := l.cols[0], l.cols[|ds| - 1];
      && l.datasz == DeclWidth(ds[|ds| - 1]) && first.offs == 0 && last.offs == 0
      && first.typ == ds[0].typ && first.size == ds[0].size
      && last.typ == ds[|ds| - 1].typ && last.size == ds[|ds| - 1].size
  {
    hide AlignTo, AlignUp, Laid;
    var n := |ds|;
    NothingLaid();
    LaidAt(ds, 0);
    LaidAt(ds, n - 2);
    LaidAt(ds, n - 1);
    assert ds[..0] == [] && ds[..n] == ds;
    TakesNarrow(Laid(ds[..n - 2]).datasz, 0);
    TakesNarrow(0, DeclWidth(ds[0]));
    TakesNarrow(0, DeclWidth(ds[n - 1]));
    AlignUpZero(DeclWidth(ds[0]));
    AlignUpZero(DeclWidth(ds[n - 1]));
  }

  /** In such a table, whose first column is the row's inserter, a value put into the last column is read back as the
      inserter. */
  method InserterOverwritten(ds: seq<Decl>, v: int) returns (tmin: Datum)
    requires |ds| >= 3 && DeclWidth(ds[|ds| - 2]) == 0
    requires ds[0].typ == ds[|ds| - 1].typ == Number(Bigint) && ds[0].size == ds[|ds| - 1].size && Fits(v, 8)
    ensures tmin == Int(Bigint, v)
  {
    hide Laid, Intact, At, AlignUp;
    var l := Laid(ds);
    LastOverFirst(ds);
    AlignUpBounds(8, 4);
    var grid := new Grid(4096, AlignUp(l.datasz, 4));
    RoomForRow(AlignUp(l.datasz, 4));
    var r := grid.AllocRow();
    var junk := [0, 0, 0, 0, 0, 0, 0, 0];
    var last := l.cols[|ds| - 1];
    SameKindIntact(last, Int(Bigint, v), junk);
    var err := grid.PutDatum(r, last, Int(Bigint, v), junk);
    tmin := grid.GetDatum(r, l.cols[0]);
  }

  lemma RoomForRow(rowsz: nat)
    requires 0 < rowsz < 12
    ensures (4096 - GRIDSZ) / rowsz > 0
  {
  }

  lemma NotZero(c: Column, row: seq<byte>)
    requires c == Column.Column("id", 0, Number(Bigint), 0) && |row| == 8
    ensures Decoded(c, row[0..8]) == Int(Bigint, 1) ==> !AllZero(row)
  {
    assert row[0..8] == row;
    HoldsExactly(row, 1);
    assert Twos(1, 8)[0] == 1;
  }
}
