/** Data and their comparisons, conversions and arithmetic. Integers are 64 bits wide and wrap. */
module Types {
  datatype IntKind = Smallint | Integer | Bigint
  datatype ChrKind = Char | Varchar

  datatype Datum =
    | Int(ik: IntKind, v: int)
    | Chr(ck: ChrKind, s: string)
    | Name(s: string)  // an identifier not yet looked up

  const MIN64: int := -0x8000_0000_0000_0000
  const MAX64: int := 0x7FFF_FFFF_FFFF_FFFF

  predicate InInt64(x: int) {
    MIN64 <= x <= MAX64
  }

  /** Two's complement wrap-around. */
  function Wrap64(x: int): (r: int)
    ensures InInt64(r) && (r - x) % 0x1_0000_0000_0000_0000 == 0
    ensures InInt64(x) ==> r == x
  {
    (x - MIN64) % 0x1_0000_0000_0000_0000 + MIN64
  }

  function Sign(x: int): int {
    if x < 0 then -1 else if x > 0 then 1 else 0
  }

  // ----- conversion to the base type of a group

  /** The longest prefix that does not end in a space. */
  function TrimRight(s: string): (r: string)
    ensures r <= s && (r != [] ==> r[|r| - 1] != ' ')
    ensures forall i :: |r| <= i < |s| ==> s[i] == ' '
  {
    if s != [] && s[|s| - 1] == ' ' then TrimRight(s[..|s| - 1]) else s
  }

  method CharToVarchar(src: string) returns (r: string)
    ensures r == TrimRight(src)
  {
    hide TrimRight;
    var size := |src|;
    assert src[..size] == src;
    while size != 0 && src[size - 1] == ' '
      invariant 0 <= size <= |src|
      invariant TrimRight(src[..size]) == TrimRight(src)
    {
      TrimSpace(src, size);
      size := size - 1;
    }
    r := src[..size];
    Trimmed(r);
  }

  lemma TrimSpace(s: string, n: nat)
    requires 0 < n <= |s| && s[n - 1] == ' '
    ensures TrimRight(s[..n]) == TrimRight(s[..n - 1])
  {
    assert s[..n][..n - 1] == s[..n - 1];
  }

  lemma Trimmed(s: string)
    requires s == [] || s[|s| - 1] != ' '
    ensures TrimRight(s) == s
  {
  }

  /** Trimming is determined by what it promises: no other prefix stops right before the final spaces. */
  lemma TrimRightUnique(s: string, n: nat)
    requires n <= |s| && (n > 0 ==> s[n - 1] != ' ')
    requires forall i :: n <= i < |s| ==> s[i] == ' '
    ensures TrimRight(s) == s[..n]
  {
    var r := TrimRight(s);
    assert n > 0 ==> s[n - 1] != ' ';
    assert r != [] ==> s[|r| - 1] == r[|r| - 1];
  }

  function ToBase(d: Datum): Datum {
    match d
    case Int(_, v) => Int(Bigint, v)
    case Chr(Char, s) => Chr(Varchar, TrimRight(s))
    case _ => d
  }

  predicate Comparable(a: Datum, b: Datum) {
    (a.Int? && b.Int?) || (a.Chr? && b.Chr?)
  }

  predicate Arithmetical(a: Datum, b: Datum) {
    a.Int? && b.Int?
  }

  predicate Lexical(a: Datum, b: Datum) {
    a.Chr? && b.Chr?
  }

  /** A datum counts as false when it is zero or its first character is a terminator. */
  predicate Zeroed(d: Datum) {
    match d
    case Int(_, v) => v == 0
    case Chr(_, s) => s == [] || s[0] == '\0'
    case Name(s) => s == [] || s[0] == '\0'
  }

  // ----- comparison

  function CmpInteger(a: int, b: int): int {
    Wrap64(a - b)
  }

  /** The difference has the right sign exactly when it fits 64 bits. */
  lemma CmpIntegerExact(a: int, b: int)
    requires InInt64(a) && InInt64(b)
    ensures Sign(CmpInteger(a, b)) == Sign(a - b) <==> InInt64(a - b)
    ensures CmpInteger(a, b) == 0 <==> a == b
  {
    var d := a - b;
    if d > MAX64 {
      assert Wrap64(d) == d - 0x1_0000_0000_0000_0000;
    } else if d < MIN64 {
      assert Wrap64(d) == d + 0x1_0000_0000_0000_0000;
    }
  }

  function Min(a: nat, b: nat): nat {
    if a < b then a else b
  }

  /** The sign of the first difference within the first `n` characters. */
  function MemCmp(a: string, b: string, n: nat): int
    requires n <= |a| && n <= |b|
    decreases n
  {
    if n == 0 then 0
    else if a[0] < b[0] then -1
    else if a[0] > b[0] then 1
    else MemCmp(a[1..], b[1..], n - 1)
  }

  function CmpTrimmed(a: string, b: string): int {
    var c := MemCmp(a, b, Min(|a|, |b|));
    if c != 0 then c else Sign(|a| - |b|)
  }

  function CmpCharacter(a: Datum, b: Datum): int
    requires Lexical(a, b)
  {
    CmpTrimmed(ToBase(a).s, ToBase(b).s)
  }

  /** Alphabetical order, a proper prefix first. */
  predicate Before(a: string, b: string) {
    if b == [] then false
    else if a == [] then true
    else a[0] < b[0] || (a[0] == b[0] && Before(a[1..], b[1..]))
  }

  /** The texts agree up to some place, where the first one ends or has the smaller character. */
  lemma {:induction false} BeforeIs(a: string, b: string)
    ensures Before(a, b) <==> exists k :: SplitAt(a, b, k)
    decreases |a|
  {
    if a != [] && b != [] && a[0] == b[0] {
      BeforeIs(a[1..], b[1..]);
      if k :| SplitAt(a[1..], b[1..], k) {
        assert a[..k + 1] == [a[0]] + a[1..][..k] && b[..k + 1] == [b[0]] + b[1..][..k];
        assert SplitAt(a, b, k + 1);
      }
      if k :| SplitAt(a, b, k) {
        assert k > 0;
        assert a[1..][..k - 1] == a[..k][1..] && b[1..][..k - 1] == b[..k][1..];
        assert SplitAt(a[1..], b[1..], k - 1);
      }
    } else {
      if Before(a, b) {
        assert SplitAt(a, b, 0);
      }
      if k :| SplitAt(a, b, k) {
        if k > 0 {
          assert a[..k][0] == b[..k][0];
        }
      }
    }
  }

  predicate SplitAt(a: string, b: string, k: int) {
    0 <= k <= |a| && k < |b| && a[..k] == b[..k] && (k == |a| || a[k] < b[k])
  }

  lemma {:induction false} CmpIsAlphabetical(a: string, b: string)
    ensures CmpTrimmed(a, b) == (if Before(a, b) then -1 else if Before(b, a) then 1 else 0)
    ensures CmpTrimmed(a, b) == 0 <==> a == b
    decreases |a|
  {
    if a != [] && b != [] && a[0] == b[0] {
      CmpIsAlphabetical(a[1..], b[1..]);
      assert a == [a[0]] + a[1..] && b == [b[0]] + b[1..];
      assert MemCmp(a, b, Min(|a|, |b|)) == MemCmp(a[1..], b[1..], Min(|a| - 1, |b| - 1));
    }
  }

  lemma {:induction false} BeforeIsStrictOrder(a: string, b: string, c: string)
    ensures !Before(a, a)
    ensures !(Before(a, b) && Before(b, a))
    ensures Before(a, b) && Before(b, c) ==> Before(a, c)
    ensures a == b || Before(a, b) || Before(b, a)
    decreases |a| + |b| + |c|
  {
    if a != [] {
      if b != [] && c != [] {
        BeforeIsStrictOrder(a[1..], b[1..], c[1..]);
      } else if b != [] {
        BeforeIsStrictOrder(a[1..], b[1..], c);
      } else {
        BeforeIsStrictOrder(a[1..], b, c);
      }
      if b != [] && a[0] == b[0] { assert a == [a[0]] + a[1..] && b == [b[0]] + b[1..]; }
    }
  }

  /** Comparison of character data is the alphabetical order of the data without their padding. */
  lemma CmpCharacterOrder(a: Datum, b: Datum, c: Datum)
    requires Lexical(a, b) && Lexical(b, c)
    ensures CmpCharacter(a, b) == -CmpCharacter(b, a)
    ensures CmpCharacter(a, b) == 0 <==> ToBase(a) == ToBase(b)
    ensures CmpCharacter(a, b) <= 0 && CmpCharacter(b, c) <= 0 ==> CmpCharacter(a, c) <= 0
  {
    var x, y, z := ToBase(a).s, ToBase(b).s, ToBase(c).s;
    CmpIsAlphabetical(x, y);
    CmpIsAlphabetical(y, x);
    CmpIsAlphabetical(y, z);
    CmpIsAlphabetical(x, z);
    BeforeIsStrictOrder(x, y, z);
    BeforeIsStrictOrder(x, z, y);
    BeforeIsStrictOrder(y, x, z);
    BeforeIsStrictOrder(z, x, y);
  }

  function CmpData(a: Datum, b: Datum): int {
    if Arithmetical(a, b) then CmpInteger(a.v, b.v)
    else if Lexical(a, b) then CmpCharacter(a, b)
    else 0
  }

  // ----- arithmetic

  /** Division of C: the quotient is rounded toward zero. */
  function TruncDiv(a: int, b: int): int
    requires b != 0
  {
    if a >= 0 then a / b else -((-a) / b)
  }

  function TruncMod(a: int, b: int): int
    requires b != 0
  {
    a - TruncDiv(a, b) * b
  }

  /** The remainder has the dividend's sign and is smaller than the divisor. */
  lemma TruncModSign(a: int, b: int)
    requires b != 0
    ensures TruncDiv(a, b) * b + TruncMod(a, b) == a
    ensures a >= 0 ==> TruncMod(a, b) >= 0
    ensures a <= 0 ==> TruncMod(a, b) <= 0
    ensures -(if b < 0 then -b else b) < TruncMod(a, b) < (if b < 0 then -b else b)
  {
    var x := if a >= 0 then a else -a;
    assert x == (x / b) * b + x % b;
    if a < 0 {
      assert (-(x / b)) * b == -((x / b) * b);
    }
  }
}
