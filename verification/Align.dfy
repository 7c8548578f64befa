/** Rounding up by masking bits, for any alignment. */
module Align {
  import Bump

  /** `x & ~m`, bit by bit. */
  function AndNot(x: nat, m: nat): nat {
    if x == 0 then 0 else 2 * AndNot(x / 2, m / 2) + (if x % 2 == 1 && m % 2 == 0 then 1 else 0)
  }

  /** `(sz + align - 1) & ~(align - 1)`, without overflow. */
  function AlignUp(sz: nat, align: nat): nat
    requires align > 0
  {
    AndNot(sz + align - 1, align - 1)
  }

  /** Clearing the bits of `m` takes away at most `m`. */
  lemma {:induction false} AndNotBounds(x: nat, m: nat)
    ensures x - m <= AndNot(x, m) <= x
  {
    if x > 0 {
      AndNotBounds(x / 2, m / 2);
    }
  }

  /** Power of two or not, the result is at least the size and less than one alignment above it. */
  lemma AlignUpBounds(sz: nat, align: nat)
    requires align > 0
    ensures sz <= AlignUp(sz, align) <= sz + align - 1
  {
    AndNotBounds(sz + align - 1, align - 1);
  }

  function Pow2(k: nat): (r: nat)
    ensures r > 0
  {
    if k == 0 then 1 else 2 * Pow2(k - 1)
  }

  lemma {:induction false} ClearLow(x: nat, k: nat)
    ensures AndNot(x, Pow2(k) - 1) == x / Pow2(k) * Pow2(k)
    decreases k
  {
    hide AndNot;
    if k == 0 {
      KeepAll(x);
    } else {
      var p := Pow2(k - 1);
      ClearLow(x / 2, k - 1);
      OddMask(x, p);
      HalfDiv(x, p);
      Regroup(x / 2 / p, p);
    }
  }

  lemma OddMask(x: nat, p: nat)
    requires p > 0
    ensures AndNot(x, 2 * p - 1) == 2 * AndNot(x / 2, p - 1)
  {
    assert (2 * p - 1) / 2 == p - 1;
  }

  lemma Regroup(q: nat, p: nat)
    ensures 2 * (q * p) == q * (2 * p)
  {
  }

  lemma {:induction false} KeepAll(x: nat)
    ensures AndNot(x, 0) == x
  {
    if x > 0 {
      KeepAll(x / 2);
    }
  }

  lemma HalfDiv(x: nat, p: nat)
    requires p > 0
    ensures x / 2 / p == x / (2 * p)
  {
    var q := x / (2 * p);
    var r := x % (2 * p);
    assert x == q * (2 * p) + r;
    assert x / 2 == q * p + r / 2;
    assert r / 2 < p;
    DivUnique(x / 2, p, q, r / 2);
  }

  lemma DivUnique(x: nat, p: nat, q: nat, r: nat)
    requires p > 0 && x == q * p + r && r < p
    ensures x / p == q
  {
    var d := x / p - q;
    assert x == (x / p) * p + x % p;
    assert d * p == (x / p) * p - q * p;
  }

  /** For a power of two it is the least multiple that is at least the size. */
  lemma AlignUpMultiple(sz: nat, k: nat)
    ensures AlignUp(sz, Pow2(k)) == (sz + Pow2(k) - 1) / Pow2(k) * Pow2(k)
  {
    hide AndNot, Pow2;
    ClearLow(sz + Pow2(k) - 1, k);
  }

  /** The allocator's alignment, where the sum does not wrap. */
  lemma AlignMaxIsAlignUp(sz: nat)
    requires sz <= Bump.SIZE_MAX - 15
    ensures AlignUp(sz, 16) == Bump.AlignMax(sz)
  {
    assert Pow2(3) == 8 && Pow2(4) == 16;
    AlignUpMultiple(sz, 4);
  }

  /** Rounding up gives multiples of the alignment for every size exactly if the alignment is a power of two; otherwise
      already the size 1 is not rounded to one. */
  lemma AlignUpAligns(align: nat)
    requires align > 0
    ensures (forall sz: nat :: AlignUp(sz, align) % align == 0) <==> exists k: nat :: align == Pow2(k)
    ensures (exists k: nat :: align == Pow2(k)) || AlignUp(1, align) % align != 0
  {
    hide AlignUp, Pow2;
    if k: nat :| align == Pow2(k) {
      forall sz: nat
        ensures AlignUp(sz, align) % align == 0
      {
        PowerAligns(sz, k);
      }
    }
    if forall sz: nat :: AlignUp(sz, align) % align == 0 {
      assert AlignUp(1, align) % align == 0;
    }
    if AlignUp(1, align) % align == 0 {
      OneAligned(align);
    }
  }

  lemma PowerAligns(sz: nat, k: nat)
    ensures AlignUp(sz, Pow2(k)) % Pow2(k) == 0
  {
    hide AlignUp, Pow2;
    AlignUpMultiple(sz, k);
    MultipleDivides((sz + Pow2(k) - 1) / Pow2(k), Pow2(k));
  }

  /** The size 1 decides. */
  lemma OneAligned(align: nat)
    requires align > 0 && AlignUp(1, align) % align == 0
    ensures exists k: nat :: align == Pow2(k)
  {
    hide AndNot;
    AlignUpBounds(1, align);
    Whole(AlignUp(1, align), align);
    Exponent(align);
  }

  lemma Whole(x: nat, a: nat)
    requires 0 < x <= a && x % a == 0
    ensures x == a
  {
    if x < a {
      DivUnique(x, a, 0, x);
    }
  }

  lemma MultipleDivides(q: nat, a: nat)
    requires a > 0
    ensures q * a % a == 0
  {
    DivUnique(q * a, a, q, 0);
  }

  /** Masking a number with its predecessor leaves its lowest bit, all of it only for a power of two. */
  lemma {:induction false} Exponent(a: nat)
    requires a > 0 && AndNot(a, a - 1) == a
    ensures exists k: nat :: a == Pow2(k)
  {
    if a == 1 {
      assert a == Pow2(0);
    } else if a % 2 == 0 {
      OddMask(a, a / 2);
      Exponent(a / 2);
      var k: nat :| a / 2 == Pow2(k);
      assert a == Pow2(k + 1);
    } else {
      ClearAll(a / 2);
    }
  }

  lemma {:induction false} ClearAll(x: nat)
    ensures AndNot(x, x) == 0
  {
    if x > 0 {
      ClearAll(x / 2);
    }
  }

  // ----- any alignment

  const TWO32: nat := 0x1_0000_0000
  const TWO64: nat := 0x1_0000_0000_0000_0000

  /** A `size_t` passed as an `int`. */
  function ToInt(w: nat): int {
    if w % TWO32 < 0x8000_0000 then w % TWO32 else w % TWO32 - TWO32
  }

  /** `(sz + align - 1) & ~(align - 1)` in 64 bits, for an alignment given as a width. */
  function AlignTo(sz: nat, w: nat): nat {
    AndNot((sz + ToInt(w) - 1) % TWO64, (ToInt(w) - 1) % TWO64)
  }

  /** A positive alignment rounds up; width 0 clears every bit. */
  lemma AlignToCases(sz: nat, w: nat)
    requires sz < 65536
    ensures ToInt(w) > 0 ==> AlignTo(sz, w) == AlignUp(sz, ToInt(w))
    ensures ToInt(w) == 0 ==> AlignTo(sz, w) == 0
  {
    hide AndNot, Pow2;
    if ToInt(w) == 0 {
      var x := (sz - 1) % TWO64;
      Pow2Is64();
      ClearLow(x, 64);
      DivUnique(x, TWO64, 0, x);
    }
  }

  /** From nothing, every positive alignment gives 0. */
  lemma AlignUpZero(w: nat)
    requires w > 0
    ensures AlignUp(0, w) == 0
  {
    ClearAll(w - 1);
  }

  lemma AlignTo65536(sz: nat)
    requires 0 < sz < 65536
    ensures AlignTo(sz, 65536) == 65536
  {
    hide AndNot, Pow2;
    AlignToCases(sz, 65536);
    Pow2Is16();
    AlignUpMultiple(sz, 16);
    DivUnique(sz + 65535, 65536, 1, sz - 1);
  }

  lemma Pow2Is16()
    ensures Pow2(16) == 65536
  {
    assert Pow2(4) == 16;
    hide Pow2;
    Pow2Sum(4, 4);
    Pow2Sum(8, 8);
  }

  lemma Pow2Is64()
    ensures Pow2(64) == TWO64
  {
    hide Pow2;
    Pow2Is16();
    Pow2Sum(16, 16);
    Pow2Sum(32, 32);
  }

  lemma {:induction false} Pow2Sum(j: nat, k: nat)
    ensures Pow2(j + k) == Pow2(j) * Pow2(k)
    decreases k
  {
    if k > 0 {
      Pow2Sum(j, k - 1);
      Regroup(Pow2(j), Pow2(k - 1));
    }
  }
}
