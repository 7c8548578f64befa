/** Number sequences: bounded, stepped, optionally cycling, kept in one row that every call updates. */
module IdSequence {
  import opened Sequences
  import opened Types

  /** The row: bounds, last value, step, and whether a value was ever handed out. */
  datatype Seq = Seq(min: int, max: int, current: int, increment: int, cycle: bool, called: bool)

  predicate Sound(s: Seq) {
    && InInt64(s.min) && InInt64(s.max) && InInt64(s.increment)
    && Bounded(s)
  }

  predicate Bounded(s: Seq) {
    s.min < s.max && s.min <= s.current <= s.max && s.increment != 0
  }

  function Next(s: Seq): (Seq, Option<int>) {
    if !s.called then (s.(called := true), Some(s.current))
    else
      var v := s.current + s.increment;
      if s.increment > 0 && v > s.max then
        if s.cycle then (s.(current := s.min), Some(s.min)) else (s, None)
      else if s.increment <= 0 && v < s.min then
        if s.cycle then (s.(current := s.max), Some(s.max)) else (s, None)
      else (s.(current := v), Some(v))
  }

  /** The state after `n` calls. */
  function After(s: Seq, n: nat): Seq {
    if n == 0 then s else Next(After(s, n - 1)).0
  }

  /** The answer to call number `n`, counted from 0. */
  function Call(s: Seq, n: nat): Option<int> {
    Next(After(s, n)).1
  }

  lemma {:induction false} AfterSound(s: Seq, n: nat)
    requires Sound(s)
    ensures Sound(After(s, n))
  {
    if n > 0 {
      AfterSound(s, n - 1);
    }
  }

  /** Whatever the step and the mode, every value handed out is within the bounds. */
  lemma CallInBounds(s: Seq, n: nat)
    requires Sound(s) && Call(s, n).Some?
    ensures s.min <= Call(s, n).value <= s.max
  {
    AfterSound(s, n);
    AfterSameBounds(s, n);
  }

  lemma {:induction false} AfterSameBounds(s: Seq, n: nat)
    ensures var a := After(s, n);
      a.min == s.min && a.max == s.max && a.increment == s.increment && a.cycle == s.cycle
  {
    if n > 0 {
      AfterSameBounds(s, n - 1);
    }
  }

  /** A cycling sequence never fails. */
  lemma CyclingNeverFails(s: Seq, n: nat)
    requires s.cycle
    ensures Call(s, n).Some?
  {
    AfterSameBounds(s, n);
  }

  predicate Fresh(s: Seq) {
    Sound(s) && !s.called && !s.cycle
  }

  predicate Reached(s: Seq, n: nat) {
    s.min <= s.current + n * s.increment <= s.max
  }

  lemma ReachedBefore(s: Seq, m: nat, n: nat)
    requires Sound(s) && Reached(s, n) && m <= n
    ensures Reached(s, m)
  {
    if s.increment > 0 {
      assert 0 <= m * s.increment <= n * s.increment;
    } else {
      assert 0 >= m * s.increment >= n * s.increment;
    }
  }

  lemma StepReached(s: Seq, n: nat)
    ensures s.current + (n + 1) * s.increment == s.current + n * s.increment + s.increment
  {
  }

  lemma {:induction false} AfterFresh(s: Seq, n: nat)
    requires Fresh(s) && n > 0 && Reached(s, n - 1)
    ensures After(s, n) == s.(called := true, current := s.current + (n - 1) * s.increment)
  {
    if n > 1 {
      ReachedBefore(s, n - 2, n - 1);
      AfterFresh(s, n - 1);
      StepReached(s, n - 2);
    } else {
      assert After(s, 0) == s;
    }
  }

  /** A fresh sequence that does not cycle hands out its start, then each value one step on, as long as that
      is within the bounds; from then on it fails forever. */
  lemma {:induction false} FreshRun(s: Seq, n: nat)
    requires Fresh(s)
    ensures Call(s, n) == if Reached(s, n) then Some(s.current + n * s.increment) else None
    decreases n
  {
    if n == 0 {
      assert After(s, 0) == s;
    } else if Reached(s, n - 1) {
      AfterFresh(s, n);
      StepReached(s, n - 1);
    } else {
      if Reached(s, n) {
        ReachedBefore(s, n - 1, n);
        assert false;
      }
      FreshRun(s, n - 1);
      FailsForever(After(s, n - 1));
    }
  }

  lemma FailsForever(s: Seq)
    ensures Next(s).1 == None ==> Next(s).0 == s
  {
  }

  /** No value is handed out twice. */
  lemma FreshDistinct(s: Seq, m: nat, n: nat)
    requires Fresh(s) && m < n && Call(s, n).Some?
    ensures Call(s, m).Some? && Call(s, m) != Call(s, n)
  {
    hide Call;
    FreshRun(s, m);
    FreshRun(s, n);
    ReachedBefore(s, m, n);
    MulDistinct(m, n, s.increment);
  }

  lemma MulDistinct(m: nat, n: nat, step: int)
    requires m < n && step != 0
    ensures m * step != n * step
  {
    assert (n - m) * step != 0;
  }

  // ----- cycling

  /** The last value handed out is the current one. */
  lemma CurrentIsLast(s: Seq)
    ensures Next(s).1.Some? ==> Next(s).0.current == Next(s).1.value && Next(s).0.called
    ensures Next(s).1.None? ==> Next(s).0 == s
  {
  }

  /** How many whole steps lie between `from` and `to`. */
  function Steps(from: int, to: int, step: int): nat
    requires step > 0 && from <= to
  {
    (to - from) / step
  }

  lemma StepsWithin(from: int, to: int, step: int, k: nat)
    requires step > 0 && from <= to
    ensures from + k * step <= to <==> k <= Steps(from, to, step)
  {
    var q, r := (to - from) / step, (to - from) % step;
    assert to - from == q * step + r;
    if k <= q {
      TimesGrows(k, q, step);
    } else {
      TimesGrows(q + 1, k, step);
      Distribute(q, step);
    }
  }

  lemma TimesGrows(j: nat, k: nat, step: nat)
    requires j <= k
    ensures j * step <= k * step
  {
  }

  /** The value number `n` of an ascending cycle: up from the start, then again and again up from the lower bound. */
  function Cyclic(s: Seq, n: nat): int
    requires Bounded(s) && s.increment > 0
  {
    var first := Steps(s.current, s.max, s.increment);
    if n <= first then s.current + n * s.increment
    else s.min + ((n - first - 1) % (Steps(s.min, s.max, s.increment) + 1)) * s.increment
  }

  lemma CyclicStep(s: Seq, n: nat)
    requires Bounded(s) && s.increment > 0
    ensures var v := Cyclic(s, n);
      v <= s.max && Cyclic(s, n + 1) == if v + s.increment > s.max then s.min else v + s.increment
  {
    var first, period := Steps(s.current, s.max, s.increment), Steps(s.min, s.max, s.increment) + 1;
    if n <= first {
      StepsWithin(s.current, s.max, s.increment, n);
      StepsWithin(s.current, s.max, s.increment, n + 1);
      Distribute(n, s.increment);
    } else {
      var m := n - first - 1;
      Around(m, period);
      StepsWithin(s.min, s.max, s.increment, m % period);
      StepsWithin(s.min, s.max, s.increment, m % period + 1);
      Distribute(m % period, s.increment);
    }
  }

  lemma Distribute(n: nat, step: int)
    ensures (n + 1) * step == n * step + step
  {
  }

  lemma Around(m: nat, period: nat)
    requires period > 0
    ensures 0 <= m % period < period
    ensures (m + 1) % period == if m % period + 1 == period then 0 else m % period + 1
  {
    var q, r := m / period, m % period;
    assert m == q * period + r;
    if r + 1 == period {
      assert m + 1 == (q + 1) * period;
      Residue(m + 1, period, q + 1, 0);
    } else {
      Residue(m + 1, period, q, r + 1);
    }
  }

  lemma Residue(x: nat, p: nat, q: nat, r: nat)
    requires p > 0 && x == q * p + r && r < p
    ensures x % p == r
  {
    var d := x / p - q;
    assert x == (x / p) * p + x % p;
    assert d * p == (x / p) * p - q * p;
  }

  lemma {:induction false} AfterCyclic(s: Seq, n: nat)
    requires Bounded(s) && s.increment > 0 && s.cycle && !s.called
    ensures After(s, n + 1) == s.(called := true, current := Cyclic(s, n))
  {
    if n == 0 {
      assert After(s, 0) == s && After(s, 1) == Next(s).0;
      StepsWithin(s.current, s.max, s.increment, 0);
    } else {
      AfterCyclic(s, n - 1);
      CyclicStep(s, n - 1);
    }
  }

  /** A cycling sequence goes up from its start, and past the upper bound begins at the lower one again. */
  lemma AscendingCycle(s: Seq, n: nat)
    requires Bounded(s) && s.increment > 0 && s.cycle && !s.called
    ensures Call(s, n) == Some(Cyclic(s, n))
  {
    AfterCyclic(s, n);
    CurrentIsLast(After(s, n));
    CyclingNeverFails(s, n);
  }

  /** Up and down exchanged. */
  function Mirror(s: Seq): Seq {
    s.(min := -s.max, max := -s.min, current := -s.current, increment := -s.increment)
  }

  lemma NextMirror(s: Seq)
    requires s.increment != 0
    ensures Next(Mirror(s)).0 == Mirror(Next(s).0)
    ensures Next(Mirror(s)).1 == if Next(s).1.Some? then Some(-Next(s).1.value) else None
  {
  }

  lemma {:induction false} AfterMirror(s: Seq, n: nat)
    requires s.increment != 0
    ensures After(Mirror(s), n) == Mirror(After(s, n)) && After(s, n).increment == s.increment
  {
    if n > 0 {
      AfterMirror(s, n - 1);
      NextMirror(After(s, n - 1));
    }
  }

  /** A descending one does the same the other way round. */
  lemma DescendingCycle(s: Seq, n: nat)
    requires Bounded(s) && s.increment < 0 && s.cycle && !s.called
    ensures Call(s, n) == Some(-Cyclic(Mirror(s), n))
  {
    AscendingCycle(Mirror(s), n);
    AfterMirror(s, n);
    NextMirror(After(s, n));
  }

  // ----- the row, updated in place

  class Sequence {
    var minval: int
    var maxval: int
    var current: int
    var increment: int
    var cycle: bool
    var isCalled: bool

    function State(): Seq
      reads this
    {
      Seq(minval, maxval, current, increment, cycle, isCalled)
    }

    predicate Valid()
      reads this
    {
      Sound(State())
    }

    constructor ()
      ensures Valid()
    {
      minval, maxval, current, increment, cycle, isCalled := 0, 1, 0, 1, false, false;
    }

    /** Refuses, and changes nothing, exactly when the result would not be sound. */
    method Init(min: int, max: int, start: int, step: int, cyc: bool) returns (err: int)
      requires InInt64(min) && InInt64(max) && InInt64(step)
      modifies this
      ensures err == 0 <==> Sound(Seq(min, max, start, step, cyc, false))
      ensures err == 0 ==> State() == Seq(min, max, start, step, cyc, false)
      ensures err != 0 ==> err == 1 && State() == old(State())
    {
      if min >= max || start < min || start > max || step == 0 {
        return 1;
      }
      minval, maxval, current, increment, cycle, isCalled := min, max, start, step, cyc, false;
      err := 0;
    }

    method Currval() returns (err: int, v: int)
      ensures if isCalled then err == 0 && v == current else err == 1
    {
      if isCalled {
        err, v := 0, current;
      } else {
        err, v := 1, 0;
      }
    }

    method Nextval() returns (err: int, v: int)
      requires Valid() && (isCalled ==> InInt64(current + increment))
      modifies this`current, this`isCalled
      ensures Valid() && State() == Next(old(State())).0
      ensures Next(old(State())).1 == if err == 0 then Some(v) else None
      ensures err == 0 ==> minval <= v <= maxval
    {
      err, v := 0, current;
      if isCalled {
        v := current + increment;
        if increment > 0 {
          if v > maxval {
            if !cycle {
              return 1, v;
            }
            v := minval;
          }
        } else if v < minval {
          if !cycle {
            return 1, v;
          }
          v := maxval;
        }
        current := v;
      } else {
        isCalled := true;
      }
    }

    method Setval(val: int, called: bool) returns (err: int)
      requires Valid()
      modifies this`current, this`isCalled
      ensures Valid() && (err == 0 <==> minval <= val <= maxval)
      ensures State() == if err == 0 then old(State()).(current := val, called := called) else old(State())
      ensures err == 0 && !called ==> Next(State()).1 == Some(val)
    {
      if val > maxval || val < minval {
        return 1;
      }
      current, isCalled := val, called;
      err := 0;
    }

    /** The lower bound may move anywhere that keeps the current value within bounds and the bounds apart. */
    method SetMinval(val: int) returns (err: int)
      requires Valid() && InInt64(val)
      modifies this`minval
      ensures Valid() && (err == 0 <==> Sound(old(State()).(min := val)))
      ensures State() == if err == 0 then old(State()).(min := val) else old(State())
    {
      if val >= maxval || current < val {
        return 1;
      }
      minval := val;
      err := 0;
    }

    method SetMaxval(val: int) returns (err: int)
      requires Valid() && InInt64(val)
      modifies this`maxval
      ensures Valid() && (err == 0 <==> Sound(old(State()).(max := val)))
      ensures State() == if err == 0 then old(State()).(max := val) else old(State())
    {
      if val <= minval || current > val {
        return 1;
      }
      maxval := val;
      err := 0;
    }

    method SetIncrement(val: int) returns (err: int)
      requires Valid() && InInt64(val)
      modifies this`increment
      ensures Valid() && (err == 0 <==> val != 0)
      ensures State() == if err == 0 then old(State()).(increment := val) else old(State())
    {
      if val == 0 {
        return 1;
      }
      increment := val;
      err := 0;
    }

    method SetCycle(val: bool) returns (err: int)
      requires Valid()
      modifies this`cycle
      ensures Valid() && err == 0 && State() == old(State()).(cycle := val)
    {
      cycle := val;
      err := 0;
    }
  }
}
