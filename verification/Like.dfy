/** SQL LIKE: the matching loop and what a pattern means (ISO/IEC 9075:1992, section 8.5, without ESCAPE). */
module Like {
  /** `%` stands for any characters, `_` for any one, and every other character for itself. */
  predicate Matches(src: string, pat: string)
    decreases |src| + |pat|
  {
    if pat == [] then src == []
    else if pat[0] == '%' then Matches(src, pat[1..]) || (src != [] && Matches(src[1..], pat))
    else src != [] && (pat[0] == '_' || pat[0] == src[0]) && Matches(src[1..], pat[1..])
  }

  /** Some suffix of `src` matches `pat`. */
  ghost predicate SuffixMatches(src: string, pat: string) {
    exists i :: 0 <= i <= |src| && Matches(src[i..], pat)
  }

  lemma {:induction false} PercentIsAnySuffix(src: string, pat: string)
    requires pat != [] && pat[0] == '%'
    ensures Matches(src, pat) <==> SuffixMatches(src, pat[1..])
    decreases |src|
  {
    if src != [] {
      PercentIsAnySuffix(src[1..], pat);
      if Matches(src, pat[1..]) { assert src[0..] == src; }
      if SuffixMatches(src[1..], pat[1..]) {
        var i :| 0 <= i <= |src[1..]| && Matches(src[1..][i..], pat[1..]);
        assert src[1..][i..] == src[i + 1..];
      }
      if SuffixMatches(src, pat[1..]) {
        var i :| 0 <= i <= |src| && Matches(src[i..], pat[1..]);
        if i > 0 {
          assert src[1..][i - 1..] == src[i..];
        } else {
          assert src[0..] == src;
        }
      }
    } else {
      if Matches(src, pat[1..]) { assert src[0..] == src; }
      if SuffixMatches(src, pat[1..]) {
        var i :| 0 <= i <= |src| && Matches(src[i..], pat[1..]);
        assert src[i..] == src;
      }
    }
  }

  /** A match after a `%` may start later in the source as well as earlier. */
  lemma {:induction false} PercentAbsorbs(src: string, pat: string, k: nat)
    requires pat != [] && pat[0] == '%' && k <= |src| && Matches(src[k..], pat)
    ensures Matches(src, pat)
    decreases k
  {
    if k == 0 {
      assert src[0..] == src;
    } else {
      assert src[1..][k - 1..] == src[k..];
      PercentAbsorbs(src[1..], pat, k - 1);
    }
  }

  /** The characters of `s` match those of `p` one by one, without any `%`. */
  ghost predicate OneByOne(s: string, p: string) {
    |s| == |p| && forall i {:trigger p[i]} :: 0 <= i < |p| ==> p[i] != '%' && (p[i] == '_' || p[i] == s[i])
  }

  /** After a literal stretch the rest has to match the rest. */
  lemma {:induction false} LiteralThen(ls: string, s: string, lp: string, p: string)
    requires OneByOne(ls, lp)
    ensures Matches(ls + s, lp + p) <==> Matches(s, p)
    decreases |lp|
  {
    if lp == [] {
      assert ls + s == s && lp + p == p;
    } else {
      assert lp[0] != '%';
      LiteralThen(ls[1..], s, lp[1..], p);
      assert (ls + s)[1..] == ls[1..] + s && (lp + p)[1..] == lp[1..] + p;
    }
  }

  /** What matches a pattern that starts with a literal stretch starts with a match of that stretch. */
  lemma {:induction false} LiteralPrefix(s: string, lp: string, p: string)
    requires Matches(s, lp + p) && '%' !in lp
    ensures |lp| <= |s| && OneByOne(s[..|lp|], lp)
    decreases |lp|
  {
    if lp != [] {
      assert (lp + p)[1..] == lp[1..] + p && lp[0] != '%';
      LiteralPrefix(s[1..], lp[1..], p);
      var m := s[..|lp|];
      forall i {:trigger lp[i]} | 0 <= i < |lp| ensures lp[i] != '%' && (lp[i] == '_' || lp[i] == m[i]) {
        if i > 0 { assert lp[i] == lp[1..][i - 1] && m[i] == s[1..][..|lp| - 1][i - 1]; }
      }
    }
  }

  /** The part of the pattern between its last `%` seen and `pi`, and what it matches in the current attempt. */
  ghost predicate Attempt(src: string, pat: string, star: int, pi: nat, ss: nat, si: nat) {
    && -1 <= star < pi <= |pat| && ss <= si <= |src|
    && OneByOne(src[ss..si], pat[star + 1..pi])
  }

  lemma AttemptThen(src: string, pat: string, star: int, pi: nat, ss: nat, si: nat)
    requires Attempt(src, pat, star, pi, ss, si)
    ensures Matches(src[ss..], pat[star + 1..]) <==> Matches(src[si..], pat[pi..])
  {
    assert src[ss..] == src[ss..si] + src[si..] && pat[star + 1..] == pat[star + 1..pi] + pat[pi..];
    LiteralThen(src[ss..si], src[si..], pat[star + 1..pi], pat[pi..]);
  }

  /** Another start `j` matches the same stretch of the pattern. */
  lemma OtherStart(src: string, pat: string, star: int, pi: nat, ss: nat, si: nat, j: nat)
    requires Attempt(src, pat, star, pi, ss, si) && ss <= j <= |src| && Matches(src[j..], pat[star + 1..])
    ensures j + (si - ss) <= |src| && Matches(src[j + (si - ss)..], pat[pi..])
  {
    var lp := pat[star + 1..pi];
    assert pat[star + 1..] == lp + pat[pi..];
    assert '%' !in lp;
    LiteralPrefix(src[j..], lp, pat[pi..]);
    var ls := src[j..][..|lp|];
    assert src[j..] == ls + src[j + |lp|..];
    LiteralThen(ls, src[j + |lp|..], lp, pat[pi..]);
  }

  /** Some start from `from` on matches. */
  ghost predicate StartsFrom(src: string, from: nat, p: string) {
    exists j :: from <= j <= |src| && Matches(src[j..], p)
  }

  /** Greed is safe: when a second `%` is reached, only the earliest match of what lies between counts. */
  lemma EarliestIsEnough(src: string, pat: string, star: nat, pi: nat, ss: nat, si: nat)
    requires Attempt(src, pat, star, pi, ss, si) && pi < |pat| && pat[pi] == '%'
    ensures StartsFrom(src, ss, pat[star + 1..]) <==> Matches(src[si..], pat[pi..])
  {
    AttemptThen(src, pat, star, pi, ss, si);
    if StartsFrom(src, ss, pat[star + 1..]) {
      var j :| ss <= j <= |src| && Matches(src[j..], pat[star + 1..]);
      OtherStart(src, pat, star, pi, ss, si, j);
      assert src[si..][j - ss..] == src[j + (si - ss)..];
      PercentAbsorbs(src[si..], pat[pi..], j - ss);
    }
  }

  /** A match that can only start later than `ss`. */
  lemma NotAt(src: string, p: string, ss: nat)
    requires ss <= |src| && !Matches(src[ss..], p)
    ensures StartsFrom(src, ss, p) <==> StartsFrom(src, ss + 1, p)
  {
  }

  /** At the end of the source only the current attempt is long enough. */
  lemma EndReached(src: string, pat: string, star: nat, pi: nat, ss: nat)
    requires Attempt(src, pat, star, pi, ss, |src|)
    ensures StartsFrom(src, ss, pat[star + 1..]) <==> Matches([], pat[pi..])
  {
    AttemptThen(src, pat, star, pi, ss, |src|);
    assert src[|src|..] == [];
    if StartsFrom(src, ss, pat[star + 1..]) {
      var j :| ss <= j <= |src| && Matches(src[j..], pat[star + 1..]);
      OtherStart(src, pat, star, pi, ss, |src|, j);
    }
  }

  lemma {:induction false} RestIsPercent(pat: string, pi: nat)
    requires pi <= |pat|
    ensures Matches([], pat[pi..]) <==> forall i :: pi <= i < |pat| ==> pat[i] == '%'
    decreases |pat| - pi
  {
    if pi < |pat| {
      RestIsPercent(pat, pi + 1);
      assert pat[pi..][1..] == pat[pi + 1..];
    }
  }

  lemma StarSeen(src: string, pat: string, si: nat, pi: nat)
    requires si <= |src| && pi < |pat| && pat[pi] == '%'
    ensures Matches(src[si..], pat[pi..]) <==> StartsFrom(src, si, pat[pi + 1..])
  {
    PercentIsAnySuffix(src[si..], pat[pi..]);
    assert pat[pi..][1..] == pat[pi + 1..];
    if SuffixMatches(src[si..], pat[pi + 1..]) {
      var i :| 0 <= i <= |src[si..]| && Matches(src[si..][i..], pat[pi + 1..]);
      assert src[si..][i..] == src[si + i..];
    }
    if StartsFrom(src, si, pat[pi + 1..]) {
      var j :| si <= j <= |src| && Matches(src[j..], pat[pi + 1..]);
      assert src[si..][j - si..] == src[j..];
    }
  }

  /** One more character of the attempt matches. */
  lemma AttemptGrows(src: string, pat: string, star: int, pi: nat, ss: nat, si: nat)
    requires Attempt(src, pat, star, pi, ss, si) && pi < |pat| && si < |src|
    requires pat[pi] != '%' && (pat[pi] == '_' || pat[pi] == src[si])
    ensures Attempt(src, pat, star, pi + 1, ss, si + 1)
  {
    assert src[ss..si + 1] == src[ss..si] + [src[si]];
    assert pat[star + 1..pi + 1] == pat[star + 1..pi] + [pat[pi]];
  }

  /** One more character of the attempt does not match, or the pattern has ended. */
  lemma AttemptFails(src: string, pat: string, star: int, pi: nat, ss: nat, si: nat)
    requires Attempt(src, pat, star, pi, ss, si) && si < |src|
    requires pi < |pat| ==> pat[pi] != '%' && pat[pi] != '_' && pat[pi] != src[si]
    ensures !Matches(src[ss..], pat[star + 1..])
  {
    AttemptThen(src, pat, star, pi, ss, si);
  }

  /** `star` is -1 until a `%` was seen; then matching resumes behind it, one character later each time. */
  method LikeMatch(src: string, pat: string) returns (r: bool)
    ensures r == Matches(src, pat)
  {
    hide Matches, OneByOne, StartsFrom;
    var si, pi, ss := 0, 0, 0;
    var star := -1;
    Start(src, pat);
    while si < |src|
      invariant Attempt(src, pat, star, pi, ss, si)
      invariant star == -1 ==> ss == 0
      invariant star != -1 ==> (Matches(src, pat) <==> StartsFrom(src, ss, pat[star + 1..]))
      decreases |pat| - star, |src| - ss, |src| - si
    {
      if pi < |pat| && pat[pi] == '%' {
        if star != -1 {
          EarliestIsEnough(src, pat, star, pi, ss, si);
        } else {
          AttemptThen(src, pat, star, pi, ss, si);
          assert src[0..] == src && pat[0..] == pat;
        }
        StarSeen(src, pat, si, pi);
        star := pi;
        pi := pi + 1;
        ss := si;
        NoneYet(src, pat, star, ss);
      } else if pi < |pat| && (pat[pi] == '_' || pat[pi] == src[si]) {
        AttemptGrows(src, pat, star, pi, ss, si);
        si := si + 1;
        pi := pi + 1;
      } else if star != -1 {
        AttemptFails(src, pat, star, pi, ss, si);
        NotAt(src, pat[star + 1..], ss);
        pi := star + 1;
        ss := ss + 1;
        si := ss;
        NoneYet(src, pat, star, ss);
      } else {
        AttemptFails(src, pat, star, pi, ss, si);
        assert src[0..] == src && pat[0..] == pat;
        return false;
      }
    }
    if star != -1 {
      EndReached(src, pat, star, pi, ss);
    } else {
      AttemptThen(src, pat, star, pi, ss, si);
      assert src[0..] == src && pat[0..] == pat && src[si..] == [];
    }
    RestIsPercent(pat, pi);
    ghost var was := pi;
    while pi < |pat| && pat[pi] == '%'
      invariant was <= pi <= |pat|
      invariant forall i :: was <= i < pi ==> pat[i] == '%'
    {
      pi := pi + 1;
    }
    r := pi == |pat|;
  }

  lemma Start(src: string, pat: string)
    ensures Attempt(src, pat, -1, 0, 0, 0)
  {
  }

  lemma NoneYet(src: string, pat: string, star: nat, ss: nat)
    requires star < |pat| && ss <= |src|
    ensures Attempt(src, pat, star, star + 1, ss, ss)
  {
  }
}
