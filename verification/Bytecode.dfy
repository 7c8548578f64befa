/** The token array between the two grammars: the first appends to it, the loop marks are linked up, and
    the second reads it through a lexer that replays the loop's body once per row. */
module Bytecode {
  import opened WhereSyntax

  const STACKSZ: nat := 64

  // ----- matching loop marks

  /** How many loops are open after the first `i` tokens. */
  function Depth(ts: seq<Token>, i: nat): int
    requires i <= |ts|
  {
    if i == 0 then 0
    else Depth(ts, i - 1) + (if ts[i - 1].TLoopBegin? then 1 else if ts[i - 1].TLoopEnd? then -1 else 0)
  }

  /** The mark at `j` closes the one at `i`. */
  ghost predicate Match(ts: seq<Token>, i: nat, j: nat) {
    && i < j < |ts| && ts[i].TLoopBegin? && ts[j].TLoopEnd?
    && Depth(ts, j + 1) == Depth(ts, i)
    && forall m :: i < m <= j ==> Depth(ts, m) > Depth(ts, i)
  }

  lemma MatchUnique(ts: seq<Token>, i: nat, j: nat, k: nat, l: nat)
    requires Match(ts, i, j) && Match(ts, k, l)
    ensures i == k <==> j == l
    ensures i != l
  {
  }

  /** `us` is `ts` with every pair closed before `at` pointing at each other, and nothing else changed. */
  ghost predicate Linked(ts: seq<Token>, us: seq<Token>, at: nat) {
    && |us| == |ts|
    && (forall i: nat, j: nat :: Match(ts, i, j) && j < at ==> us[i] == TLoopBegin(j + 1) && us[j] == TLoopEnd(i))
    && (forall k :: 0 <= k < |ts| ==> us[k] == ts[k] || InPair(ts, k, at))
  }

  ghost predicate InPair(ts: seq<Token>, k: nat, at: nat) {
    exists i: nat, j: nat :: Match(ts, i, j) && j < at && (k == i || k == j)
  }

  lemma LinkPair(ts: seq<Token>, us: seq<Token>, i: nat, j: nat)
    requires Linked(ts, us, j) && Match(ts, i, j)
    ensures Linked(ts, us[i := TLoopBegin(j + 1)][j := TLoopEnd(i)], j + 1)
  {
    var vs := us[i := TLoopBegin(j + 1)][j := TLoopEnd(i)];
    forall k: nat, l: nat | Match(ts, k, l) && l < j + 1
      ensures vs[k] == TLoopBegin(l + 1) && vs[l] == TLoopEnd(k)
    {
      MatchUnique(ts, i, j, k, l);
      MatchUnique(ts, k, l, i, j);
    }
    forall k | 0 <= k < |ts|
      ensures vs[k] == ts[k] || InPair(ts, k, j + 1)
    {
      if k == i || k == j {
        assert InPair(ts, k, j + 1);
      } else if InPair(ts, k, j) {
        var m: nat, n: nat :| Match(ts, m, n) && n < j && (k == m || k == n);
        assert InPair(ts, k, j + 1);
      }
    }
  }

  lemma LinkOther(ts: seq<Token>, us: seq<Token>, j: nat)
    requires Linked(ts, us, j) && j < |ts| && !ts[j].TLoopEnd?
    ensures Linked(ts, us, j + 1)
  {
    forall k | 0 <= k < |ts|
      ensures us[k] == ts[k] || InPair(ts, k, j + 1)
    {
      if InPair(ts, k, j) {
        var m: nat, n: nat :| Match(ts, m, n) && n < j && (k == m || k == n);
        assert InPair(ts, k, j + 1);
      }
    }
  }

  /** Between no loop and `STACKSZ` of them are open at every point up to `at`. */
  ghost predicate Nested(ts: seq<Token>, at: nat)
    requires at <= |ts|
  {
    forall m :: 0 <= m <= at ==> 0 <= Depth(ts, m) <= STACKSZ
  }

  /** The open marks after `i` tokens, outermost first. */
  ghost predicate OpenMarks(ts: seq<Token>, i: nat, s: seq<nat>)
    requires i <= |ts|
  {
    && |s| == Depth(ts, i)
    && forall k :: 0 <= k < |s| ==> OpenMark(ts, i, s[k], k)
  }

  ghost predicate OpenMark(ts: seq<Token>, i: nat, at: nat, depth: nat)
    requires i <= |ts|
  {
    && at < i && ts[at].TLoopBegin? && Depth(ts, at) == depth
    && forall m :: at < m <= i ==> Depth(ts, m) > depth
  }

  lemma OpenPush(ts: seq<Token>, i: nat, s: seq<nat>)
    requires i < |ts| && OpenMarks(ts, i, s) && ts[i].TLoopBegin?
    ensures OpenMarks(ts, i + 1, s + [i])
  {
    forall k | 0 <= k < |s|
      ensures OpenMark(ts, i + 1, s[k], k)
    {
      assert OpenMark(ts, i, s[k], k);
    }
    assert OpenMark(ts, i + 1, i, |s|);
  }

  lemma OpenPop(ts: seq<Token>, i: nat, s: seq<nat>)
    requires i < |ts| && OpenMarks(ts, i, s) && ts[i].TLoopEnd? && s != []
    ensures OpenMarks(ts, i + 1, s[..|s| - 1]) && Match(ts, s[|s| - 1], i)
  {
    assert OpenMark(ts, i, s[|s| - 1], |s| - 1);
    forall k | 0 <= k < |s| - 1
      ensures OpenMark(ts, i + 1, s[k], k)
    {
      assert OpenMark(ts, i, s[k], k);
    }
  }

  lemma OpenKeep(ts: seq<Token>, i: nat, s: seq<nat>)
    requires i < |ts| && OpenMarks(ts, i, s) && !ts[i].TLoopBegin? && !ts[i].TLoopEnd?
    ensures OpenMarks(ts, i + 1, s)
  {
    forall k | 0 <= k < |s|
      ensures OpenMark(ts, i + 1, s[k], k)
    {
      assert OpenMark(ts, i, s[k], k);
    }
  }

  // ----- reading with replay

  /** Where the next token is, past the loop marks, and how many rows are then left. */
  function Skip(ts: seq<Token>, itor: nat, left: nat): (int, nat)
    requires itor < |ts|
  {
    match ts[itor]
    case TLoopBegin(after) => if left > 0 then (itor + 1, left) else (after, left)
    case TLoopEnd(begin) => if left > 1 then (begin + 1, left - 1) else (itor + 1, 0)
    case _ => (itor, left)
  }

  /** Marks point where linking makes them point: a begin ahead, an end back. */
  ghost predicate Runnable(ts: seq<Token>) {
    forall k {:trigger ts[k]} :: 0 <= k < |ts| ==>
      && (ts[k].TLoopBegin? ==> k < ts[k].integer <= |ts|)
      && (ts[k].TLoopEnd? ==> 0 <= ts[k].integer < k)
  }

  /** Everything the lexer will still deliver. */
  ghost function Stream(ts: seq<Token>, itor: nat, left: nat): seq<Token>
    requires Runnable(ts) && itor <= |ts|
    decreases left, |ts| - itor
  {
    if itor == |ts| then []
    else
      var n := Skip(ts, itor, left);
      if n.0 == |ts| then [] else [ts[n.0]] + Stream(ts, n.0 + 1, n.1)
  }

  lemma StreamHere(ts: seq<Token>, itor: nat, left: nat)
    requires Runnable(ts) && itor <= |ts|
    ensures itor == |ts| ==> Stream(ts, itor, left) == []
    ensures itor < |ts| ==>
      var n := Skip(ts, itor, left);
      0 <= n.0 <= |ts| && Stream(ts, itor, left) == if n.0 == |ts| then [] else [ts[n.0]] + Stream(ts, n.0 + 1, n.1)
  {
  }

  class Bc {
    var tokens: seq<Token>
    var itor: nat
    var left: nat  // visible rows from the bytecode's own row iterator on

    constructor ()
      ensures tokens == [] && itor == 0 && left == 0
    {
      tokens, itor, left := [], 0, 0;
    }

    method Clear()
      modifies this
      ensures tokens == [] && itor == 0 && left == 0
    {
      itor, left, tokens := 0, 0, [];
    }

    method Reset()
      modifies this`itor, this`left
      ensures itor == 0 && left == 0
    {
      itor, left := 0, 0;
    }

    method Put(t: Token)
      modifies this`tokens
      ensures tokens == old(tokens) + [t]
    {
      tokens := tokens + [t];
    }

    method PutAll(ts: seq<Token>)
      modifies this`tokens
      ensures tokens == old(tokens) + ts
    {
      for i := 0 to |ts|
        invariant tokens == old(tokens) + ts[..i]
      {
        Put(ts[i]);
        assert ts[..i + 1] == ts[..i] + [ts[i]];
      }
      assert ts[..|ts|] == ts;
    }

    /** Links the loop marks, up to the first mark `at` that opens one loop too many (1) or closes none (2). */
    method Prepare() returns (r: int, ghost at: nat)
      modifies this`tokens
      ensures at <= |old(tokens)| && Nested(old(tokens), at) && Linked(old(tokens), tokens, at)
      ensures r == 0 <==> at == |old(tokens)|
      ensures r == 0 || (at < |old(tokens)| &&
        if r == 1 then Depth(old(tokens), at + 1) == STACKSZ + 1 else r == 2 && Depth(old(tokens), at + 1) == -1)
      ensures forall j :: 0 <= j < at && old(tokens)[j].TLoopEnd? ==> exists i: nat :: Match(old(tokens), i, j)
    {
      hide OpenMarks, Match, Linked;
      ghost var ts := tokens;
      var stack := new nat[STACKSZ];
      var sp: nat := 0;
      var i: nat := 0;
      StartLinking(ts);
      assert stack[..0] == [];
      while i < |tokens|
        invariant i <= |ts| == |tokens| && sp <= STACKSZ == stack.Length
        invariant sp == Depth(ts, i) && OpenMarks(ts, i, stack[..sp])
        invariant Nested(ts, i) && Linked(ts, tokens, i)
        invariant forall k :: i <= k < |ts| ==> tokens[k] == ts[k]
        invariant forall j :: 0 <= j < i && ts[j].TLoopEnd? ==> exists b: nat :: Match(ts, b, j)
      {
        if tokens[i].TLoopBegin? {
          if sp == STACKSZ {
            return 1, i;
          }
          OpenPush(ts, i, stack[..sp]);
          LinkOther(ts, tokens, i);
          stack[sp] := i;
          sp := sp + 1;
          assert stack[..sp] == stack[..sp - 1] + [i];
        } else if tokens[i].TLoopEnd? {
          if sp == 0 {
            return 2, i;
          }
          OpenPop(ts, i, stack[..sp]);
          assert stack[..sp][..sp - 1] == stack[..sp - 1];
          sp := sp - 1;
          var begin := stack[sp];
          MatchBounds(ts, begin, i);
          LinkPair(ts, tokens, begin, i);
          tokens := tokens[begin := TLoopBegin(i + 1)];
          tokens := tokens[i := TLoopEnd(begin)];
        } else {
          OpenKeep(ts, i, stack[..sp]);
          LinkOther(ts, tokens, i);
        }
        i := i + 1;
      }
      r, at := 0, i;
    }

    /** The next token for the second grammar, or nothing at the end. */
    method Lex() returns (t: Token, more: bool)
      requires Runnable(tokens) && itor <= |tokens|
      modifies this`itor, this`left
      ensures itor <= |tokens|
      ensures more <==> old(Stream(tokens, itor, left)) != []
      ensures more ==> old(Stream(tokens, itor, left)) == [t] + Stream(tokens, itor, left)
    {
      hide Stream;
      t, more := TOther(0), false;
      StreamHere(tokens, itor, left);
      if itor == |tokens| {
        return;
      }
      match tokens[itor] {
        case TLoopBegin(after) =>
          if left > 0 {
            itor := itor + 1;
          } else {
            itor := after;
          }
          if itor == |tokens| {
            return;
          }
        case TLoopEnd(begin) =>
          left := if left > 0 then left - 1 else 0;
          if left > 0 {
            itor := begin + 1;
          } else {
            itor := itor + 1;
            if itor == |tokens| {
              return;
            }
          }
        case _ =>
      }
      t, more := tokens[itor], true;
      itor := itor + 1;
    }
  }

  lemma StartLinking(ts: seq<Token>)
    ensures Linked(ts, ts, 0) && OpenMarks(ts, 0, [])
  {
  }

  lemma MatchBounds(ts: seq<Token>, i: nat, j: nat)
    requires Match(ts, i, j)
    ensures i < j < |ts|
  {
  }
}
