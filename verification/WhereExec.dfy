/** SELECT and DELETE with a WHERE part: from a condition's tree through linked bytecode and the replaying
    lexer to the rows the second grammar chooses. */
module WhereExec {
  import opened Sequences
  import opened Types
  import opened WhereSyntax
  import opened WhereRoundTrip
  import opened WhereEval
  import opened Bytecode

  // ----- a statement with one condition

  predicate NoLoops(ts: seq<Token>) {
    forall k :: 0 <= k < |ts| ==> !ts[k].TLoopBegin? && !ts[k].TLoopEnd?
  }

  /** What the first grammar leaves behind: the statement's head, the mark, and the condition in a loop. */
  function Statement(head: seq<Token>, body: seq<Token>): seq<Token> {
    head + [TWhere, TLoopBegin(0)] + body + [TLoopEnd(0)]
  }

  function LinkedStatement(head: seq<Token>, body: seq<Token>): seq<Token> {
    head + [TWhere, TLoopBegin(|head| + |body| + 3)] + body + [TLoopEnd(|head| + 1)]
  }

  lemma {:induction false} StatementDepth(head: seq<Token>, body: seq<Token>, i: nat)
    requires NoLoops(head) && NoLoops(body) && i <= |Statement(head, body)|
    ensures Depth(Statement(head, body), i) == if |head| + 2 <= i <= |head| + |body| + 2 then 1 else 0
  {
    var ts := Statement(head, body);
    if i > 0 {
      StatementDepth(head, body, i - 1);
      var k := i - 1;
      assert k < |head| ==> ts[k] == head[k];
      assert |head| + 2 <= k < |head| + 2 + |body| ==> ts[k] == body[k - |head| - 2];
    }
  }

  /** Linking a statement succeeds and makes its two marks point at each other. */
  lemma StatementLinked(head: seq<Token>, body: seq<Token>, us: seq<Token>)
    requires NoLoops(head) && NoLoops(body)
    ensures var ts := Statement(head, body);
      && Nested(ts, |ts|)
      && (Linked(ts, us, |ts|) ==> us == LinkedStatement(head, body))
  {
    var ts := Statement(head, body);
    forall m | 0 <= m <= |ts|
      ensures 0 <= Depth(ts, m) <= STACKSZ
    {
      StatementDepth(head, body, m);
    }
    if Linked(ts, us, |ts|) {
      StatementMarks(head, body);
      OnePair(head, body, us);
    }
  }

  lemma StatementMarks(head: seq<Token>, body: seq<Token>)
    requires NoLoops(head) && NoLoops(body)
    ensures Match(Statement(head, body), |head| + 1, |head| + |body| + 2)
  {
    var ts := Statement(head, body);
    var i, j := |head| + 1, |ts| - 1;
    forall m: nat | i <= m <= j + 1
      ensures Depth(ts, m) == if i < m <= j then 1 else 0
    {
      StatementDepth(head, body, m);
    }
  }

  lemma OnePair(head: seq<Token>, body: seq<Token>, us: seq<Token>)
    requires NoLoops(head) && NoLoops(body)
    requires Linked(Statement(head, body), us, |Statement(head, body)|)
    requires Match(Statement(head, body), |head| + 1, |head| + |body| + 2)
    ensures us == LinkedStatement(head, body)
  {
    hide Depth;
    var ts, vs := Statement(head, body), LinkedStatement(head, body);
    forall k | 0 <= k < |ts|
      ensures us[k] == vs[k]
    {
      if k < |head| {
        assert ts[k] == head[k] == vs[k];
      } else if |head| + 2 <= k < |ts| - 1 {
        assert ts[k] == body[k - |head| - 2] == vs[k];
      }
      assert us[k] == ts[k] || InPair(ts, k, |ts|);
    }
  }

  // ----- replay

  function Replayed(body: seq<Token>, rows: nat): seq<Token> {
    if rows == 0 then [] else body + Replayed(body, rows - 1)
  }

  lemma LinkedRuns(head: seq<Token>, body: seq<Token>)
    requires NoLoops(head) && NoLoops(body)
    ensures Runnable(LinkedStatement(head, body))
  {
    var ts := LinkedStatement(head, body);
    forall k | 0 <= k < |ts|
      ensures ts[k].TLoopBegin? ==> k < ts[k].integer <= |ts|
      ensures ts[k].TLoopEnd? ==> 0 <= ts[k].integer < k
    {
      assert k < |head| ==> ts[k] == head[k];
      assert |head| + 2 <= k < |ts| - 1 ==> ts[k] == body[k - |head| - 2];
    }
  }

  lemma InsideBody(head: seq<Token>, body: seq<Token>, at: nat, left: nat)
    requires NoLoops(body) && Runnable(LinkedStatement(head, body)) && at < |body|
    ensures var ts := LinkedStatement(head, body);
      Stream(ts, |head| + 2 + at, left) == [body[at]] + Stream(ts, |head| + 3 + at, left)
  {
    assert LinkedStatement(head, body)[|head| + 2 + at] == body[at];
  }

  lemma EndOfBody(head: seq<Token>, body: seq<Token>, left: nat)
    requires NoLoops(body) && Runnable(LinkedStatement(head, body)) && body != [] && left > 0
    ensures var ts := LinkedStatement(head, body);
      Stream(ts, |ts| - 1, left) == if left > 1 then [body[0]] + Stream(ts, |head| + 3, left - 1) else []
  {
    var ts := LinkedStatement(head, body);
    assert ts[|ts| - 1] == TLoopEnd(|head| + 1);
    assert ts[|head| + 2] == body[0];
  }

  /** From inside the body, `left` rows to go: the rest of the body, then the whole of it for each other row. */
  lemma {:induction false} BodyStream(head: seq<Token>, body: seq<Token>, at: nat, left: nat)
    requires NoLoops(body) && Runnable(LinkedStatement(head, body))
    requires at <= |body| && body != [] && left > 0
    ensures Stream(LinkedStatement(head, body), |head| + 2 + at, left) == body[at..] + Replayed(body, left - 1)
    decreases left, |body| - at
  {
    hide Stream, Runnable, NoLoops;
    if at < |body| {
      InsideBody(head, body, at, left);
      BodyStream(head, body, at + 1, left);
      assert body[at..] == [body[at]] + body[at + 1..];
    } else {
      EndOfBody(head, body, left);
      if left > 1 {
        BodyStream(head, body, 1, left - 1);
        assert body == [body[0]] + body[1..];
      }
    }
  }

  /** The lexer delivers the head, the mark and the body once per visible row, without any separator;
      with no row the body is left out altogether. */
  lemma {:induction false} ReplayStream(head: seq<Token>, body: seq<Token>, at: nat, left: nat)
    requires NoLoops(head) && NoLoops(body) && body != [] && Runnable(LinkedStatement(head, body)) && at <= |head|
    ensures Stream(LinkedStatement(head, body), at, left) == head[at..] + [TWhere] + Replayed(body, left)
    decreases |head| - at
  {
    hide Replayed, Stream, Runnable, NoLoops, LinkedStatement;
    StatementLength(head, body);
    if at < |head| {
      ReplayStream(head, body, at + 1, left);
      InHead(head, body, at, left);
      assert head[at..] == [head[at]] + head[at + 1..];
    } else {
      LoopStream(head, body, left);
      AtMark(head, body, left);
      assert head[at..] == [];
    }
  }

  lemma StatementLength(head: seq<Token>, body: seq<Token>)
    ensures |LinkedStatement(head, body)| == |head| + |body| + 3
  {
  }

  lemma InHead(head: seq<Token>, body: seq<Token>, at: nat, left: nat)
    requires NoLoops(head) && at < |head| && Runnable(LinkedStatement(head, body))
    ensures Stream(LinkedStatement(head, body), at, left) == [head[at]] + Stream(LinkedStatement(head, body), at + 1, left)
  {
    assert LinkedStatement(head, body)[at] == head[at];
  }

  lemma AtMark(head: seq<Token>, body: seq<Token>, left: nat)
    requires Runnable(LinkedStatement(head, body))
    ensures Stream(LinkedStatement(head, body), |head|, left) == [TWhere] + Stream(LinkedStatement(head, body), |head| + 1, left)
  {
    assert LinkedStatement(head, body)[|head|] == TWhere;
  }

  lemma LoopStream(head: seq<Token>, body: seq<Token>, left: nat)
    requires NoLoops(body) && body != [] && Runnable(LinkedStatement(head, body))
    ensures Stream(LinkedStatement(head, body), |head| + 1, left) == Replayed(body, left)
  {
    hide Stream, Runnable, NoLoops;
    if left > 0 {
      BodyStream(head, body, 0, left);
      assert body[0..] == body;
      SameFromMark(head, body, left);
    } else {
      NoRowStream(head, body);
    }
  }

  lemma NoRowStream(head: seq<Token>, body: seq<Token>)
    requires Runnable(LinkedStatement(head, body))
    ensures Stream(LinkedStatement(head, body), |head| + 1, 0) == []
  {
    hide Stream, Runnable, LinkedStatement;
    LoopMark(head, body);
    StreamHere(LinkedStatement(head, body), |head| + 1, 0);
  }

  lemma LoopMark(head: seq<Token>, body: seq<Token>)
    ensures var ts := LinkedStatement(head, body);
      |head| + 1 < |ts| && ts[|head| + 1] == TLoopBegin(|ts|)
  {
  }

  lemma SameFromMark(head: seq<Token>, body: seq<Token>, left: nat)
    requires NoLoops(body) && body != [] && left > 0 && Runnable(LinkedStatement(head, body))
    ensures Stream(LinkedStatement(head, body), |head| + 1, left) == Stream(LinkedStatement(head, body), |head| + 2, left)
  {
    assert LinkedStatement(head, body)[|head| + 2] == body[0];
  }

  // ----- the second grammar's lines

  datatype Ending = Done | Syntax | Failed(error: Error)

  datatype Outcome = Outcome(chosen: seq<Row>, end: Ending)

  function Current(rows: seq<Row>): Row {
    if rows == [] then map[] else rows[0]
  }

  function Rest(rows: seq<Row>): seq<Row> {
    if rows == [] then [] else rows[1..]
  }

  /** One condition per line, each for the current row, which a line moves on; at least one line. */
  function Lines(rows: seq<Row>, ts: seq<Token>): Outcome
    decreases |ts|
  {
    var line := ParseOr(Actions4(Current(rows)), ts);
    if line.Fail? then Outcome([], Syntax)
    else if line.val.Err? then Outcome([], Failed(line.val.error))
    else
      var now := if line.val.val && rows != [] then [rows[0]] else [];
      if line.rest == [] then Outcome(now, Done)
      else
        var later := Lines(Rest(rows), line.rest);
        Outcome(now + later.chosen, later.end)
  }

  method ReadLines(rows: seq<Row>, ts: seq<Token>) returns (out: Outcome)
    ensures out == Lines(rows, ts)
  {
    hide ParseOr, Actions4, Lines;
    var titor, rest, sent := rows, ts, [];
    while true
      invariant Lines(rows, ts) == Behind(sent, Lines(titor, rest))
      decreases |rest|
    {
      var line := ParseOr(Actions4(Current(titor)), rest);
      NoLine(titor, rest, sent);
      if line.Fail? {
        return Outcome(sent, Syntax);
      }
      if line.val.Err? {
        return Outcome(sent, Failed(line.val.error));
      }
      OneLine(titor, rest, sent);
      if titor != [] {
        if line.val.val {
          sent := sent + [titor[0]];
        }
        titor := titor[1..];
      }
      if line.rest == [] {
        return Outcome(sent, Done);
      }
      rest := line.rest;
    }
  }

  ghost function Behind(sent: seq<Row>, out: Outcome): Outcome {
    Outcome(sent + out.chosen, out.end)
  }

  lemma OneLine(rows: seq<Row>, ts: seq<Token>, sent: seq<Row>)
    requires var line := ParseOr(Actions4(Current(rows)), ts);
      line.Got? && line.val.Ok?
    ensures var line := ParseOr(Actions4(Current(rows)), ts);
      var now := if line.val.val && rows != [] then sent + [rows[0]] else sent;
      Behind(sent, Lines(rows, ts)) == if line.rest == [] then Outcome(now, Done) else Behind(now, Lines(Rest(rows), line.rest))
  {
    hide ParseOr, Actions4, Behind;
    var line := ParseOr(Actions4(Current(rows)), ts);
    var now := if line.val.val && rows != [] then [rows[0]] else [];
    assert sent + [] == sent;
    var later := Lines(Rest(rows), line.rest);
    hide Lines;
    BehindTwice(sent, now, later);
  }

  lemma BehindTwice(sent: seq<Row>, now: seq<Row>, later: Outcome)
    ensures Behind(sent, Outcome(now + later.chosen, later.end)) == Behind(sent + now, later)
    ensures Behind(sent, Outcome(now, Done)) == Outcome(sent + now, Done)
  {
    assert sent + (now + later.chosen) == (sent + now) + later.chosen;
  }

  lemma NoLine(rows: seq<Row>, ts: seq<Token>, sent: seq<Row>)
    ensures var line := ParseOr(Actions4(Current(rows)), ts);
      && (line.Fail? ==> Behind(sent, Lines(rows, ts)) == Outcome(sent, Syntax))
      && (line.Got? && line.val.Err? ==> Behind(sent, Lines(rows, ts)) == Outcome(sent, Failed(line.val.error)))
  {
    hide ParseOr, Actions4;
  }

  /** The part after the head: nothing, and every row is chosen; or WHERE and its lines. */
  function MaybeWhere(rows: seq<Row>, ts: seq<Token>): Outcome {
    if ts == [] then Outcome(rows, Done)
    else if ts[0] == TWhere then Lines(rows, ts[1..])
    else Outcome([], Syntax)
  }

  // ----- what WHERE means

  /** The visible rows in order, kept where the condition is true; the first error ends the run. */
  function Selected(rows: seq<Row>, e: BExpr): Outcome {
    if rows == [] then Outcome([], Done)
    else
      match Eval(rows[0], e)
      case Err(error) => Outcome([], Failed(error))
      case Ok(p) =>
        var later := Selected(rows[1..], e);
        Outcome((if p then [rows[0]] else []) + later.chosen, later.end)
  }

  /** Without an error in any row, exactly the rows where the condition is true are chosen. */
  lemma {:induction false} SelectedIsFilter(rows: seq<Row>, e: BExpr)
    requires forall k :: 0 <= k < |rows| ==> Eval(rows[k], e).Ok?
    ensures Selected(rows, e) == Outcome(Filter(rows, r => Eval(r, e) == Ok(true)), Done)
  {
    if rows != [] {
      SelectedIsFilter(rows[1..], e);
    }
  }

  /** The first error ends the run: chosen are the rows before it where the condition is true. */
  lemma {:induction false} SelectedUntil(rows: seq<Row>, e: BExpr, n: nat)
    requires n < |rows| && Eval(rows[n], e).Err? && forall k :: 0 <= k < n ==> Eval(rows[k], e).Ok?
    ensures Selected(rows, e) == Outcome(Filter(rows[..n], r => Eval(r, e) == Ok(true)), Failed(Eval(rows[n], e).error))
    decreases n
  {
    hide Eval;
    if n > 0 {
      SelectedUntil(rows[1..], e, n - 1);
      assert rows[..n][1..] == rows[1..][..n - 1];
    }
  }

  /** The first line of a replayed condition. */
  lemma FirstLine(rows: seq<Row>, e: BExpr)
    requires Derived(e) && rows != []
    ensures ParseOr(Actions4(rows[0]), Replayed(Emit(e), |rows|)) == Got(Eval(rows[0], e), Replayed(Emit(e), |rows| - 1))
    ensures Replayed(Emit(e), |rows| - 1) == [] <==> |rows| == 1
  {
    hide Emit, Eval, Actions4, ParseOr, Derived;
    var rest := Replayed(Emit(e), |rows| - 1);
    ConditionStarts(e, []);
    assert Emit(e) + [] == Emit(e);
    if |rows| > 1 {
      ConditionStarts(e, Replayed(Emit(e), |rows| - 2));
    }
    ReadingEvaluates(rows[0], e, rest);
  }

  lemma {:induction false} ConditionLines(rows: seq<Row>, e: BExpr)
    requires Derived(e) && rows != []
    ensures Lines(rows, Replayed(Emit(e), |rows|)) == Selected(rows, e)
  {
    hide Emit, Eval, Actions4, ParseOr, Derived, Replayed;
    FirstLine(rows, e);
    if |rows| > 1 {
      ConditionLines(rows[1..], e);
    }
  }

  lemma {:induction false} ConditionHasNoLoops(e: BExpr)
    ensures NoLoops(Emit(e))
    decreases e
  {
    match e
    case Or(l, r) => ConditionHasNoLoops(l); ConditionHasNoLoops(r);
    case And(l, r) => ConditionHasNoLoops(l); ConditionHasNoLoops(r);
    case Not(n) => ConditionHasNoLoops(n);
    case Truth(d) => ValueHasNoLoops(d);
    case Compare(_, x, y) => ValueHasNoLoops(x); ValueHasNoLoops(y);
    case InList(_, x, vs) => ValueHasNoLoops(x); DataHasNoLoops(vs);
    case Between(_, x, lo, hi) => ValueHasNoLoops(x); ValueHasNoLoops(lo); ValueHasNoLoops(hi);
  }

  lemma {:induction false} ValueHasNoLoops(d: DExpr)
    ensures NoLoops(EmitD(d))
    decreases d
  {
    match d
    case Add(_, l, r) => ValueHasNoLoops(l); ValueHasNoLoops(r);
    case Mul(_, l, r) => ValueHasNoLoops(l); ValueHasNoLoops(r);
    case Value(_) =>
    case Paren(b) => ConditionHasNoLoops(b);
  }

  lemma {:induction false} DataHasNoLoops(vs: seq<Datum>)
    ensures NoLoops(Data(vs))
  {
    if vs != [] {
      DataHasNoLoops(vs[1..]);
    }
  }

  /** The trees the lines of the replayed stream are read as: the same tree once per row. */
  lemma {:induction false} SameTreeEveryTime(e: BExpr, rows: nat)
    requires Derived(e) && rows > 0
    ensures ParseLines(TREE, Replayed(Emit(e), rows)) == Got(seq(rows, _ => e), [])
  {
    var es := seq(rows, _ => e);
    EmitAllSame(e, rows);
    LinesTrip(es);
  }

  lemma {:induction false} EmitAllSame(e: BExpr, rows: nat)
    ensures EmitAll(seq(rows, _ => e)) == Replayed(Emit(e), rows)
  {
    if rows > 0 {
      EmitAllSame(e, rows - 1);
      assert seq(rows, _ => e)[1..] == seq(rows - 1, _ => e);
    }
  }

  /** The whole way from the flattened condition to the rows: a statement with a condition chooses the visible
      rows where the condition's tree is true, in order. It is a syntax error exactly without a visible row. */
  lemma WhereChoosesTrueRows(head: seq<Token>, e: BExpr, rows: seq<Row>)
    requires NoLoops(head) && Derived(e)
    ensures Runnable(LinkedStatement(head, Emit(e)))
    ensures var s := Stream(LinkedStatement(head, Emit(e)), 0, |rows|);
      && head <= s
      && MaybeWhere(rows, s[|head|..]) == if rows == [] then Outcome([], Syntax) else Selected(rows, e)
  {
    hide Emit, Derived, NoLoops, Runnable, Stream, Lines, Selected, Replayed, LinkedStatement;
    var body := Emit(e);
    ConditionHasNoLoops(e);
    LinkedRuns(head, body);
    ConditionStarts(e, []);
    assert body + [] == body;
    ReplayStream(head, body, 0, |rows|);
    WhereAfterHead(head, body, rows);
    if rows != [] {
      ConditionLines(rows, e);
    }
  }

  lemma WhereAfterHead(head: seq<Token>, body: seq<Token>, rows: seq<Row>)
    ensures var s := head[0..] + [TWhere] + Replayed(body, |rows|);
      && head <= s
      && MaybeWhere(rows, s[|head|..]) == if rows == [] then Outcome([], Syntax) else Lines(rows, Replayed(body, |rows|))
  {
    var s := head[0..] + [TWhere] + Replayed(body, |rows|);
    assert head[0..] == head;
    assert s[|head|..] == [TWhere] + Replayed(body, |rows|);
    assert s[|head|..][1..] == Replayed(body, |rows|);
  }

  // ----- the whole statement, imperatively

  /** The first grammar's actions, in the order in which its parser runs them. */
  method Flatten(bc: Bc, e: BExpr)
    modifies bc`tokens
    ensures bc.tokens == old(bc.tokens) + Emit(e)
    decreases e, 1
  {
    match e
    case Or(l, r) =>
      Flatten(bc, l);
      bc.Put(TOr);
      Flatten(bc, r);
    case And(l, r) =>
      Flatten(bc, l);
      bc.Put(TAnd);
      Flatten(bc, r);
    case Not(n) =>
      bc.Put(TNot);
      Flatten(bc, n);
    case Truth(_) => FlattenComparison(bc, e);
    case Compare(_, _, _) => FlattenComparison(bc, e);
    case InList(_, _, _) => FlattenComparison(bc, e);
    case Between(_, _, _, _) => FlattenComparison(bc, e);
  }

  method FlattenComparison(bc: Bc, e: BExpr)
    requires Level(e) == 3
    modifies bc`tokens
    ensures bc.tokens == old(bc.tokens) + Emit(e)
    decreases e, 0
  {
    hide EmitD, Data;
    match e
    case Truth(d) =>
      FlattenValue(bc, d);
    case Compare(op, x, y) =>
      FlattenValue(bc, x);
      bc.Put(TCmp(op));
      FlattenValue(bc, y);
    case InList(negated, x, vs) =>
      FlattenValue(bc, x);
      bc.Put(TIn(negated));
      bc.Put(TLpar);
      FlattenData(bc, vs);
      bc.Put(TRpar);
    case Between(negated, x, lo, hi) =>
      FlattenValue(bc, x);
      bc.Put(TBetween(negated));
      FlattenValue(bc, lo);
      FlattenValue(bc, hi);
  }

  method FlattenData(bc: Bc, vs: seq<Datum>)
    modifies bc`tokens
    ensures bc.tokens == old(bc.tokens) + Data(vs)
  {
    for i := 0 to |vs|
      invariant bc.tokens + Data(vs[i..]) == old(bc.tokens) + Data(vs)
    {
      assert vs[i..][1..] == vs[i + 1..];
      bc.Put(TDatum(vs[i]));
    }
  }

  method FlattenValue(bc: Bc, d: DExpr)
    modifies bc`tokens
    ensures bc.tokens == old(bc.tokens) + EmitD(d)
    decreases d, 1
  {
    match d
    case Add(op, l, r) =>
      Grouped(bc.tokens, EmitD(l), [TAdd(op)], EmitD(r));
      FlattenValue(bc, l);
      bc.Put(TAdd(op));
      FlattenValue(bc, r);
    case Mul(op, l, r) =>
      Grouped(bc.tokens, EmitD(l), [TMul(op)], EmitD(r));
      FlattenValue(bc, l);
      bc.Put(TMul(op));
      FlattenValue(bc, r);
    case Value(v) =>
      bc.Put(TDatum(v));
    case Paren(b) =>
      Grouped(bc.tokens, [TLpar], Emit(b), [TRpar]);
      bc.Put(TLpar);
      Flatten(bc, b);
      bc.Put(TRpar);
  }

  lemma Grouped(s: seq<Token>, a: seq<Token>, b: seq<Token>, c: seq<Token>)
    ensures s + a + b + c == s + (a + b + c)
  {
  }

  /** A statement as the first grammar writes it, linked and read to the end. */
  method Execute(bc: Bc, head: seq<Token>, e: BExpr, rows: seq<Row>) returns (out: Outcome)
    requires NoLoops(head) && Derived(e)
    modifies bc
    ensures out == if rows == [] then Outcome([], Syntax) else Selected(rows, e)
  {
    ghost var body := Emit(e);
    bc.Clear();
    bc.PutAll(head);
    bc.Put(TWhere);
    bc.Put(TLoopBegin(0));
    Flatten(bc, e);
    bc.Put(TLoopEnd(0));
    ConditionHasNoLoops(e);
    ghost var ts := bc.tokens;
    assert ts == Statement(head, body);
    var r, at := bc.Prepare();
    StatementLinked(head, body, bc.tokens);
    bc.Reset();
    bc.left := |rows|;
    WhereChoosesTrueRows(head, e, rows);
    var stream := ReadAll(bc);
    out := Split(rows, stream[|head|..]);
  }

  // ----- a statement without a condition

  lemma {:induction false} PlainStream(ts: seq<Token>, at: nat, left: nat)
    requires NoLoops(ts) && at <= |ts|
    ensures Runnable(ts) && Stream(ts, at, left) == ts[at..]
    decreases |ts| - at
  {
    if at < |ts| {
      PlainStream(ts, at + 1, left);
      assert ts[at..] == [ts[at]] + ts[at + 1..];
    }
  }

  /** The lexer delivers the statement as it is, and all visible rows are chosen; there may be none. */
  method ExecuteAll(bc: Bc, head: seq<Token>, rows: seq<Row>) returns (out: Outcome)
    requires NoLoops(head)
    modifies bc
    ensures out.chosen == rows && out.end == Done
  {
    bc.Clear();
    bc.PutAll(head);
    assert bc.tokens == head;
    NoPairs(head);
    var r, at := bc.Prepare();
    NothingLinked(head, bc.tokens);
    bc.Reset();
    bc.left := |rows|;
    PlainStream(head, 0, |rows|);
    var stream := ReadAll(bc);
    assert stream[|head|..] == [];
    out := Split(rows, stream[|head|..]);
  }

  lemma {:induction false} NoDepth(ts: seq<Token>, n: nat)
    requires NoLoops(ts) && n <= |ts|
    ensures Depth(ts, n) == 0
  {
    if n > 0 {
      NoDepth(ts, n - 1);
    }
  }

  lemma NoPairs(ts: seq<Token>)
    requires NoLoops(ts)
    ensures forall n :: 0 <= n <= |ts| ==> Depth(ts, n) == 0
  {
    forall n | 0 <= n <= |ts|
      ensures Depth(ts, n) == 0
    {
      NoDepth(ts, n);
    }
  }

  lemma NothingLinked(ts: seq<Token>, us: seq<Token>)
    requires NoLoops(ts)
    ensures Linked(ts, us, |ts|) ==> us == ts
  {
  }

  lemma Regrouped(s: seq<Token>, t: Token, rest: seq<Token>)
    ensures s + ([t] + rest) == s + [t] + rest && |s + [t] + rest| > |s|
  {
  }

  method ReadAll(bc: Bc) returns (s: seq<Token>)
    requires Runnable(bc.tokens) && bc.itor <= |bc.tokens|
    modifies bc`itor, bc`left
    ensures s == old(Stream(bc.tokens, bc.itor, bc.left))
  {
    hide Stream, Runnable, Skip;
    s := [];
    ghost var all := Stream(bc.tokens, bc.itor, bc.left);
    var t, more := bc.Lex();
    while more
      invariant bc.tokens == old(bc.tokens) && bc.itor <= |bc.tokens|
      invariant if more then all == s + [t] + Stream(bc.tokens, bc.itor, bc.left) else all == s
      decreases |all| - |s|
    {
      s := s + [t];
      ghost var rest := Stream(bc.tokens, bc.itor, bc.left);
      t, more := bc.Lex();
      if more {
        Regrouped(s, t, Stream(bc.tokens, bc.itor, bc.left));
      }
    }
  }

  method Split(rows: seq<Row>, ts: seq<Token>) returns (out: Outcome)
    ensures out == MaybeWhere(rows, ts)
  {
    if ts == [] {
      out := Outcome(rows, Done);
    } else if ts[0] == TWhere {
      out := ReadLines(rows, ts[1..]);
    } else {
      out := Outcome([], Syntax);
    }
  }
}
