/** A table's way from the server's send buffer over a byte stream to the client's receive buffer. */
module Wire {
  type byte = n: nat | n < 256

  // ----- numbers as bytes, least significant first

  function Pow256(k: nat): nat {
    if k == 0 then 1 else 256 * Pow256(k - 1)
  }

  function Le(n: nat, k: nat): (r: seq<byte>)
    ensures |r| == k
    decreases k
  {
    if k == 0 then [] else [n % 256] + Le(n / 256, k - 1)
  }

  function Value(bs: seq<byte>): nat {
    if bs == [] then 0 else bs[0] + 256 * Value(bs[1..])
  }

  lemma {:induction false} LeTrip(n: nat, k: nat)
    requires n < Pow256(k)
    ensures Value(Le(n, k)) == n
    decreases k
  {
    if k > 0 {
      LeTrip(n / 256, k - 1);
      assert Le(n, k)[1..] == Le(n / 256, k - 1);
    }
  }

  // ----- the format

  const TABHEADER: nat := 1
  const TABDATA: nat := 2
  const ROW: nat := 3
  const END: nat := 4
  const BUFSZ: nat := 65536

  function Cmd(n: nat): (r: seq<byte>)
    ensures |r| == 4
  {
    Le(n, 4)
  }

  /** A row or a column: the command, the size and the bytes. */
  function Frame(r: seq<byte>): seq<byte> {
    Cmd(ROW) + Le(|r|, 8) + r
  }

  function Frames(rs: seq<seq<byte>>): seq<byte> {
    if rs == [] then [] else Frame(rs[0]) + Frames(rs[1..])
  }

  function Table(cols: seq<seq<byte>>, rows: seq<seq<byte>>): seq<byte> {
    Cmd(TABHEADER) + Frames(cols) + Cmd(END) + Cmd(TABDATA) + Frames(rows) + Cmd(END)
  }

  // ----- reading the format

  datatype Status = Good | Closed | Overflow | Protocol | Unknown

  /** A row, the end of the rows, or why there is neither; and the bytes that follow. */
  datatype Taken = Row(row: seq<byte>, rest: seq<byte>) | End(rest: seq<byte>) | Bad(status: Status)

  /** Too few bytes for a command read as an unknown command: the command stays 0. */
  function TakeRow(bs: seq<byte>): Taken {
    if |bs| < 4 then Bad(Unknown)
    else
      var cmd := Value(bs[..4]);
      if cmd == END then End(bs[4..])
      else if cmd == TABHEADER || cmd == TABDATA then Bad(Protocol)
      else if cmd != ROW then Bad(Unknown)
      else if |bs| < 12 then Bad(Closed)
      else
        var size := Value(bs[4..12]);
        if size > BUFSZ then Bad(Overflow)
        else if |bs| - 12 < size then Bad(Closed)
        else Row(bs[12..12 + size], bs[12 + size..])
  }

  lemma Behind(bs: seq<byte>, p: seq<byte>, rest: seq<byte>, at: nat)
    requires at <= |bs| && bs[at..] == p + rest
    ensures p == bs[at..at + |p|] && rest == bs[at + |p|..]
  {
    assert |bs| == at + |p| + |rest|;
    forall i | 0 <= i < |p|
      ensures p[i] == bs[at + i]
    {
      assert bs[at..][i] == (p + rest)[i];
    }
    forall i | 0 <= i < |rest|
      ensures rest[i] == bs[at + |p| + i]
    {
      assert bs[at..][|p| + i] == (p + rest)[|p| + i];
    }
  }

  lemma Twelve(bs: seq<byte>, p: seq<byte>, rest: seq<byte>)
    requires 4 <= |bs| && bs[4..] == p + rest && |p| == 8
    ensures |bs| >= 12 && p == bs[4..12] && rest == bs[12..]
  {
    Behind(bs, p, rest, 4);
  }

  datatype TakenAll = Rows(rows: seq<seq<byte>>, rest: seq<byte>) | Broken(status: Status)

  function TakeRows(bs: seq<byte>): TakenAll
    decreases |bs|
  {
    match TakeRow(bs)
    case End(rest) => Rows([], rest)
    case Bad(status) => Broken(status)
    case Row(row, rest) =>
      var more := TakeRows(rest);
      if more.Broken? then more else Rows([row] + more.rows, more.rest)
  }

  /** The command `cmd` and what follows it. */
  predicate Starts(bs: seq<byte>, cmd: nat) {
    |bs| >= 4 && Value(bs[..4]) == cmd
  }

  lemma CmdTrip(n: nat, rest: seq<byte>)
    requires n < 256
    ensures var bs := Cmd(n) + rest; Starts(bs, n) && bs[4..] == rest
  {
    assert n < Pow256(4);
    LeTrip(n, 4);
    assert (Cmd(n) + rest)[..4] == Cmd(n);
  }

  lemma FrameTrip(r: seq<byte>, rest: seq<byte>)
    requires |r| <= BUFSZ
    ensures TakeRow(Frame(r) + rest) == Row(r, rest)
  {
    hide Value, Le, Pow256;
    var size := Le(|r|, 8);
    var bs := Frame(r) + rest;
    assert bs == Cmd(ROW) + (size + r + rest);
    CmdTrip(ROW, size + r + rest);
    SizeFits(|r|);
    LeTrip(|r|, 8);
    assert bs[4..12] == size;
    assert bs[12..12 + |r|] == r;
    assert bs[12 + |r|..] == rest;
  }

  lemma SizeFits(n: nat)
    requires n <= BUFSZ
    ensures n < Pow256(8)
  {
    assert Pow256(3) == 256 * 256 * 256;
    assert Pow256(6) == 256 * (256 * (256 * Pow256(3)));
    assert Pow256(8) == 256 * (256 * Pow256(6));
  }

  /** Another command in place of a row: one that has its place elsewhere breaks the protocol, any other is unknown. */
  lemma WrongRow(cmd: nat, rest: seq<byte>)
    requires cmd < 256 && cmd != ROW && cmd != END
    ensures TakeRow(Cmd(cmd) + rest) == Bad(if cmd == TABHEADER || cmd == TABDATA then Protocol else Unknown)
  {
    hide Value, Cmd;
    CmdTrip(cmd, rest);
  }

  /** A row cut short is a closed stream, except within its command; one that is too long is an overflow. */
  lemma CutRow(r: seq<byte>, n: nat)
    requires |r| <= BUFSZ && n < |Frame(r)|
    ensures TakeRow(Frame(r)[..n]) == Bad(if n < 4 then Unknown else Closed)
  {
    hide Value, Le, Pow256;
    var bs := Frame(r)[..n];
    if n >= 4 {
      var size := Le(|r|, 8);
      CmdTrip(ROW, size + r);
      assert Frame(r) == Cmd(ROW) + (size + r);
      assert bs[..4] == Frame(r)[..4];
      if n >= 12 {
        SizeFits(|r|);
        LeTrip(|r|, 8);
        assert bs[4..12] == size;
      }
    }
  }

  lemma LongRow(r: seq<byte>, rest: seq<byte>)
    requires BUFSZ < |r| < Pow256(8)
    ensures TakeRow(Frame(r) + rest) == Bad(Overflow)
  {
    hide Value, Le, Pow256;
    var size := Le(|r|, 8);
    var bs := Frame(r) + rest;
    assert bs == Cmd(ROW) + (size + r + rest);
    CmdTrip(ROW, size + r + rest);
    LeTrip(|r|, 8);
    assert bs[4..12] == size;
  }

  ghost predicate Fit(rs: seq<seq<byte>>, limit: nat) {
    forall i {:trigger rs[i]} :: 0 <= i < |rs| ==> |rs[i]| < limit
  }

  /** Rows written one after the other up to the end mark are read back as they were. */
  lemma {:induction false} FramesTrip(rs: seq<seq<byte>>, rest: seq<byte>)
    requires Fit(rs, BUFSZ + 1)
    ensures TakeRows(Frames(rs) + Cmd(END) + rest) == Rows(rs, rest)
    decreases |rs|
  {
    hide Frame, Cmd, TakeRow, Starts, Frames;
    FramesCut(rs, rest);
    if rs == [] {
      EndTrip(rest);
    } else {
      var more := Frames(rs[1..]) + Cmd(END) + rest;
      FrameTrip(rs[0], more);
      FramesTrip(rs[1..], rest);
      assert rs == [rs[0]] + rs[1..];
      RowsShrink(Frame(rs[0]) + more);
    }
  }

  lemma FramesCut(rs: seq<seq<byte>>, rest: seq<byte>)
    ensures Frames(rs) + Cmd(END) + rest
      == if rs == [] then Cmd(END) + rest else Frame(rs[0]) + (Frames(rs[1..]) + Cmd(END) + rest)
  {
    hide Frame, Cmd;
    if rs == [] {
      assert Frames(rs) + Cmd(END) == Cmd(END);
    } else {
      Assoc(Frame(rs[0]), Frames(rs[1..]), Cmd(END), rest);
    }
  }

  lemma EndTrip(rest: seq<byte>)
    ensures TakeRow(Cmd(END) + rest) == End(rest)
  {
    CmdTrip(END, rest);
  }

  lemma RowsShrink(bs: seq<byte>)
    ensures TakeRow(bs).Row? ==> |TakeRow(bs).rest| < |bs|
  {
  }

  lemma TwoSlices(a: seq<byte>, data: seq<byte>, i: nat, j: nat)
    requires i <= j <= |data|
    ensures a + data[..i] + data[i..j] == a + data[..j]
  {
    assert data[..i] + data[i..j] == data[..j];
  }

  lemma Three(a: seq<byte>, b: seq<byte>, c: seq<byte>)
    ensures a + (b + c) == a + b + c
  {
  }

  // ----- the server's buffer

  const SENDBUFSZ: nat := 4096

  class Sender {
    var wire: seq<byte>  // everything handed to the socket
    const buf: array<byte>
    var idx: nat

    constructor ()
      ensures Valid() && Written() == [] && fresh(buf)
    {
      wire, idx := [], 0;
      buf := new byte[SENDBUFSZ](_ => 0);
    }

    predicate Valid()
      reads this
    {
      buf.Length == SENDBUFSZ && idx < SENDBUFSZ
    }

    /** What is on the wire or on its way there. */
    function Written(): seq<byte>
      requires Valid()
      reads this, buf
    {
      wire + buf[..idx]
    }

    /** Copies bytes into the buffer. */
    method Copy(at: nat, data: seq<byte>)
      requires at + |data| <= buf.Length
      modifies buf
      ensures buf[..at + |data|] == old(buf[..at]) + data
    {
      forall k | at <= k < at + |data| {
        buf[k] := data[k - at];
      }
    }

    /** Keeps every byte, except that a write of a whole buffer or more into an empty buffer loses its last
        `SENDBUFSZ` bytes. */
    method Send(data: seq<byte>)
      requires Valid()
      modifies this`wire, this`idx, buf
      ensures Valid()
      ensures Written() == old(Written()) + if old(idx) == 0 && |data| >= SENDBUFSZ then data[..|data| - SENDBUFSZ] else data
      ensures Written() == old(Written()) + data <==> !(old(idx) == 0 && |data| >= SENDBUFSZ)
    {
      if idx + |data| >= SENDBUFSZ {
        SendOver(data);
      } else {
        Three(wire, buf[..idx], data);
        Copy(idx, data);
        idx := idx + |data|;
      }
    }

    /** The write that fills the buffer: the buffer is completed and sent if it holds anything; an empty one counts as
        filled all the same, although nothing was put in it. */
    method SendOver(data: seq<byte>)
      requires Valid() && idx + |data| >= SENDBUFSZ
      modifies this`wire, this`idx, buf
      ensures Valid()
      ensures Written() == old(Written()) + if old(idx) == 0 then data[..|data| - SENDBUFSZ] else data
    {
      var head := SENDBUFSZ - idx;
      var remaining := |data| - head;
      var at := 0;
      if idx > 0 {
        Complete(data[..head]);
        at := head;
        TwoSlices(old(Written()), data, head, |data|);
        assert data[..|data|] == data;
      } else {
        assert wire + buf[..0] == wire;
      }
      SendBlocks(data[at..at + remaining]);
    }

    method Complete(data: seq<byte>)
      requires Valid() && |data| == SENDBUFSZ - idx
      modifies this`wire, buf
      ensures wire == old(Written()) + data
    {
      Copy(idx, data);
      Three(wire, old(buf[..idx]), data);
      wire := wire + buf[..SENDBUFSZ];
    }

    /** Whole blocks go out directly, the rest waits in the buffer. */
    method SendBlocks(data: seq<byte>)
      requires buf.Length == SENDBUFSZ
      modifies this`wire, this`idx, buf
      ensures Valid() && Written() == old(wire) + data
    {
      var blocks := |data| / SENDBUFSZ * SENDBUFSZ;
      var tail := |data| % SENDBUFSZ;
      if blocks > 0 {
        wire := wire + data[..blocks];
      }
      assert wire == old(wire) + data[..blocks];
      Copy(0, data[blocks..blocks + tail]);
      idx := tail;
      assert buf[..tail] == data[blocks..];
      TwoSlices(old(wire), data, blocks, |data|);
      assert data[..|data|] == data && data[blocks..|data|] == data[blocks..];
    }

    method Flush()
      requires Valid()
      modifies this`wire, this`idx
      ensures Valid() && idx == 0 && wire == Written() == old(Written())
    {
      if idx > 0 {
        wire := wire + buf[..idx];
        idx := 0;
      }
    }

    method SendFrames(rs: seq<seq<byte>>)
      requires Valid() && Fit(rs, SENDBUFSZ)
      modifies this`wire, this`idx, buf
      ensures Valid() && Written() == old(Written()) + Frames(rs)
    {
      hide Frame, Cmd, Le;
      for i := 0 to |rs|
        invariant Valid() && Written() + Frames(rs[i..]) == old(Written()) + Frames(rs)
      {
        assert rs[i..][1..] == rs[i + 1..];
        ghost var before := Written();
        Send(Cmd(ROW));
        Send(Le(|rs[i]|, 8));
        Send(rs[i]);
        FrameParts(before, rs[i]);
        assert before + (Frame(rs[i]) + Frames(rs[i + 1..])) == before + Frame(rs[i]) + Frames(rs[i + 1..]);
      }
    }

    /** The reply to a SELECT after its text header. System columns are not shown. */
    method SendTable(cols: seq<Column>, rows: seq<seq<byte>>)
      requires Valid() && Fit(rows, SENDBUFSZ) && Fit(Shown(cols), SENDBUFSZ)
      modifies this`wire, this`idx, buf
      ensures Valid() && idx == 0 && wire == old(Written()) + Table(Shown(cols), rows)
    {
      hide Cmd, Frames, Shown, Fit;
      ghost var start := Written();
      Send(Cmd(TABHEADER));
      var shown := ShownColumns(cols);
      SendFrames(shown);
      Send(Cmd(END));
      Send(Cmd(TABDATA));
      SendFrames(rows);
      Send(Cmd(END));
      Flush();
      TableParts(start, shown, rows);
    }
  }

  lemma TableParts(start: seq<byte>, cols: seq<seq<byte>>, rows: seq<seq<byte>>)
    ensures start + Cmd(TABHEADER) + Frames(cols) + Cmd(END) + Cmd(TABDATA) + Frames(rows) + Cmd(END) == start + Table(cols, rows)
  {
    hide Cmd, Frames;
    var a, b, c := Cmd(TABHEADER), Frames(cols), Cmd(END);
    Assoc(start, a, b, c);
    Assoc(start, a + b + c, Cmd(TABDATA), Frames(rows));
    Three(start, a + b + c + Cmd(TABDATA) + Frames(rows), c);
  }

  lemma FrameParts(before: seq<byte>, r: seq<byte>)
    ensures before + Cmd(ROW) + Le(|r|, 8) + r == before + Frame(r)
  {
    hide Cmd, Le;
    Assoc(before, Cmd(ROW), Le(|r|, 8), r);
  }

  lemma Assoc(a: seq<byte>, b: seq<byte>, c: seq<byte>, d: seq<byte>)
    ensures a + b + c + d == a + (b + c + d)
  {
  }

  datatype Column = Column(name: string, image: seq<byte>)

  function Shown(cols: seq<Column>): seq<seq<byte>> {
    if cols == [] then []
    else (if cols[0].name != [] && cols[0].name[0] == '*' then [] else [cols[0].image]) + Shown(cols[1..])
  }

  /** Column by column, in order: those whose name starts with an asterisk are left out. */
  lemma {:induction false} ShownJoins(a: seq<Column>, b: seq<Column>, c: Column)
    ensures Shown(a + b) == Shown(a) + Shown(b)
    ensures Shown([c]) == if c.name != [] && c.name[0] == '*' then [] else [c.image]
    decreases |a|
  {
    ShownFirst([c]);
    if a == [] {
      assert a + b == b;
    } else {
      ShownJoins(a[1..], b, c);
      assert (a + b)[0] == a[0] && (a + b)[1..] == a[1..] + b;
      ShownFirst(a + b);
      ShownFirst(a);
      hide Shown;
      ImagesAppended(if a[0].name != [] && a[0].name[0] == '*' then [] else [a[0].image], Shown(a[1..]), Shown(b));
    }
  }

  lemma ShownFirst(cols: seq<Column>)
    requires cols != []
    ensures Shown(cols) == (if cols[0].name != [] && cols[0].name[0] == '*' then [] else [cols[0].image]) + Shown(cols[1..])
  {
  }

  lemma ImagesAppended(a: seq<seq<byte>>, b: seq<seq<byte>>, c: seq<seq<byte>>)
    ensures (a + b) + c == a + (b + c)
  {
  }

  method ShownColumns(cols: seq<Column>) returns (out: seq<seq<byte>>)
    ensures out == Shown(cols)
  {
    hide Shown;
    out := [];
    assert cols[0..] == cols;
    for i := 0 to |cols|
      invariant out + Shown(cols[i..]) == Shown(cols)
    {
      ShownAt(cols, i, out);
      if cols[i].name != [] && cols[i].name[0] == '*' {
        continue;
      }
      out := out + [cols[i].image];
    }
    ShownOver(cols, out);
  }

  lemma ShownAt(cols: seq<Column>, i: nat, done: seq<seq<byte>>)
    requires i < |cols|
    ensures var rest := Shown(cols[i + 1..]);
      done + Shown(cols[i..]) == if cols[i].name != [] && cols[i].name[0] == '*' then done + rest else (done + [cols[i].image]) + rest
  {
    assert cols[i..][0] == cols[i] && cols[i..][1..] == cols[i + 1..];
    var rest := Shown(cols[i + 1..]);
    assert [] + rest == rest;
    assert done + ([cols[i].image] + rest) == (done + [cols[i].image]) + rest;
  }

  lemma ShownOver(cols: seq<Column>, done: seq<seq<byte>>)
    ensures done + Shown(cols[|cols|..]) == done
  {
  }

  // ----- the client's buffer

  const COLUMNSZ: nat := 40

  /** A column record: as many bytes of the row as both have, in front. */
  predicate Copied(image: seq<byte>, row: seq<byte>) {
    var m := if |row| < COLUMNSZ then |row| else COLUMNSZ;
    |image| == COLUMNSZ && image[..m] == row[..m]
  }

  ghost predicate AllCopied(images: seq<seq<byte>>, rows: seq<seq<byte>>) {
    |images| == |rows| && forall i {:trigger images[i]} {:trigger rows[i]} :: 0 <= i < |rows| ==> Copied(images[i], rows[i])
  }

  /** The client's columns are what was sent if and only if every one was sent at the client's size. */
  lemma CopiedExactly(images: seq<seq<byte>>, rows: seq<seq<byte>>)
    requires AllCopied(images, rows)
    ensures images == rows <==> forall i {:trigger rows[i]} :: 0 <= i < |rows| ==> |rows[i]| == COLUMNSZ
  {
    if forall i {:trigger rows[i]} :: 0 <= i < |rows| ==> |rows[i]| == COLUMNSZ {
      forall i | 0 <= i < |rows|
        ensures images[i] == rows[i]
      {
        assert Copied(images[i], rows[i]);
        assert images[i][..COLUMNSZ] == images[i] && rows[i][..COLUMNSZ] == rows[i];
      }
    }
    if images == rows {
      forall i {:trigger rows[i]} | 0 <= i < |rows|
        ensures |rows[i]| == COLUMNSZ
      {
        assert Copied(images[i], rows[i]);
      }
    }
  }

  lemma SamePrefix(s: seq<byte>, t: seq<byte>, m: nat)
    requires m <= |s| && m <= |t| && forall k :: 0 <= k < m ==> s[k] == t[k]
    ensures s[..m] == t[..m]
  {
    forall k | 0 <= k < m
      ensures s[..m][k] == t[..m][k]
    {
    }
  }

  const FULLSZ: nat := 2 * BUFSZ

  class Receiver {
    var socket: seq<byte>  // what the server sent and the client has not received
    const rbuf: array<byte>
    var rlen: nat
    var rpos: nat

    constructor (incoming: seq<byte>)
      ensures Valid() && Pending() == incoming && fresh(rbuf)
    {
      socket, rlen, rpos := incoming, 0, 0;
      rbuf := new byte[FULLSZ](_ => 0);
    }

    predicate Valid()
      reads this
    {
      rbuf.Length == FULLSZ && rpos <= rlen <= FULLSZ
    }

    /** Everything not yet handed out. */
    function Pending(): seq<byte>
      requires Valid()
      reads this, rbuf
    {
      rbuf[rpos..rlen] + socket
    }

    /** Moves the bytes not yet handed out to the front. */
    method Compact()
      requires Valid()
      modifies this`rlen, this`rpos, rbuf
      ensures Valid() && rpos == 0 && rlen == old(rlen - rpos) && rbuf[rpos..rlen] == old(rbuf[rpos..rlen])
    {
      var valid := rlen - rpos;
      if valid > 0 && rpos > 0 {
        forall k | 0 <= k < valid {
          rbuf[k] := rbuf[rpos + k];
        }
      }
      rlen, rpos := valid, 0;
    }

    /** Receives some bytes, as many as the network likes, if there are any; there is always room for them. */
    method Refill() returns (ok: bool)
      requires Valid() && rlen - rpos < BUFSZ
      modifies this`socket, this`rlen, this`rpos, rbuf
      ensures Valid() && Pending() == old(Pending())
      ensures ok <==> old(socket) != []
      ensures ok ==> |socket| < |old(socket)|
      ensures !ok ==> socket == []
    {
      var space := FULLSZ - rlen;
      if space < BUFSZ {
        Compact();
        space := FULLSZ - rlen;
      }
      if socket == [] {
        return false;
      }
      var n :| 1 <= n <= space && n <= |socket|;
      Receive(n);
      ok := true;
    }

    /** The next `n` bytes from the socket go behind those in the buffer. */
    method Receive(n: nat)
      requires Valid() && n <= |socket| && rlen + n <= FULLSZ
      modifies this`socket, this`rlen, rbuf
      ensures Valid() && Pending() == old(Pending()) && socket == old(socket)[n..]
    {
      ghost var bytes := rbuf[rpos..rlen];
      forall k | 0 <= k < n {
        rbuf[rlen + k] := socket[k];
      }
      assert rbuf[rpos..rlen + n] == bytes + socket[..n];
      Three(bytes, socket[..n], socket[n..]);
      assert socket[..n] + socket[n..] == socket;
      rlen := rlen + n;
      socket := socket[n..];
    }

    /** The next `size` bytes, however they come in. */
    method RecvBlock(size: nat) returns (status: Status, p: seq<byte>)
      requires Valid()
      modifies this`socket, this`rlen, this`rpos, rbuf
      ensures Valid()
      ensures status == if size > BUFSZ then Overflow else if |old(Pending())| < size then Closed else Good
      ensures if status == Good then old(Pending()) == p + Pending() && |p| == size else p == [] && Pending() == old(Pending())
      ensures status == Good ==> size <= rpos && rbuf[rpos - size..rpos] == p
    {
      p := [];
      if size > BUFSZ {
        return Overflow, p;
      }
      while rlen - rpos < size
        invariant Valid() && Pending() == old(Pending())
        decreases |socket|
      {
        var ok := Refill();
        if !ok {
          return Closed, p;
        }
      }
      p := rbuf[rpos..rpos + size];
      assert rbuf[rpos..rlen] == p + rbuf[rpos + size..rlen];
      rpos := rpos + size;
      status := Good;
    }

    method RecvCmd() returns (status: Status, cmd: nat)
      requires Valid()
      modifies this`socket, this`rlen, this`rpos, rbuf
      ensures Valid() && status == if |old(Pending())| < 4 then Closed else Good
      ensures status == Good ==> cmd == Value(old(Pending())[..4]) && Pending() == old(Pending())[4..]
      ensures status != Good ==> cmd == 0 && Pending() == old(Pending())
    {
      cmd := 0;
      var p;
      status, p := RecvBlock(4);
      if status == Good {
        cmd := Value(p);
      }
    }

    /** One row: what the bytes on their way hold, independent of how they are split. */
    method RecvRow() returns (r: Fetched)
      requires Valid()
      modifies this`socket, this`rlen, this`rpos, rbuf
      ensures Valid() && r == Strip(TakeRow(old(Pending())))
      ensures r.Fetched? ==> |r.row| <= rpos && rbuf[rpos - |r.row|..rpos] == r.row
      ensures !r.Failed? ==> Pending() == TakeRow(old(Pending())).rest
    {
      hide Value, Receiver.Pending;
      ghost var bs := Pending();
      var status, cmd := RecvCmd();
      if cmd == END {
        return NoMore;
      }
      if cmd == TABHEADER || cmd == TABDATA {
        return Failed(Protocol);
      }
      if cmd != ROW {
        return Failed(Unknown);
      }
      var p;
      status, p := RecvBlock(8);
      if status != Good {
        return Failed(status);
      }
      Twelve(bs, p, Pending());
      var size := Value(p);
      status, p := RecvBlock(size);
      if status != Good {
        return Failed(status);
      }
      Behind(bs, p, Pending(), 12);
      r := Fetched(p);
    }

    /** A column record of the client's own size, copied from where the row just received begins. If the row was shorter
        the bytes behind it are copied along; past the buffer, whatever is there. */
    method CopyColumn(ghost row: seq<byte>, size: nat) returns (image: seq<byte>)
      requires Valid() && size == |row| <= rpos && rbuf[rpos - size..rpos] == row
      ensures Copied(image, row)
    {
      var at := rpos - size;
      var end := if at + COLUMNSZ <= FULLSZ then at + COLUMNSZ else FULLSZ;
      image := rbuf[at..end] + seq(COLUMNSZ - (end - at), _ => 0);
      ghost var m := if size < COLUMNSZ then size else COLUMNSZ;
      forall k | 0 <= k < m
        ensures image[k] == row[k]
      {
        assert row[k] == rbuf[at..rpos][k] == rbuf[at + k];
      }
      SamePrefix(image, row, m);
    }

    /** The columns up to the end mark. */
    method RecvColumns() returns (status: Status, columns: seq<seq<byte>>)
      requires Valid()
      modifies this`socket, this`rlen, this`rpos, rbuf
      ensures Valid() && var all := TakeRows(old(Pending()));
        match all
        case Rows(rs, rest) => status == Good && AllCopied(columns, rs) && Pending() == rest
        case Broken(st) => status == st && st != Good
    {
      hide TakeRow, Copied;
      columns := [];
      ghost var rows := [];
      status := Good;
      while true
        invariant Valid() && AllCopied(columns, rows)
        invariant TakeRows(old(Pending())) == After(rows, TakeRows(Pending()))
        decreases |Pending()|
      {
        RowsShrink(Pending());
        BadIsNotGood(Pending());
        ghost var now := Pending();
        var r := RecvRow();
        match r {
          case NoMore => return;
          case Failed(st) => return st, columns;
          case Fetched(row) =>
            var image := CopyColumn(row, |row|);
            assert TakeRows(now) == After([row], TakeRows(Pending()));
            AfterTwice(rows, row, TakeRows(Pending()));
            columns, rows := columns + [image], rows + [row];
        }
      }
    }

    /** The columns of a reply, up to the start of its rows. */
    method Query() returns (status: Status, columns: seq<seq<byte>>)
      requires Valid()
      modifies this`socket, this`rlen, this`rpos, rbuf
      ensures Valid() && var h := TakeHead(old(Pending()));
        status == h.status && (status == Good ==> AllCopied(columns, h.columns) && Pending() == h.rest)
    {
      hide Value, TakeRow, AllCopied;
      ghost var bs := Pending();
      columns := [];
      var cmd;
      status, cmd := RecvCmd();
      if status != Good {
        return;
      }
      if cmd != TABHEADER {
        return Misplaced(cmd), columns;
      }
      status, columns := RecvColumns();
      if status != Good {
        return;
      }
      status, cmd := RecvCmd();
      if status == Good && cmd != TABDATA {
        status := Misplaced(cmd);
      }
    }

    /** Rows up to the end mark. */
    method RecvRows() returns (status: Status, rows: seq<seq<byte>>)
      requires Valid()
      modifies this`socket, this`rlen, this`rpos, rbuf
      ensures Valid() && var all := TakeRows(old(Pending()));
        match all
        case Rows(rs, rest) => status == Good && rows == rs && Pending() == rest
        case Broken(st) => status == st && st != Good
    {
      hide TakeRow;
      rows := [];
      status := Good;
      while true
        invariant Valid()
        invariant TakeRows(old(Pending())) == After(rows, TakeRows(Pending()))
        decreases |Pending()|
      {
        RowsShrink(Pending());
        BadIsNotGood(Pending());
        ghost var now := Pending();
        var r := RecvRow();
        match r {
          case NoMore => return;
          case Failed(st) => return st, rows;
          case Fetched(row) =>
            assert TakeRows(now) == After([row], TakeRows(Pending()));
            AfterTwice(rows, row, TakeRows(Pending()));
            rows := rows + [row];
        }
      }
    }
  }

  datatype Fetched = Fetched(row: seq<byte>) | NoMore | Failed(status: Status)

  function Strip(t: Taken): Fetched {
    match t
    case Row(row, _) => Fetched(row)
    case End(_) => NoMore
    case Bad(status) => Failed(status)
  }

  /** `rows` in front of what else is read. */
  function After(rows: seq<seq<byte>>, more: TakenAll): TakenAll {
    if more.Broken? then more else Rows(rows + more.rows, more.rest)
  }

  lemma AfterTwice(rows: seq<seq<byte>>, row: seq<byte>, more: TakenAll)
    ensures After(rows, After([row], more)) == After(rows + [row], more)
  {
    if more.Rows? {
      assert rows + ([row] + more.rows) == rows + [row] + more.rows;
    }
  }

  lemma BadIsNotGood(bs: seq<byte>)
    ensures TakeRow(bs).Bad? ==> TakeRow(bs).status != Good
  {
  }

  /** A command that is not the expected one. */
  function Misplaced(cmd: nat): Status {
    if TABHEADER <= cmd <= END then Protocol else Unknown
  }

  datatype TableHead = TableHead(status: Status, columns: seq<seq<byte>>, rest: seq<byte>)

  /** The columns at the start of `bs` and where the rows begin. */
  function TakeHead(bs: seq<byte>): TableHead {
    if |bs| < 4 then TableHead(Closed, [], [])
    else if Value(bs[..4]) != TABHEADER then TableHead(Misplaced(Value(bs[..4])), [], [])
    else
      match TakeRows(bs[4..])
      case Broken(status) => TableHead(status, [], [])
      case Rows(columns, rest) =>
        if |rest| < 4 then TableHead(Closed, [], [])
        else if Value(rest[..4]) == TABDATA then TableHead(Good, columns, rest[4..])
        else TableHead(Misplaced(Value(rest[..4])), [], [])
  }

  /** The same for what comes where the columns or the rows should begin. */
  lemma WrongHead(cmd: nat, cols: seq<seq<byte>>, rest: seq<byte>)
    requires cmd < 256 && Fit(cols, BUFSZ + 1)
    ensures var wrong := if TABHEADER <= cmd <= END then Protocol else Unknown;
      && (cmd != TABHEADER ==> TakeHead(Cmd(cmd) + rest).status == wrong)
      && (cmd != TABDATA ==> TakeHead(Cmd(TABHEADER) + (Frames(cols) + Cmd(END) + (Cmd(cmd) + rest))).status == wrong)
  {
    hide Value, Cmd, Frames, TakeRows, Fit;
    CmdTrip(cmd, rest);
    CmdTrip(TABHEADER, Frames(cols) + Cmd(END) + (Cmd(cmd) + rest));
    FramesTrip(cols, Cmd(cmd) + rest);
  }

  /** What the server writes for a table is read as that table. */
  lemma TableTrip(cols: seq<seq<byte>>, rows: seq<seq<byte>>, rest: seq<byte>)
    requires Fit(cols, BUFSZ + 1) && Fit(rows, BUFSZ + 1)
    ensures var h := TakeHead(Table(cols, rows) + rest);
      h.status == Good && h.columns == cols && TakeRows(h.rest) == Rows(rows, rest)
  {
    hide Value, Cmd, Frames, TakeRows, Fit;
    var tail := Frames(rows) + Cmd(END) + rest;
    var data := Cmd(TABDATA) + tail;
    var head := Frames(cols) + Cmd(END) + data;
    assert Table(cols, rows) + rest == Cmd(TABHEADER) + head;
    CmdTrip(TABHEADER, head);
    FramesTrip(cols, data);
    CmdTrip(TABDATA, tail);
    FramesTrip(rows, rest);
  }

  lemma ColumnsFit(rs: seq<seq<byte>>)
    requires forall i {:trigger rs[i]} :: 0 <= i < |rs| ==> |rs[i]| == COLUMNSZ
    ensures Fit(rs, SENDBUFSZ)
  {
  }

  lemma FitMore(rs: seq<seq<byte>>)
    requires Fit(rs, SENDBUFSZ)
    ensures Fit(rs, BUFSZ + 1)
  {
  }

  /** From one end to the other: the client gets exactly the shown columns and the rows, in order, however the stream is
      split on the way. */
  method Exchange(cols: seq<Column>, rows: seq<seq<byte>>) returns (columns: seq<seq<byte>>, got: seq<seq<byte>>)
    requires Fit(rows, SENDBUFSZ) && forall i {:trigger Shown(cols)[i]} :: 0 <= i < |Shown(cols)| ==> |Shown(cols)[i]| == COLUMNSZ
    ensures columns == Shown(cols) && got == rows
  {
    hide AllCopied, Value, Cmd, Frames, TakeRows, Fit, Table, TakeHead, Shown;
    FitMore(rows);
    ColumnsFit(Shown(cols));
    FitMore(Shown(cols));
    TableTrip(Shown(cols), rows, []);
    var server := new Sender();
    server.SendTable(cols, rows);
    assert server.wire == Table(Shown(cols), rows) + [];
    var client := new Receiver(server.wire);
    var status;
    status, columns := client.Query();
    CopiedExactly(columns, Shown(cols));
    status, got := client.RecvRows();
  }
}
