/** The per-connection server of serve.c: the `serve` command loop, its
    single-read `Readn_timeo`, and the `stat` lookups `get_file_size` and
    `get_file_timestamp` over an abstract file table. */
module Serve {
  import opened Bytes
  import opened Stream
  import opened SockWrap

  /** `BUFFLEN`, the size of the command buffer. */
  const BUFFLEN: nat := 64
  /** The size of the `filename` array the accepted name is copied into. */
  const FILENAME_LEN: nat := 30

  /** What the server's file system knows about a name: its bytes, its
      modification time (`st_mtime`), whether `access(name, R_OK)` succeeds
      and whether `fopen(name, "r")` does. */
  datatype FileEntry = FileEntry(content: seq<byte>, mtime: int, readable: bool, opens: bool)

  type Files = map<seq<byte>, FileEntry>

  /** `get_file_size`: `st_size` as `unsigned`, or `(unsigned)-1` when
      `stat` fails. The result is unsigned, so the caller's `< 0` test never
      holds. */
  function FileSize(fs: Files, name: seq<byte>): (r: u32)
    ensures name !in fs ==> r == TWO32 - 1
    ensures name in fs ==> (r - |fs[name].content|) % TWO32 == 0
    ensures name in fs && |fs[name].content| < TWO32 ==> r == |fs[name].content|
  {
    if name in fs then Wrap32(|fs[name].content|) else Wrap32(-1)
  }

  /** `get_file_timestamp`: `st_mtime` as `unsigned`, or `(unsigned)-1`. */
  function FileTimestamp(fs: Files, name: seq<byte>): (r: u32)
    ensures name !in fs ==> r == TWO32 - 1
    ensures name in fs ==> (r - fs[name].mtime) % TWO32 == 0
    ensures name in fs && 0 <= fs[name].mtime < TWO32 ==> r == fs[name].mtime
  {
    if name in fs then Wrap32(fs[name].mtime) else Wrap32(-1)
  }

  /** `access(name, R_OK) != -1`. */
  predicate Accessible(fs: Files, name: seq<byte>)
  {
    name in fs && fs[name].readable
  }

  /** The state of the connection the server acts on, as a value. */
  datatype Peer = Peer(inbound: seq<Arrival>, writes: seq<Acceptance>, sendfiles: seq<Transmission>)

  /** Why the server answered `-ERR\r\n` and closed. */
  datatype Refusal =
    | IllegalCommand   // the first four bytes are neither "GET " nor "QUIT"
    | LineFailed       // readline_unbuffered failed
    | NoCrlf           // the GET line does not end in "\r\n"
    | Traversal        // the name contains "../"
    | NotFound         // access() fails
    | OpenFailed       // fopen() fails
    | BadQuit          // "QUIT" not followed by "\r\n"

  /** Where the GET branch reaches outside an array. What the C program
      does from there on is undefined; the model writes nothing more and
      leaves the loop. */
  datatype Overrun =
    | CrlfBeforeBuf      // a line count below 2: the test of serve.c:82 reads before `buf`
    | FilenameOverflow   // a name of 30 bytes or more: `strcpy` writes past `filename[30]`

  /** How `serve` left its loop. Every ending closes the connection once. */
  datatype Ending =
    | ReadFailed            // Readn_timeo returned a negative count: no reply
    | Quit                  // "QUIT\r\n": no reply
    | Refused(why: Refusal) // "-ERR\r\n" was written (a failed write is only logged)
    | ReplyBroken           // writing "+OK\r\n", the size or the timestamp failed
    | ShortSend             // sendfile sent less than the size: Close and return
    | Undefined(at: Overrun) // an access outside an array: no reply

  /** One pass of the `while (1)` loop: the bytes written and the connection
      after it, and whether the loop goes on. */
  datatype StepResult =
    | Next(out: seq<byte>, peer: Peer)
    | End(out: seq<byte>, ending: Ending, peer: Peer)

  /** What the server wrote in one pass fits the way the pass ended: a
      pass that goes on, or that ends on a short `sendfile`, began its reply
      with "+OK\r\n"; a refusal wrote at most "-ERR\r\n"; leaving on a
      failed read, on QUIT or at an access outside an array wrote nothing. */
  predicate Answered(r: StepResult)
  {
    (r.Next? ==> OK_REPLY <= r.out) &&
    (r.End? ==>
       (r.ending == ShortSend ==> OK_REPLY <= r.out) &&
       (r.ending.Refused? ==> r.out <= ERR_REPLY) &&
       (r.ending == ReadFailed || r.ending == Quit || r.ending.Undefined? ==> r.out == []))
  }

  /** The first `k` bytes of a cleared buffer into which a read stored `d`:
      what `strncmp(buf, ..., k)` looks at. */
  lemma ClearedFront(d: seq<byte>, k: nat, n: nat)
    requires |d| <= k <= n
    ensures (d + Zeros(n)[|d|..])[..k] == Pad(d, k)
  {
  }

  /** Writing "-ERR\r\n" with `writen` and leaving the loop. */
  function Refuse(p: Peer, why: Refusal): (r: StepResult)
    ensures r.End? && r.ending == Refused(why) && r.peer.inbound == p.inbound
    ensures r.out <= ERR_REPLY && Answered(r)
  {
    var v := WritenSpec(p.writes, ERR_REPLY);
    End(Sent(v, ERR_REPLY), Refused(why), p.(writes := v.rest))
  }

  /** On a connection that refuses no write the whole "-ERR\r\n" goes out. */
  lemma RefuseDelivers(p: Peer, why: Refusal)
    requires NoRefusal(p.writes)
    ensures Refuse(p, why).out == ERR_REPLY
  {
    WritenDelivers(p.writes, ERR_REPLY);
  }

  /** The corrected test of serve.c:82: the line `buf` holds, `len` bytes
      long, ends in "\r\n". A line shorter than two bytes does not. */
  predicate EndsWithCrlf(buf: seq<byte>, len: int)
  {
    2 <= len <= |buf| && buf[len - 2] == CR && buf[len - 1] == LF
  }

  /** The name an accepted GET line carries: `buf[len - 2] = '\0'`, then the
      C string `strcpy` copies. */
  function RequestedName(buf: seq<byte>, len: int): (name: seq<byte>)
    requires 2 <= len <= |buf|
    ensures |name| <= len - 2 && NUL !in name
  {
    CStringStops(buf[len - 2 := NUL], len - 2);
    CString(buf[len - 2 := NUL])
  }

  /** The file part of a GET request, once the name is known. */
  function FileStep(p: Peer, fs: Files, name: seq<byte>): (r: StepResult)
    ensures r.peer.inbound == p.inbound && Answered(r)
    ensures r.End? ==> r.ending.Refused? || r.ending == ReplyBroken || r.ending == ShortSend
  {
    if Contains(name, TRAVERSAL) then Refuse(p, Traversal)
    else if !Accessible(fs, name) then Refuse(p, NotFound)
    else if !fs[name].opens then Refuse(p, OpenFailed)
    else Reply(p, FileSize(fs, name), FileTimestamp(fs, name), fs[name].content)
  }

  /** The reply to a GET of a file that opened: "+OK\r\n", the size and
      the time stamp in network byte order, then `sendfile` of the file. */
  function Reply(p: Peer, dim: u32, ts: u32, content: seq<byte>): (r: StepResult)
    ensures r.peer.inbound == p.inbound && Answered(r)
    ensures r.End? ==> r.ending == ReplyBroken || r.ending == ShortSend
  {
    var v1 := WritenSpec(p.writes, OK_REPLY);
    if v1.Undelivered? then End(v1.sent, ReplyBroken, p.(writes := v1.rest))
    else
      var v2 := WritenSpec(v1.rest, EncodeBE(dim));
      if v2.Undelivered? then End(OK_REPLY + v2.sent, ReplyBroken, p.(writes := v2.rest))
      else
        var v3 := WritenSpec(v2.rest, EncodeBE(ts));
        if v3.Undelivered? then End(OK_REPLY + EncodeBE(dim) + v3.sent, ReplyBroken, p.(writes := v3.rest))
        else
          var available := if dim < |content| then dim else |content|;
          var (sent, sfs) := SendfileOnce(p.sendfiles, available);
          var out := OK_REPLY + EncodeBE(dim) + EncodeBE(ts) + (if sent >= 0 then content[..sent] else []);
          var peer := Peer(p.inbound, v3.rest, sfs);
          var bytesent := Wrap32(sent);
          if bytesent == dim then Next(out, peer)
          else if bytesent < dim then End(out, ShortSend, peer)
          else Next(out, peer)
  }

  /** The GET branch, after the first four bytes were "GET ": the test of
      serve.c:82 and the `strcpy` of serve.c:89 as written, each ending in
      `Undefined` where it reaches outside its array. */
  function GetStep(p: Peer, fs: Files): (r: StepResult)
    ensures Size(r.peer.inbound) <= Size(p.inbound) && Answered(r)
    ensures r.End? ==> r.ending != ReadFailed && r.ending != Quit
  {
    var o := Line(p.inbound, BUFFLEN);
    LineLoopUses(p.inbound, [], BUFFLEN);
    var p1 := p.(inbound := o.rest);
    if o.code < 0 then Refuse(p1, LineFailed)
    else
      var buf := Deposit(Zeros(BUFFLEN), o.code, o.stored);
      match CrlfCheckAsWritten(buf, o.code)
      case None => End([], Undefined(CrlfBeforeBuf), p1)
      case Some(crlf) =>
        if !crlf then Refuse(p1, NoCrlf)
        else
          var name := RequestedName(buf, o.code);
          if StrcpyAsWritten(name).None? then End([], Undefined(FilenameOverflow), p1)
          else FileStep(p1, fs, name)
  }

  /** The QUIT branch, after the first four bytes were "QUIT". */
  function QuitStep(p: Peer): (r: StepResult)
    ensures r.End? && Answered(r)
    ensures r.ending == ReadFailed || r.ending == Quit || r.ending == Refused(BadQuit)
  {
    var (rr, rest) := ReadOnce(p.inbound, 2);
    var p1 := p.(inbound := rest);
    if rr.Failed? then End([], ReadFailed, p1)
    else if Pad(Received(rr), 2) == CRLF then End([], Quit, p1)
    else Refuse(p1, BadQuit)
  }

  /** One pass of the loop of `serve`. */
  function Step(p: Peer, fs: Files): (r: StepResult)
    ensures r.Next? ==> Size(r.peer.inbound) < Size(p.inbound)
    ensures Answered(r)
  {
    var (rr, rest) := ReadOnce(p.inbound, 4);
    var p1 := p.(inbound := rest);
    if rr.Failed? then End([], ReadFailed, p1)
    else
      var head := Pad(Received(rr), 4);
      if head == GET then GetStep(p1, fs)
      else if head == QUIT then QuitStep(p1)
      else Refuse(p1, IllegalCommand)
  }

  /** What a whole `serve` call did. */
  datatype Session = Session(out: seq<byte>, ending: Ending, peer: Peer)

  /** The loop of `serve` once `out` has been written. */
  function ServeLoop(p: Peer, fs: Files, out: seq<byte>): (s: Session)
    decreases Size(p.inbound)
  {
    match Step(p, fs)
    case Next(o, p') => ServeLoop(p', fs, out + o)
    case End(o, e, p') => Session(out + o, e, p')
  }

  /** One turn of the loop that goes on. */
  lemma ServeLoopNext(p: Peer, fs: Files, out: seq<byte>, r: StepResult)
    requires r == Step(p, fs) && r.Next?
    ensures ServeLoop(p, fs, out) == ServeLoop(r.peer, fs, out + r.out)
  {
  }

  /** The turn that ends the loop. */
  lemma ServeLoopEnd(p: Peer, fs: Files, out: seq<byte>, r: StepResult)
    requires r == Step(p, fs) && r.End?
    ensures ServeLoop(p, fs, out) == Session(out + r.out, r.ending, r.peer)
  {
  }

  /** `serve(connfd, host)`. */
  function ServeSpec(p: Peer, fs: Files): Session
  {
    ServeLoop(p, fs, [])
  }

  /* ---------------------------------------------------------------------- */
  /* What the protocol promises                                             */

  /** The test of the GET line on the buffer a line read left: it holds
      exactly when the bytes stored end in "\r\n" and the count returned
      is theirs, and the name is then the C string of what precedes the
      "\r\n". */
  lemma DepositAccepts(before: seq<byte>, code: int, stored: seq<byte>)
    requires |stored| < |before| && (code <= 0 || code == |stored| || code == |stored| + 1)
    ensures var buf := Deposit(before, code, stored);
            (EndsWithCrlf(buf, code) <==>
               code == |stored| && 2 <= |stored| && stored[|stored| - 2..] == CRLF) &&
            (EndsWithCrlf(buf, code) ==> RequestedName(buf, code) == CString(stored[..|stored| - 2]))
  {
    var k := |stored|;
    var buf := Deposit(before, code, stored);
    DepositShape(before, code, stored);
    if code <= 0 {
    } else if code == k + 1 {
      assert buf[k] == NUL;
    } else if code == k && k >= 2 {
      assert buf[k - 2] == stored[k - 2] && buf[k - 1] == stored[k - 1];
      assert stored[k - 2..] == [stored[k - 2], stored[k - 1]];
      if EndsWithCrlf(buf, code) {
        assert buf[k - 2 := NUL] == stored[..k - 2] + [NUL] + buf[k - 1..];
        CStringCut(stored[..k - 2], buf[k - 1..]);
      }
    }
  }

  /** The GET branch accepts a line exactly when the line read stored bytes
      ending in "\r\n" and returned their count. */
  lemma CrlfAccepts(s: seq<Arrival>)
    ensures var o := Line(s, BUFFLEN);
            var buf := Deposit(Zeros(BUFFLEN), o.code, o.stored);
            (EndsWithCrlf(buf, o.code) <==>
               o.code == |o.stored| && 2 <= |o.stored| && o.stored[|o.stored| - 2..] == CRLF) &&
            (EndsWithCrlf(buf, o.code) ==> RequestedName(buf, o.code) == CString(o.stored[..|o.stored| - 2]))
  {
    var o := Line(s, BUFFLEN);
    LineContract(s, BUFFLEN);
    DepositAccepts(Zeros(BUFFLEN), o.code, o.stored);
  }

  /** A "name\r\n" line that has arrived whole is read whole, accepted,
      and carries `name`. */
  lemma NameLine(name: seq<byte>, rest: seq<Arrival>)
    requires LF !in name && NUL !in name && |name| + 2 < BUFFLEN
    ensures var o := Line(Feed(name + CRLF, rest), BUFFLEN);
            var buf := Deposit(Zeros(BUFFLEN), o.code, o.stored);
            o == LineOutcome(|name| + 2, name + CRLF, rest) &&
            EndsWithCrlf(buf, o.code) && RequestedName(buf, o.code) == name
  {
    var line := name + CRLF;
    assert line[|name| + 1] == LF && line[..|name| + 1] == name + [CR];
    LineLoopFeed(line, |name| + 1, rest, [], BUFFLEN);
    assert line[|name| + 2..] == [] && line[..|name| + 2] == line;
    var o := Line(Feed(line, rest), BUFFLEN);
    DepositAccepts(Zeros(BUFFLEN), o.code, o.stored);
    assert line[|line| - 2..] == CRLF && line[..|line| - 2] == name;
    CStringUnique(name, name);
  }

  /** A well-formed "name\r\n" after "GET ", with a name that fits
      `filename`, reaches the file part with that name and what follows the
      line. */
  lemma GetLineAccepted(name: seq<byte>, rest: seq<Arrival>, ws: seq<Acceptance>, sf: seq<Transmission>, fs: Files)
    requires LF !in name && NUL !in name && |name| < FILENAME_LEN
    ensures GetStep(Peer(Feed(name + CRLF, rest), ws, sf), fs) == FileStep(Peer(rest, ws, sf), fs, name)
  {
    NameLine(name, rest);
  }

  /** Every way the GET branch can judge the line it read: a failed read
      and a line that does not end in "\r\n" (one too long for `buf`
      included) are refused, with exactly "-ERR\r\n" on a connection that
      takes every byte; a count below 2 and a name too long for `filename`
      reach outside an array; any other line passes its name to the file
      part. */
  lemma GetLineJudged(p: Peer, fs: Files)
    ensures var o := Line(p.inbound, BUFFLEN);
            var p1 := p.(inbound := o.rest);
            var accepted := o.code == |o.stored| && 2 <= |o.stored| && o.stored[|o.stored| - 2..] == CRLF;
            (o.code < 0 ==> GetStep(p, fs) == Refuse(p1, LineFailed)) &&
            (0 <= o.code < 2 ==> GetStep(p, fs) == End([], Undefined(CrlfBeforeBuf), p1)) &&
            (2 <= o.code && !accepted ==> GetStep(p, fs) == Refuse(p1, NoCrlf)) &&
            (NoRefusal(p.writes) && (o.code < 0 || (2 <= o.code && !accepted)) ==> GetStep(p, fs).out == ERR_REPLY) &&
            (accepted ==>
               var name := CString(o.stored[..|o.stored| - 2]);
               GetStep(p, fs) == if |name| < FILENAME_LEN then FileStep(p1, fs, name)
                                 else End([], Undefined(FilenameOverflow), p1))
  {
    var o := Line(p.inbound, BUFFLEN);
    var p1 := p.(inbound := o.rest);
    LineContract(p.inbound, BUFFLEN);
    CrlfAccepts(p.inbound);
    if 0 <= o.code {
      var buf := Deposit(Zeros(BUFFLEN), o.code, o.stored);
      assert |buf| == BUFFLEN;
      if 2 <= o.code {
        CrlfCheckAgrees(buf, o.code);
      }
    }
    if NoRefusal(p.writes) {
      RefuseDelivers(p1, LineFailed);
      RefuseDelivers(p1, NoCrlf);
    }
  }

  /** On a connection that takes every byte and a `sendfile` that moves the
      whole file, the reply is "+OK\r\n", the two words and the file. */
  lemma ReplyDelivers(p: Peer, ts: u32, content: seq<byte>)
    requires |content| < TWO32
    requires NoRefusal(p.writes) && (p.sendfiles == [] || (p.sendfiles[0].Moves? && p.sendfiles[0].limit >= |content|))
    ensures var r := Reply(p, |content|, ts, content);
            r.Next? && r.out == OK_REPLY + EncodeBE(|content|) + EncodeBE(ts) + content
  {
    var v1 := WritenSpec(p.writes, OK_REPLY);
    WritenDelivers(p.writes, OK_REPLY);
    WritenDelivers(v1.rest, EncodeBE(|content|));
    WritenDelivers(WritenSpec(v1.rest, EncodeBE(|content|)).rest, EncodeBE(ts));
    assert content[..|content|] == content;
  }

  /** A well-formed "GET name\r\n" for a readable file, on a connection
      that takes every byte, is answered with "+OK\r\n", the size and the
      time stamp in network byte order and the whole file, and the loop goes
      on with what follows the request. */
  lemma GetServed(name: seq<byte>, rest: seq<Arrival>, ws: seq<Acceptance>, sf: seq<Transmission>, fs: Files)
    requires LF !in name && NUL !in name && |name| < FILENAME_LEN
    requires !Contains(name, TRAVERSAL) && Accessible(fs, name) && fs[name].opens
    requires |fs[name].content| < TWO32
    requires NoRefusal(ws) && (sf == [] || (sf[0].Moves? && sf[0].limit >= |fs[name].content|))
    ensures var r := Step(Peer(Feed(GET + name + CRLF, rest), ws, sf), fs);
            r.Next? && r.peer.inbound == rest &&
            r.out == OK_REPLY + EncodeBE(|fs[name].content|) + EncodeBE(FileTimestamp(fs, name)) + fs[name].content
  {
    var d := GET + name + CRLF;
    var p := Peer(Feed(d, rest), ws, sf);
    assert p.inbound[0] == Data(d) && p.inbound[1..] == rest;
    assert d[..4] == GET && d[4..] == name + CRLF;
    assert ReadOnce(p.inbound, 4) == (Got(GET), Feed(name + CRLF, rest));
    GetLineAccepted(name, rest, ws, sf, fs);
    ReplyDelivers(Peer(rest, ws, sf), FileTimestamp(fs, name), fs[name].content);
  }

  /** "QUIT\r\n" ends the loop without a reply. */
  lemma QuitEnds(rest: seq<Arrival>, ws: seq<Acceptance>, sf: seq<Transmission>, fs: Files)
    ensures Step(Peer(Feed(QUIT_CMD, rest), ws, sf), fs) == End([], Quit, Peer(rest, ws, sf))
  {
    var p := Peer(Feed(QUIT_CMD, rest), ws, sf);
    assert p.inbound[0] == Data(QUIT_CMD) && p.inbound[1..] == rest;
    assert QUIT_CMD[..4] == QUIT && QUIT_CMD[4..] == CRLF;
    assert ReadOnce(p.inbound, 4) == (Got(QUIT), Feed(CRLF, rest));
    var s1 := Feed(CRLF, rest);
    assert s1[0] == Data(CRLF) && s1[1..] == rest;
    assert ReadOnce(s1, 2) == (Got(CRLF), rest);
    assert Pad(QUIT, 4) == QUIT && Pad(CRLF, 2) == CRLF && QUIT != GET;
  }

  /** `Readn_timeo` reads once: when that read returns fewer than four
      bytes the command is refused as illegal, even if the bytes that
      arrive next would complete "GET " or "QUIT". */
  lemma ShortReadRefused(p: Peer, fs: Files)
    requires !ReadOnce(p.inbound, 4).0.Failed? && |Received(ReadOnce(p.inbound, 4).0)| < 4
    ensures Step(p, fs) == Refuse(p.(inbound := ReadOnce(p.inbound, 4).1), IllegalCommand)
  {
    var head := Pad(Received(ReadOnce(p.inbound, 4).0), 4);
    assert head[3] == NUL;
    assert GET[3] != NUL && QUIT[3] != NUL;
  }

  /** Four bytes read at once that are neither "GET " nor "QUIT" are
      refused as an illegal command, with exactly "-ERR\r\n" on a connection
      that takes every byte. */
  lemma IllegalCommandRefused(p: Peer, fs: Files)
    requires ReadOnce(p.inbound, 4).0.Got? && |ReadOnce(p.inbound, 4).0.bytes| == 4
    requires ReadOnce(p.inbound, 4).0.bytes != GET && ReadOnce(p.inbound, 4).0.bytes != QUIT
    ensures Step(p, fs) == Refuse(p.(inbound := ReadOnce(p.inbound, 4).1), IllegalCommand)
    ensures NoRefusal(p.writes) ==> Step(p, fs).out == ERR_REPLY
  {
    var head := ReadOnce(p.inbound, 4).0.bytes;
    assert Pad(head, 4) == head;
    if NoRefusal(p.writes) {
      RefuseDelivers(p.(inbound := ReadOnce(p.inbound, 4).1), IllegalCommand);
    }
  }

  /** "QUIT" followed by two bytes other than "\r\n" is refused. */
  lemma BadQuitRefused(tail: seq<byte>, rest: seq<Arrival>, ws: seq<Acceptance>, sf: seq<Transmission>, fs: Files)
    requires |tail| == 2 && tail != CRLF
    ensures Step(Peer(Feed(QUIT + tail, rest), ws, sf), fs) == Refuse(Peer(rest, ws, sf), BadQuit)
  {
    var p := Peer(Feed(QUIT + tail, rest), ws, sf);
    assert p.inbound[0] == Data(QUIT + tail) && p.inbound[1..] == rest;
    assert (QUIT + tail)[..4] == QUIT && (QUIT + tail)[4..] == tail;
    assert ReadOnce(p.inbound, 4) == (Got(QUIT), Feed(tail, rest));
    var s1 := Feed(tail, rest);
    assert s1[0] == Data(tail) && s1[1..] == rest;
    assert ReadOnce(s1, 2) == (Got(tail), rest);
    assert Pad(QUIT, 4) == QUIT && Pad(tail, 2) == tail && QUIT != GET;
  }

  /** A file `access` rejects, or one `fopen` cannot open, is refused; on
      a connection that takes every byte exactly "-ERR\r\n" goes out. */
  lemma UnservableRefused(p: Peer, fs: Files, name: seq<byte>)
    requires !Contains(name, TRAVERSAL) && NoRefusal(p.writes)
    ensures !Accessible(fs, name) ==> FileStep(p, fs, name) == Refuse(p, NotFound) && Refuse(p, NotFound).out == ERR_REPLY
    ensures Accessible(fs, name) && !fs[name].opens ==>
              FileStep(p, fs, name) == Refuse(p, OpenFailed) && Refuse(p, OpenFailed).out == ERR_REPLY
  {
    RefuseDelivers(p, NotFound);
    RefuseDelivers(p, OpenFailed);
  }

  /** A failing `sendfile` returns -1, which the `uint32_t` `bytesent`
      holds as 2^32 - 1, never below the size: the loop goes on as after a
      full send, although only the header went out. */
  lemma SendfileFailureGoesOn(p: Peer, dim: u32, ts: u32, content: seq<byte>)
    requires NoRefusal(p.writes) && p.sendfiles != [] && p.sendfiles[0] == SendfileFails
    ensures var r := Reply(p, dim, ts, content);
            r.Next? && r.out == OK_REPLY + EncodeBE(dim) + EncodeBE(ts) && r.peer.sendfiles == p.sendfiles[1..]
  {
    var v1 := WritenSpec(p.writes, OK_REPLY);
    WritenDelivers(p.writes, OK_REPLY);
    WritenDelivers(v1.rest, EncodeBE(dim));
    WritenDelivers(WritenSpec(v1.rest, EncodeBE(dim)).rest, EncodeBE(ts));
    assert Wrap32(-1) == TWO32 - 1;
  }

  /** A `sendfile` that moves fewer bytes than the size ends the session,
      the bytes it moved being the last output. */
  lemma ShortSendEnds(p: Peer, dim: u32, ts: u32, content: seq<byte>)
    requires NoRefusal(p.writes) && p.sendfiles != [] && p.sendfiles[0].Moves? && p.sendfiles[0].limit < dim
    ensures var sent := if p.sendfiles[0].limit < |content| then p.sendfiles[0].limit else |content|;
            var r := Reply(p, dim, ts, content);
            r.End? && r.ending == ShortSend && r.out == OK_REPLY + EncodeBE(dim) + EncodeBE(ts) + content[..sent]
  {
    var v1 := WritenSpec(p.writes, OK_REPLY);
    WritenDelivers(p.writes, OK_REPLY);
    WritenDelivers(v1.rest, EncodeBE(dim));
    WritenDelivers(WritenSpec(v1.rest, EncodeBE(dim)).rest, EncodeBE(ts));
  }

  /** A name holding "../" is refused before the file system is asked. */
  lemma TraversalRefused(p: Peer, fs: Files, name: seq<byte>)
    requires Contains(name, TRAVERSAL)
    ensures FileStep(p, fs, name) == Refuse(p, Traversal)
  {
  }

  /** The loop only appends to what it has written: a session's output is
      what was written before it followed by its own. */
  lemma {:induction false} ServeLoopAppends(p: Peer, fs: Files, out: seq<byte>)
    ensures ServeLoop(p, fs, out).out == out + ServeSpec(p, fs).out
    decreases Size(p.inbound)
  {
    var r := Step(p, fs);
    assert [] + r.out == r.out;
    if r.Next? {
      ServeLoopNext(p, fs, out, r);
      ServeLoopNext(p, fs, [], r);
      ServeLoopAppends(r.peer, fs, out + r.out);
      ServeLoopAppends(r.peer, fs, r.out);
      ConcatAssoc(out, r.out, ServeSpec(r.peer, fs).out);
    } else {
      ServeLoopEnd(p, fs, out, r);
      ServeLoopEnd(p, fs, [], r);
    }
  }

  /* ---------------------------------------------------------------------- */
  /* serve.c as written, where it differs from the evident intent            */

  /** serve.c:82 as written: `buf[len - 2]` and `buf[len - 1]` are read
      whatever the count; for a count below 2 they lie before `buf`
      (`None`). */
  function CrlfCheckAsWritten(buf: seq<byte>, len: int): (r: Option<bool>)
    ensures r.Some? <==> 2 <= len <= |buf|
  {
    if 2 <= len <= |buf| then Some(buf[len - 2] == CR && buf[len - 1] == LF) else None
  }

  /** Where the test of serve.c:82 reads inside the buffer it agrees with
      the corrected `EndsWithCrlf`. */
  lemma CrlfCheckAgrees(buf: seq<byte>, len: int)
    requires CrlfCheckAsWritten(buf, len).Some?
    ensures CrlfCheckAsWritten(buf, len).value == EndsWithCrlf(buf, len)
  {
  }

  /** "GET \n", or "GET " followed by the end of the stream, makes
      `readline_unbuffered` return 1 or 0, and the test of serve.c:82 then
      reads before the start of `buf`: the GET branch ends undefined. */
  lemma CrlfCheckUnderflows(rest: seq<Arrival>, ws: seq<Acceptance>, sf: seq<Transmission>, fs: Files)
    ensures var o := Line(Feed([LF], rest), BUFFLEN);
            o.code == 1 && CrlfCheckAsWritten(Deposit(Zeros(BUFFLEN), o.code, o.stored), o.code) == None
    ensures var o := Line([], BUFFLEN);
            o.code == 0 && CrlfCheckAsWritten(Deposit(Zeros(BUFFLEN), o.code, o.stored), o.code) == None
    ensures GetStep(Peer(Feed([LF], rest), ws, sf), fs) == End([], Undefined(CrlfBeforeBuf), Peer(rest, ws, sf))
    ensures GetStep(Peer([], ws, sf), fs) == End([], Undefined(CrlfBeforeBuf), Peer([], ws, sf))
  {
    LineLoopFeed([LF], 0, rest, [], BUFFLEN);
  }

  /** serve.c:89 as written: `strcpy` of the name into `char filename[30]`;
      a name of 30 bytes or more (with its NUL) does not fit (`None`). */
  function StrcpyAsWritten(name: seq<byte>): (r: Option<seq<byte>>)
    ensures r.Some? <==> |name| < FILENAME_LEN
    ensures r.Some? ==> |r.value| == FILENAME_LEN && r.value[..|name|] == name && r.value[|name|] == NUL
  {
    if |name| < FILENAME_LEN then Some(Pad(name, FILENAME_LEN)) else None
  }

  /** A 30-byte name passes every check before the copy and overflows
      `filename`: the GET branch ends undefined. */
  lemma StrcpyOverflows(rest: seq<Arrival>, ws: seq<Acceptance>, sf: seq<Transmission>, fs: Files)
    ensures var name := seq(FILENAME_LEN, _ => 97 as byte);
            var o := Line(Feed(name + CRLF, rest), BUFFLEN);
            var buf := Deposit(Zeros(BUFFLEN), o.code, o.stored);
            EndsWithCrlf(buf, o.code) && RequestedName(buf, o.code) == name &&
            StrcpyAsWritten(name) == None &&
            GetStep(Peer(Feed(name + CRLF, rest), ws, sf), fs) == End([], Undefined(FilenameOverflow), Peer(rest, ws, sf))
  {
    NameLine(seq(FILENAME_LEN, _ => 97 as byte), rest);
  }

  /** Corrected: the name an accepted line carries, with its NUL, always
      fits in a buffer of `BUFFLEN` bytes, which is where the model keeps
      it. */
  lemma NameFits(buf: seq<byte>, len: int)
    requires |buf| == BUFFLEN && EndsWithCrlf(buf, len)
    ensures |RequestedName(buf, len)| + 1 < BUFFLEN
  {
  }

  /* ---------------------------------------------------------------------- */
  /* The server as the code runs it                                         */

  /** `Readn_timeo(fd, buf, nbytes, host)`: a single `read`, whatever it
      returns; `timedOut` says whether the timeout message was logged
      rather than the generic one. */
  method ReadnTimeo(conn: Socket, buf: array<byte>, nbytes: nat) returns (n: int, timedOut: bool)
    requires 0 < nbytes <= buf.Length
    modifies conn`inbound, buf
    ensures var r := ReadOnce(old(conn.inbound), nbytes).0;
            n == ReturnCount(r) && conn.inbound == ReadOnce(old(conn.inbound), nbytes).1 &&
            buf[..] == Received(r) + old(buf[..])[|Received(r)|..] &&
            timedOut == (r == Failed(EWOULDBLOCK))
  {
    var r := conn.Read(nbytes);
    timedOut := false;
    match r
    case Got(d) =>
      StoreFront(buf, d);
      n := |d|;
    case Eof =>
      assert buf[..][0..] == buf[..];
      n := 0;
    case Failed(e) =>
      assert buf[..][0..] == buf[..];
      timedOut := e == EWOULDBLOCK;
      n := -1;
  }

  /** `strncpy(buf, "-ERR\r\n", 6); if (writen(connfd, buf, 6) != 6) err_ret(...);`
      followed by `break`. */
  method ReplyErr(conn: Socket, why: Refusal) returns (ending: Ending)
    modifies conn`outbound, conn`writes
    ensures var r := Refuse(old(Peer(conn.inbound, conn.writes, conn.sendfiles)), why);
            conn.outbound == old(conn.outbound) + r.out &&
            Peer(conn.inbound, conn.writes, conn.sendfiles) == r.peer && ending == r.ending
  {
    var w := Writen(conn, ERR_REPLY);
    ending := Refused(why);
  }

  /** serve.c from the "../" test to the `sendfile` checks, once the name
      was copied into `filename`. */
  method ServeFile(conn: Socket, fs: Files, name: seq<byte>) returns (more: bool, ending: Ending)
    modifies conn`outbound, conn`writes, conn`sendfiles
    ensures var r := FileStep(old(Peer(conn.inbound, conn.writes, conn.sendfiles)), fs, name);
            conn.outbound == old(conn.outbound) + r.out &&
            Peer(conn.inbound, conn.writes, conn.sendfiles) == r.peer &&
            more == r.Next? && (r.End? ==> ending == r.ending)
  {
    ending := ReplyBroken;
    if Contains(name, TRAVERSAL) {
      ending := ReplyErr(conn, Traversal);
      return false, ending;
    }
    if !(name in fs && fs[name].readable) {
      ending := ReplyErr(conn, NotFound);
      return false, ending;
    }
    var dimension := FileSize(fs, name);
    var timestamp := FileTimestamp(fs, name);
    if !fs[name].opens {
      ending := ReplyErr(conn, OpenFailed);
      return false, ending;
    }
    more, ending := SendReply(conn, dimension, timestamp, fs[name].content);
  }

  /** serve.c from the "+OK" reply to the `sendfile` checks. */
  method SendReply(conn: Socket, dimension: u32, timestamp: u32, content: seq<byte>) returns (more: bool, ending: Ending)
    modifies conn`outbound, conn`writes, conn`sendfiles
    ensures var r := Reply(old(Peer(conn.inbound, conn.writes, conn.sendfiles)), dimension, timestamp, content);
            conn.outbound == old(conn.outbound) + r.out &&
            Peer(conn.inbound, conn.writes, conn.sendfiles) == r.peer &&
            more == r.Next? && (r.End? ==> ending == r.ending)
  {
    ending := ReplyBroken;
    ghost var out0 := conn.outbound;
    var w := Writen(conn, OK_REPLY);
    if w != |OK_REPLY| {
      return false, ReplyBroken;
    }
    var dimBytes := EncodeBE(dimension);
    w := Writen(conn, dimBytes);
    ConcatAssoc(out0, OK_REPLY, conn.outbound[|out0| + |OK_REPLY|..]);
    if w != 4 {
      return false, ReplyBroken;
    }
    ghost var head := OK_REPLY + dimBytes;
    ConcatAssoc(out0, OK_REPLY, dimBytes);
    var tsBytes := EncodeBE(timestamp);
    w := Writen(conn, tsBytes);
    ConcatAssoc(out0, head, conn.outbound[|out0| + |head|..]);
    if w != 4 {
      return false, ReplyBroken;
    }
    ConcatAssoc(out0, head, tsBytes);
    head := head + tsBytes;
    var sent := conn.Sendfile(content, dimension);
    ConcatAssoc(out0, head, conn.outbound[|out0| + |head|..]);
    var bytesent := Wrap32(sent);
    if bytesent == dimension {
      more := true;
    } else if bytesent < dimension {
      return false, ShortSend;
    } else {
      more := true;
    }
  }

  /** The GET branch of serve.c (lines 58-213), after "GET " was read. */
  method ServeGet(conn: Socket, buf: array<byte>, fs: Files) returns (more: bool, ending: Ending)
    requires buf.Length == BUFFLEN
    modifies conn`inbound, conn`outbound, conn`writes, conn`sendfiles, buf
    ensures var r := GetStep(old(Peer(conn.inbound, conn.writes, conn.sendfiles)), fs);
            conn.outbound == old(conn.outbound) + r.out &&
            Peer(conn.inbound, conn.writes, conn.sendfiles) == r.peer &&
            more == r.Next? && (r.End? ==> ending == r.ending)
  {
    ghost var p0 := Peer(conn.inbound, conn.writes, conn.sendfiles);
    Clear(buf);
    var len := ReadlineUnbuffered(conn, buf, BUFFLEN);
    ghost var line := buf[..];
    ghost var p1 := Peer(conn.inbound, conn.writes, conn.sendfiles);
    if len < 0 {
      ending := ReplyErr(conn, LineFailed);
      return false, ending;
    }
    if !(2 <= len <= buf.Length) {
      assert CrlfCheckAsWritten(line, len) == None;
      assert GetStep(p0, fs) == End([], Undefined(CrlfBeforeBuf), p1);
      return false, Undefined(CrlfBeforeBuf);
    }
    assert CrlfCheckAsWritten(line, len) == Some(line[len - 2] == CR && line[len - 1] == LF);
    if !(buf[len - 2] == CR && buf[len - 1] == LF) {
      ending := ReplyErr(conn, NoCrlf);
      return false, ending;
    }
    buf[len - 2] := NUL;
    var name := CString(buf[..]);
    assert buf[..] == line[len - 2 := NUL];
    if FILENAME_LEN <= |name| {
      assert GetStep(p0, fs) == End([], Undefined(FilenameOverflow), p1);
      return false, Undefined(FilenameOverflow);
    }
    assert GetStep(p0, fs) == FileStep(p1, fs, name);
    more, ending := ServeFile(conn, fs, name);
  }

  /** The QUIT branch of serve.c (lines 214-238), after "QUIT" was read. */
  method ServeQuit(conn: Socket, buf: array<byte>) returns (ending: Ending)
    requires buf.Length == BUFFLEN
    modifies conn`inbound, conn`outbound, conn`writes, buf
    ensures var r := QuitStep(old(Peer(conn.inbound, conn.writes, conn.sendfiles)));
            conn.outbound == old(conn.outbound) + r.out &&
            Peer(conn.inbound, conn.writes, conn.sendfiles) == r.peer && ending == r.ending
  {
    Clear(buf);
    var n, timedOut := ReadnTimeo(conn, buf, 2);
    if n < 0 {
      return ReadFailed;
    }
    ClearedFront(buf[..n], 2, BUFFLEN);
    if buf[..2] == CRLF {
      return Quit;
    }
    ending := ReplyErr(conn, BadQuit);
  }

  /** One pass of the `while (1)` loop of `serve`. */
  method ServeOnce(conn: Socket, buf: array<byte>, fs: Files) returns (more: bool, ending: Ending)
    requires buf.Length == BUFFLEN
    modifies conn`inbound, conn`outbound, conn`writes, conn`sendfiles, buf
    ensures var r := Step(old(Peer(conn.inbound, conn.writes, conn.sendfiles)), fs);
            conn.outbound == old(conn.outbound) + r.out &&
            Peer(conn.inbound, conn.writes, conn.sendfiles) == r.peer &&
            more == r.Next? && (r.End? ==> ending == r.ending)
  {
    Clear(buf);
    var n, timedOut := ReadnTimeo(conn, buf, 4);
    if n < 0 {
      return false, ReadFailed;
    }
    ClearedFront(buf[..n], 4, BUFFLEN);
    if buf[..4] == GET {
      more, ending := ServeGet(conn, buf, fs);
    } else if buf[..4] == QUIT {
      ending := ServeQuit(conn, buf);
      more := false;
    } else {
      ending := ReplyErr(conn, IllegalCommand);
      more := false;
    }
  }

  /** The `while (1)` loop of `serve`: requests are served until one
      ends the session. */
  method ServeRequests(conn: Socket, fs: Files) returns (ending: Ending)
    modifies conn`inbound, conn`outbound, conn`writes, conn`sendfiles
    ensures var s := ServeSpec(old(Peer(conn.inbound, conn.writes, conn.sendfiles)), fs);
            conn.outbound == old(conn.outbound) + s.out &&
            Peer(conn.inbound, conn.writes, conn.sendfiles) == s.peer && ending == s.ending
  {
    var buf := new byte[BUFFLEN];
    ghost var s := ServeSpec(Peer(conn.inbound, conn.writes, conn.sendfiles), fs);
    ghost var out: seq<byte> := [];
    while true
      invariant s == ServeLoop(Peer(conn.inbound, conn.writes, conn.sendfiles), fs, out)
      invariant conn.outbound == old(conn.outbound) + out
      decreases Size(conn.inbound)
    {
      ghost var p := Peer(conn.inbound, conn.writes, conn.sendfiles);
      ghost var r := Step(p, fs);
      var more;
      more, ending := ServeOnce(conn, buf, fs);
      if !more {
        ServeLoopEnd(p, fs, out, r);
        ConcatAssoc(old(conn.outbound), out, r.out);
        return;
      }
      ServeLoopNext(p, fs, out, r);
      ConcatAssoc(old(conn.outbound), out, r.out);
      out := out + r.out;
    }
  }

  /** `serve(connfd, host)`: the loop, then `Close(connfd)`; the short
      `sendfile` path closes and returns, every other ending breaks out
      of the loop and closes, so the socket is closed once either way. */
  method ServeConnection(conn: Socket, fs: Files) returns (ending: Ending)
    modifies conn
    ensures var s := ServeSpec(old(Peer(conn.inbound, conn.writes, conn.sendfiles)), fs);
            conn.outbound == old(conn.outbound) + s.out &&
            Peer(conn.inbound, conn.writes, conn.sendfiles) == s.peer && ending == s.ending
    ensures conn.closes == old(conn.closes) + 1
  {
    ending := ServeRequests(conn, fs);
    conn.Close();
  }
}
