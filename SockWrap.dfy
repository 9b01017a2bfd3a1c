/** The exact-count and line-oriented I/O loops of sockwrap.c: `readn`,
    `writen`, `sendn` and their terminating wrappers, `readline_unbuffered`,
    and the buffered `readline` built on the static `my_read` state. */
module SockWrap {
  import opened Bytes
  import opened Stream

  /* ---------------------------------------------------------------------- */
  /* Read                                                                    */

  /** `Read(fd, buf, k)`: `read` again after EINTR; any other error ends the
      process, which the caller sees as a `Failed` result. */
  function Reread(s: seq<Arrival>, k: nat): (res: (ReadReturn, seq<Arrival>))
    requires k > 0
    ensures res.0 != Failed(EINTR)
    ensures res.0.Eof? ==> res.1 == [] && Payload(s) == []
    ensures res.0.Got? ==> |res.0.bytes| <= k && Size(res.1) < Size(s)
    ensures res.0.Failed? ==> Size(res.1) < Size(s)
    decreases |s|
  {
    if s != [] && s[0] == Fault(EINTR) then
      PayloadHead(s);
      Reread(s[1..], k)
    else ReadOnce(s, k)
  }

  /** `Read` takes the stream's bytes in order and drops only interrupts
      and the one error that ended the process. */
  lemma {:induction false} RereadPayload(s: seq<Arrival>, k: nat)
    requires k > 0
    ensures var (r, rest) := Reread(s, k);
            Payload(s) == Received(r) + Payload(rest)
    decreases |s|
  {
    if s != [] && s[0] == Fault(EINTR) {
      PayloadHead(s);
      RereadPayload(s[1..], k);
    } else {
      ReadOncePayload(s, k);
    }
  }

  /** `Read(fd, buf, k)`. */
  method ReadRetrying(conn: Socket, buf: array<byte>, k: nat) returns (n: int)
    requires 0 < k <= buf.Length
    modifies conn`inbound, buf
    ensures var (r, rest) := Reread(old(conn.inbound), k);
            n == ReturnCount(r) && conn.inbound == rest &&
            buf[..] == Received(r) + old(buf[..])[|Received(r)|..]
  {
    ghost var s0 := conn.inbound;
    while true
      invariant Reread(conn.inbound, k) == Reread(s0, k)
      invariant buf[..] == old(buf[..])
      decreases |conn.inbound|
    {
      var r := conn.Read(k);
      match r
      case Got(d) =>
        StoreFront(buf, d);
        return |d|;
      case Eof =>
        assert buf[..][0..] == buf[..];
        return 0;
      case Failed(e) =>
        if e != EINTR {
          assert buf[..][0..] == buf[..];
          return -1;
        }
    }
  }

  /* ---------------------------------------------------------------------- */
  /* readn                                                                   */

  /** What a `readn` call did: all bytes it stored in the caller's buffer and
      the script left, plus, when it gave up, the error it saw. */
  datatype Transfer =
    | Moved(bytes: seq<byte>, rest: seq<Arrival>)
    | Broken(errno: Errno, bytes: seq<byte>, rest: seq<Arrival>)
  {
    /** The value `readn` returns. */
    function Count(): int
    {
      if Moved? then |bytes| else -1
    }
  }

  /** The `while (nleft > 0)` loop of `readn` once the bytes `got` are in
      the caller's buffer and `nleft` are still wanted. */
  function ReadnLoop(s: seq<Arrival>, nleft: nat, got: seq<byte>): (t: Transfer)
    ensures |got| <= |t.bytes| <= |got| + nleft
    ensures t.Moved? && |t.bytes| < |got| + nleft ==> t.rest == []
    ensures t.Broken? ==> t.errno != EINTR
    decreases Size(s)
  {
    if nleft == 0 then Moved(got, s)
    else
      var r := ReadOnce(s, nleft).0;
      var s' := ReadOnce(s, nleft).1;
      match r
      case Eof => Moved(got, [])
      case Failed(e) => if e == EINTR then ReadnLoop(s', nleft, got) else Broken(e, got, s')
      case Got(d) => ReadnLoop(s', nleft - |d|, got + d)
  }

  /** `readn(fd, vptr, n)`: read until `n` bytes have arrived, end-of-stream
      or an error other than EINTR. */
  function ReadnSpec(s: seq<Arrival>, n: nat): (t: Transfer)
    ensures |t.bytes| <= n
    ensures t.Moved? && |t.bytes| < n ==> t.rest == []
    ensures t.Broken? ==> t.errno != EINTR
  {
    ReadnLoop(s, n, [])
  }

  /** The bytes `readn` stores are the next bytes of the stream, in order,
      and the stream after the call holds the rest: nothing is lost,
      duplicated or reordered. */
  lemma {:induction false} ReadnLoopInOrder(s: seq<Arrival>, nleft: nat, got: seq<byte>)
    ensures got + Payload(s) == ReadnLoop(s, nleft, got).bytes + Payload(ReadnLoop(s, nleft, got).rest)
    decreases Size(s)
  {
    if nleft > 0 && s != [] {
      var r := ReadOnce(s, nleft).0;
      var s' := ReadOnce(s, nleft).1;
      if r.Failed? {
        if r.errno == EINTR {
          ReadnLoopInOrder(s', nleft, got);
        }
        InOrderFault(s, nleft, got);
      } else {
        ReadnLoopInOrder(s', nleft - |r.bytes|, got + r.bytes);
        InOrderGot(s, nleft, got);
      }
    }
  }

  lemma InOrderFault(s: seq<Arrival>, nleft: nat, got: seq<byte>)
    requires nleft > 0 && ReadOnce(s, nleft).0.Failed?
    requires var s' := ReadOnce(s, nleft).1;
             ReadOnce(s, nleft).0.errno == EINTR ==>
               got + Payload(s') == ReadnLoop(s', nleft, got).bytes + Payload(ReadnLoop(s', nleft, got).rest)
    ensures got + Payload(s) == ReadnLoop(s, nleft, got).bytes + Payload(ReadnLoop(s, nleft, got).rest)
  {
    assert Payload(s) == Payload(ReadOnce(s, nleft).1);
  }

  lemma InOrderGot(s: seq<Arrival>, nleft: nat, got: seq<byte>)
    requires nleft > 0 && ReadOnce(s, nleft).0.Got?
    requires var d := ReadOnce(s, nleft).0.bytes;
             var s' := ReadOnce(s, nleft).1;
             (got + d) + Payload(s') ==
               ReadnLoop(s', nleft - |d|, got + d).bytes + Payload(ReadnLoop(s', nleft - |d|, got + d).rest)
    ensures got + Payload(s) == ReadnLoop(s, nleft, got).bytes + Payload(ReadnLoop(s, nleft, got).rest)
  {
    var d := ReadOnce(s, nleft).0.bytes;
    var s' := ReadOnce(s, nleft).1;
    ReadOncePayload(s, nleft);
    assert got + (d + Payload(s')) == (got + d) + Payload(s');
  }

  lemma ReadnInOrder(s: seq<Arrival>, n: nat)
    ensures Payload(s) == ReadnSpec(s, n).bytes + Payload(ReadnSpec(s, n).rest)
  {
    ReadnLoopInOrder(s, n, []);
    assert [] + Payload(s) == Payload(s);
  }

  /** No error other than an interrupted call is scripted. */
  predicate NoHardFault(s: seq<Arrival>)
  {
    forall i :: 0 <= i < |s| ==> s[i].Fault? ==> s[i].errno == EINTR
  }

  /** One read leaves a script with no real error, and fails only by interruption. */
  lemma ReadOnceSoftFault(s: seq<Arrival>, k: nat)
    requires k > 0 && NoHardFault(s)
    ensures NoHardFault(ReadOnce(s, k).1)
    ensures ReadOnce(s, k).0.Failed? ==> ReadOnce(s, k).0.errno == EINTR
  {
    if s != [] {
      var s' := ReadOnce(s, k).1;
      assert s' == s[1..] || (s'[1..] == s[1..] && s'[0].Data?);
    }
  }

  lemma {:induction false} ReadnLoopCountsAll(s: seq<Arrival>, nleft: nat, got: seq<byte>)
    requires NoHardFault(s)
    ensures ReadnLoop(s, nleft, got).Moved?
    ensures |ReadnLoop(s, nleft, got).bytes| == |got| + if nleft <= |Payload(s)| then nleft else |Payload(s)|
    decreases Size(s)
  {
    if nleft > 0 && s != [] {
      var r := ReadOnce(s, nleft).0;
      var s' := ReadOnce(s, nleft).1;
      ReadOnceSoftFault(s, nleft);
      match r
      case Failed(e) =>
        assert Payload(s) == Payload(s');
        ReadnLoopCountsAll(s', nleft, got);
      case Got(d) =>
        ReadOncePayload(s, nleft);
        ReadnLoopCountsAll(s', nleft - |d|, got + d);
    }
  }

  /** On a connection with no real error, `readn` returns `n`, or everything
      that is left when fewer than `n` bytes remain before end-of-stream. */
  lemma ReadnCountsAll(s: seq<Arrival>, n: nat)
    requires NoHardFault(s)
    ensures ReadnSpec(s, n).Moved?
    ensures |ReadnSpec(s, n).bytes| == if n <= |Payload(s)| then n else |Payload(s)|
  {
    ReadnLoopCountsAll(s, n, []);
  }

  /** An interrupted read is retried without storing or counting anything. */
  lemma ReadnRetriesInterrupt(s: seq<Arrival>, n: nat)
    requires n > 0
    ensures ReadnSpec([Fault(EINTR)] + s, n) == ReadnSpec(s, n)
  {
    assert ([Fault(EINTR)] + s)[1..] == s;
  }

  /** `readn(fd, buf, n)`. The loop keeps `nleft`; `got` is what the reads
      put in the buffer so far, stored there when the loop ends (no one sees
      the buffer in between). `errno` is the error a failing read left in
      the global `errno`. */
  method Readn(conn: Socket, buf: array<byte>, n: nat) returns (r: int, errno: Errno)
    requires n <= buf.Length
    modifies conn`inbound, buf
    ensures var t := ReadnSpec(old(conn.inbound), n);
            r == t.Count() && (t.Broken? ==> errno == t.errno) && conn.inbound == t.rest &&
            buf[..] == t.bytes + old(buf[..])[|t.bytes|..]
  {
    ghost var t := ReadnSpec(conn.inbound, n);
    var got: seq<byte> := [];
    var nleft := n;
    errno := EINTR;
    while nleft > 0
      invariant |got| + nleft == n
      invariant t == ReadnLoop(conn.inbound, nleft, got)
      invariant unchanged(buf)
      decreases Size(conn.inbound)
    {
      var res := conn.Read(nleft);
      match res
      case Failed(e) =>
        if e == EINTR {
          continue;
        }
        assert t.bytes == got;
        StoreFront(buf, got);
        return -1, e;
      case Eof =>
        break;
      case Got(d) =>
        got := got + d;
        nleft := nleft - |d|;
    }
    assert t.bytes == got;
    StoreFront(buf, got);
    r := n - nleft;
  }

  /** What the `Readn` wrapper does with a `readn` result. */
  datatype ReadnVerdict = Returned(count: nat) | QuitTimeout | QuitFailure

  function Verdict(t: Transfer): (v: ReadnVerdict)
    ensures v.Returned? <==> t.Moved?
    ensures v.Returned? ==> v.count == t.Count()
    ensures v == QuitTimeout <==> t.Broken? && t.errno == EWOULDBLOCK
  {
    if t.Moved? then Returned(|t.bytes|)
    else if t.errno == EWOULDBLOCK then QuitTimeout
    else QuitFailure
  }

  /** `Readn`: a non-negative count, short or not, is passed through; a
      failure ends the process, with the timeout message when the read timed
      out. */
  method CheckedReadn(conn: Socket, buf: array<byte>, n: nat) returns (v: ReadnVerdict)
    requires n <= buf.Length
    modifies conn`inbound, buf
    ensures var t := ReadnSpec(old(conn.inbound), n);
            v == Verdict(t) && conn.inbound == t.rest && buf[..] == t.bytes + old(buf[..])[|t.bytes|..]
  {
    var r, errno := Readn(conn, buf, n);
    if r < 0 {
      v := if errno == EWOULDBLOCK then QuitTimeout else QuitFailure;
    } else {
      v := Returned(r);
    }
  }

  /* ---------------------------------------------------------------------- */
  /* writen and sendn                                                        */

  /** What a `writen` or `sendn` call did: the write results left, plus, when
      it gave up, the error and the bytes that had gone out before it. */
  datatype Delivery =
    | Delivered(rest: seq<Acceptance>)
    | Undelivered(errno: Errno, sent: seq<byte>, rest: seq<Acceptance>)

  /** The bytes of `data` that reached the peer. */
  function Sent(v: Delivery, data: seq<byte>): seq<byte>
  {
    if v.Delivered? then data else v.sent
  }

  /** The value `writen(fd, data, |data|)` returns: all or nothing. */
  function WriteCount(v: Delivery, data: seq<byte>): int
  {
    if v.Delivered? then |data| else -1
  }

  /** The `while (nleft > 0)` loop of `writen`/`sendn` once the first `ptr`
      bytes of `data` were accepted. A failure leaves a prefix of the data,
      at least those bytes and not all of it, with the peer. */
  function WritenLoop(ws: seq<Acceptance>, data: seq<byte>, ptr: nat): (v: Delivery)
    requires ptr <= |data|
    ensures v.Undelivered? ==> ptr <= |v.sent| < |data| && v.sent == data[..|v.sent|]
    ensures v.Undelivered? ==> v.errno != EINTR
    decreases |ws| + |data| - ptr
  {
    if ptr == |data| then Delivered(ws)
    else
      var (r, ws') := WriteOnce(ws, |data| - ptr);
      match r
      case Wrote(k) => WritenLoop(ws', data, ptr + k)
      case WriteFailed(e) => if e == EINTR then WritenLoop(ws', data, ptr) else Undelivered(e, data[..ptr], ws')
  }

  /** `writen`/`sendn`: write until every byte is accepted or a write fails
      with an error other than EINTR. */
  function WritenSpec(ws: seq<Acceptance>, data: seq<byte>): (v: Delivery)
    ensures v.Undelivered? ==> |v.sent| < |data| && v.sent == data[..|v.sent|]
    ensures v.Undelivered? ==> v.errno != EINTR
  {
    WritenLoop(ws, data, 0)
  }

  /** No write is refused with an error other than EINTR. */
  predicate NoRefusal(ws: seq<Acceptance>)
  {
    forall i :: 0 <= i < |ws| ==> ws[i].Refuses? ==> ws[i].errno == EINTR
  }

  lemma {:induction false} WritenLoopDelivers(ws: seq<Acceptance>, data: seq<byte>, ptr: nat)
    requires ptr <= |data| && NoRefusal(ws)
    ensures WritenLoop(ws, data, ptr).Delivered? && NoRefusal(WritenLoop(ws, data, ptr).rest)
    decreases |ws| + |data| - ptr
  {
    if ptr < |data| {
      var (r, ws') := WriteOnce(ws, |data| - ptr);
      assert ws' == [] || ws' == ws[1..];
      assert NoRefusal(ws');
      match r
      case Wrote(k) => WritenLoopDelivers(ws', data, ptr + k);
      case WriteFailed(e) => WritenLoopDelivers(ws', data, ptr);
    }
  }

  /** On a connection that refuses nothing, every byte is delivered. */
  lemma WritenDelivers(ws: seq<Acceptance>, data: seq<byte>)
    requires NoRefusal(ws)
    ensures WritenSpec(ws, data).Delivered? && NoRefusal(WritenSpec(ws, data).rest)
  {
    WritenLoopDelivers(ws, data, 0);
  }

  /** `writen(fd, data, |data|)`. */
  method Writen(conn: Socket, data: seq<byte>) returns (r: int)
    modifies conn`outbound, conn`writes
    ensures var v := WritenSpec(old(conn.writes), data);
            r == WriteCount(v, data) && conn.writes == v.rest &&
            conn.outbound == old(conn.outbound) + Sent(v, data)
  {
    ghost var v := WritenSpec(conn.writes, data);
    var nleft := |data|;
    var ptr := 0;
    while nleft > 0
      invariant 0 <= ptr <= |data| && ptr + nleft == |data|
      invariant v == WritenLoop(conn.writes, data, ptr)
      invariant conn.outbound == old(conn.outbound) + data[..ptr]
      decreases |conn.writes| + nleft
    {
      var w := conn.Write(data[ptr..]);
      match w
      case WriteFailed(e) =>
        if e == EINTR {
          continue;
        }
        return -1;
      case Wrote(k) =>
        assert data[..ptr] + data[ptr..][..k] == data[..ptr + k];
        nleft := nleft - k;
        ptr := ptr + k;
    }
    assert data[..ptr] == data;
    r := |data|;
  }

  /** `Writen`: a failed or short write is only logged (`logged`), and the
      caller carries on. */
  method LoggedWriten(conn: Socket, data: seq<byte>) returns (logged: bool)
    modifies conn`outbound, conn`writes
    ensures var v := WritenSpec(old(conn.writes), data);
            logged == v.Undelivered? && conn.writes == v.rest &&
            conn.outbound == old(conn.outbound) + Sent(v, data)
  {
    var r := Writen(conn, data);
    logged := r != |data|;
  }

  /** `sendn(fd, data, |data|, flags)`: the same loop over `send`; the flags
      are not modelled. */
  method Sendn(conn: Socket, data: seq<byte>) returns (r: int)
    modifies conn`outbound, conn`writes
    ensures var v := WritenSpec(old(conn.writes), data);
            r == WriteCount(v, data) && conn.writes == v.rest &&
            conn.outbound == old(conn.outbound) + Sent(v, data)
  {
    ghost var v := WritenSpec(conn.writes, data);
    var nleft := |data|;
    var ptr := 0;
    while nleft > 0
      invariant 0 <= ptr <= |data| && ptr + nleft == |data|
      invariant v == WritenLoop(conn.writes, data, ptr)
      invariant conn.outbound == old(conn.outbound) + data[..ptr]
      decreases |conn.writes| + nleft
    {
      var w := conn.Write(data[ptr..]);
      match w
      case WriteFailed(e) =>
        if e == EINTR {
          continue;
        }
        return -1;
      case Wrote(k) =>
        assert data[..ptr] + data[ptr..][..k] == data[..ptr + k];
        nleft := nleft - k;
        ptr := ptr + k;
    }
    assert data[..ptr] == data;
    r := |data|;
  }

  /** `Sendn`: unlike `Writen`, a failure ends the process (`quit`). */
  method CheckedSendn(conn: Socket, data: seq<byte>) returns (quit: bool)
    modifies conn`outbound, conn`writes
    ensures var v := WritenSpec(old(conn.writes), data);
            quit == v.Undelivered? && conn.writes == v.rest &&
            conn.outbound == old(conn.outbound) + Sent(v, data)
  {
    var r := Sendn(conn, data);
    quit := r != |data|;
  }

  /* ---------------------------------------------------------------------- */
  /* readline_unbuffered and readline                                        */

  /** What a line read did: the value returned, the bytes stored in the
      caller's buffer (a NUL follows them exactly when `code > 0`) and what
      is left of the stream it read one byte at a time. */
  datatype LineOutcome = LineOutcome(code: int, stored: seq<byte>, rest: seq<Arrival>)

  /** The `for (n = 1; n < maxlen; n++)` loop of `readline*` once the bytes
      `stored` are in the caller's buffer (so `n` is `|stored| + 1`), each
      iteration a read of one byte. */
  function LineLoop(s: seq<Arrival>, stored: seq<byte>, maxlen: int): (o: LineOutcome)
    ensures |stored| <= |o.stored| <= if |stored| + 1 < maxlen then maxlen - 1 else |stored|
    decreases Size(s)
  {
    var n := |stored| + 1;
    if n >= maxlen then LineOutcome(n, stored, s)
    else match ReadOnce(s, 1).0
      case Eof => LineOutcome(if n == 1 then 0 else n, stored, s)
      case Failed(_) => LineOutcome(-1, stored, ReadOnce(s, 1).1)
      case Got(d) =>
        if d[0] == LF then LineOutcome(n, stored + [LF], ReadOnce(s, 1).1)
        else LineLoop(ReadOnce(s, 1).1, stored + [d[0]], maxlen)
  }

  /** A whole `readline*(fd, buf, maxlen)` call. */
  function Line(s: seq<Arrival>, maxlen: int): (o: LineOutcome)
    ensures |o.stored| <= if maxlen > 1 then maxlen - 1 else 0
  {
    LineLoop(s, [], maxlen)
  }

  /** The caller's buffer after a line read that returned `code` and stored
      `stored`, given what the buffer held before. */
  function Deposit(before: seq<byte>, code: int, stored: seq<byte>): seq<byte>
    requires |stored| < |before|
  {
    if code > 0 then stored + [NUL] + before[|stored| + 1..] else stored + before[|stored|..]
  }

  /** A line read changes the buffer only where it stored bytes and the
      terminating NUL. */
  lemma DepositShape(before: seq<byte>, code: int, stored: seq<byte>)
    requires |stored| < |before|
    ensures var after := Deposit(before, code, stored);
            |after| == |before| && after[..|stored|] == stored &&
            (code > 0 ==> after[|stored|] == NUL && after[|stored| + 1..] == before[|stored| + 1..]) &&
            (code <= 0 ==> after[|stored|..] == before[|stored|..])
  {
  }

  /** One iteration of the line loop on a stream that has not ended. */
  lemma LineLoopUnfold(s: seq<Arrival>, stored: seq<byte>, maxlen: int)
    requires |stored| + 1 < maxlen && s != []
    ensures var r := ReadOnce(s, 1).0;
            var s' := ReadOnce(s, 1).1;
            (r.Failed? ==> LineLoop(s, stored, maxlen) == LineOutcome(-1, stored, s')) &&
            (r.Got? ==> r.bytes == [r.bytes[0]]) &&
            (r.Got? && r.bytes[0] == LF ==> LineLoop(s, stored, maxlen) == LineOutcome(|stored| + 1, stored + [LF], s')) &&
            (r.Got? && r.bytes[0] != LF ==> LineLoop(s, stored, maxlen) == LineLoop(s', stored + [r.bytes[0]], maxlen))
  {
  }

  /** The loop reads the stream in order: the bytes it stores are the next
      bytes of the stream. */
  lemma {:induction false} LineLoopInOrder(s: seq<Arrival>, stored: seq<byte>, maxlen: int)
    ensures var o := LineLoop(s, stored, maxlen);
            stored + Payload(s) == o.stored + Payload(o.rest)
    decreases Size(s)
  {
    if |stored| + 1 < maxlen && s != [] {
      var r := ReadOnce(s, 1).0;
      var s' := ReadOnce(s, 1).1;
      LineLoopUnfold(s, stored, maxlen);
      ReadOncePayload(s, 1);
      if r.Got? {
        var c := r.bytes[0];
        assert Payload(s) == [c] + Payload(s');
        assert stored + Payload(s) == (stored + [c]) + Payload(s');
        if c != LF {
          LineLoopInOrder(s', stored + [c], maxlen);
        }
      }
    }
  }

  /** The loop uses up one unit of the stream per byte it stores, and one
      more when it fails. */
  lemma {:induction false} LineLoopUses(s: seq<Arrival>, stored: seq<byte>, maxlen: int)
    ensures var o := LineLoop(s, stored, maxlen);
            |stored| + Size(s) == |o.stored| + Size(o.rest) + (if o.code == -1 then 1 else 0)
    decreases Size(s)
  {
    if |stored| + 1 < maxlen && s != [] {
      var r := ReadOnce(s, 1).0;
      var s' := ReadOnce(s, 1).1;
      LineLoopUnfold(s, stored, maxlen);
      ReadOncePayload(s, 1);
      if r.Got? && r.bytes[0] != LF {
        LineLoopUses(s', stored + [r.bytes[0]], maxlen);
      }
    }
  }

  /** The loop only appends to what is stored, and a '\n' can only be the
      last byte it appends. */
  lemma {:induction false} LineLoopAppends(s: seq<Arrival>, stored: seq<byte>, maxlen: int)
    ensures var o := LineLoop(s, stored, maxlen);
            o.stored[..|stored|] == stored &&
            forall i :: |stored| <= i < |o.stored| - 1 ==> o.stored[i] != LF
    decreases Size(s)
  {
    if |stored| + 1 < maxlen && s != [] && ReadOnce(s, 1).0.Got? {
      var c := ReadOnce(s, 1).0.bytes[0];
      if c != LF {
        var o := LineLoop(ReadOnce(s, 1).1, stored + [c], maxlen);
        LineLoopAppends(ReadOnce(s, 1).1, stored + [c], maxlen);
        assert o.stored[..|stored| + 1] == stored + [c];
        assert o.stored[..|stored|] == (stored + [c])[..|stored|];
      }
    }
  }

  /** What the loop returns: -1 or a count; a count equal to the bytes stored
      when a '\n' ended the line, one more otherwise, in which case the
      buffer is full or the stream ended; 0 only from end-of-stream before
      any byte. */
  lemma {:induction false} LineLoopCode(s: seq<Arrival>, stored: seq<byte>, maxlen: int)
    ensures var o := LineLoop(s, stored, maxlen);
            var k := |stored|;
            (o.code == -1 || o.code >= 0) &&
            (o.code > 0 && |o.stored| > k && o.stored[|o.stored| - 1] == LF ==> o.code == |o.stored|) &&
            (o.code > 0 && (|o.stored| == k || o.stored[|o.stored| - 1] != LF) ==>
               o.code == |o.stored| + 1 && (o.code >= maxlen || o.rest == [])) &&
            (o.code == 0 <==> k == 0 && 1 < maxlen && s == [])
    decreases Size(s)
  {
    if |stored| + 1 < maxlen && s != [] && ReadOnce(s, 1).0.Got? {
      var c := ReadOnce(s, 1).0.bytes[0];
      if c != LF {
        LineLoopCode(ReadOnce(s, 1).1, stored + [c], maxlen);
      } else {
        assert (stored + [c])[|stored|] == LF;
      }
    }
  }

  /** What one call of `readline*` promises its caller: at most `maxlen - 1`
      bytes stored, and they are the next bytes of the stream; -1 exactly
      when a read failed, which used up one unit of the stream beyond the
      bytes stored; 0 exactly for end-of-stream before any byte; a stored
      '\n' ends the line and the count then equals the bytes stored;
      otherwise the count is one more than the bytes stored, and the buffer
      is full or the stream has ended. */
  lemma LineContract(s: seq<Arrival>, maxlen: int)
    requires maxlen >= 1
    ensures var o := Line(s, maxlen);
            |o.stored| <= maxlen - 1 &&
            Payload(s) == o.stored + Payload(o.rest) &&
            Size(s) == |o.stored| + Size(o.rest) + (if o.code == -1 then 1 else 0) &&
            (o.code == -1 || o.code >= 0) &&
            (o.code == 0 <==> maxlen > 1 && s == []) &&
            (o.code > 0 && LF in o.stored ==> o.code == |o.stored| && o.stored[|o.stored| - 1] == LF) &&
            (o.code > 0 && LF !in o.stored ==>
               o.code == |o.stored| + 1 && (|o.stored| == maxlen - 1 || o.rest == []))
  {
    var o := Line(s, maxlen);
    LineLoopInOrder(s, [], maxlen);
    LineLoopUses(s, [], maxlen);
    LineLoopAppends(s, [], maxlen);
    LineLoopCode(s, [], maxlen);
    assert [] + Payload(s) == Payload(s);
    if o.code > 0 && LF in o.stored {
      var i :| 0 <= i < |o.stored| && o.stored[i] == LF;
      assert i == |o.stored| - 1;
    }
  }

  /** Moving the first byte of `d` over to what is stored. */
  lemma MoveHead(a: seq<byte>, d: seq<byte>, i: nat)
    requires i < |d|
    ensures (a + [d[0]]) + d[1..][..i] == a + d[..i + 1]
  {
    assert d[..i + 1] == [d[0]] + d[1..][..i];
    ConcatAssoc(a, [d[0]], d[1..][..i]);
  }

  /** The arrivals left when the bytes `d` have not been read yet. */
  function Feed(d: seq<byte>, rest: seq<Arrival>): (s: seq<Arrival>)
    ensures Payload(s) == d + Payload(rest)
  {
    if d == [] then rest
    else
      PayloadHead([Data(d)] + rest);
      assert ([Data(d)] + rest)[1..] == rest;
      [Data(d)] + rest
  }

  /** Bytes that have already arrived together are read by one `readn`,
      which takes exactly the `|x|` it asks for and leaves the rest queued. */
  lemma ReadnFeed(x: seq<byte>, y: seq<byte>, rest: seq<Arrival>)
    requires |x| > 0
    ensures ReadnSpec(Feed(x + y, rest), |x|) == Moved(x, Feed(y, rest))
  {
    var s := Feed(x + y, rest);
    assert s[0] == Data(x + y) && s[1..] == rest;
    assert (x + y)[..|x|] == x && (x + y)[|x|..] == y;
    if y == [] {
      assert x + y == x;
    }
    assert ReadOnce(s, |x|) == (Got(x), Feed(y, rest));
    assert ReadnLoop(Feed(y, rest), 0, [] + x) == Moved(x, Feed(y, rest));
  }

  /** A line whose '\n' (at `d[i]`) has already arrived is read whole, from
      one arrival, and the read stops right after it. */
  lemma {:induction false} LineLoopFeed(d: seq<byte>, i: nat, rest: seq<Arrival>, stored: seq<byte>, maxlen: int)
    requires i < |d| && d[i] == LF && LF !in d[..i] && |stored| + i + 1 < maxlen
    ensures LineLoop(Feed(d, rest), stored, maxlen) ==
            LineOutcome(|stored| + i + 1, stored + d[..i + 1], Feed(d[i + 1..], rest))
    decreases i
  {
    var s := Feed(d, rest);
    LineLoopUnfold(s, stored, maxlen);
    assert s[0] == Data(d) && s[1..] == rest;
    assert ReadOnce(s, 1).1 == Feed(d[1..], rest);
    if i > 0 {
      assert d[0] == d[..i][0];
      assert d[1..][..i - 1] == d[1..i];
      LineLoopFeed(d[1..], i - 1, rest, stored + [d[0]], maxlen);
      assert d[1..][i - 1 + 1..] == d[i + 1..];
      MoveHead(stored, d, i);
    } else {
      assert d[..1] == [LF];
    }
  }

  /** Successive line reads take the stream's bytes in order. */
  lemma LinesInOrder(s: seq<Arrival>, maxlen1: int, maxlen2: int)
    ensures var o1 := Line(s, maxlen1);
            var o2 := Line(o1.rest, maxlen2);
            Payload(s) == o1.stored + o2.stored + Payload(o2.rest)
  {
    var o1 := Line(s, maxlen1);
    LineLoopInOrder(s, [], maxlen1);
    LineLoopInOrder(o1.rest, [], maxlen2);
    assert [] + Payload(s) == Payload(s);
    assert [] + Payload(o1.rest) == Payload(o1.rest);
  }

  /** A line read makes the same reads on a script and on its atomized
      form, so it does not matter how the stream's bytes were split into
      arrivals. */
  lemma {:induction false} LineLoopAtomize(s: seq<Arrival>, stored: seq<byte>, maxlen: int)
    ensures var o := LineLoop(s, stored, maxlen);
            LineLoop(Atomize(s), stored, maxlen) == LineOutcome(o.code, o.stored, Atomize(o.rest))
    decreases Size(s)
  {
    if |stored| + 1 < maxlen && s != [] {
      AtomizeRead(s);
      var r := ReadOnce(s, 1).0;
      if r.Got? && r.bytes[0] != LF {
        LineLoopAtomize(ReadOnce(s, 1).1, stored + [r.bytes[0]], maxlen);
      }
    }
  }

  /** Stores the line a loop collected and, when the count is positive, the
      NUL after it (`*ptr = 0`). */
  method StoreLine(buf: array<byte>, code: int, line: seq<byte>)
    requires |line| < buf.Length
    modifies buf
    ensures buf[..] == Deposit(old(buf[..]), code, line)
  {
    StoreFront(buf, line);
    if code > 0 {
      buf[|line|] := NUL;
    }
  }

  /** `readline_unbuffered(fd, buf, maxlen)`: one `recv` of one byte per
      iteration, so the stream is left right after the line. An interrupted
      `recv` is an error here. The bytes `*ptr++ = c` stores are collected
      in `line` and stored, with the NUL, when the loop ends. */
  method ReadlineUnbuffered(conn: Socket, buf: array<byte>, maxlen: nat) returns (r: int)
    requires 0 < buf.Length && maxlen <= buf.Length
    modifies conn`inbound, buf
    ensures r == Line(old(conn.inbound), maxlen).code
    ensures conn.inbound == Line(old(conn.inbound), maxlen).rest
    ensures buf[..] == Deposit(old(buf[..]), r, Line(old(conn.inbound), maxlen).stored)
  {
    ghost var o := Line(conn.inbound, maxlen);
    var line: seq<byte> := [];
    var n := 1;
    while n < maxlen
      invariant 1 <= n && |line| == n - 1 < buf.Length
      invariant o == LineLoop(conn.inbound, line, maxlen)
      invariant unchanged(buf)
      decreases maxlen - n
    {
      var rc := conn.Read(1);
      if rc.Eof? {
        if n == 1 {
          assert o.code == 0 && o.stored == [];
          assert buf[..][0..] == buf[..];
          return 0;
        }
        break;
      }
      if rc.Failed? {
        assert o.code == -1 && o.stored == line;
        StoreLine(buf, -1, line);
        return -1;
      }
      var c := rc.bytes[0];
      line := line + [c];
      if c == LF {
        break;
      }
      n := n + 1;
    }
    assert o.code == n && o.stored == line;
    StoreLine(buf, n, line);
    r := n;
  }

  /* The buffered reader: `my_read` keeps `read_cnt`, `read_ptr` and
     `read_buf[MAXLINE]` in static storage between calls. */

  const MAXLINE: nat := 1024

  /** The script with interrupted reads removed: `my_read` retries them. */
  function DropIntr(s: seq<Arrival>): (r: seq<Arrival>)
    ensures Fault(EINTR) !in r
    ensures Fault(EINTR) !in s ==> r == s
  {
    if s == [] then []
    else (if s[0] == Fault(EINTR) then [] else [s[0]]) + DropIntr(s[1..])
  }

  lemma DropIntrData(d: Chunk, t: seq<Arrival>)
    ensures Atomize(DropIntr([Data(d)] + t)) == Atoms(d) + Atomize(DropIntr(t))
  {
    var s := [Data(d)] + t;
    assert s[0] == Data(d) && s[1..] == t;
    assert DropIntr(s) == [Data(d)] + DropIntr(t);
    var x := [Data(d)] + DropIntr(t);
    assert x[0] == Data(d) && x[1..] == DropIntr(t);
  }

  lemma DropIntrSplit(d: Chunk, k: nat, t: seq<Arrival>)
    requires 0 < k < |d|
    ensures Atomize(DropIntr([Data(d)] + t)) ==
            Atoms(d[..k]) + Atomize(DropIntr([Data(d[k..])] + t))
  {
    var rest := Atomize(DropIntr(t));
    assert Atoms(d) == Atoms(d[..k]) + Atoms(d[k..]) by {
      assert d == d[..k] + d[k..];
      AtomsAppend(d[..k], d[k..]);
    }
    DropIntrData(d, t);
    DropIntrData(d[k..], t);
    ConcatAssoc(Atoms(d[..k]), Atoms(d[k..]), rest);
  }

  /** The one-byte arrivals one read hands over. */
  function Yield(r: ReadReturn): (a: seq<Arrival>)
    ensures r.Got? ==> a == Atoms(r.bytes)
    ensures r.Eof? ==> a == []
    ensures r.Failed? ==> a == [Fault(r.errno)]
  {
    match r
    case Got(d) => Atoms(d)
    case Eof => []
    case Failed(e) => [Fault(e)]
  }

  /** One read of up to `k` bytes takes the first bytes (or the error) of
      the atomized script with interrupted reads removed, unless it was
      itself interrupted. */
  lemma DropIntrRead(s: seq<Arrival>, k: nat)
    requires s != [] && k > 0
    ensures var r := ReadOnce(s, k).0;
            Atomize(DropIntr(s)) ==
              (if r == Failed(EINTR) then [] else Yield(r)) + Atomize(DropIntr(ReadOnce(s, k).1))
  {
    assert DropIntr(s) == (if s[0] == Fault(EINTR) then [] else [s[0]]) + DropIntr(s[1..]);
    match s[0]
    case Fault(e) =>
      assert ReadOnce(s, k) == (Failed(e), s[1..]);
      if e != EINTR {
        var x := [Fault(e)] + DropIntr(s[1..]);
        assert x[0] == Fault(e) && x[1..] == DropIntr(s[1..]);
        assert Atomize(x) == [Fault(e)] + Atomize(DropIntr(s[1..]));
      } else {
        assert DropIntr(s) == DropIntr(s[1..]);
      }
    case Data(d) =>
      assert s == [Data(d)] + s[1..];
      if |d| > k {
        DropIntrSplit(d, k, s[1..]);
      } else {
        DropIntrData(d, s[1..]);
      }
  }

  /** The retry loop at the head of `my_read`: read up to MAXLINE bytes,
      again after an interrupted read. */
  method Fill(conn: Socket) returns (r: ReadReturn)
    modifies conn`inbound
    ensures r != Failed(EINTR)
    ensures r.Got? ==> |r.bytes| <= MAXLINE
    ensures r.Eof? ==> conn.inbound == []
    ensures Atomize(DropIntr(old(conn.inbound))) == Yield(r) + Atomize(DropIntr(conn.inbound))
  {
    while true
      invariant Atomize(DropIntr(old(conn.inbound))) == Atomize(DropIntr(conn.inbound))
      decreases Size(conn.inbound)
    {
      if conn.inbound != [] {
        DropIntrRead(conn.inbound, MAXLINE);
      }
      r := conn.Read(MAXLINE);
      if r != Failed(EINTR) {
        return;
      }
    }
  }

  /** With no interrupted reads in the script and nothing held back, the
      buffered reader returns and stores what the unbuffered one does. */
  lemma BufferedAgrees(s: seq<Arrival>, maxlen: int)
    requires Fault(EINTR) !in s
    ensures var o := Line(s, maxlen);
            Line(Atomize(DropIntr(s)), maxlen) == LineOutcome(o.code, o.stored, Atomize(o.rest))
  {
    LineLoopAtomize(s, [], maxlen);
  }

  /** One iteration of the line loop over a stream handed out a byte at a
      time, when the next arrival is the byte `c`. */
  lemma LineStepByte(v: seq<Arrival>, line: seq<byte>, maxlen: int, c: byte)
    requires v != [] && v[0] == Data([c]) && |line| + 1 < maxlen
    ensures c == LF ==> LineLoop(v, line, maxlen) == LineOutcome(|line| + 1, line + [c], v[1..])
    ensures c != LF ==> LineLoop(v, line, maxlen) == LineLoop(v[1..], line + [c], maxlen)
  {
    assert ReadOnce(v, 1) == (Got([c]), v[1..]);
  }

  /** The same when the next arrival is an error. */
  lemma LineStepFault(v: seq<Arrival>, line: seq<byte>, maxlen: int)
    requires v != [] && v[0].Fault? && |line| + 1 < maxlen
    ensures LineLoop(v, line, maxlen) == LineOutcome(-1, line, v[1..])
  {
  }

  /** Handing out the first held byte `c` takes the first arrival of the
      reader's view. */
  lemma TakeView(c: byte, p0: seq<byte>, p1: seq<byte>, u: seq<Arrival>)
    requires p0 == [c] + p1
    ensures Atoms(p0) + u != [] && (Atoms(p0) + u)[0] == Data([c])
    ensures (Atoms(p0) + u)[1..] == Atoms(p1) + u
  {
    AtomsCons(c, p1);
    assert Atoms(p0) + u == [Data([c])] + (Atoms(p1) + u);
  }

  /** The static state of `my_read`, one per process. */
  class LineReader {
    var readCnt: int
    var readPtr: nat
    const readBuf: array<byte>

    ghost predicate Valid()
      reads this
    {
      readBuf.Length == MAXLINE && (readCnt > 0 ==> readPtr + readCnt <= MAXLINE)
    }

    /** The bytes fetched from the socket but not yet handed out. */
    function Pending(): seq<byte>
      reads this, readBuf
      requires Valid()
    {
      if readCnt > 0 then readBuf[readPtr..readPtr + readCnt] else []
    }

    /** The stream as the reader hands it out from now on, one byte per
        arrival: what it holds, then the socket's, with interrupted reads
        skipped. */
    function View(inbound: seq<Arrival>): seq<Arrival>
      reads this, readBuf
      requires Valid()
    {
      Atoms(Pending()) + Atomize(DropIntr(inbound))
    }

    /** `static int read_cnt = 0;` */
    constructor ()
      ensures Valid() && Pending() == [] && fresh(readBuf)
    {
      readCnt, readPtr := 0, 0;
      readBuf := new byte[MAXLINE];
    }

    /** The tail of `my_read`: `read_cnt--; *ptr = *read_ptr++;`. */
    method Take() returns (c: byte)
      requires Valid() && readCnt > 0
      modifies this
      ensures Valid() && old(Pending()) == [c] + Pending()
    {
      c := readBuf[readPtr];
      readCnt := readCnt - 1;
      readPtr := readPtr + 1;
    }

    /** The refill at the head of `my_read`, taken when the static buffer
        is empty: 1 when it now holds bytes, else what `my_read` returns. */
    method Refill(conn: Socket) returns (rc: int)
      requires Valid() && readCnt <= 0
      modifies this, readBuf, conn`inbound
      ensures Valid()
      ensures rc == 1 || rc == 0 || rc == -1
      ensures rc == 1 ==> readCnt > 0 && View(conn.inbound) == old(View(conn.inbound))
      ensures rc == 0 ==> old(View(conn.inbound)) == [] && View(conn.inbound) == []
      ensures rc == -1 ==> old(View(conn.inbound)) != [] && old(View(conn.inbound))[0].Fault? &&
                           View(conn.inbound) == old(View(conn.inbound))[1..]
    {
      assert Pending() == [] && View(conn.inbound) == Atomize(DropIntr(conn.inbound));
      var r := Fill(conn);
      match r
      case Failed(e) =>
        readCnt := -1;
        assert Pending() == [] && View(conn.inbound) == Atomize(DropIntr(conn.inbound));
        rc := -1;
      case Eof =>
        readCnt := 0;
        assert Pending() == [] && View(conn.inbound) == Atomize(DropIntr([]));
        rc := 0;
      case Got(d) =>
        StoreFront(readBuf, d);
        readCnt, readPtr := |d|, 0;
        assert Pending() == readBuf[..][..|d|] == d;
        rc := 1;
    }

    /** `my_read(fd, &c)`: hand out one byte, refilling the static buffer
        with one `read` of up to MAXLINE bytes when it is empty. */
    method MyRead(conn: Socket, ghost v: seq<Arrival>) returns (rc: int, c: byte)
      requires Valid() && v == View(conn.inbound)
      modifies this, readBuf, conn`inbound
      ensures Valid()
      ensures rc == 1 || rc == 0 || rc == -1
      ensures rc == 1 ==> v != [] && v[0] == Data([c]) && View(conn.inbound) == v[1..]
      ensures rc == 0 ==> v == [] && View(conn.inbound) == []
      ensures rc == -1 ==> v != [] && v[0].Fault? && View(conn.inbound) == v[1..]
    {
      if readCnt <= 0 {
        rc := Refill(conn);
        if rc != 1 {
          c := 0;
          return;
        }
      }
      ghost var u := Atomize(DropIntr(conn.inbound));
      ghost var p0 := Pending();
      assert v == Atoms(p0) + u;
      c := Take();
      ghost var p1 := Pending();
      assert View(conn.inbound) == Atoms(p1) + u;
      TakeView(c, p0, p1, u);
      rc := 1;
    }

    /** The loop of `readline(fd, buf, maxlen)`: the loop of
        `readline_unbuffered` over `my_read`, returning the count and the
        bytes `*ptr++ = c` stores. */
    method CollectLine(conn: Socket, maxlen: nat) returns (r: int, line: seq<byte>)
      requires Valid()
      modifies this, readBuf, conn`inbound
      ensures Valid()
      ensures r == Line(old(View(conn.inbound)), maxlen).code
      ensures line == Line(old(View(conn.inbound)), maxlen).stored
      ensures View(conn.inbound) == Line(old(View(conn.inbound)), maxlen).rest
    {
      ghost var rest := View(conn.inbound);
      ghost var o := Line(rest, maxlen);
      line := [];
      var n := 1;
      while n < maxlen
        invariant Valid() && 1 <= n && |line| == n - 1
        invariant rest == View(conn.inbound)
        invariant o == LineLoop(rest, line, maxlen)
        decreases maxlen - n
      {
        var rc, c := MyRead(conn, rest);
        if rc == 0 {
          if n == 1 {
            assert o.code == 0 && o.stored == [] && o.rest == [];
            return 0, [];
          }
          break;
        }
        if rc == -1 {
          LineStepFault(rest, line, maxlen);
          assert o.code == -1 && o.stored == line && o.rest == rest[1..];
          return -1, line;
        }
        LineStepByte(rest, line, maxlen, c);
        rest := rest[1..];
        line := line + [c];
        if c == LF {
          break;
        }
        n := n + 1;
      }
      assert o.code == n && o.stored == line && o.rest == rest;
      r := n;
    }

    /** `readline(fd, buf, maxlen)`. Bytes `my_read` fetched beyond the line
        stay in the static buffer for the next call. The line is stored,
        with the NUL, when the loop ends. */
    method Readline(conn: Socket, buf: array<byte>, maxlen: nat) returns (r: int)
      requires Valid() && buf != readBuf
      requires 0 < buf.Length && maxlen <= buf.Length
      modifies this, readBuf, conn`inbound, buf
      ensures Valid()
      ensures r == Line(old(View(conn.inbound)), maxlen).code
      ensures View(conn.inbound) == Line(old(View(conn.inbound)), maxlen).rest
      ensures buf[..] == Deposit(old(buf[..]), r, Line(old(View(conn.inbound)), maxlen).stored)
    {
      var line;
      r, line := CollectLine(conn, maxlen);
      StoreLine(buf, r, line);
    }
  }
}
