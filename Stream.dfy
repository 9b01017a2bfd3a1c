/** The connected socket as the protocol code sees it: scripted outcomes of
    the `read`, `write` and `sendfile` system calls, and the bytes the peer
    has been sent. The kernel itself is not modelled. */
module Stream {
  import opened Bytes

  /** The `errno` values the protocol code tells apart. EWOULDBLOCK is what a
      read reports when the SO_RCVTIMEO deadline expires. */
  datatype Errno = EINTR | EWOULDBLOCK | EOTHER

  type Chunk = s: seq<byte> | |s| > 0 witness [0]

  /** What the next read on the socket finds: bytes that have arrived (a
      read takes as many of them as it asks for, at most) or an error. An
      empty script is end-of-stream, which never goes away. */
  datatype Arrival = Data(bytes: Chunk) | Fault(errno: Errno)

  function Weight(a: Arrival): nat
  {
    if a.Data? then |a.bytes| else 1
  }

  /** The number of reads of one byte needed to use up a script: the
      termination measure of every read loop. */
  function Size(s: seq<Arrival>): nat
  {
    if s == [] then 0 else Weight(s[0]) + Size(s[1..])
  }

  /** The bytes of a script in arrival order, faults skipped. */
  function Payload(s: seq<Arrival>): seq<byte>
  {
    if s == [] then []
    else (if s[0].Data? then s[0].bytes else []) + Payload(s[1..])
  }

  /** The result of one `read(fd, buf, k)`: bytes, 0 (end-of-stream) or -1. */
  datatype ReadReturn = Got(bytes: Chunk) | Eof | Failed(errno: Errno)

  function ReturnCount(r: ReadReturn): int
  {
    match r
    case Got(d) => |d|
    case Eof => 0
    case Failed(_) => -1
  }

  /** The bytes one read stored. */
  function Received(r: ReadReturn): seq<byte>
  {
    if r.Got? then r.bytes else []
  }

  /** One `read(fd, buf, k)` with `k > 0`, and the script left after it. */
  function ReadOnce(s: seq<Arrival>, k: nat): (res: (ReadReturn, seq<Arrival>))
    requires k > 0
    ensures res.0.Eof? <==> s == []
    ensures res.0.Eof? ==> res.1 == []
    ensures res.0.Got? ==> |res.0.bytes| <= k && Size(res.1) == Size(s) - |res.0.bytes|
    ensures res.0.Failed? ==> s[0] == Fault(res.0.errno) && res.1 == s[1..]
  {
    if s == [] then (Eof, [])
    else match s[0]
      case Fault(e) => (Failed(e), s[1..])
      case Data(d) =>
        if |d| <= k then (Got(d), s[1..])
        else
          var rest := [Data(d[k..])] + s[1..];
          assert rest[1..] == s[1..];
          (Got(d[..k]), rest)
  }

  /** A read takes the first bytes of the stream: what it returns followed
      by what is left is what was there. */
  lemma ReadOncePayload(s: seq<Arrival>, k: nat)
    requires k > 0
    ensures ReadOnce(s, k).0.Got? ==> Payload(s) == ReadOnce(s, k).0.bytes + Payload(ReadOnce(s, k).1)
    ensures ReadOnce(s, k).0.Failed? ==>
              Payload(s) == Payload(ReadOnce(s, k).1) && Size(s) == 1 + Size(ReadOnce(s, k).1)
  {
    if s != [] {
      PayloadHead(s);
      if s[0].Data? && |s[0].bytes| > k {
        PartialPayload(s[0].bytes, k, s[1..]);
      }
    }
  }

  /** A read that takes only the first `k` bytes of an arrival. */
  lemma PartialPayload(d: Chunk, k: nat, t: seq<Arrival>)
    requires 0 < k < |d|
    ensures Payload([Data(d)] + t) == d[..k] + Payload([Data(d[k..])] + t)
  {
    var s := [Data(d)] + t;
    var rest := [Data(d[k..])] + t;
    PayloadHead(s);
    PayloadHead(rest);
    assert s[0] == Data(d) && s[1..] == t;
    assert rest[0] == Data(d[k..]) && rest[1..] == t;
    var p := Payload(t);
    calc {
      Payload(s);
      d + p;
      { assert d == d[..k] + d[k..]; }
      (d[..k] + d[k..]) + p;
      d[..k] + (d[k..] + p);
      d[..k] + Payload(rest);
    }
  }

  lemma PayloadHead(s: seq<Arrival>)
    requires s != []
    ensures Payload(s) == (if s[0].Data? then s[0].bytes else []) + Payload(s[1..])
    ensures Size(s) == Weight(s[0]) + Size(s[1..])
  {
  }

  lemma ConcatAssoc<T>(a: seq<T>, b: seq<T>, c: seq<T>)
    ensures (a + b) + c == a + (b + c)
  {
  }

  /** One arrival per byte: what a reader that hands out one byte at a time
      makes of the bytes `d`. */
  function Atoms(d: seq<byte>): (a: seq<Arrival>)
    ensures |a| == |d|
    ensures forall i :: 0 <= i < |d| ==> a[i] == Data([d[i]])
  {
    seq(|d|, i requires 0 <= i < |d| => Data([d[i]]))
  }

  lemma AtomsAppend(a: seq<byte>, b: seq<byte>)
    ensures Atoms(a + b) == Atoms(a) + Atoms(b)
  {
  }

  lemma AtomsCons(c: byte, d: seq<byte>)
    ensures Atoms([c] + d) == [Data([c])] + Atoms(d)
  {
    AtomsAppend([c], d);
    assert Atoms([c]) == [Data([c])];
  }

  /** The script as reads of one byte see it: every byte its own arrival,
      faults where they were. */
  function Atomize(s: seq<Arrival>): (r: seq<Arrival>)
    ensures |r| == Size(s)
  {
    if s == [] then []
    else (match s[0] case Data(d) => Atoms(d) case Fault(e) => [Fault(e)]) + Atomize(s[1..])
  }

  /** A one-byte read returns the same on a script and on its atomized form,
      and leaves the atomized form of what it leaves. */
  lemma AtomizeRead(s: seq<Arrival>)
    requires s != []
    ensures ReadOnce(Atomize(s), 1).0 == ReadOnce(s, 1).0
    ensures ReadOnce(Atomize(s), 1).1 == Atomize(ReadOnce(s, 1).1)
  {
    var a := Atomize(s);
    match s[0]
    case Fault(e) =>
      assert a == [Fault(e)] + Atomize(s[1..]);
      assert a[1..] == Atomize(s[1..]);
    case Data(d) =>
      assert a == Atoms(d) + Atomize(s[1..]);
      assert a[0] == Data([d[0]]) && d[..1] == [d[0]];
      assert a[1..] == Atoms(d)[1..] + Atomize(s[1..]);
      if |d| > 1 {
        var rest := [Data(d[1..])] + s[1..];
        assert rest[0] == Data(d[1..]) && rest[1..] == s[1..];
        assert Atomize(rest) == Atoms(d[1..]) + Atomize(s[1..]);
        assert Atoms(d)[1..] == Atoms(d[1..]);
      } else {
        assert Atoms(d)[1..] == [];
      }
  }

  /** One write(2) result, in the order the peer's side produces them: the
      number of bytes it accepts at most, or an error. An empty script accepts
      everything it is given. */
  type Positive = k: nat | k > 0 witness 1

  datatype Acceptance = Accepts(limit: Positive) | Refuses(errno: Errno)

  datatype WriteReturn = Wrote(count: Positive) | WriteFailed(errno: Errno)

  /** One `write(fd, ptr, n)` (or `send`) with `n > 0`. */
  function WriteOnce(ws: seq<Acceptance>, n: Positive): (res: (WriteReturn, seq<Acceptance>))
    ensures res.0.Wrote? ==> res.0.count <= n
    ensures |res.1| == if ws == [] then 0 else |ws| - 1
  {
    if ws == [] then (Wrote(n), [])
    else match ws[0]
      case Accepts(l) => (Wrote(if l < n then l else n), ws[1..])
      case Refuses(e) => (WriteFailed(e), ws[1..])
  }

  /** One `sendfile` result: how many bytes the peer takes at most, or -1. An
      empty script sends everything asked for. */
  datatype Transmission = Moves(limit: nat) | SendfileFails

  function SendfileOnce(ts: seq<Transmission>, available: nat): (res: (int, seq<Transmission>))
    ensures -1 <= res.0 <= available
  {
    if ts == [] then (available, [])
    else match ts[0]
      case Moves(l) => (if l < available then l else available, ts[1..])
      case SendfileFails => (-1, ts[1..])
  }

  /** A connected stream socket (the descriptor `connfd` or `s`). */
  class Socket {
    var inbound: seq<Arrival>
    var outbound: seq<byte>
    var writes: seq<Acceptance>
    var sendfiles: seq<Transmission>
    var closes: nat

    constructor (inbound: seq<Arrival>, writes: seq<Acceptance>, sendfiles: seq<Transmission>)
      ensures this.inbound == inbound && this.writes == writes && this.sendfiles == sendfiles
      ensures outbound == [] && closes == 0
    {
      this.inbound, this.writes, this.sendfiles := inbound, writes, sendfiles;
      outbound, closes := [], 0;
    }

    /** `read(fd, buf, k)` (also `recv` with no flags). */
    method Read(k: nat) returns (r: ReadReturn)
      requires k > 0
      modifies this`inbound
      ensures r == ReadOnce(old(inbound), k).0 && inbound == ReadOnce(old(inbound), k).1
    {
      r, inbound := ReadOnce(inbound, k).0, ReadOnce(inbound, k).1;
    }

    /** `write(fd, ptr, |data|)` (also `send`; the flags are not modelled). */
    method Write(data: seq<byte>) returns (r: WriteReturn)
      requires |data| > 0
      modifies this`outbound, this`writes
      ensures r == WriteOnce(old(writes), |data|).0 && writes == WriteOnce(old(writes), |data|).1
      ensures outbound == old(outbound) + (if r.Wrote? then data[..r.count] else [])
    {
      var res := WriteOnce(writes, |data|);
      r, writes := res.0, res.1;
      if r.Wrote? {
        outbound := outbound + data[..r.count];
      }
    }

    /** `sendfile(fd, file, NULL, count)` from the start of a file. */
    method Sendfile(content: seq<byte>, count: nat) returns (sent: int)
      modifies this`outbound, this`sendfiles
      ensures var available := if count < |content| then count else |content|;
              sent == SendfileOnce(old(sendfiles), available).0 &&
              sendfiles == SendfileOnce(old(sendfiles), available).1
      ensures outbound == old(outbound) + (if sent >= 0 then content[..sent] else [])
    {
      var available := if count < |content| then count else |content|;
      var res := SendfileOnce(sendfiles, available);
      sent, sendfiles := res.0, res.1;
      if sent >= 0 {
        outbound := outbound + content[..sent];
      }
    }

    /** `close(fd)`. */
    method Close()
      modifies this`closes
      ensures closes == old(closes) + 1
    {
      closes := closes + 1;
    }
  }
}
