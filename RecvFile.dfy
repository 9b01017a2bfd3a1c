/** The client's receiving side, recvfile.c: the local name of a requested
    file, the loop that appends what arrives to it while counting
    `remain_data` down modulo 2^32, and the cleanup `Recvfile` does after a
    short transfer. */
module RecvFile {
  import opened Bytes
  import opened Stream
  import opened SockWrap

  /** `MAXBUFLEN`: the most one `Read` of the loop asks for. */
  const MAXBUFLEN: nat := 2048

  /* ---------------------------------------------------------------------- */
  /* The local name                                                          */

  /** `strrchr(filename, '/') + 1` when the name holds a '/', otherwise the
      name itself: what follows its last '/'. */
  function Basename(name: seq<byte>): (b: seq<byte>)
    ensures SLASH !in b && |b| <= |name| && b == name[|name| - |b|..]
    ensures SLASH in name ==> name[|name| - |b| - 1] == SLASH
    ensures SLASH !in name ==> b == name
  {
    if name == [] then []
    else if name[|name| - 1] == SLASH then []
    else
      var init := name[..|name| - 1];
      assert name == init + [name[|name| - 1]];
      assert SLASH in name ==> SLASH in init;
      Basename(init) + [name[|name| - 1]]
  }

  /** The name of a file in a directory is its basename, whatever the
      directory part holds. */
  lemma {:induction false} BasenameOfPath(dir: seq<byte>, file: seq<byte>)
    requires SLASH !in file
    ensures Basename(dir + [SLASH] + file) == file
    decreases |file|
  {
    var path := dir + [SLASH] + file;
    if file == [] {
      assert path[|path| - 1] == SLASH;
    } else {
      var init := file[..|file| - 1];
      assert path[..|path| - 1] == dir + [SLASH] + init;
      assert path[|path| - 1] == file[|file| - 1];
      assert file == init + [file[|file| - 1]];
      BasenameOfPath(dir, init);
    }
  }

  /* ---------------------------------------------------------------------- */
  /* The client's file system                                               */

  /** The files the client can create and remove, by name. */
  class Disk {
    var files: map<seq<byte>, seq<byte>>
    /** Names `fopen(name, "w")` fails for (a directory, no permission). */
    const unwritable: set<seq<byte>>

    constructor (files: map<seq<byte>, seq<byte>>, unwritable: set<seq<byte>>)
      ensures this.files == files && this.unwritable == unwritable
    {
      this.files := files;
      this.unwritable := unwritable;
    }

    /** `fopen(name, "w") != NULL`, which creates or empties the file; the
        empty name (a requested name ending in '/') never opens. */
    method Create(name: seq<byte>) returns (ok: bool)
      modifies this`files
      ensures ok == Creatable(name, unwritable)
      ensures files == if ok then old(files)[name := []] else old(files)
    {
      ok := Creatable(name, unwritable);
      if ok {
        files := files[name := []];
      }
    }

    /** `fwrite(data, 1, |data|, stream)` on the file `name` was opened as. */
    method Append(name: seq<byte>, data: seq<byte>)
      requires name in files
      modifies this`files
      ensures files == old(files)[name := old(files)[name] + data]
    {
      files := files[name := files[name] + data];
    }

    /** `remove(name)`: 0 when the file was there and is gone, -1 when there
        was none. */
    method Remove(name: seq<byte>) returns (r: int)
      modifies this`files
      ensures r == (if name in old(files) then 0 else -1)
      ensures files == old(files) - {name}
    {
      r := if name in files then 0 else -1;
      files := files - {name};
    }
  }

  predicate Creatable(name: seq<byte>, unwritable: set<seq<byte>>)
  {
    name != [] && name !in unwritable
  }

  /* ---------------------------------------------------------------------- */
  /* The receive loop                                                        */

  /** How `while ((len = Read(s, buf, MAXBUFLEN)) > 0)` ended: `remain_data`
      reached 0, a read found the end of the stream, or a read failed and
      `Read` ended the process. */
  datatype LoopEnd = Complete | StreamEnded | ReadError

  /** What the loop did: the bytes it appended to the file, `remain_data`,
      the contents of `buf` and the stream left. */
  datatype Receipt = Receipt(data: seq<byte>, remain: u32, end: LoopEnd, buf: seq<byte>, rest: seq<Arrival>)

  /** `remain_data -= len` on the 32-bit unsigned counter, for a count
      `len` one read can return. */
  function CountOff(remain: u32, len: nat): (r: u32)
    requires len <= MAXBUFLEN
  {
    if len <= remain then remain - len else remain - len + TWO32
  }

  /** `CountOff` subtracts modulo 2^32. */
  lemma CountOffWraps(remain: u32, len: nat)
    requires len <= MAXBUFLEN
    ensures CountOff(remain, len) == Wrap32(remain - len)
  {
    Wrap32Congruent(CountOff(remain, len), remain - len);
  }

  /** The loop once `data` has been appended, with `remain_data` at
      `remain` and `buf` holding `buf`. */
  function RecvLoop(s: seq<Arrival>, remain: u32, data: seq<byte>, buf: seq<byte>): (o: Receipt)
    requires MAXBUFLEN <= |buf|
    ensures |o.buf| == |buf| && |data| <= |o.data| && o.data[..|data|] == data
    decreases Size(s)
  {
    var (r, s') := Reread(s, MAXBUFLEN);
    match r
    case Failed(_) => Receipt(data, remain, ReadError, buf, s')
    case Eof => Receipt(data, remain, StreamEnded, buf, s')
    case Got(d) =>
      var remain' := CountOff(remain, |d|);
      var buf' := d + buf[|d|..];
      if remain' == 0 then Receipt(data + d, 0, Complete, buf', s')
      else
        var o := RecvLoop(s', remain', data + d, buf');
        assert o.data[..|data|] == (data + d)[..|data|];
        o
  }

  /** The loop ends at a failed read, with nothing appended. */
  lemma RecvLoopFails(s: seq<Arrival>, remain: u32, data: seq<byte>, buf: seq<byte>)
    requires MAXBUFLEN <= |buf| && Reread(s, MAXBUFLEN).0.Failed?
    ensures RecvLoop(s, remain, data, buf) == Receipt(data, remain, ReadError, buf, Reread(s, MAXBUFLEN).1)
  {
  }

  /** The loop ends at the end of the stream, with nothing appended. */
  lemma RecvLoopEof(s: seq<Arrival>, remain: u32, data: seq<byte>, buf: seq<byte>)
    requires MAXBUFLEN <= |buf| && Reread(s, MAXBUFLEN).0.Eof?
    ensures RecvLoop(s, remain, data, buf) == Receipt(data, remain, StreamEnded, buf, Reread(s, MAXBUFLEN).1)
  {
  }

  /** A chunk is appended, lands at the front of `buf` and is counted off
      `remain_data`; the loop goes on unless that leaves 0. */
  lemma RecvLoopChunk(s: seq<Arrival>, remain: u32, data: seq<byte>, buf: seq<byte>)
    requires MAXBUFLEN <= |buf| && Reread(s, MAXBUFLEN).0.Got?
    ensures var (r, s') := Reread(s, MAXBUFLEN);
            var d := r.bytes;
            RecvLoop(s, remain, data, buf) ==
              if CountOff(remain, |d|) == 0 then Receipt(data + d, 0, Complete, d + buf[|d|..], s')
              else RecvLoop(s', CountOff(remain, |d|), data + d, d + buf[|d|..])
  {
  }

  /** One turn of the loop as the caller of `Read` sees it: the count it
      returned, the stream left and the buffer after it. */
  lemma RecvLoopAdvance(s: seq<Arrival>, remain: u32, data: seq<byte>, buf: seq<byte>,
                        len: int, s': seq<Arrival>, buf': seq<byte>)
    requires MAXBUFLEN <= |buf|
    requires var (r, rest) := Reread(s, MAXBUFLEN);
             len == ReturnCount(r) && s' == rest && buf' == Received(r) + buf[|Received(r)|..]
    ensures len < 0 ==> RecvLoop(s, remain, data, buf) == Receipt(data, remain, ReadError, buf', s')
    ensures len == 0 ==> RecvLoop(s, remain, data, buf) == Receipt(data, remain, StreamEnded, buf', s')
    ensures 0 < len ==> len <= |buf'|
    ensures 0 < len ==>
              RecvLoop(s, remain, data, buf) ==
                if CountOff(remain, len) == 0 then Receipt(data + buf'[..len], 0, Complete, buf', s')
                else RecvLoop(s', CountOff(remain, len), data + buf'[..len], buf')
  {
    var r := Reread(s, MAXBUFLEN).0;
    if r.Failed? {
      RecvLoopFails(s, remain, data, buf);
    } else if r.Eof? {
      RecvLoopEof(s, remain, data, buf);
    } else {
      assert buf'[..len] == r.bytes;
      RecvLoopChunk(s, remain, data, buf);
    }
  }

  /** Two ways of reducing modulo 2^32 agree when they differ by a multiple
      of it. */
  lemma Wrap32Congruent(x: int, y: int)
    requires (x - y) % TWO32 == 0
    ensures Wrap32(x) == Wrap32(y)
  {
    var q := (x - y) / TWO32;
    assert x - y == q * TWO32;
    assert x == y + q * TWO32;
    assert (y + q * TWO32) % TWO32 == y % TWO32;
  }

  /** Counting `n` off and then the rest of `total` off, modulo 2^32,
      counts `total` off. */
  lemma Wrap32Carry(x: int, n: int, y: int, total: int, z: int)
    requires y == Wrap32(x - n) && z == Wrap32(y - (total - n))
    ensures z == Wrap32(x - total)
  {
    Wrap32Congruent(y - (total - n), x - total);
  }

  /** The file receives the stream's bytes in arrival order. */
  lemma {:induction false} RecvLoopInOrder(s: seq<Arrival>, remain: u32, data: seq<byte>, buf: seq<byte>)
    requires MAXBUFLEN <= |buf|
    ensures var o := RecvLoop(s, remain, data, buf);
            data + Payload(s) == o.data + Payload(o.rest)
    decreases Size(s)
  {
    var (r, s') := Reread(s, MAXBUFLEN);
    RereadPayload(s, MAXBUFLEN);
    if r.Got? {
      var d := r.bytes;
      ConcatAssoc(data, d, Payload(s'));
      RecvLoopChunk(s, remain, data, buf);
      if CountOff(remain, |d|) != 0 {
        RecvLoopInOrder(s', CountOff(remain, |d|), data + d, d + buf[|d|..]);
      }
    } else if r.Eof? {
      RecvLoopEof(s, remain, data, buf);
    } else {
      RecvLoopFails(s, remain, data, buf);
    }
  }

  /** `remain_data` drops by each chunk's length modulo 2^32: it is always
      the starting value less the bytes appended, reduced modulo 2^32. */
  lemma {:induction false} RecvLoopCounts(s: seq<Arrival>, remain: u32, data: seq<byte>, buf: seq<byte>)
    requires MAXBUFLEN <= |buf|
    ensures var o := RecvLoop(s, remain, data, buf);
            o.remain == Wrap32(remain - (|o.data| - |data|))
    decreases Size(s)
  {
    var (r, s') := Reread(s, MAXBUFLEN);
    if r.Got? {
      var d := r.bytes;
      var remain' := CountOff(remain, |d|);
      RecvLoopChunk(s, remain, data, buf);
      if remain' != 0 {
        var o := RecvLoop(s', remain', data + d, d + buf[|d|..]);
        RecvLoopCounts(s', remain', data + d, d + buf[|d|..]);
        CountOffWraps(remain, |d|);
        Wrap32Carry(remain, |d|, remain', |o.data| - |data|, o.remain);
      }
    } else if r.Eof? {
      RecvLoopEof(s, remain, data, buf);
    } else {
      RecvLoopFails(s, remain, data, buf);
    }
  }

  /** The loop stops on its own exactly when `remain_data` reaches 0, which
      needs at least one chunk; when the stream ends first, nothing is left
      of it. */
  lemma {:induction false} RecvLoopStops(s: seq<Arrival>, remain: u32, data: seq<byte>, buf: seq<byte>)
    requires MAXBUFLEN <= |buf|
    ensures var o := RecvLoop(s, remain, data, buf);
            (o.end == Complete <==> o.remain == 0 && |o.data| > |data|) &&
            (o.end != Complete ==> (|o.data| > |data| ==> o.remain != 0) && (|o.data| == |data| ==> o.remain == remain)) &&
            (o.end == StreamEnded ==> o.rest == [])
    decreases Size(s)
  {
    var (r, s') := Reread(s, MAXBUFLEN);
    if r.Got? {
      var d := r.bytes;
      var remain' := CountOff(remain, |d|);
      if remain' != 0 {
        RecvLoopStops(s', remain', data + d, d + buf[|d|..]);
      }
    }
  }

  /** Without overshoot, bytes appended plus `remain_data` make `dim`. */
  lemma RecvLoopExact(s: seq<Arrival>, dim: u32, buf: seq<byte>)
    requires MAXBUFLEN <= |buf|
    ensures var o := RecvLoop(s, dim, [], buf);
            |o.data| <= dim ==> |o.data| + o.remain == dim
  {
    RecvLoopCounts(s, dim, [], buf);
  }

  /** `recvfile` returns `dim - remain_data` in 32 bits: the number of bytes
      received, reduced modulo 2^32. */
  lemma RecvReturnsCount(s: seq<Arrival>, dim: u32, buf: seq<byte>)
    requires MAXBUFLEN <= |buf|
    ensures var o := RecvLoop(s, dim, [], buf);
            Wrap32(dim - o.remain) == Wrap32(|o.data|)
  {
    var o := RecvLoop(s, dim, [], buf);
    RecvLoopCounts(s, dim, [], buf);
    assert (o.remain - (dim - |o.data|)) % TWO32 == 0;
    Wrap32Congruent(dim - o.remain, |o.data|);
  }

  /** No arrival of the script is an error. */
  predicate Faultless(s: seq<Arrival>)
  {
    forall i :: 0 <= i < |s| ==> s[i].Data?
  }

  /** On a script with no error, `Read` is one read, which returns bytes
      unless the stream has ended, and leaves a script with no error. */
  lemma RereadFaultless(s: seq<Arrival>, k: nat)
    requires k > 0 && Faultless(s) && s != []
    ensures Reread(s, k) == ReadOnce(s, k) && Reread(s, k).0.Got? && Faultless(Reread(s, k).1)
  {
    var s' := ReadOnce(s, k).1;
    assert s' == s[1..] || s' == [Data(s[0].bytes[k..])] + s[1..];
  }

  /** When exactly `remain` bytes arrive, with no error among them, the loop
      takes them all and stops with `remain_data` at 0. */
  lemma {:induction false} RecvLoopReceivesAll(s: seq<Arrival>, remain: u32, data: seq<byte>, buf: seq<byte>)
    requires MAXBUFLEN <= |buf| && Faultless(s) && 0 < remain == |Payload(s)|
    ensures var o := RecvLoop(s, remain, data, buf);
            o.end == Complete && o.remain == 0 && o.data == data + Payload(s) && Payload(o.rest) == []
    decreases Size(s)
  {
    assert s != [];
    var (r, s') := Reread(s, MAXBUFLEN);
    RereadFaultless(s, MAXBUFLEN);
    RereadPayload(s, MAXBUFLEN);
    var d := r.bytes;
    if |d| < remain {
      RecvLoopReceivesAll(s', remain - |d|, data + d, d + buf[|d|..]);
      ConcatAssoc(data, d, Payload(s'));
    }
  }

  /** File contents that the sender has already sent, whatever follows them
      on the connection, are received exactly: the loop stops right after
      their last byte and leaves what follows queued. */
  lemma {:induction false} RecvLoopFeed(f: seq<byte>, rest: seq<Arrival>, remain: u32, data: seq<byte>, buf: seq<byte>)
    requires MAXBUFLEN <= |buf| && 0 < remain == |f|
    ensures var o := RecvLoop(Feed(f, rest), remain, data, buf);
            o.end == Complete && o.remain == 0 && o.data == data + f && o.rest == rest
    decreases |f|
  {
    var s := Feed(f, rest);
    assert s[0] == Data(f) && s[1..] == rest;
    if |f| <= MAXBUFLEN {
      assert Reread(s, MAXBUFLEN) == (Got(f), rest);
    } else {
      var d := f[..MAXBUFLEN];
      assert Reread(s, MAXBUFLEN) == (Got(d), Feed(f[MAXBUFLEN..], rest));
      RecvLoopFeed(f[MAXBUFLEN..], rest, remain - MAXBUFLEN, data + d, d + buf[MAXBUFLEN..]);
      ConcatAssoc(data, d, f[MAXBUFLEN..]);
      assert d + f[MAXBUFLEN..] == f;
    }
  }

  /* ---------------------------------------------------------------------- */
  /* recvfile and Recvfile                                                   */

  /** Why the client process ended inside `Recvfile`. */
  datatype RecvFailure =
    | CannotCreate    // fopen(..., "w") failed: err_sys
    | ReadFailed      // Read failed: err_sys
    | CorruptDeleted  // short transfer, remove succeeded: err_quit
    | CorruptKept     // short transfer, remove failed: err_quit

  /** What `recvfile`/`Recvfile` returned, or how the process ended. */
  datatype RecvReturn = Returns(count: int) | Exited(why: RecvFailure)

  /** The client's file table, the outcome, `buf` and the stream after a
      receive. */
  datatype RecvState = RecvState(files: map<seq<byte>, seq<byte>>, ret: RecvReturn, buf: seq<byte>, rest: seq<Arrival>)

  /** The receive loop run on the open file `local`: it returns
      `dim - remain_data` in 32 bits unless a read failed. */
  function Download(files: map<seq<byte>, seq<byte>>, local: seq<byte>, s: seq<Arrival>, dim: u32, buf: seq<byte>): (r: RecvState)
    requires MAXBUFLEN <= |buf| && local in files
    ensures r.ret.Returns? ==> 0 <= r.ret.count < TWO32
  {
    var o := RecvLoop(s, dim, [], buf);
    var ret := if o.end == ReadError then Exited(ReadFailed) else Returns(Wrap32(dim - o.remain));
    RecvState(files[local := files[local] + o.data], ret, o.buf, o.rest)
  }

  /** `recvfile(s, name, dim, buf, timestamp)`: the file is created empty
      under the basename of `name`, then filled. */
  function RecvSpec(files: map<seq<byte>, seq<byte>>, unwritable: set<seq<byte>>, s: seq<Arrival>,
                    name: seq<byte>, dim: u32, buf: seq<byte>): (r: RecvState)
    requires MAXBUFLEN <= |buf|
    ensures r.ret.Returns? ==> 0 <= r.ret.count < TWO32
  {
    var local := Basename(name);
    if !Creatable(local, unwritable) then RecvState(files, Exited(CannotCreate), buf, s)
    else Download(files[local := []], local, s, dim, buf)
  }

  /** `Recvfile(s, name, dim, buf, timestamp)`: a count below `dim` removes
      `name` (the name as requested, not the one written) and ends the
      process. */
  function RecvfileSpec(files: map<seq<byte>, seq<byte>>, unwritable: set<seq<byte>>, s: seq<Arrival>,
                        name: seq<byte>, dim: u32, buf: seq<byte>): (r: RecvState)
    requires MAXBUFLEN <= |buf|
    ensures r.ret.Returns? ==> dim <= r.ret.count < TWO32
  {
    var r := RecvSpec(files, unwritable, s, name, dim, buf);
    if r.ret.Returns? && r.ret.count < dim then
      r.(files := r.files - {name}, ret := Exited(if name in r.files then CorruptDeleted else CorruptKept))
    else r
  }

  /** A complete transfer returns normally with the file holding exactly the
      `dim` bytes the server sent. */
  lemma RecvfileComplete(files: map<seq<byte>, seq<byte>>, unwritable: set<seq<byte>>, s: seq<Arrival>,
                         name: seq<byte>, dim: u32, buf: seq<byte>)
    requires MAXBUFLEN <= |buf| && Creatable(Basename(name), unwritable)
    requires Faultless(s) && 0 < dim == |Payload(s)|
    ensures var r := RecvfileSpec(files, unwritable, s, name, dim, buf);
            r.ret == Returns(dim) && r.files == files[Basename(name) := Payload(s)]
  {
    RecvLoopReceivesAll(s, dim, [], buf);
    assert [] + Payload(s) == Payload(s);
    CreatedComplete(files, unwritable, s, name, dim, buf);
  }

  /** A file the server sent in full, whatever follows it on the
      connection, is stored under its basename and `Recvfile` returns its
      size, leaving what follows unread. */
  lemma RecvfileFeed(files: map<seq<byte>, seq<byte>>, unwritable: set<seq<byte>>, f: seq<byte>, rest: seq<Arrival>,
                     name: seq<byte>, buf: seq<byte>)
    requires MAXBUFLEN <= |buf| && Creatable(Basename(name), unwritable) && 0 < |f| < TWO32
    ensures var r := RecvfileSpec(files, unwritable, Feed(f, rest), name, |f|, buf);
            r.ret == Returns(|f|) && r.files == files[Basename(name) := f] && r.rest == rest
  {
    RecvLoopFeed(f, rest, |f|, [], buf);
    assert [] + f == f;
    CreatedComplete(files, unwritable, Feed(f, rest), name, |f|, buf);
  }

  /** A loop that counted `remain_data` down to 0 makes `Recvfile` return
      `dim`, with the file created under the basename holding what the loop
      appended. */
  lemma CreatedComplete(files: map<seq<byte>, seq<byte>>, unwritable: set<seq<byte>>, s: seq<Arrival>,
                        name: seq<byte>, dim: u32, buf: seq<byte>)
    requires MAXBUFLEN <= |buf| && Creatable(Basename(name), unwritable)
    requires RecvLoop(s, dim, [], buf).end == Complete && RecvLoop(s, dim, [], buf).remain == 0
    ensures var r := RecvfileSpec(files, unwritable, s, name, dim, buf);
            var o := RecvLoop(s, dim, [], buf);
            r.ret == Returns(dim) && r.files == files[Basename(name) := o.data] && r.rest == o.rest
  {
    var local := Basename(name);
    var o := RecvLoop(s, dim, [], buf);
    DownloadComplete(files[local := []], local, s, dim, buf);
    assert [] + o.data == o.data;
    assert files[local := []][local := [] + o.data] == files[local := o.data];
  }

  /** The download part of `CreatedComplete`. */
  lemma DownloadComplete(files: map<seq<byte>, seq<byte>>, local: seq<byte>, s: seq<Arrival>, dim: u32, buf: seq<byte>)
    requires MAXBUFLEN <= |buf| && local in files
    requires RecvLoop(s, dim, [], buf).end == Complete && RecvLoop(s, dim, [], buf).remain == 0
    ensures var o := RecvLoop(s, dim, [], buf);
            Download(files, local, s, dim, buf) == RecvState(files[local := files[local] + o.data], Returns(dim), o.buf, o.rest)
  {
    assert Wrap32(dim - 0) == dim;
  }

  /** After a short transfer of a name with a directory part, `remove` is
      given the requested name, so the partial file written under the
      basename stays on disk. */
  lemma ShortTransferKeepsFile(files: map<seq<byte>, seq<byte>>, unwritable: set<seq<byte>>, s: seq<Arrival>,
                               name: seq<byte>, dim: u32, buf: seq<byte>)
    requires MAXBUFLEN <= |buf| && SLASH in name
    requires var r := RecvSpec(files, unwritable, s, name, dim, buf);
             r.ret.Returns? && r.ret.count < dim
    ensures var r := RecvfileSpec(files, unwritable, s, name, dim, buf);
            var o := RecvLoop(s, dim, [], buf);
            r.ret.Exited? && Basename(name) in r.files && r.files[Basename(name)] == o.data
  {
    var b := Basename(name);
    assert |b| < |name|;
    assert b != name;
  }

  /** Without a directory part the partial file is the one removed. */
  lemma ShortTransferRemovesFile(files: map<seq<byte>, seq<byte>>, unwritable: set<seq<byte>>, s: seq<Arrival>,
                                 name: seq<byte>, dim: u32, buf: seq<byte>)
    requires MAXBUFLEN <= |buf| && SLASH !in name
    requires var r := RecvSpec(files, unwritable, s, name, dim, buf);
             r.ret.Returns? && r.ret.count < dim
    ensures var r := RecvfileSpec(files, unwritable, s, name, dim, buf);
            r.ret == Exited(CorruptDeleted) && name !in r.files
  {
  }

  /** For an empty file (`dim` 0) `remain_data` is already 0 but the loop
      reads first: a chunk leaves `remain_data` just below 2^32, so short of
      4 GiB arriving the loop never stops at 0. In C the printout's division
      by `dim` ends the process at the first chunk; without it the loop
      ends only with the stream or an error. */
  lemma EmptyFileReadsOn(s: seq<Arrival>, buf: seq<byte>)
    requires MAXBUFLEN <= |buf| && |Payload(s)| < TWO32
    ensures RecvLoop(s, 0, [], buf).end != Complete
  {
    var o := RecvLoop(s, 0, [], buf);
    RecvLoopInOrder(s, 0, [], buf);
    assert |o.data| <= |Payload(s)| by {
      assert |[] + Payload(s)| == |o.data| + |Payload(o.rest)|;
    }
    RecvLoopCounts(s, 0, [], buf);
    RecvLoopStops(s, 0, [], buf);
  }

  /** `recvfile`: the local name, its creation and the receive loop. */
  method Recv(conn: Socket, disk: Disk, name: seq<byte>, dim: u32, buf: array<byte>) returns (ret: RecvReturn)
    requires MAXBUFLEN <= buf.Length
    modifies conn`inbound, disk`files, buf
    ensures var r := RecvSpec(old(disk.files), disk.unwritable, old(conn.inbound), name, dim, old(buf[..]));
            disk.files == r.files && ret == r.ret && buf[..] == r.buf && conn.inbound == r.rest
  {
    var local := name;
    if Contains(name, [SLASH]) {
      local := Basename(name);
    }
    ContainsByte(name, SLASH);
    var ok := disk.Create(local);
    if !ok {
      return Exited(CannotCreate);
    }
    ghost var o;
    ret, o := RecvChunks(conn, disk, local, dim, buf);
  }

  /** `Recvfile`: `recvfile`, then, when fewer than `dim` bytes came,
      `remove(name)` and the end of the process. */
  method Recvfile(conn: Socket, disk: Disk, name: seq<byte>, dim: u32, buf: array<byte>) returns (ret: RecvReturn)
    requires MAXBUFLEN <= buf.Length
    modifies conn`inbound, disk`files, buf
    ensures var r := RecvfileSpec(old(disk.files), disk.unwritable, old(conn.inbound), name, dim, old(buf[..]));
            disk.files == r.files && ret == r.ret && buf[..] == r.buf && conn.inbound == r.rest
  {
    ret := Recv(conn, disk, name, dim, buf);
    if ret.Returns? && ret.count < dim {
      var removed := disk.Remove(name);
      ret := Exited(if removed == 0 then CorruptDeleted else CorruptKept);
    }
  }

  /** The loop `while ((len = Read(s, buf, MAXBUFLEN)) > 0)`, appending each
      chunk to the open file `local` until `remain_data` reaches 0. */
  method RecvChunks(conn: Socket, disk: Disk, local: seq<byte>, dim: u32, buf: array<byte>)
    returns (ret: RecvReturn, ghost goal: Receipt)
    requires MAXBUFLEN <= buf.Length && local in disk.files
    modifies conn`inbound, disk`files, buf
    ensures goal == RecvLoop(old(conn.inbound), dim, [], old(buf[..]))
    ensures disk.files == old(disk.files)[local := old(disk.files)[local] + goal.data]
    ensures buf[..] == goal.buf && conn.inbound == goal.rest
    ensures ret == if goal.end == ReadError then Exited(ReadFailed) else Returns(Wrap32(dim - goal.remain))
  {
    var remain: u32 := dim;
    ghost var data: seq<byte> := [];
    goal := RecvLoop(old(conn.inbound), dim, [], old(buf[..]));
    ghost var start := old(disk.files)[local];
    assert start + data == start;
    assert disk.files == disk.files[local := start];
    while true
      invariant disk.files == old(disk.files)[local := start + data]
      invariant RecvLoop(conn.inbound, remain, data, buf[..]) == goal
      decreases Size(conn.inbound)
    {
      ghost var before := buf[..];
      ghost var s := conn.inbound;
      var len := ReadRetrying(conn, buf, MAXBUFLEN);
      RecvLoopAdvance(s, remain, data, before, len, conn.inbound, buf[..]);
      if len < 0 {
        assert goal == Receipt(data, remain, ReadError, buf[..], conn.inbound);
        assert goal.data == data && goal.end == ReadError;
        ret := Exited(ReadFailed);
        return;
      }
      if len == 0 {
        assert goal == Receipt(data, remain, StreamEnded, buf[..], conn.inbound);
        break;
      }
      disk.Append(local, buf[..len]);
      ConcatAssoc(start, data, buf[..len]);
      data := data + buf[..len];
      remain := CountOff(remain, len);
      if remain <= 0 {
        assert goal == Receipt(data, 0, Complete, buf[..], conn.inbound);
        break;
      }
    }
    assert goal.data == data && goal.remain == remain && goal.end != ReadError && goal.buf == buf[..] && goal.rest == conn.inbound;
    assert disk.files == old(disk.files)[local := old(disk.files)[local] + goal.data];
    ret := Returns(Wrap32(dim - remain));
  }
}
