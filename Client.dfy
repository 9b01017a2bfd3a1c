/** The client of client1/client1_main.c: for each file name it sends
    "GET name\r\n", reads the five-byte reply head, and either receives the
    file (`Recvfile`), stops on "-ERR\r\n", skips to the next name, or stops
    on anything else; after the last name it sends "QUIT\r\n" and closes. */
module Client {
  import opened Bytes
  import opened Stream
  import opened SockWrap
  import opened RecvFile

  /** A name `main` can put in `buf[MAXBUFLEN]` as "GET name\r\n" with its
      terminating NUL; a command-line argument holds no NUL. */
  predicate Requestable(name: seq<byte>)
  {
    NUL !in name && |name| + 7 <= MAXBUFLEN
  }

  /** The request for `name`. */
  function GetCommand(name: seq<byte>): seq<byte>
  {
    GET + name + CRLF
  }

  /** The four bytes a `uint32_t` variable holds on a little-endian host
      once `x` is assigned to it. */
  function HostImage(x: u32): (b: seq<byte>)
    ensures |b| == 4
  {
    var n := EncodeBE(x);
    [n[3], n[2], n[1], n[0]]
  }

  /** How the client process ends. */
  datatype Exit =
    | Finished                   // "QUIT\r\n" sent, Close, exit(0)
    | ServerError                // "-ERR\r\n" received, Close, exit(-1)
    | InvalidResponse            // any other reply head, Close, exit(-1)
    | ReadnQuit(timeout: bool)   // a Readn failed (timed out or not): the process ends
    | RecvQuit(why: RecvFailure) // Recvfile ended the process

  /** `Close(s)` comes before the exit. */
  predicate Closes(e: Exit)
  {
    e.Finished? || e.ServerError? || e.InvalidResponse?
  }

  /** What the client's loop reads and changes: the connection, the local
      files and the memory of `buf`, `dimension`, `timestamp` and `c`. */
  datatype Machine = Machine(inbound: seq<Arrival>, outbound: seq<byte>, writes: seq<Acceptance>, closes: nat,
                             files: map<seq<byte>, seq<byte>>,
                             buf: seq<byte>, dim: seq<byte>, ts: seq<byte>, c: seq<byte>)
  {
    predicate Sized()
    {
      |buf| == MAXBUFLEN && |dim| == 4 && |ts| == 4 && |c| == 1
    }
  }

  /** `cell` after a `Readn` into it: the bytes read, then what it held. */
  function Landed(t: Transfer, cell: seq<byte>): seq<byte>
    requires |t.bytes| <= |cell|
  {
    t.bytes + cell[|t.bytes|..]
  }

  /** `memset`, "GET name\r\n" built with `strcpy`/`strncat`, then
      `Writen(s, buf, strlen(buf))`, whose failure is only logged. */
  function Request(m: Machine, name: seq<byte>): (m': Machine)
    requires m.Sized() && Requestable(name)
    ensures m'.Sized()
  {
    var cmd := GetCommand(name);
    var v := WritenSpec(m.writes, cmd);
    m.(outbound := m.outbound + Sent(v, cmd), writes := v.rest, buf := Pad(cmd, MAXBUFLEN))
  }

  /** The result of one request: go on with the next name or end. */
  datatype Outcome = Next(m: Machine) | Stop(m: Machine, exit: Exit)

  /** After "+OK\r\n": `Readn` of the size word, then of the timestamp
      word, each into its variable. */
  function Words(m: Machine): (r: Outcome)
    requires m.Sized()
    ensures r.m.Sized() && r.m.outbound == m.outbound && r.m.writes == m.writes && r.m.closes == m.closes
    ensures r.m.files == m.files && r.m.buf == m.buf
    ensures r.Stop? ==> r.exit.ReadnQuit?
  {
    var t1 := ReadnSpec(m.inbound, 4);
    var dim := Landed(t1, m.dim);
    if t1.Broken? then Stop(m.(inbound := t1.rest, dim := dim), ReadnQuit(t1.errno == EWOULDBLOCK))
    else
      var t2 := ReadnSpec(t1.rest, 4);
      var ts := Landed(t2, m.ts);
      var m' := m.(inbound := t2.rest, dim := dim, ts := ts);
      if t2.Broken? then Stop(m', ReadnQuit(t2.errno == EWOULDBLOCK)) else Next(m')
  }

  /** `ntohl` on both words, then `Recvfile` of `dimension` bytes. */
  function Store(m: Machine, name: seq<byte>, unwritable: set<seq<byte>>): (r: Outcome)
    requires m.Sized()
    ensures r.m.Sized() && r.m.outbound == m.outbound && r.m.writes == m.writes && r.m.closes == m.closes
    ensures r.Stop? ==> r.exit.RecvQuit?
  {
    var dimension := DecodeBE(m.dim);
    var r := RecvfileSpec(m.files, unwritable, m.inbound, name, dimension, m.buf);
    var m' := m.(inbound := r.rest, files := r.files, buf := r.buf,
                 dim := HostImage(dimension), ts := HostImage(DecodeBE(m.ts)));
    if r.ret.Exited? then Stop(m', RecvQuit(r.ret.why)) else Next(m')
  }

  /** After "+OK\r\n": the two words and the file. */
  function Fetch(m: Machine, name: seq<byte>, unwritable: set<seq<byte>>): (r: Outcome)
    requires m.Sized()
    ensures r.m.Sized() && r.m.outbound == m.outbound && r.m.writes == m.writes && r.m.closes == m.closes
    ensures r.Stop? ==> r.exit.ReadnQuit? || r.exit.RecvQuit?
  {
    match Words(m)
    case Stop(m', e) => Stop(m', e)
    case Next(m') => Store(m', name, unwritable)
  }

  /** After "-ERR\r": the sixth byte decides whether this is the error reply. */
  function ErrTail(m: Machine): (r: Outcome)
    requires m.Sized()
    ensures r.m.Sized() && r.m.outbound == m.outbound && r.m.writes == m.writes && r.m.files == m.files
    ensures r.Stop? ==> r.exit.ReadnQuit? || r.exit.ServerError?
  {
    var t := ReadnSpec(m.inbound, 1);
    var m' := m.(inbound := t.rest, c := Landed(t, m.c));
    if t.Broken? then Stop(m', ReadnQuit(t.errno == EWOULDBLOCK))
    else if m'.c[0] == LF then Stop(m'.(closes := m.closes + 1), ServerError)
    else Next(m')
  }

  /** `Readn(s, buf, 5)` and the `strncmp` tests on the reply head. */
  function Answer(m: Machine, name: seq<byte>, unwritable: set<seq<byte>>): (r: Outcome)
    requires m.Sized()
    ensures r.m.Sized() && r.m.outbound == m.outbound && r.m.writes == m.writes
  {
    var t := ReadnSpec(m.inbound, 5);
    var m' := m.(inbound := t.rest, buf := Landed(t, m.buf));
    if t.Broken? then Stop(m', ReadnQuit(t.errno == EWOULDBLOCK))
    else if m'.buf[..5] == OK_REPLY then Fetch(m', name, unwritable)
    else if m'.buf[..5] == ERR_PREFIX then ErrTail(m')
    else Stop(m'.(closes := m.closes + 1), InvalidResponse)
  }

  /** One round of `for (k = 3; k < argc; k++)`. */
  function Round(m: Machine, name: seq<byte>, unwritable: set<seq<byte>>): (r: Outcome)
    requires m.Sized() && Requestable(name)
    ensures r.m.Sized()
  {
    Answer(Request(m, name), name, unwritable)
  }

  /** "QUIT\r\n" written from a cleared `buf`, then `Close(s)`. */
  function Finish(m: Machine): (m': Machine)
    requires m.Sized()
    ensures m'.Sized()
  {
    var v := WritenSpec(m.writes, QUIT_CMD);
    m.(outbound := m.outbound + Sent(v, QUIT_CMD), writes := v.rest, buf := Pad(QUIT_CMD, MAXBUFLEN),
       closes := m.closes + 1)
  }

  /** How the run ended and the state it left. */
  datatype Run = Run(m: Machine, exit: Exit)

  /** The loop over the names still to request, then the quit. */
  function ClientLoop(m: Machine, names: seq<seq<byte>>, unwritable: set<seq<byte>>): (r: Run)
    requires m.Sized() && forall i :: 0 <= i < |names| ==> Requestable(names[i])
    decreases |names|
  {
    if names == [] then Run(Finish(m), Finished)
    else
      match Round(m, names[0], unwritable)
      case Stop(m', e) => Run(m', e)
      case Next(m') => ClientLoop(m', names[1..], unwritable)
  }

  /** The unfolding of the loop at a round that goes on. */
  lemma ClientLoopNext(m: Machine, names: seq<seq<byte>>, unwritable: set<seq<byte>>, r: Outcome)
    requires m.Sized() && forall i :: 0 <= i < |names| ==> Requestable(names[i])
    requires names != [] && r == Round(m, names[0], unwritable) && r.Next?
    ensures ClientLoop(m, names, unwritable) == ClientLoop(r.m, names[1..], unwritable)
  {
  }

  /** The unfolding of the loop at the round that ends it. */
  lemma ClientLoopStop(m: Machine, names: seq<seq<byte>>, unwritable: set<seq<byte>>, r: Outcome)
    requires m.Sized() && forall i :: 0 <= i < |names| ==> Requestable(names[i])
    requires names != [] && r == Round(m, names[0], unwritable) && r.Stop?
    ensures ClientLoop(m, names, unwritable) == Run(r.m, r.exit)
  {
  }

  /** `buf` is cleared before it is read: what it held at the start does
      not matter. */
  lemma ClientLoopClearsBuf(m: Machine, names: seq<seq<byte>>, unwritable: set<seq<byte>>, b: seq<byte>)
    requires m.Sized() && |b| == MAXBUFLEN && forall i :: 0 <= i < |names| ==> Requestable(names[i])
    ensures ClientLoop(m, names, unwritable) == ClientLoop(m.(buf := b), names, unwritable)
  {
    if names != [] {
      assert Request(m, names[0]) == Request(m.(buf := b), names[0]);
    }
  }

  /* ---------------------------------------------------------------------- */
  /* main                                                                    */

  /** `buf`, `dimension`, `timestamp` and `c`: four separate objects of
      the sizes `main` gives them. */
  predicate Cells(buf: array<byte>, dim: array<byte>, ts: array<byte>, c: array<byte>)
  {
    buf.Length == MAXBUFLEN && dim.Length == 4 && ts.Length == 4 && c.Length == 1 && dim != ts
  }

  /** The machine the client's objects make up. */
  function View(conn: Socket, disk: Disk, buf: array<byte>, dim: array<byte>, ts: array<byte>, c: array<byte>): Machine
    reads conn, disk, buf, dim, ts, c
  {
    Machine(conn.inbound, conn.outbound, conn.writes, conn.closes, disk.files, buf[..], dim[..], ts[..], c[..])
  }

  /** Lines 94-102: the request for `name`, sent with `Writen`. */
  method SendRequest(conn: Socket, buf: array<byte>, name: seq<byte>)
    requires buf.Length == MAXBUFLEN && Requestable(name)
    modifies conn`outbound, conn`writes, buf
    ensures var cmd := GetCommand(name);
            var v := WritenSpec(old(conn.writes), cmd);
            conn.outbound == old(conn.outbound) + Sent(v, cmd) && conn.writes == v.rest &&
            buf[..] == Pad(cmd, MAXBUFLEN)
  {
    var cmd := GetCommand(name);
    Clear(buf);
    StoreFront(buf, cmd);
    assert buf[..] == Pad(cmd, MAXBUFLEN);
    CStringUnique(buf[..], cmd);
    var logged := LoggedWriten(conn, CString(buf[..]));
  }

  /** Lines 119-121: the size and the timestamp words. */
  method ReadWords(conn: Socket, disk: Disk, buf: array<byte>, dim: array<byte>, ts: array<byte>, c: array<byte>)
    returns (quit: Option<Exit>)
    requires Cells(buf, dim, ts, c)
    modifies conn`inbound, dim, ts
    ensures var r := Words(old(View(conn, disk, buf, dim, ts, c)));
            View(conn, disk, buf, dim, ts, c) == r.m && quit == if r.Stop? then Some(r.exit) else None
  {
    var v := CheckedReadn(conn, dim, 4);
    if !v.Returned? {
      return Some(ReadnQuit(v == QuitTimeout));
    }
    v := CheckedReadn(conn, ts, 4);
    if !v.Returned? {
      return Some(ReadnQuit(v == QuitTimeout));
    }
    return None;
  }

  /** Lines 124-128: `ntohl` in place and `Recvfile`. */
  method StoreFile(conn: Socket, disk: Disk, buf: array<byte>, dim: array<byte>, ts: array<byte>, c: array<byte>,
                   name: seq<byte>) returns (quit: Option<Exit>)
    requires Cells(buf, dim, ts, c)
    modifies conn`inbound, disk`files, buf, dim, ts
    ensures var r := Store(old(View(conn, disk, buf, dim, ts, c)), name, disk.unwritable);
            View(conn, disk, buf, dim, ts, c) == r.m && quit == if r.Stop? then Some(r.exit) else None
  {
    var dimension := DecodeBE(dim[..]);
    var timestamp := DecodeBE(ts[..]);
    StoreFront(dim, HostImage(dimension));
    StoreFront(ts, HostImage(timestamp));
    var ret := Recvfile(conn, disk, name, dimension, buf);
    if ret.Exited? {
      return Some(RecvQuit(ret.why));
    }
    return None;
  }

  /** Lines 119-128. */
  method FetchFile(conn: Socket, disk: Disk, buf: array<byte>, dim: array<byte>, ts: array<byte>, c: array<byte>,
                   name: seq<byte>) returns (quit: Option<Exit>)
    requires Cells(buf, dim, ts, c)
    modifies conn`inbound, disk`files, buf, dim, ts
    ensures var r := Fetch(old(View(conn, disk, buf, dim, ts, c)), name, disk.unwritable);
            View(conn, disk, buf, dim, ts, c) == r.m && quit == if r.Stop? then Some(r.exit) else None
  {
    quit := ReadWords(conn, disk, buf, dim, ts, c);
    if quit.None? {
      quit := StoreFile(conn, disk, buf, dim, ts, c, name);
    }
  }

  /** Lines 137-146: the sixth byte of an error reply. */
  method ReadErrTail(conn: Socket, disk: Disk, buf: array<byte>, dim: array<byte>, ts: array<byte>, c: array<byte>)
    returns (quit: Option<Exit>)
    requires Cells(buf, dim, ts, c)
    modifies conn`inbound, conn`closes, c
    ensures var r := ErrTail(old(View(conn, disk, buf, dim, ts, c)));
            View(conn, disk, buf, dim, ts, c) == r.m && quit == if r.Stop? then Some(r.exit) else None
  {
    var v := CheckedReadn(conn, c, 1);
    if !v.Returned? {
      return Some(ReadnQuit(v == QuitTimeout));
    }
    if c[0] == LF {
      conn.Close();
      return Some(ServerError);
    }
    return None;
  }

  /** Lines 111-156: the reply head and what follows it. */
  method ReadAnswer(conn: Socket, disk: Disk, buf: array<byte>, dim: array<byte>, ts: array<byte>, c: array<byte>,
                    name: seq<byte>) returns (quit: Option<Exit>)
    requires Cells(buf, dim, ts, c)
    modifies conn`inbound, conn`closes, disk`files, buf, dim, ts, c
    ensures var r := Answer(old(View(conn, disk, buf, dim, ts, c)), name, disk.unwritable);
            View(conn, disk, buf, dim, ts, c) == r.m && quit == if r.Stop? then Some(r.exit) else None
  {
    var v := CheckedReadn(conn, buf, 5);
    if !v.Returned? {
      return Some(ReadnQuit(v == QuitTimeout));
    }
    if buf[..5] == OK_REPLY {
      quit := FetchFile(conn, disk, buf, dim, ts, c, name);
    } else if buf[..5] == ERR_PREFIX {
      quit := ReadErrTail(conn, disk, buf, dim, ts, c);
    } else {
      conn.Close();
      quit := Some(InvalidResponse);
    }
  }

  /** One round of the `for` loop of lines 90-157. */
  method RequestFile(conn: Socket, disk: Disk, buf: array<byte>, dim: array<byte>, ts: array<byte>, c: array<byte>,
                     name: seq<byte>) returns (quit: Option<Exit>)
    requires Cells(buf, dim, ts, c) && Requestable(name)
    modifies conn`inbound, conn`outbound, conn`writes, conn`closes, disk`files, buf, dim, ts, c
    ensures var r := Round(old(View(conn, disk, buf, dim, ts, c)), name, disk.unwritable);
            View(conn, disk, buf, dim, ts, c) == r.m && quit == if r.Stop? then Some(r.exit) else None
  {
    SendRequest(conn, buf, name);
    quit := ReadAnswer(conn, disk, buf, dim, ts, c, name);
  }

  /** Lines 160-172: "QUIT\r\n" and `Close(s)`. */
  method SendQuit(conn: Socket, buf: array<byte>)
    requires buf.Length == MAXBUFLEN
    modifies conn`outbound, conn`writes, conn`closes, buf
    ensures var v := WritenSpec(old(conn.writes), QUIT_CMD);
            conn.outbound == old(conn.outbound) + Sent(v, QUIT_CMD) && conn.writes == v.rest &&
            conn.closes == old(conn.closes) + 1 && buf[..] == Pad(QUIT_CMD, MAXBUFLEN)
  {
    Clear(buf);
    StoreFront(buf, QUIT_CMD);
    assert buf[..] == Pad(QUIT_CMD, MAXBUFLEN);
    assert buf[..6] == QUIT_CMD;
    var logged := LoggedWriten(conn, buf[..6]);
    conn.Close();
  }

  /** Lines 90-172 on the client's objects. */
  method RequestAll(conn: Socket, disk: Disk, buf: array<byte>, dim: array<byte>, ts: array<byte>, c: array<byte>,
                    names: seq<seq<byte>>) returns (exit: Exit)
    requires Cells(buf, dim, ts, c) && forall i :: 0 <= i < |names| ==> Requestable(names[i])
    modifies conn`inbound, conn`outbound, conn`writes, conn`closes, disk`files, buf, dim, ts, c
    ensures Run(View(conn, disk, buf, dim, ts, c), exit) ==
            ClientLoop(old(View(conn, disk, buf, dim, ts, c)), names, disk.unwritable)
  {
    ghost var goal := ClientLoop(View(conn, disk, buf, dim, ts, c), names, disk.unwritable);
    var k := 0;
    while k < |names|
      invariant 0 <= k <= |names|
      invariant ClientLoop(View(conn, disk, buf, dim, ts, c), names[k..], disk.unwritable) == goal
    {
      ghost var m := View(conn, disk, buf, dim, ts, c);
      ghost var r := Round(m, names[k], disk.unwritable);
      assert names[k..][0] == names[k] && names[k..][1..] == names[k + 1..];
      var quit := RequestFile(conn, disk, buf, dim, ts, c, names[k]);
      if quit.Some? {
        ClientLoopStop(m, names[k..], disk.unwritable, r);
        return quit.value;
      }
      ClientLoopNext(m, names[k..], disk.unwritable, r);
      k := k + 1;
    }
    assert names[k..] == [];
    SendQuit(conn, buf);
    return Finished;
  }

  /** `main` from line 87 on, on a connected socket, for the file names
      `argv[3..]`; `dim0`, `ts0` and `c0` are what the uninitialised
      variables `dimension`, `timestamp` and `c` hold. */
  method RunClient(conn: Socket, disk: Disk, names: seq<seq<byte>>, dim0: seq<byte>, ts0: seq<byte>, c0: seq<byte>)
    returns (exit: Exit)
    requires |dim0| == 4 && |ts0| == 4 && |c0| == 1
    requires forall i :: 0 <= i < |names| ==> Requestable(names[i])
    modifies conn`inbound, conn`outbound, conn`writes, conn`closes, disk`files
    ensures var r := ClientLoop(Machine(old(conn.inbound), old(conn.outbound), old(conn.writes), old(conn.closes),
                                        old(disk.files), Zeros(MAXBUFLEN), dim0, ts0, c0), names, disk.unwritable);
            conn.inbound == r.m.inbound && conn.outbound == r.m.outbound && conn.writes == r.m.writes &&
            conn.closes == r.m.closes && disk.files == r.m.files && exit == r.exit
  {
    var buf := new byte[MAXBUFLEN];
    var dim := new byte[4];
    var ts := new byte[4];
    var c := new byte[1];
    StoreFront(dim, dim0);
    StoreFront(ts, ts0);
    StoreFront(c, c0);
    assert dim[..] == dim0 && ts[..] == ts0 && c[..] == c0;
    ClientLoopClearsBuf(View(conn, disk, buf, dim, ts, c), names, disk.unwritable, Zeros(MAXBUFLEN));
    exit := RequestAll(conn, disk, buf, dim, ts, c, names);
  }
}
