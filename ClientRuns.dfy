/** What the client of client1/client1_main.c makes of the replies a
    server sends: a served file is stored and the loop goes on, "-ERR\r\n"
    ends the run, an error head with another sixth byte is skipped, any
    other head (or none at all) ends the run as an invalid response. */
module ClientRuns {
  import opened Bytes
  import opened Stream
  import opened SockWrap
  import opened RecvFile
  import opened Client

  /** The reply that serves a file: "+OK\r\n", its size and its timestamp
      as big-endian words, then its bytes. */
  function FileReply(f: seq<byte>, ts: u32): seq<byte>
    requires |f| < TWO32
  {
    OK_REPLY + EncodeBE(|f|) + EncodeBE(ts) + f
  }

  /** Over a connection that takes every write, the request goes out whole
      and nothing else changes but `buf`. */
  lemma RequestDelivers(m: Machine, name: seq<byte>)
    requires m.Sized() && Requestable(name) && NoRefusal(m.writes)
    ensures var m' := Request(m, name);
            m'.outbound == m.outbound + GetCommand(name) && NoRefusal(m'.writes) &&
            m'.inbound == m.inbound && m'.files == m.files && m'.closes == m.closes
  {
    WritenDelivers(m.writes, GetCommand(name));
  }

  /** "+OK\r\n" at the head of the reply leads to the two words and the
      file. */
  lemma AnswerOk(m: Machine, name: seq<byte>, unwritable: set<seq<byte>>, tail: seq<byte>, rest: seq<Arrival>)
    requires m.Sized() && m.inbound == Feed(OK_REPLY + tail, rest)
    ensures Answer(m, name, unwritable) ==
            Fetch(m.(inbound := Feed(tail, rest), buf := OK_REPLY + m.buf[5..]), name, unwritable)
  {
    ReadnFeed(OK_REPLY, tail, rest);
    assert (OK_REPLY + m.buf[5..])[..5] == OK_REPLY;
  }

  /** Two words that have arrived are read into `dimension` and
      `timestamp` as they are. */
  lemma WordsFeed(m: Machine, w1: seq<byte>, w2: seq<byte>, f: seq<byte>, rest: seq<Arrival>)
    requires m.Sized() && |w1| == 4 && |w2| == 4 && m.inbound == Feed(w1 + (w2 + f), rest)
    ensures Words(m) == Next(m.(inbound := Feed(f, rest), dim := w1, ts := w2))
  {
    ReadnFeed(w1, w2 + f, rest);
    ReadnFeed(w2, f, rest);
    assert Landed(Moved(w1, Feed(w2 + f, rest)), m.dim) == w1;
    assert Landed(Moved(w2, Feed(f, rest)), m.ts) == w2;
  }

  /** A size word that encodes the length of the bytes that follow makes
      `Recvfile` store exactly those bytes. */
  lemma StoreFeed(m: Machine, name: seq<byte>, unwritable: set<seq<byte>>, f: seq<byte>, rest: seq<Arrival>)
    requires m.Sized() && 0 < |f| < TWO32 && Creatable(Basename(name), unwritable)
    requires m.dim == EncodeBE(|f|) && m.inbound == Feed(f, rest)
    ensures var r := Store(m, name, unwritable);
            r.Next? && r.m.files == m.files[Basename(name) := f] && r.m.inbound == rest
  {
    DecodeEncode(|f|);
    assert DecodeBE(m.dim) == |f|;
    RecvfileFeed(m.files, unwritable, f, rest, name, m.buf);
    var r := RecvfileSpec(m.files, unwritable, m.inbound, name, |f|, m.buf);
    assert !r.ret.Exited? && r.files == m.files[Basename(name) := f] && r.rest == rest;
  }

  /** A file reply that has arrived whole is read by one round: the file
      is stored under the basename of the requested name with exactly the
      bytes the server sent, the loop goes on, and whatever follows the
      reply is left unread. */
  lemma RoundFetches(m: Machine, name: seq<byte>, unwritable: set<seq<byte>>, f: seq<byte>, ts: u32, rest: seq<Arrival>)
    requires m.Sized() && Requestable(name) && NoRefusal(m.writes)
    requires 0 < |f| < TWO32 && Creatable(Basename(name), unwritable)
    requires m.inbound == Feed(FileReply(f, ts), rest)
    ensures var r := Round(m, name, unwritable);
            r.Next? && r.m.outbound == m.outbound + GetCommand(name) && NoRefusal(r.m.writes) &&
            r.m.files == m.files[Basename(name) := f] && r.m.inbound == rest && r.m.closes == m.closes
  {
    RequestDelivers(m, name);
    var m1 := Request(m, name);
    var w1, w2 := EncodeBE(|f|), EncodeBE(ts);
    assert FileReply(f, ts) == OK_REPLY + (w1 + (w2 + f));
    AnswerOk(m1, name, unwritable, w1 + (w2 + f), rest);
    var m2 := m1.(inbound := Feed(w1 + (w2 + f), rest), buf := OK_REPLY + m1.buf[5..]);
    WordsFeed(m2, w1, w2, f, rest);
    StoreFeed(m2.(inbound := Feed(f, rest), dim := w1, ts := w2), name, unwritable, f, rest);
  }

  /** The error reply ends the run: the connection is closed and nothing
      is stored. */
  lemma RoundServerError(m: Machine, name: seq<byte>, unwritable: set<seq<byte>>, rest: seq<Arrival>)
    requires m.Sized() && Requestable(name) && NoRefusal(m.writes)
    requires m.inbound == Feed(ERR_REPLY, rest)
    ensures var r := Round(m, name, unwritable);
            r.Stop? && r.exit == ServerError && r.m.outbound == m.outbound + GetCommand(name) &&
            r.m.files == m.files && r.m.inbound == rest && r.m.closes == m.closes + 1
  {
    RequestDelivers(m, name);
    var m1 := Request(m, name);
    ReadnFeed(ERR_PREFIX, [LF], rest);
    var m2 := m1.(inbound := Feed([LF], rest), buf := ERR_PREFIX + m1.buf[5..]);
    assert (ERR_PREFIX + m1.buf[5..])[..5] == ERR_PREFIX != OK_REPLY;
    assert Answer(m1, name, unwritable) == ErrTail(m2);
    ReadnFeed([LF], [], rest);
    assert [LF] + [] == [LF];
    assert Landed(Moved([LF], rest), m2.c) == [LF];
  }

  /** "-ERR\r" followed by anything but '\n' is not the error reply: the
      round ends without storing anything and the loop goes on with the
      next name. */
  lemma RoundErrHeadSkipped(m: Machine, name: seq<byte>, unwritable: set<seq<byte>>, b: byte, rest: seq<Arrival>)
    requires m.Sized() && Requestable(name) && NoRefusal(m.writes)
    requires b != LF && m.inbound == Feed(ERR_PREFIX + [b], rest)
    ensures var r := Round(m, name, unwritable);
            r.Next? && r.m.outbound == m.outbound + GetCommand(name) && NoRefusal(r.m.writes) &&
            r.m.files == m.files && r.m.inbound == rest && r.m.closes == m.closes
  {
    RequestDelivers(m, name);
    var m1 := Request(m, name);
    ReadnFeed(ERR_PREFIX, [b], rest);
    var m2 := m1.(inbound := Feed([b], rest), buf := ERR_PREFIX + m1.buf[5..]);
    assert (ERR_PREFIX + m1.buf[5..])[..5] == ERR_PREFIX != OK_REPLY;
    assert Answer(m1, name, unwritable) == ErrTail(m2);
    ReadnFeed([b], [], rest);
    assert [b] + [] == [b];
    assert Landed(Moved([b], rest), m2.c) == [b];
  }

  /** Five bytes that are neither "+OK\r\n" nor "-ERR\r" end the run as an
      invalid response, with the connection closed. */
  lemma RoundInvalidHead(m: Machine, name: seq<byte>, unwritable: set<seq<byte>>, head: seq<byte>, more: seq<byte>,
                         rest: seq<Arrival>)
    requires m.Sized() && Requestable(name) && NoRefusal(m.writes)
    requires |head| == 5 && head != OK_REPLY && head != ERR_PREFIX && m.inbound == Feed(head + more, rest)
    ensures var r := Round(m, name, unwritable);
            r.Stop? && r.exit == InvalidResponse && r.m.outbound == m.outbound + GetCommand(name) &&
            r.m.files == m.files && r.m.inbound == Feed(more, rest) && r.m.closes == m.closes + 1
  {
    RequestDelivers(m, name);
    var m1 := Request(m, name);
    ReadnFeed(head, more, rest);
    assert (head + m1.buf[5..])[..5] == head;
  }

  /** A server that closes the connection without replying leaves the
      request in `buf`, whose "GET " head is then judged an invalid
      response: the unchecked `Readn` count does not make the run fail
      differently. */
  lemma RoundWithoutReply(m: Machine, name: seq<byte>, unwritable: set<seq<byte>>)
    requires m.Sized() && Requestable(name) && m.inbound == []
    ensures var r := Round(m, name, unwritable);
            r.Stop? && r.exit == InvalidResponse && r.m.inbound == [] && r.m.files == m.files
  {
    var m1 := Request(m, name);
    assert m1.buf[0] == GetCommand(name)[0] == GET[0];
    assert ReadnSpec([], 5) == Moved([], []);
    assert Landed(Moved([], []), m1.buf) == m1.buf;
    assert m1.buf[..5][0] != OK_REPLY[0] && m1.buf[..5][0] != ERR_PREFIX[0];
  }

  /** A round closes the socket once when it ends the run with `Close(s)`
      (an error reply or an invalid head) and not otherwise. */
  lemma RoundCloses(m: Machine, name: seq<byte>, unwritable: set<seq<byte>>)
    requires m.Sized() && Requestable(name)
    ensures var r := Round(m, name, unwritable);
            r.m.closes == m.closes + (if r.Stop? && Closes(r.exit) then 1 else 0)
  {
  }

  /** The socket is closed exactly once when the run ends with `Close(s)`:
      after "QUIT\r\n", on the error reply, or on an invalid reply head;
      a run ended by a failed `Readn` or inside `Recvfile` never closes it. */
  lemma {:induction false} ClientLoopCloses(m: Machine, names: seq<seq<byte>>, unwritable: set<seq<byte>>)
    requires m.Sized() && forall i :: 0 <= i < |names| ==> Requestable(names[i])
    ensures var r := ClientLoop(m, names, unwritable);
            r.m.closes == m.closes + (if Closes(r.exit) then 1 else 0)
    decreases |names|
  {
    if names != [] {
      var r := Round(m, names[0], unwritable);
      RoundCloses(m, names[0], unwritable);
      if r.Next? {
        ClientLoopNext(m, names, unwritable, r);
        ClientLoopCloses(r.m, names[1..], unwritable);
      } else {
        ClientLoopStop(m, names, unwritable, r);
      }
    }
  }

  /** The replies serving the files `fs`, each arriving after the request
      that asks for it, then `rest`. */
  function Replies(fs: seq<seq<byte>>, stamps: seq<u32>, rest: seq<Arrival>): seq<Arrival>
    requires |fs| == |stamps| && forall i :: 0 <= i < |fs| ==> |fs[i]| < TWO32
  {
    if fs == [] then rest
    else Feed(FileReply(fs[0], stamps[0]), Replies(fs[1..], stamps[1..], rest))
  }

  /** The requests for `names`, in order. */
  function Requests(names: seq<seq<byte>>): seq<byte>
  {
    if names == [] then [] else GetCommand(names[0]) + Requests(names[1..])
  }

  /** `files` after each name's basename is given its contents, in order. */
  function Saved(files: map<seq<byte>, seq<byte>>, names: seq<seq<byte>>, fs: seq<seq<byte>>): map<seq<byte>, seq<byte>>
    requires |fs| == |names|
    decreases |names|
  {
    if names == [] then files else Saved(files[Basename(names[0]) := fs[0]], names[1..], fs[1..])
  }

  /** A session in which the server serves every requested file: the client
      sends each request in order, then "QUIT\r\n", stores every file under
      its basename and ends normally, having read exactly the replies. */
  lemma {:induction false} ClientLoopFetchesAll(m: Machine, names: seq<seq<byte>>, unwritable: set<seq<byte>>,
                                                fs: seq<seq<byte>>, stamps: seq<u32>, rest: seq<Arrival>)
    requires m.Sized() && NoRefusal(m.writes) && |fs| == |names| == |stamps|
    requires forall i :: 0 <= i < |names| ==> Requestable(names[i]) && Creatable(Basename(names[i]), unwritable)
    requires forall i :: 0 <= i < |fs| ==> 0 < |fs[i]| < TWO32
    requires m.inbound == Replies(fs, stamps, rest)
    ensures var r := ClientLoop(m, names, unwritable);
            r.exit == Finished && r.m.outbound == m.outbound + Requests(names) + QUIT_CMD &&
            r.m.files == Saved(m.files, names, fs) && r.m.inbound == rest && r.m.closes == m.closes + 1
    decreases |names|
  {
    if names == [] {
      WritenDelivers(m.writes, QUIT_CMD);
      assert m.outbound + Requests(names) == m.outbound;
    } else {
      var m' := FetchStep(m, names, unwritable, fs, stamps, rest);
      FetchableTail(names, unwritable, fs);
      ClientLoopFetchesAll(m', names[1..], unwritable, fs[1..], stamps[1..], rest);
      ConcatAssoc(m.outbound, GetCommand(names[0]), Requests(names[1..]));
    }
  }

  /** The conditions on the names and contents carry over to their tails. */
  lemma FetchableTail(names: seq<seq<byte>>, unwritable: set<seq<byte>>, fs: seq<seq<byte>>)
    requires names != [] && fs != []
    requires forall i :: 0 <= i < |names| ==> Requestable(names[i]) && Creatable(Basename(names[i]), unwritable)
    requires forall i :: 0 <= i < |fs| ==> 0 < |fs[i]| < TWO32
    ensures forall i :: 0 <= i < |names[1..]| ==> Requestable(names[1..][i]) && Creatable(Basename(names[1..][i]), unwritable)
    ensures forall i :: 0 <= i < |fs[1..]| ==> 0 < |fs[1..][i]| < TWO32
  {
  }

  /** The first round of such a session, as the rest of the loop sees it. */
  lemma FetchStep(m: Machine, names: seq<seq<byte>>, unwritable: set<seq<byte>>,
                  fs: seq<seq<byte>>, stamps: seq<u32>, rest: seq<Arrival>) returns (m': Machine)
    requires m.Sized() && NoRefusal(m.writes) && |fs| == |names| == |stamps| && names != []
    requires forall i :: 0 <= i < |names| ==> Requestable(names[i]) && Creatable(Basename(names[i]), unwritable)
    requires forall i :: 0 <= i < |fs| ==> 0 < |fs[i]| < TWO32
    requires m.inbound == Replies(fs, stamps, rest)
    ensures m'.Sized() && NoRefusal(m'.writes) && m'.closes == m.closes
    ensures m'.outbound == m.outbound + GetCommand(names[0]) && m'.files == m.files[Basename(names[0]) := fs[0]]
    ensures m'.inbound == Replies(fs[1..], stamps[1..], rest)
    ensures ClientLoop(m, names, unwritable) == ClientLoop(m', names[1..], unwritable)
  {
    RoundFetches(m, names[0], unwritable, fs[0], stamps[0], Replies(fs[1..], stamps[1..], rest));
    var r := Round(m, names[0], unwritable);
    ClientLoopNext(m, names, unwritable, r);
    m' := r.m;
  }
}
