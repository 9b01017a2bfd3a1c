/** The two programs together: what the server of serve.c sends for a
    request is what the client of client1/client1_main.c stores. */
module Session {
  import opened Bytes
  import opened Stream
  import opened SockWrap
  import opened RecvFile
  import opened Client
  import opened Serve
  import opened ClientRuns

  /** The client's request for a file the server can serve reaches the
      server as "GET name\r\n"; once the server's reply has reached the
      client, the client holds the file's exact bytes under the basename of
      the name and goes on with the next name. */
  lemma ServedFileStored(m: Machine, name: seq<byte>, unwritable: set<seq<byte>>, fs: Files,
                         ws: seq<Acceptance>, sf: seq<Transmission>, serverRest: seq<Arrival>, clientRest: seq<Arrival>)
    requires m.Sized() && Requestable(name) && NoRefusal(m.writes) && Creatable(Basename(name), unwritable)
    requires LF !in name && |name| < FILENAME_LEN && !Contains(name, TRAVERSAL)
    requires Accessible(fs, name) && fs[name].opens && 0 < |fs[name].content| < TWO32
    requires NoRefusal(ws) && (sf == [] || (sf[0].Moves? && sf[0].limit >= |fs[name].content|))
    requires m.inbound == Feed(Step(Peer(Feed(GetCommand(name), serverRest), ws, sf), fs).out, clientRest)
    ensures var r := Round(m, name, unwritable);
            r.Next? && r.m.outbound == m.outbound + GetCommand(name) &&
            r.m.files == m.files[Basename(name) := fs[name].content] && r.m.inbound == clientRest
  {
    GetServed(name, serverRest, ws, sf, fs);
    RoundFetches(m, name, unwritable, fs[name].content, FileTimestamp(fs, name), clientRest);
  }
}
