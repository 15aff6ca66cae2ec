/** Where the server sends what it has for a peer. */
module ReplyPath {
  import opened Bytes
  import opened Pipeline

  /** Writer and UDP address of a peer. */
  datatype Path = Path(writer: Option<Writer>, udpAddr: Option<string>)

  function PathOf(p: PeerState): Path {
    Path(p.writer, p.udpAddr)
  }

  /** The path after a packet arrived by w. */
  function Turned(path: Path, w: Option<Writer>): Path {
    match w
    case None => path
    case Some(UdpWriter(addr)) => Path(w, Some(addr))
    case Some(OtherWriter(_)) => path.(writer := w)
  }

  /** processPacket turns the path of the peer it is addressed to, whatever comes of the packet, and no other. */
  lemma PathTurnsExactly(h: Host, s: Srv, i: Input, id: u16)
    requires h.Lawful() && id in s.peers
    ensures id in Process(h, s, i).0.peers
    ensures PathOf(Process(h, s, i).0.peers[id])
         == if i.pkt.shortID == id then Turned(PathOf(s.peers[id]), i.writer) else PathOf(s.peers[id])
  {
  }

  lemma XhttpTurnsNothing(h: Host, s: Srv, p: seq<byte>, id: u16)
    requires h.Lawful() && id in s.peers
    ensures id in ProcessXhttp(h, s, p).0.peers && PathOf(ProcessXhttp(h, s, p).0.peers[id]) == PathOf(s.peers[id])
  {
  }

  /** The path given by the packets taken for a peer, refused ones among them. */
  function PathAfter(id: u16, start: Path, entries: seq<Entry>): Path {
    if |entries| == 0 then start
    else
      var path, last := PathAfter(id, start, entries[..|entries| - 1]), entries[|entries| - 1];
      if last.Handled? && last.input.pkt.shortID == id then Turned(path, last.input.writer) else path
  }

  lemma StepTurns(h: Host, s: Srv, e: Event, id: u16)
    requires h.Lawful() && id in s.peers
    ensures var (v, entry) := Step(h, s, e);
            && id in v.peers
            && PathOf(v.peers[id]) == if entry.Handled? && entry.input.pkt.shortID == id
                                      then Turned(PathOf(s.peers[id]), entry.input.writer) else PathOf(s.peers[id])
  {
    match e
    case Packet(i) => PathTurnsExactly(h, s, i, id);
    case XhttpPacket(p) => XhttpTurnsNothing(h, s, p, id);
    case TunPacket(_, _) =>
    case ResetFilter =>
    case ZeroTraffic =>
  }

  /** Replies go where the last packet under the peer's ShortID came from, whether or not it was accepted. */
  lemma {:induction false} PathIsLastArrival(h: Host, s: Srv, events: seq<Event>, id: u16)
    requires h.Lawful() && id in s.peers
    ensures var (v, entries) := Run(h, s, events);
            id in v.peers && PathOf(v.peers[id]) == PathAfter(id, PathOf(s.peers[id]), entries)
    decreases |events|
  {
    if |events| > 0 {
      var init := events[..|events| - 1];
      PathIsLastArrival(h, s, init, id);
      var (before, entries) := Run(h, s, init);
      var (after, entry) := Step(h, before, events[|events| - 1]);
      StepTurns(h, before, events[|events| - 1], id);
      assert (entries + [entry])[..|entries|] == entries;
    }
  }

  /** The writer differs after a packet exactly when the packet is addressed to the peer and came by another writer. */
  lemma WriterChangesExactly(h: Host, s: Srv, i: Input, id: u16)
    requires h.Lawful() && id in s.peers
    ensures id in Process(h, s, i).0.peers
    ensures Process(h, s, i).0.peers[id].writer != s.peers[id].writer
            <==> i.pkt.shortID == id && i.writer.Some? && i.writer != s.peers[id].writer
  {
    PathTurnsExactly(h, s, i, id);
  }
}
