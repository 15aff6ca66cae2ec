/** What becomes of a client's packet, and of everything that repeats its nonce: Encrypt and processPacket together. */
module Delivery {
  import opened Bytes
  import opened Cipher
  import opened BloomFilter
  import opened Demux
  import opened Pipeline
  import opened Failures

  /** What becomes of data that the filter lets through: from 65534 bytes on Decrypt panics. */
  function FateOf(data: seq<byte>, tunFails: bool): Outcome {
    if |data| < 0xFFFE then OutcomeOf(data, tunFails) else Crashed
  }

  /** A packet under a client's key is refused exactly when the bits of its ShortID and nonce are all set; otherwise the data
      that went into it comes out, or the server goes down, whatever the salt, nonce and padding. Encrypt itself makes only
      packets of at most 65533 bytes of data. */
  lemma GenuinePacket(h: Host, s: Srv, i: Input, key: seq<byte>, nonce: seq<byte>, plaintext: seq<byte>, padding: seq<byte>)
    requires h.Lawful() && |nonce| == 12 && |plaintext| < 0x1_0000
    requires i.pkt.shortID in s.peers && s.peers[i.pkt.shortID].key == Some(key) && !s.peers[i.pkt.shortID].held
    requires i.pkt.data == Cipher.Packet(h.prim, key, i.pkt.shortID, h.salt, nonce, Inner(plaintext, padding))
    ensures Process(h, s, i).1
         == if h.indices(BloomKey(i.pkt.shortID, nonce)) <= s.bits then Replay else FateOf(plaintext, i.tunFails)
  {
    var id := i.pkt.shortID;
    PacketFields(h.prim, key, id, h.salt, nonce, Inner(plaintext, padding));
    OpenedPacket(h.prim, key, id, h.salt, nonce, plaintext, padding);
    assert i.pkt.data[6..18] == nonce;
  }

  /** Right after a reset every packet of a client is taken. */
  lemma EmptyFilterTakes(h: Host, s: Srv, i: Input, key: seq<byte>, nonce: seq<byte>, plaintext: seq<byte>, padding: seq<byte>)
    requires h.Lawful() && |nonce| == 12 && 2 + |plaintext| + |padding| <= POOLED
    requires i.pkt.shortID in s.peers && s.peers[i.pkt.shortID].key == Some(key) && !s.peers[i.pkt.shortID].held
    requires i.pkt.data == Cipher.Packet(h.prim, key, i.pkt.shortID, h.salt, nonce, Inner(plaintext, padding))
    ensures Process(h, Reset(s), i).1 == OutcomeOf(plaintext, i.tunFails)
  {
    GenuinePacket(h, Reset(s), i, key, nonce, plaintext, padding);
    assert |h.indices(BloomKey(i.pkt.shortID, nonce))| == 3;
  }

  /** The same through xhttpProcessPacket, which reads the ShortID off the packet and does not mind a failing TUN. */
  lemma GenuineXhttpPacket(h: Host, s: Srv, id: u16, key: seq<byte>, nonce: seq<byte>, plaintext: seq<byte>, padding: seq<byte>)
    requires h.Lawful() && |nonce| == 12 && |plaintext| < 0x1_0000
    requires id in s.peers && s.peers[id].key == Some(key) && !s.peers[id].held
    ensures ProcessXhttp(h, s, Cipher.Packet(h.prim, key, id, h.salt, nonce, Inner(plaintext, padding))).1
         == if h.indices(BloomKey(id, nonce)) <= s.bits then Replay else FateOf(plaintext, false)
  {
    PacketFields(h.prim, key, id, h.salt, nonce, Inner(plaintext, padding));
    RoutedPacket(h.prim, key, id, h.salt, nonce, Inner(plaintext, padding));
    OpenedPacket(h.prim, key, id, h.salt, nonce, plaintext, padding);
  }

  /** A ready server that a client's packet takes down: 65534 bytes of data, by WebSocket, right after a reset. */
  lemma OverlongTakesDown(h: Host, s: Srv, i: Input, key: seq<byte>, nonce: seq<byte>, plaintext: seq<byte>)
    requires h.Lawful() && Ready(s) && |nonce| == 12 && |plaintext| == 0xFFFE
    requires i.pkt.shortID in s.peers && s.peers[i.pkt.shortID].key == Some(key)
    requires i.pkt.data == Cipher.Packet(h.prim, key, i.pkt.shortID, h.salt, nonce, Inner(plaintext, []))
    ensures |i.pkt.data| == HEADER + 0x1_0000 + 16 && RouteMessage(h.salt, i.pkt.data) == Some(i.pkt)
    ensures Process(h, Reset(s), i).1 == Crashed && Process(h, Reset(s), i).0.loop == Exited
  {
    PacketFields(h.prim, key, i.pkt.shortID, h.salt, nonce, Inner(plaintext, []));
    RoutedPacket(h.prim, key, i.pkt.shortID, h.salt, nonce, Inner(plaintext, []));
    GenuinePacket(h, Reset(s), i, key, nonce, plaintext, []);
    assert |h.indices(BloomKey(i.pkt.shortID, nonce))| == 3;
    ProcessEnds(h, Reset(s), i);
  }

  // ─── Afterwards ──────────────────────────────────────────────────

  predicate NoReset(events: seq<Event>) {
    forall e :: e in events ==> !e.ResetFilter?
  }

  /** The replay key of an event's packet, whichever way it comes. */
  function KeyOf(h: Host, e: Event): Option<seq<byte>> {
    match e
    case Packet(i) => if |i.pkt.data| >= HEADER then Some(ReplayKey(i.pkt.shortID, i.pkt.data)) else None
    case XhttpPacket(p) => if |p| >= HEADER then Some(ReplayKey(Routed(h.salt, p), p)) else None
    case _ => None
  }

  /** Whose packet it is. */
  function AddresseeOf(h: Host, e: Event): u16
    requires KeyOf(h, e).Some?
  {
    match e
    case Packet(i) => i.pkt.shortID
    case XhttpPacket(p) => Routed(h.salt, p)
  }

  lemma StepOnlyAdds(h: Host, s: Srv, e: Event)
    requires h.Lawful() && !e.ResetFilter?
    ensures s.bits <= Step(h, s, e).0.bits && Step(h, s, e).0.peers.Keys == s.peers.Keys
  {
    StepInserts(h, s, e);
    StepKeepsPeers(h, s, e);
  }

  lemma StepKeepsPeers(h: Host, s: Srv, e: Event)
    requires h.Lawful()
    ensures Step(h, s, e).0.peers.Keys == s.peers.Keys
  {
    forall id | id in s.peers ensures id in Step(h, s, e).0.peers {
      StepCountsBytes(h, s, e, id);
    }
    if s.peers == map[] {
      NoPeersStay(h, s, e);
    } else {
      var id :| id in s.peers;
      StepCountsBytes(h, s, e, id);
    }
  }

  lemma NoPeersStay(h: Host, s: Srv, e: Event)
    requires h.Lawful() && s.peers == map[]
    ensures Step(h, s, e).0.peers.Keys == {}
  {
  }

  lemma {:induction false} RunOnlyAdds(h: Host, s: Srv, events: seq<Event>)
    requires h.Lawful() && NoReset(events)
    ensures s.bits <= Run(h, s, events).0.bits && Run(h, s, events).0.peers.Keys == s.peers.Keys
    decreases |events|
  {
    if |events| > 0 {
      var init := events[..|events| - 1];
      RunOnlyAdds(h, s, init);
      StepOnlyAdds(h, Run(h, s, init).0, events[|events| - 1]);
    }
  }

  lemma InsertedIsRemembered(h: Host, s: Srv, e: Event)
    requires h.Lawful() && Inserted(h, Step(h, s, e).1).Some?
    ensures Inserted(h, Step(h, s, e).1) == KeyOf(h, e)
    ensures AddresseeOf(h, e) in Step(h, s, e).0.peers
    ensures h.indices(KeyOf(h, e).value) <= Step(h, s, e).0.bits
  {
  }

  predicate IsReplay(entry: Entry) {
    (entry.Handled? || entry.HandledXhttp?) && entry.outcome.Replay?
  }

  /** Refused as a replay, or not handled at all: the main loop is gone or waits for a lock, or waits for this one. */
  predicate NotTaken(entry: Entry) {
    || entry.Ignored?
    || IsReplay(entry)
    || (entry.Handled? && entry.outcome.Hung?)
  }

  lemma RememberedIsRefused(h: Host, s: Srv, e: Event)
    requires h.Lawful() && KeyOf(h, e).Some? && AddresseeOf(h, e) in s.peers
    requires h.indices(KeyOf(h, e).value) <= s.bits
    ensures NotTaken(Step(h, s, e).1)
    ensures Ready(s) ==> IsReplay(Step(h, s, e).1)
  {
  }

  lemma SameAddressee(h: Host, a: Event, b: Event)
    requires KeyOf(h, a).Some? && KeyOf(h, a) == KeyOf(h, b)
    ensures AddresseeOf(h, a) == AddresseeOf(h, b)
  {
    var p := if a.Packet? then a.input.pkt.data else a.packet;
    var q := if b.Packet? then b.input.pkt.data else b.packet;
    BloomKeyInjective(AddresseeOf(h, a), p[6..18], AddresseeOf(h, b), q[6..18]);
  }

  /** Once a packet has entered the filter, by either way in, nothing under the same ShortID and nonce is taken again, by
      either way in, however the rest of it differs and whatever happens in between short of a reset. A server that is
      ready then refuses it as a replay. */
  lemma NeverAgain(h: Host, s: Srv, e: Event, events: seq<Event>, again: Event)
    requires h.Lawful() && NoReset(events)
    requires Inserted(h, Step(h, s, e).1).Some? && KeyOf(h, again) == KeyOf(h, e)
    ensures NotTaken(Step(h, Run(h, Step(h, s, e).0, events).0, again).1)
    ensures Ready(Run(h, Step(h, s, e).0, events).0) ==> IsReplay(Step(h, Run(h, Step(h, s, e).0, events).0, again).1)
  {
    var after := Step(h, s, e).0;
    InsertedIsRemembered(h, s, e);
    RunOnlyAdds(h, after, events);
    SameAddressee(h, e, again);
    RememberedIsRefused(h, Run(h, after, events).0, again);
  }
}
