/** Which packets are taken, what comes of the others, and what each leaves behind: processPacket, xhttpProcessPacket and
    the TUN reader, told from outside. */
module Acceptance {
  import opened Bytes
  import opened Cipher
  import opened BloomFilter
  import opened Pipeline
  import opened Failures

  // ─── The verdict ─────────────────────────────────────────────────

  /** What Decrypt gives for a peer's packet. */
  function DecryptedFor(h: Host, s: Srv, id: u16, packet: seq<byte>): Result<seq<byte>, Fault>
    requires h.Lawful() && id in s.peers && s.peers[id].key.Some?
  {
    Opened(h.prim, s.peers[id].key.value, packet)
  }

  /** A registered peer with a free lock, a packet the filter lets through, and a cipher context. */
  predicate Reaches(h: Host, s: Srv, id: u16, packet: seq<byte>) {
    id in s.peers && !s.peers[id].held && Fresh(h, s, id, packet) && s.peers[id].key.Some?
  }

  predicate Accepts(h: Host, s: Srv, id: u16, packet: seq<byte>)
    requires h.Lawful()
  {
    Reaches(h, s, id, packet) && DecryptedFor(h, s, id, packet).Ok?
  }

  lemma Judged(h: Host, s: Srv, id: u16, packet: seq<byte>)
    requires h.Lawful() && id in s.peers
    ensures Judge(h, s.bits, s.peers[id].key, id, packet)
         == if !Fresh(h, s, id, packet) then Repeated
            else if s.peers[id].key.None? then Panics
            else if DecryptedFor(h, s, id, packet).Ok? then Verdict.Valid(DecryptedFor(h, s, id, packet).value)
            else if DecryptedFor(h, s, id, packet).error.SliceBounds? then Panics
            else Rejected(DecryptedFor(h, s, id, packet).error)
  {
  }

  // ─── processPacket ───────────────────────────────────────────────

  /** The peers differ at most in what a packet for id may change there. */
  predicate OnlyPeer(s: Srv, v: Srv, id: u16) {
    v.peers.Keys == s.peers.Keys && forall j :: j in s.peers && j != id ==> v.peers[j] == s.peers[j]
  }

  predicate SameBooks(s: Srv, v: Srv) {
    v.drops == s.drops && v.log == s.log && v.lastDropLogAt == s.lastDropLogAt
  }

  predicate SameFilter(s: Srv, v: Srv) {
    v.bits == s.bits && v.bloomCount == s.bloomCount
  }

  /** n more bytes for a peer, last seen at a time, and the rest of its traffic fields as before. */
  predicate Credited(p: PeerState, q: PeerState, n: nat, lastSeen: int) {
    q.byteIn == p.byteIn + n && q.cumRx == p.cumRx + n && q.lastSeen == lastSeen && q.key == p.key && q.held == p.held
  }

  /** What an accepted packet does. */
  predicate AcceptedBy(h: Host, s: Srv, i: Input, data: seq<byte>, v: Srv, o: Outcome)
    requires i.pkt.shortID in s.peers && |i.pkt.data| >= 18
  {
    var id := i.pkt.shortID;
    && (o.KeepAlive? <==> data == []) && (o.TunFailed? <==> data != [] && i.tunFails)
    && (o.Delivered? <==> data != [] && !i.tunFails) && (o.Delivered? ==> o.bytes == |data|)
    && v.bits == s.bits + h.indices(BloomKey(id, i.pkt.data[6..18])) && v.bloomCount == s.bloomCount + 1
    && OnlyPeer(s, v, id)
    && Credited(s.peers[id], v.peers[id], if data != [] && !i.tunFails then |data| else 0, i.unix)
    && SameBooks(s, v) && v.loop == s.loop && v.reader == s.reader
  }

  lemma EffectAccepts(h: Host, s: Srv, i: Input, data: seq<byte>)
    requires i.pkt.shortID in s.peers && !s.peers[i.pkt.shortID].held && |i.pkt.data| >= 18
    ensures var more := h.indices(BloomKey(i.pkt.shortID, i.pkt.data[6..18]));
            var (v, o) := Pipeline.Locked(WithWriter(s, i.pkt.shortID, i.writer), i, Verdict.Valid(data), more);
            AcceptedBy(h, s, i, data, v, o)
  {
  }

  lemma EffectRefuses(s: Srv, i: Input, verdict: Verdict, more: set<nat>)
    requires i.pkt.shortID in s.peers && (s.peers[i.pkt.shortID].held || !verdict.Valid?)
    ensures var (v, o) := Pipeline.Locked(WithWriter(s, i.pkt.shortID, i.writer), i, verdict, more);
            && !(o.KeepAlive? || o.TunFailed? || o.Delivered?)
            && SameFilter(s, v) && OnlyPeer(s, v, i.pkt.shortID) && v.reader == s.reader
            && Credited(s.peers[i.pkt.shortID], v.peers[i.pkt.shortID], 0, s.peers[i.pkt.shortID].lastSeen)
  {
  }

  predicate Taken(o: Outcome) {
    o.KeepAlive? || o.TunFailed? || o.Delivered?
  }

  /** processPacket takes a packet exactly when Accepts says so, with these effects. */
  lemma ProcessAccepts(h: Host, s: Srv, i: Input)
    requires h.Lawful()
    ensures Taken(Process(h, s, i).1) <==> Accepts(h, s, i.pkt.shortID, i.pkt.data)
    ensures Accepts(h, s, i.pkt.shortID, i.pkt.data) ==>
              && |i.pkt.data| >= 18
              && AcceptedBy(h, s, i, DecryptedFor(h, s, i.pkt.shortID, i.pkt.data).value, Process(h, s, i).0, Process(h, s, i).1)
  {
    var id, packet := i.pkt.shortID, i.pkt.data;
    if id in s.peers {
      Judged(h, s, id, packet);
      var verdict := Judge(h, s.bits, s.peers[id].key, id, packet);
      if Accepts(h, s, id, packet) {
        OpensExactly(h.prim, s.peers[id].key.value, packet);
        EffectAccepts(h, s, i, DecryptedFor(h, s, id, packet).value);
      } else {
        EffectRefuses(s, i, verdict, BitsFor(h, id, packet));
      }
    }
  }

  /** A packet that is not taken leaves the filter and, its reply path apart, every peer as they were. */
  lemma ProcessRefuses(h: Host, s: Srv, i: Input)
    requires h.Lawful() && !Accepts(h, s, i.pkt.shortID, i.pkt.data)
    ensures var v := Process(h, s, i).0;
            && SameFilter(s, v) && OnlyPeer(s, v, i.pkt.shortID) && v.reader == s.reader
            && (i.pkt.shortID in s.peers ==>
                  Credited(s.peers[i.pkt.shortID], v.peers[i.pkt.shortID], 0, s.peers[i.pkt.shortID].lastSeen))
  {
    var id, packet := i.pkt.shortID, i.pkt.data;
    if id in s.peers {
      Judged(h, s, id, packet);
      EffectRefuses(s, i, Judge(h, s.bits, s.peers[id].key, id, packet), BitsFor(h, id, packet));
    }
  }

  lemma EffectOutcome(s: Srv, i: Input, verdict: Verdict, more: set<nat>)
    requires i.pkt.shortID in s.peers
    ensures var o, held := Pipeline.Locked(WithWriter(s, i.pkt.shortID, i.writer), i, verdict, more).1, s.peers[i.pkt.shortID].held;
            && !o.NoPeer? && (o.Hung? <==> held)
            && (o.Replay? <==> !held && verdict.Repeated?)
            && (o.BadMac? <==> !held && verdict == Rejected(HmacMismatch))
            && (o.BadPacket? <==> !held && verdict.Rejected? && verdict != Rejected(HmacMismatch))
  {
  }

  /** What becomes of a packet that is not taken; for the crash see Failures. */
  lemma RefusalsExactly(h: Host, s: Srv, i: Input)
    requires h.Lawful()
    ensures var id, packet, o := i.pkt.shortID, i.pkt.data, Process(h, s, i).1;
            && (o.NoPeer? <==> id !in s.peers)
            && (o.Hung? <==> id in s.peers && s.peers[id].held)
            && (o.Replay? <==> id in s.peers && !s.peers[id].held && !Fresh(h, s, id, packet))
            && (o.BadMac? <==> Reaches(h, s, id, packet) && DecryptedFor(h, s, id, packet) == Err(HmacMismatch))
            && (o.BadPacket? <==> && Reaches(h, s, id, packet) && DecryptedFor(h, s, id, packet).Err?
                                  && DecryptedFor(h, s, id, packet).error !in {HmacMismatch, SliceBounds})
  {
    var id, packet := i.pkt.shortID, i.pkt.data;
    if id in s.peers {
      Judged(h, s, id, packet);
      EffectOutcome(s, i, Judge(h, s.bits, s.peers[id].key, id, packet), BitsFor(h, id, packet));
    }
  }

  // ─── The books ───────────────────────────────────────────────────

  function One(b: bool): nat {
    if b then 1 else 0
  }

  /** Which counter a packet raises. */
  lemma CountersRaised(h: Host, s: Srv, i: Input)
    requires h.Lawful()
    ensures var before, after, o := AllDrops(s), AllDrops(Process(h, s, i).0), Process(h, s, i).1;
            && after.noPeer == before.noPeer + One(o.NoPeer?) && after.replay == before.replay + One(o.Replay?)
            && after.hmac == before.hmac + One(o.BadMac?) && after.decrypt == before.decrypt + One(o.BadPacket?)
  {
    ProcessCountsDrops(h, s, i);
  }

  predicate IsDrop(o: Outcome) {
    o.NoPeer? || o.Replay? || o.BadMac? || o.BadPacket?
  }

  lemma DropReports(s: Srv, o: Outcome, i: Input)
    requires IsDrop(o)
    ensures ReportedOnce(s, Dropped(s, o, i).0, i)
  {
  }

  /** Under a minute after the last report the drop is counted; later it goes, with those pending, into one report. */
  predicate ReportedOnce(s: Srv, v: Srv, i: Input) {
    if i.t0 - s.lastDropLogAt < 60_000_000_000 then
      v.log == s.log && v.lastDropLogAt == s.lastDropLogAt && Total(v.drops) == Total(s.drops) + 1
    else
      && |v.log| == |s.log| + 1 && v.log[..|s.log|] == s.log && Total(v.log[|s.log|]) == Total(s.drops) + 1
      && v.lastDropLogAt == i.t1 && Total(v.drops) == 0
  }

  lemma LockedReports(s: Srv, i: Input, verdict: Verdict, more: set<nat>)
    requires i.pkt.shortID in s.peers
    ensures var (v, o) := Pipeline.Locked(s, i, verdict, more);
            if IsDrop(o) then ReportedOnce(s, v, i) else SameBooks(s, v)
  {
    if !s.peers[i.pkt.shortID].held {
      if verdict.Repeated? || verdict.Rejected? {
        var o := if verdict.Repeated? then Replay else if verdict.fault.HmacMismatch? then BadMac else BadPacket;
        assert Effect(s, i, verdict, more) == Dropped(s, o, i);
        DropReports(s, o, i);
      } else {
        EffectKeepsBooks(s, i, verdict, more);
      }
    }
  }

  lemma EffectKeepsBooks(s: Srv, i: Input, verdict: Verdict, more: set<nat>)
    requires i.pkt.shortID in s.peers && (verdict.Valid? || verdict.Panics?)
    ensures var (v, o) := Effect(s, i, verdict, more); !IsDrop(o) && SameBooks(s, v)
  {
  }

  /** A dropped packet is reported at once or kept for the next report; any other leaves the books alone. */
  lemma ReportsExactly(h: Host, s: Srv, i: Input)
    requires h.Lawful()
    ensures var (v, o) := Process(h, s, i); if IsDrop(o) then ReportedOnce(s, v, i) else SameBooks(s, v)
  {
    var id, packet := i.pkt.shortID, i.pkt.data;
    if id in s.peers {
      LockedReports(WithWriter(s, id, i.writer), i, Judge(h, s.bits, s.peers[id].key, id, packet), BitsFor(h, id, packet));
    } else {
      DropReports(s, NoPeer, i);
    }
  }

  // ─── xhttpProcessPacket ──────────────────────────────────────────

  predicate XhttpReaches(h: Host, s: Srv, p: seq<byte>) {
    |p| >= 18 && Reaches(h, s, Routed(h.salt, p), p)
  }

  predicate XhttpAcceptsPacket(h: Host, s: Srv, p: seq<byte>)
    requires h.Lawful()
  {
    |p| >= 18 && Accepts(h, s, Routed(h.salt, p), p)
  }

  lemma XhttpEffectExactly(s: Srv, id: u16, verdict: Verdict, more: set<nat>)
    requires id in s.peers
    ensures var (v, o) := XhttpEffect(s, id, verdict, more);
            var held := s.peers[id].held;
            && ((o.KeepAlive? || o.Delivered?) <==> !held && verdict.Valid?)
            && (verdict.Valid? && !held ==> o == if verdict.data == [] then KeepAlive else Delivered(|verdict.data|))
            && (o.Replay? <==> verdict.Repeated?) && (o.Hung? <==> !verdict.Repeated? && held)
            && (o.BadPacket? <==> verdict.Rejected? && !held) && !o.NoPeer? && !o.BadMac? && !o.TunFailed?
            && v.bits == (if verdict.Repeated? then s.bits else s.bits + more)
            && v.bloomCount == s.bloomCount + One(!verdict.Repeated?)
            && OnlyPeer(s, v, id) && SameBooks(s, v) && v.loop == s.loop && v.reader == s.reader
            && (verdict.Valid? && !held ==>
                  && Credited(s.peers[id], v.peers[id], |verdict.data|, s.peers[id].lastSeen)
                  && v.peers[id].writer == s.peers[id].writer && v.peers[id].udpAddr == s.peers[id].udpAddr)
            && (held || !verdict.Valid? ==> v.peers[id] == s.peers[id].(held := held || o.Crashed?))
  {
  }

  /** xhttpProcessPacket takes a packet exactly when it has 18 bytes and Accepts says so; then its data decide the outcome
      and are credited to the peer, whatever becomes of the TUN write. */
  lemma XhttpAccepts(h: Host, s: Srv, p: seq<byte>)
    requires h.Lawful()
    ensures ProcessXhttp(h, s, p).1.KeepAlive? || ProcessXhttp(h, s, p).1.Delivered? <==> XhttpAcceptsPacket(h, s, p)
    ensures XhttpAcceptsPacket(h, s, p) ==>
              var (v, o) := ProcessXhttp(h, s, p);
              var id := Routed(h.salt, p);
              var data := DecryptedFor(h, s, id, p).value;
              && o == (if data == [] then KeepAlive else Delivered(|data|))
              && OnlyPeer(s, v, id) && Credited(s.peers[id], v.peers[id], |data|, s.peers[id].lastSeen)
              && v.peers[id].writer == s.peers[id].writer && v.peers[id].udpAddr == s.peers[id].udpAddr
  {
    if |p| >= 18 && Routed(h.salt, p) in s.peers {
      var id := Routed(h.salt, p);
      Judged(h, s, id, p);
      XhttpEffectExactly(s, id, Judge(h, s.bits, s.peers[id].key, id, p), BitsFor(h, id, p));
    }
  }

  /** Otherwise no peer changes, but for the lock a crash leaves held. */
  lemma XhttpRefuses(h: Host, s: Srv, p: seq<byte>)
    requires h.Lawful() && !XhttpAcceptsPacket(h, s, p)
    ensures var (v, o) := ProcessXhttp(h, s, p);
            && v.peers.Keys == s.peers.Keys
            && forall j :: j in s.peers ==>
                 v.peers[j] == if |p| >= 18 && j == Routed(h.salt, p) && o.Crashed? then s.peers[j].(held := true) else s.peers[j]
  {
    if |p| >= 18 && Routed(h.salt, p) in s.peers {
      var id := Routed(h.salt, p);
      Judged(h, s, id, p);
      XhttpEffectExactly(s, id, Judge(h, s.bits, s.peers[id].key, id, p), BitsFor(h, id, p));
    }
  }

  /** What becomes of a packet that is not taken, and what every packet does to filter and books. */
  lemma XhttpRefusalsExactly(h: Host, s: Srv, p: seq<byte>)
    requires h.Lawful()
    ensures var (v, o) := ProcessXhttp(h, s, p);
            var known := |p| >= 18 && Routed(h.salt, p) in s.peers;
            var passes := known && Fresh(h, s, Routed(h.salt, p), p);
            && (o.NoPeer? <==> |p| >= 18 && !known)
            && (o.Replay? <==> known && !passes)
            && (o.Hung? <==> passes && s.peers[Routed(h.salt, p)].held)
            && (o.BadPacket? <==> |p| < 18 || (XhttpReaches(h, s, p) && DecryptedFor(h, s, Routed(h.salt, p), p).Err?
                                               && !DecryptedFor(h, s, Routed(h.salt, p), p).error.SliceBounds?))
            && v.bits == (if passes then s.bits + h.indices(BloomKey(Routed(h.salt, p), p[6..18])) else s.bits)
            && v.bloomCount == s.bloomCount + One(passes)
            && SameBooks(s, v) && v.loop == s.loop && v.reader == s.reader
  {
    if |p| >= 18 && Routed(h.salt, p) in s.peers {
      var id := Routed(h.salt, p);
      Judged(h, s, id, p);
      XhttpEffectExactly(s, id, Judge(h, s.bits, s.peers[id].key, id, p), BitsFor(h, id, p));
    }
  }

  // ─── The TUN reader ──────────────────────────────────────────────

  /** A packet goes out exactly for a peer with a writer, a free lock and a cipher context, if the buffer holds it; sending
      changes nothing here, and neither does a peer without a writer. */
  lemma SentExactly(s: Srv, id: u16, size: nat)
    ensures var (v, o) := TunStep(s, id, size);
            && (o.Sent? <==> && id in s.peers && s.peers[id].writer.Some? && !s.peers[id].held
                             && s.peers[id].key.Some? && size <= 65535)
            && (o.NoOne? <==> id !in s.peers || s.peers[id].writer.None?)
            && (o.ReaderHung? <==> id in s.peers && s.peers[id].writer.Some? && s.peers[id].held)
            && (o.Sent? || o.NoOne? ==> v == s)
            && (o.ReaderHung? ==> v == s.(reader := Blocked))
            && (o.ReaderCrashed? ==> && v.reader == Exited && v == s.(peers := v.peers, reader := Exited)
                                     && OnlyPeer(s, v, id) && v.peers[id] == s.peers[id].(held := true))
  {
  }

  // ─── Last seen ───────────────────────────────────────────────────

  /** The time of the last packet of a peer that processPacket took. */
  function LastSeenAfter(id: u16, start: int, entries: seq<Entry>): int {
    if |entries| == 0 then start
    else
      var last := entries[|entries| - 1];
      if last.Handled? && last.input.pkt.shortID == id && Taken(last.outcome) then last.input.unix
      else LastSeenAfter(id, start, entries[..|entries| - 1])
  }

  lemma StepSees(h: Host, s: Srv, e: Event, id: u16)
    requires h.Lawful() && id in s.peers
    ensures var (v, entry) := Step(h, s, e);
            && id in v.peers
            && v.peers[id].lastSeen == if entry.Handled? && entry.input.pkt.shortID == id && Taken(entry.outcome)
                                       then entry.input.unix else s.peers[id].lastSeen
  {
    match e
    case Packet(i) =>
      ProcessAccepts(h, s, i);
      if !Accepts(h, s, i.pkt.shortID, i.pkt.data) {
        ProcessRefuses(h, s, i);
      }
    case XhttpPacket(p) =>
      XhttpAccepts(h, s, p);
      if !XhttpAcceptsPacket(h, s, p) {
        XhttpRefuses(h, s, p);
      }
    case TunPacket(to, size) => SentExactly(s, to, size);
    case ResetFilter =>
    case ZeroTraffic =>
  }

  /** After any run a peer was last seen when processPacket last took a packet of it; XHTTP does not count. */
  lemma {:induction false} LastSeenIsLastTaken(h: Host, s: Srv, events: seq<Event>, id: u16)
    requires h.Lawful() && id in s.peers
    ensures var (v, entries) := Run(h, s, events);
            id in v.peers && v.peers[id].lastSeen == LastSeenAfter(id, s.peers[id].lastSeen, entries)
    decreases |events|
  {
    if |events| > 0 {
      var init := events[..|events| - 1];
      LastSeenIsLastTaken(h, s, init, id);
      var (before, entries) := Run(h, s, init);
      var (after, entry) := Step(h, before, events[|events| - 1]);
      StepSees(h, before, events[|events| - 1], id);
      assert (entries + [entry])[..|entries|] == entries;
    }
  }
}
