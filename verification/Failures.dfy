/** Panics and locks that are never released: what they end, and when they happen. */
module Failures {
  import opened Bytes
  import opened Cipher
  import opened Demux
  import opened Pipeline

  // ─── The main loop's last packet ─────────────────────────────────

  /** How the main loop ends, if an entry ends it. */
  function EndedBy(entry: Entry, loop: Loop): Loop {
    if entry.Handled? && entry.outcome.Crashed? then Exited
    else if entry.Handled? && entry.outcome.Hung? then Blocked
    else loop
  }

  lemma ProcessEnds(h: Host, s: Srv, i: Input)
    requires h.Lawful()
    ensures Process(h, s, i).0.loop == EndedBy(Handled(i, Process(h, s, i).1), s.loop)
  {
  }

  lemma XhttpEndsNothing(h: Host, s: Srv, p: seq<byte>)
    requires h.Lawful()
    ensures ProcessXhttp(h, s, p).0.loop == s.loop
  {
  }

  lemma StepEnds(h: Host, s: Srv, e: Event)
    requires h.Lawful()
    ensures Step(h, s, e).0.loop == EndedBy(Step(h, s, e).1, s.loop)
  {
    match e
    case Packet(i) => ProcessEnds(h, s, i);
    case XhttpPacket(p) => XhttpEndsNothing(h, s, p);
    case TunPacket(_, _) =>
    case ResetFilter =>
    case ZeroTraffic =>
  }

  /** The state after a run tells whether it saw the crash or the hang. */
  function LoopAfter(entries: seq<Entry>, start: Loop): Loop {
    if |entries| == 0 then start else EndedBy(entries[|entries| - 1], LoopAfter(entries[..|entries| - 1], start))
  }

  ghost predicate Closed(entries: seq<Entry>, start: Loop) {
    forall j :: 0 <= j < |entries| ==>
      && (LoopAfter(entries[..j], start).Exited? ==> entries[j].Ignored?)
      && (!LoopAfter(entries[..j], start).Serving? ==> !entries[j].Handled?)
  }

  lemma {:induction false} RunCloses(h: Host, s: Srv, events: seq<Event>)
    requires h.Lawful()
    ensures var (v, entries) := Run(h, s, events);
            v.loop == LoopAfter(entries, s.loop) && Closed(entries, s.loop)
    decreases |events|
  {
    if |events| > 0 {
      var init := events[..|events| - 1];
      RunCloses(h, s, init);
      var (before, entries) := Run(h, s, init);
      var (after, entry) := Step(h, before, events[|events| - 1]);
      StepEnds(h, before, events[|events| - 1]);
      var all := entries + [entry];
      assert all[..|entries|] == entries;
      forall j | 0 <= j < |all|
        ensures LoopAfter(all[..j], s.loop).Exited? ==> all[j].Ignored?
        ensures !LoopAfter(all[..j], s.loop).Serving? ==> !all[j].Handled?
      {
        assert j < |entries| ==> all[..j] == entries[..j] && all[j] == entries[j];
      }
    }
  }

  lemma {:induction false} EndLasts(entries: seq<Entry>, start: Loop, i: nat, j: nat)
    requires i < j <= |entries| && Closed(entries, start) && entries[i].Handled?
    requires entries[i].outcome.Crashed? || entries[i].outcome.Hung?
    ensures LoopAfter(entries[..j], start) == if entries[i].outcome.Crashed? then Exited else Blocked
    decreases j
  {
    assert entries[..j][..j - 1] == entries[..j - 1];
    if i < j - 1 {
      EndLasts(entries, start, i, j - 1);
    }
  }

  /** A crash in processPacket is the last thing that happens, a hang the last packet the main loop takes. */
  lemma NothingAfterTheEnd(h: Host, s: Srv, events: seq<Event>, i: nat, j: nat)
    requires h.Lawful()
    requires var entries := Run(h, s, events).1; i < j < |entries| && entries[i].Handled?
    ensures var entries := Run(h, s, events).1;
            && (entries[i].outcome.Crashed? ==> entries[j].Ignored?)
            && (entries[i].outcome.Hung? ==> !entries[j].Handled?)
  {
    var entries := Run(h, s, events).1;
    RunCloses(h, s, events);
    if entries[i].outcome.Crashed? || entries[i].outcome.Hung? {
      EndLasts(entries, s.loop, i, j);
    }
  }

  // ─── When a call panics ──────────────────────────────────────────

  /** The filter lets the packet through. */
  predicate Fresh(h: Host, s: Srv, id: u16, packet: seq<byte>) {
    |packet| >= HEADER ==> !(h.indices(ReplayKey(id, packet)) <= s.bits)
  }

  /** No cipher context, or an authentic packet whose length prefix wraps the slice bound. */
  predicate Unsafe(h: Host, key: Option<seq<byte>>, packet: seq<byte>)
    requires h.Lawful()
  {
    key.None? || Overlong(h.prim, key.value, packet)
  }

  lemma JudgedPanics(h: Host, s: Srv, id: u16, packet: seq<byte>)
    requires h.Lawful() && id in s.peers
    ensures Judge(h, s.bits, s.peers[id].key, id, packet).Panics?
            <==> Fresh(h, s, id, packet) && Unsafe(h, s.peers[id].key, packet)
  {
    if s.peers[id].key.Some? {
      PanicsExactly(h.prim, s.peers[id].key.value, packet);
    }
  }

  lemma VerdictCrashes(s: Srv, i: Input, verdict: Verdict, more: set<nat>)
    requires i.pkt.shortID in s.peers
    ensures Pipeline.Locked(s, i, verdict, more).1.Crashed? <==> !s.peers[i.pkt.shortID].held && verdict.Panics?
  {
  }

  /** processPacket crashes exactly for a registered peer whose lock is free, on a packet the filter lets through, without
      a cipher context or with an overlong text. */
  lemma CrashesExactly(h: Host, s: Srv, i: Input)
    requires h.Lawful()
    ensures Process(h, s, i).1.Crashed?
            <==> && i.pkt.shortID in s.peers && !s.peers[i.pkt.shortID].held
                 && Fresh(h, s, i.pkt.shortID, i.pkt.data) && Unsafe(h, s.peers[i.pkt.shortID].key, i.pkt.data)
  {
    var id, packet := i.pkt.shortID, i.pkt.data;
    if id in s.peers {
      JudgedPanics(h, s, id, packet);
      VerdictCrashes(WithWriter(s, id, i.writer), i, Judge(h, s.bits, s.peers[id].key, id, packet), BitsFor(h, id, packet));
    }
  }

  lemma XhttpVerdictCrashes(s: Srv, id: u16, verdict: Verdict, more: set<nat>)
    requires id in s.peers
    ensures XhttpEffect(s, id, verdict, more).1.Crashed? <==> !s.peers[id].held && verdict.Panics?
  {
  }

  /** The same for xhttpProcessPacket. */
  lemma XhttpCrashesExactly(h: Host, s: Srv, p: seq<byte>)
    requires h.Lawful()
    ensures ProcessXhttp(h, s, p).1.Crashed?
            <==> && |p| >= HEADER && Routed(h.salt, p) in s.peers && !s.peers[Routed(h.salt, p)].held
                 && Fresh(h, s, Routed(h.salt, p), p) && Unsafe(h, s.peers[Routed(h.salt, p)].key, p)
  {
    if |p| >= HEADER {
      var id := Routed(h.salt, p);
      if id in s.peers {
        JudgedPanics(h, s, id, p);
        XhttpVerdictCrashes(s, id, Judge(h, s.bits, s.peers[id].key, id, p), BitsFor(h, id, p));
      }
    }
  }

  // ─── Why a call hangs ────────────────────────────────────────────

  /** The entry is a panic over XHTTP or in the TUN reader that leaves the lock of a peer behind. */
  predicate Leaves(h: Host, entry: Entry, id: u16) {
    || (entry.HandledXhttp? && entry.outcome.Crashed? && |entry.packet| >= HEADER && Routed(h.salt, entry.packet) == id)
    || (entry.HandledTun? && entry.sent.ReaderCrashed? && entry.id == id)
  }

  predicate IsHeld(s: Srv, id: u16) {
    id in s.peers && s.peers[id].held
  }

  lemma ProcessHolds(h: Host, s: Srv, i: Input, id: u16)
    requires h.Lawful()
    ensures IsHeld(Process(h, s, i).0, id) <==> IsHeld(s, id)
    ensures IsHeld(s, i.pkt.shortID) <==> Process(h, s, i).1.Hung?
  {
  }

  lemma XhttpHolds(h: Host, s: Srv, p: seq<byte>, id: u16)
    requires h.Lawful()
    ensures IsHeld(ProcessXhttp(h, s, p).0, id) <==> IsHeld(s, id) || Leaves(h, HandledXhttp(p, ProcessXhttp(h, s, p).1), id)
  {
  }

  lemma StepHolds(h: Host, s: Srv, e: Event, id: u16)
    requires h.Lawful()
    ensures IsHeld(Step(h, s, e).0, id) <==> IsHeld(s, id) || Leaves(h, Step(h, s, e).1, id)
  {
    match e
    case Packet(i) => ProcessHolds(h, s, i, id);
    case XhttpPacket(p) => XhttpHolds(h, s, p, id);
    case TunPacket(_, _) =>
    case ResetFilter =>
    case ZeroTraffic =>
  }

  ghost predicate Left(h: Host, entries: seq<Entry>, id: u16) {
    exists j :: 0 <= j < |entries| && Leaves(h, entries[j], id)
  }

  lemma LeftLast(h: Host, entries: seq<Entry>, entry: Entry, id: u16)
    ensures Left(h, entries + [entry], id) <==> Left(h, entries, id) || Leaves(h, entry, id)
  {
    var all := entries + [entry];
    assert all[|entries|] == entry;
    if Left(h, entries, id) {
      var j :| 0 <= j < |entries| && Leaves(h, entries[j], id);
      assert all[j] == entries[j];
    }
  }

  /** A peer's lock is held for ever exactly when it was at the start or a panic over XHTTP or in the TUN reader has left
      it since. */
  lemma {:induction false} HeldExactly(h: Host, s: Srv, events: seq<Event>, id: u16)
    requires h.Lawful()
    ensures IsHeld(Run(h, s, events).0, id) <==> IsHeld(s, id) || Left(h, Run(h, s, events).1, id)
    decreases |events|
  {
    if |events| > 0 {
      var init := events[..|events| - 1];
      HeldExactly(h, s, init, id);
      var (before, entries) := Run(h, s, init);
      StepHolds(h, before, events[|events| - 1], id);
      LeftLast(h, entries, Step(h, before, events[|events| - 1]).1, id);
    }
  }

  /** While the main loop serves, the next packet for a peer hangs it exactly when such a panic has happened. */
  lemma HangsExactly(h: Host, s: Srv, events: seq<Event>, i: Input)
    requires h.Lawful() && !IsHeld(s, i.pkt.shortID) && Run(h, s, events).0.loop.Serving?
    ensures Step(h, Run(h, s, events).0, Packet(i)).1 == Handled(i, Hung) <==> Left(h, Run(h, s, events).1, i.pkt.shortID)
  {
    HeldExactly(h, s, events, i.pkt.shortID);
    ProcessHolds(h, Run(h, s, events).0, i, i.pkt.shortID);
  }

  // ─── Peers loaded at start-up ────────────────────────────────────

  /** Every peer has a cipher context and a free lock, and both loops serve. */
  predicate Ready(s: Srv) {
    s.loop.Serving? && s.reader.Serving? && forall id :: id in s.peers ==> s.peers[id].key.Some? && !s.peers[id].held
  }

  /** A panic, a wait without end, or an event that nothing is there to handle. */
  predicate Fails(entry: Entry) {
    || entry.Ignored?
    || ((entry.Handled? || entry.HandledXhttp?) && (entry.outcome.Crashed? || entry.outcome.Hung?))
    || (entry.HandledTun? && (entry.sent.ReaderCrashed? || entry.sent.ReaderHung?))
  }

  /** What breaks a ready server: a registered peer's authentic packet that the filter lets through and whose length prefix
      wraps, or a TUN packet that Encrypt's buffer cannot hold, for a peer with a writer. */
  predicate Breaks(h: Host, s: Srv, e: Event)
    requires h.Lawful() && Ready(s)
  {
    match e
    case Packet(i) =>
      && i.pkt.shortID in s.peers && Fresh(h, s, i.pkt.shortID, i.pkt.data)
      && Overlong(h.prim, s.peers[i.pkt.shortID].key.value, i.pkt.data)
    case XhttpPacket(p) =>
      && |p| >= HEADER && Routed(h.salt, p) in s.peers && Fresh(h, s, Routed(h.salt, p), p)
      && Overlong(h.prim, s.peers[Routed(h.salt, p)].key.value, p)
    case TunPacket(id, size) => id in s.peers && s.peers[id].writer.Some? && size > POOLED
    case _ => false
  }

  lemma ProcessReady(h: Host, s: Srv, i: Input)
    requires h.Lawful() && Ready(s)
    ensures Fails(Handled(i, Process(h, s, i).1)) <==> Process(h, s, i).1.Crashed?
    ensures Ready(Process(h, s, i).0) <==> !Process(h, s, i).1.Crashed?
  {
  }

  lemma XhttpReady(h: Host, s: Srv, p: seq<byte>)
    requires h.Lawful() && Ready(s)
    ensures Fails(HandledXhttp(p, ProcessXhttp(h, s, p).1)) <==> ProcessXhttp(h, s, p).1.Crashed?
    ensures Ready(ProcessXhttp(h, s, p).0) <==> !ProcessXhttp(h, s, p).1.Crashed?
  {
    if |p| >= HEADER && Routed(h.salt, p) in s.peers {
      var id := Routed(h.salt, p);
      XhttpEffectReady(s, id, Judge(h, s.bits, s.peers[id].key, id, p), BitsFor(h, id, p));
    }
  }

  lemma XhttpEffectReady(s: Srv, id: u16, verdict: Verdict, more: set<nat>)
    requires Ready(s) && id in s.peers
    ensures var (v, o) := XhttpEffect(s, id, verdict, more); !o.Hung? && (Ready(v) <==> !o.Crashed?)
  {
    var v := XhttpEffect(s, id, verdict, more).0;
    if verdict.Panics? {
      assert v.peers[id].held;
    }
  }

  lemma TunReady(s: Srv, id: u16, size: nat)
    requires Ready(s)
    ensures var (v, o) := TunStep(s, id, size);
            && (Fails(HandledTun(id, o)) <==> id in s.peers && s.peers[id].writer.Some? && size > POOLED)
            && (Ready(v) <==> !Fails(HandledTun(id, o)))
  {
  }

  /** One event. */
  lemma StepFailsExactly(h: Host, s: Srv, e: Event)
    requires h.Lawful() && Ready(s)
    ensures Fails(Step(h, s, e).1) <==> Breaks(h, s, e)
    ensures Ready(Step(h, s, e).0) <==> !Breaks(h, s, e)
  {
    match e
    case Packet(i) =>
      ProcessReady(h, s, i);
      CrashesExactly(h, s, i);
    case XhttpPacket(p) =>
      XhttpReady(h, s, p);
      XhttpCrashesExactly(h, s, p);
    case TunPacket(id, size) => TunReady(s, id, size);
    case ResetFilter =>
    case ZeroTraffic =>
  }

  ghost predicate NoneFails(entries: seq<Entry>) {
    forall j :: 0 <= j < |entries| ==> !Fails(entries[j])
  }

  /** No event breaks the server as it stands then. */
  ghost predicate NoneBreaks(h: Host, s: Srv, events: seq<Event>)
    requires h.Lawful()
  {
    |events| == 0
    || (var before := Run(h, s, events[..|events| - 1]).0;
        NoneBreaks(h, s, events[..|events| - 1]) && Ready(before) && !Breaks(h, before, events[|events| - 1]))
  }

  /** With peers loaded at start-up a run goes without crash, hang and unhandled event exactly when none of its events
      breaks the server. */
  lemma {:induction false} ReadyFailsExactly(h: Host, s: Srv, events: seq<Event>)
    requires h.Lawful() && Ready(s)
    ensures NoneFails(Run(h, s, events).1) <==> NoneBreaks(h, s, events)
    ensures NoneFails(Run(h, s, events).1) ==> Ready(Run(h, s, events).0)
    decreases |events|
  {
    if |events| > 0 {
      var init := events[..|events| - 1];
      var (before, entries) := Run(h, s, init);
      var entry := Step(h, before, events[|events| - 1]).1;
      ReadyFailsExactly(h, s, init);
      FailsLast(entries, entry);
      if NoneFails(entries) {
        StepFailsExactly(h, before, events[|events| - 1]);
      }
    }
  }

  lemma FailsLast(entries: seq<Entry>, entry: Entry)
    ensures NoneFails(entries + [entry]) <==> NoneFails(entries) && !Fails(entry)
  {
    var all := entries + [entry];
    assert all[|entries|] == entry;
    assert forall j :: 0 <= j < |entries| ==> all[j] == entries[j];
  }

  /** Packets under 65570 bytes, and TUN packets that fit the buffer. */
  predicate Short(e: Event) {
    match e
    case Packet(i) => |i.pkt.data| < HEADER + 0x1_0000 + 16
    case XhttpPacket(p) => |p| < HEADER + 0x1_0000 + 16
    case TunPacket(_, size) => size <= POOLED
    case _ => true
  }

  lemma ShortBreaksNothing(h: Host, s: Srv, e: Event)
    requires h.Lawful() && Ready(s) && Short(e)
    ensures !Breaks(h, s, e)
  {
    match e
    case Packet(i) =>
      if i.pkt.shortID in s.peers {
        PanicsExactly(h.prim, s.peers[i.pkt.shortID].key.value, i.pkt.data);
      }
    case XhttpPacket(p) =>
      if |p| >= HEADER && Routed(h.salt, p) in s.peers {
        PanicsExactly(h.prim, s.peers[Routed(h.salt, p)].key.value, p);
      }
    case _ =>
  }

  /** Hence short packets never fail, whatever is in them. */
  lemma {:induction false} ShortNeverFails(h: Host, s: Srv, events: seq<Event>)
    requires h.Lawful() && Ready(s) && forall e :: e in events ==> Short(e)
    ensures NoneFails(Run(h, s, events).1) && Ready(Run(h, s, events).0)
    decreases |events|
  {
    if |events| > 0 {
      var init := events[..|events| - 1];
      ShortNeverFails(h, s, init);
      ShortBreaksNothing(h, Run(h, s, init).0, events[|events| - 1]);
      StepFailsExactly(h, Run(h, s, init).0, events[|events| - 1]);
      FailsLast(Run(h, s, init).1, Step(h, Run(h, s, init).0, events[|events| - 1]).1);
    }
  }

  /** Whatever comes by UDP is short. */
  lemma UdpIsShort(salt: seq<byte>, datagram: seq<byte>, i: Input)
    requires RouteUdp(salt, datagram) == Some(i.pkt)
    ensures Short(Packet(i))
  {
  }
}
