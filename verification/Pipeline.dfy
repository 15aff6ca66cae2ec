/** What the server does with one packet (server/server.go), on values; runs of packets and filter resets. */
module Pipeline {
  import opened Bytes
  import opened Cipher
  import opened BloomFilter
  import opened Demux

  datatype Writer = UdpWriter(addr: string) | OtherWriter(conn: nat)

  /** The fields of a peer that packets change; key is None for a peer without a cipher context. held: its cpMu was locked
      by a goroutine that panicked and will never unlock it. */
  datatype PeerState = PeerState(key: Option<seq<byte>>, writer: Option<Writer>, udpAddr: Option<string>,
                                 lastSeen: int, byteIn: nat, cumRx: nat, held: bool)

  /** A loop takes packets, waits for a lock for ever, or is gone: the main loop with the whole process, the TUN reader
      alone, as it recovers from its own panic. */
  datatype Loop = Serving | Blocked | Exited

  /** One line of the aggregated drop log. */
  datatype DropReport = DropReport(noPeer: nat, replay: nat, hmac: nat, decrypt: nat)

  datatype Srv = Srv(peers: map<u16, PeerState>, bits: set<nat>, bloomCount: nat,
                     drops: DropReport, lastDropLogAt: int, log: seq<DropReport>, loop: Loop, reader: Loop)

  /** What a server is started with: the cryptography, the routing salt, and the filter's index function. */
  datatype Host = Host(prim: Primitives, salt: seq<byte>, indices: seq<byte> -> set<nat>)
  {
    ghost predicate Lawful() {
      prim.Lawful() && forall key :: |indices(key)| == 3
    }
  }

  /** The server's own host: three seeded hashes. */
  function RealHost(prim: Primitives, salt: seq<byte>): Host {
    Host(prim, salt, key => Indices(key))
  }

  lemma RealHostLawful(prim: Primitives, salt: seq<byte>)
    requires prim.Lawful()
    ensures RealHost(prim, salt).Lawful()
  {
    forall key ensures |RealHost(prim, salt).indices(key)| == 3 {
      ThreeDistinctBits(key);
    }
  }

  const NO_DROPS := DropReport(0, 0, 0, 0)
  const LOG_INTERVAL := 60_000_000_000

  function Total(r: DropReport): nat {
    r.noPeer + r.replay + r.hmac + r.decrypt
  }

  function Plus(a: DropReport, b: DropReport): DropReport {
    DropReport(a.noPeer + b.noPeer, a.replay + b.replay, a.hmac + b.hmac, a.decrypt + b.decrypt)
  }

  /** logDrops, with its two clock readings. */
  function Logged(s: Srv, t0: int, t1: int): Srv {
    if t0 - s.lastDropLogAt < LOG_INTERVAL then s
    else s.(lastDropLogAt := t1, drops := NO_DROPS, log := if Total(s.drops) > 0 then s.log + [s.drops] else s.log)
  }

  /** A packet from the channel, with what the outside world answers while it is processed. */
  datatype Input = Input(pkt: Incoming, writer: Option<Writer>, tunFails: bool, unix: int, t0: int, t1: int)

  /** Crashed: the call panics. Hung: the call waits for a cpMu that is never
      unlocked. */
  datatype Outcome = NoPeer | Replay | BadMac | BadPacket | KeepAlive | TunFailed | Delivered(bytes: nat) | Crashed | Hung

  /** The counter a dropped packet increments. */
  function Cause(o: Outcome): DropReport {
    match o
    case NoPeer => DropReport(1, 0, 0, 0)
    case Replay => DropReport(0, 1, 0, 0)
    case BadMac => DropReport(0, 0, 1, 0)
    case BadPacket => DropReport(0, 0, 0, 1)
    case _ => NO_DROPS
  }

  function Dropped(s: Srv, o: Outcome, i: Input): (Srv, Outcome) {
    (Logged(s.(drops := Plus(s.drops, Cause(o))), i.t0, i.t1), o)
  }

  function Addressed(p: PeerState, writer: Option<Writer>): PeerState {
    match writer
    case None => p
    case Some(UdpWriter(addr)) => p.(writer := writer, udpAddr := Some(addr))
    case Some(OtherWriter(_)) => p.(writer := writer)
  }

  /** The replay key of a packet that is long enough to have one. */
  function ReplayKey(shortID: u16, packet: seq<byte>): seq<byte>
    requires |packet| >= HEADER
  {
    BloomKey(shortID, packet[6..18])
  }

  /** What the filter and the cipher say of a packet, before any effect. Panics: there is no cipher context, or the slice
      expression in Decrypt is out of bounds. */
  datatype Verdict = Repeated | Panics | Rejected(fault: Fault) | Valid(data: seq<byte>)

  function Judge(h: Host, bits: set<nat>, key: Option<seq<byte>>, shortID: u16, packet: seq<byte>): Verdict
    requires h.Lawful()
  {
    if |packet| >= HEADER && h.indices(ReplayKey(shortID, packet)) <= bits then Repeated
    else Opening(h.prim, key, packet)
  }

  /** What the cipher alone says. */
  function Opening(prim: Primitives, key: Option<seq<byte>>, packet: seq<byte>): Verdict
    requires prim.Lawful()
  {
    if key.None? then Panics
    else
      match Opened(prim, key.value, packet)
      case Err(SliceBounds) => Panics
      case Err(fault) => Rejected(fault)
      case Ok(data) => Valid(data)
  }

  function BitsFor(h: Host, shortID: u16, packet: seq<byte>): set<nat> {
    if |packet| < HEADER then {} else h.indices(ReplayKey(shortID, packet))
  }

  function WithBits(s: Srv, more: set<nat>): Srv {
    s.(bits := s.bits + more, bloomCount := s.bloomCount + 1)
  }

  function Seen(s: Srv, id: u16, unix: int, bytes: nat): Srv
    requires id in s.peers
  {
    var p := s.peers[id];
    s.(peers := s.peers[id := p.(lastSeen := unix, byteIn := p.byteIn + bytes, cumRx := p.cumRx + bytes)])
  }

  /** The outcome of a packet that opens to data. */
  function OutcomeOf(data: seq<byte>, tunFails: bool): Outcome {
    if |data| == 0 then KeepAlive else if tunFails then TunFailed else Delivered(|data|)
  }

  /** processPacket for a registered peer, once the verdict is known; more: the bits of the packet's key. It runs on the
      main goroutine, where a panic ends the process. */
  function Effect(s: Srv, i: Input, verdict: Verdict, more: set<nat>): (Srv, Outcome)
    requires i.pkt.shortID in s.peers
  {
    match verdict
    case Repeated => Dropped(s, Replay, i)
    case Panics => (s.(loop := Exited), Crashed)
    case Rejected(HmacMismatch) => Dropped(s, BadMac, i)
    case Rejected(_) => Dropped(s, BadPacket, i)
    case Valid(data) =>
      var s' := WithBits(s, more);
      if |data| == 0 then (Seen(s', i.pkt.shortID, i.unix, 0), KeepAlive)
      else if i.tunFails then (Seen(s', i.pkt.shortID, i.unix, 0), TunFailed)
      else (Seen(s', i.pkt.shortID, i.unix, |data|), Delivered(|data|))
  }

  function WithWriter(s: Srv, id: u16, writer: Option<Writer>): Srv
    requires id in s.peers
  {
    s.(peers := s.peers[id := Addressed(s.peers[id], writer)])
  }

  /** processPacket. */
  function Process(h: Host, s: Srv, i: Input): (Srv, Outcome)
    requires h.Lawful()
  {
    var id, packet := i.pkt.shortID, i.pkt.data;
    if id !in s.peers then Dropped(s, NoPeer, i)
    else Locked(WithWriter(s, id, i.writer), i, Judge(h, s.bits, s.peers[id].key, id, packet), BitsFor(h, id, packet))
  }

  /** processPacket from the locking of cpMu on. */
  function Locked(s: Srv, i: Input, verdict: Verdict, more: set<nat>): (Srv, Outcome)
    requires i.pkt.shortID in s.peers
  {
    if s.peers[i.pkt.shortID].held then (s.(loop := Blocked), Hung) else Effect(s, i, verdict, more)
  }

  /** xhttpProcessPacket once the filter is set: nothing is counted as dropped, and the traffic counters grow whether or
      not the TUN write succeeds. A panic ends the handler only, and leaves cpMu locked. */
  function XhttpRest(s: Srv, id: u16, verdict: Verdict): (Srv, Outcome)
    requires id in s.peers && !verdict.Repeated?
  {
    if s.peers[id].held then (s, Hung)
    else
      match verdict
      case Panics => (s.(peers := s.peers[id := s.peers[id].(held := true)]), Crashed)
      case Rejected(_) => (s, BadPacket)
      case Valid(data) =>
        if |data| == 0 then (s, KeepAlive) else (Seen(s, id, s.peers[id].lastSeen, |data|), Delivered(|data|))
  }

  /** xhttpProcessPacket for a registered peer: the filter is set before the packet is opened. */
  function XhttpEffect(s: Srv, id: u16, verdict: Verdict, more: set<nat>): (Srv, Outcome)
    requires id in s.peers
  {
    if verdict.Repeated? then (s, Replay) else XhttpRest(WithBits(s, more), id, verdict)
  }

  function ProcessXhttp(h: Host, s: Srv, packet: seq<byte>): (Srv, Outcome)
    requires h.Lawful()
  {
    if |packet| < HEADER then (s, BadPacket)
    else
      var id := Routed(h.salt, packet);
      if id !in s.peers then (s, NoPeer)
      else XhttpEffect(s, id, Judge(h, s.bits, s.peers[id].key, id, packet), BitsFor(h, id, packet))
  }

  /** The reset goroutine's turn. */
  function Reset(s: Srv): Srv {
    s.(bits := {}, bloomCount := 0)
  }

  // ─── Runs ────────────────────────────────────────────────────────

  /** POST /api/reset. */
  function Zeroed(s: Srv): Srv {
    s.(peers := map id | id in s.peers :: s.peers[id].(byteIn := 0))
  }

  datatype TunOutcome = NoOne | Sent | ReaderCrashed | ReaderHung

  /** The TUN reader's turn with a packet for a peer; size: what Encrypt needs of its pooled buffer. A panic leaves cpMu
      locked. */
  function TunStep(s: Srv, id: u16, size: nat): (Srv, TunOutcome)
  {
    if id !in s.peers || s.peers[id].writer.None? then (s, NoOne)
    else if s.peers[id].held then (s.(reader := Blocked), ReaderHung)
    else if s.peers[id].key.None? || size > POOLED then
      (s.(peers := s.peers[id := s.peers[id].(held := true)], reader := Exited), ReaderCrashed)
    else (s, Sent)
  }

  datatype Event = Packet(input: Input) | XhttpPacket(packet: seq<byte>) | TunPacket(id: u16, size: nat)
                 | ResetFilter | ZeroTraffic

  /** The event with what came of it; Ignored when nothing is there to handle it. */
  datatype Entry = Handled(input: Input, outcome: Outcome) | HandledXhttp(packet: seq<byte>, outcome: Outcome)
                 | HandledTun(id: u16, sent: TunOutcome) | WasReset | WasZeroed | Ignored

  /** One step. After a panic of the main goroutine there is no process; a blocked main loop or TUN reader takes no packet,
      while all else goes on. */
  function Step(h: Host, s: Srv, e: Event): (Srv, Entry)
    requires h.Lawful()
  {
    if s.loop.Exited? || (s.loop.Blocked? && e.Packet?) || (!s.reader.Serving? && e.TunPacket?) then (s, Ignored)
    else
      match e
      case Packet(i) => var (s', o) := Process(h, s, i); (s', Handled(i, o))
      case XhttpPacket(p) => var (s', o) := ProcessXhttp(h, s, p); (s', HandledXhttp(p, o))
      case TunPacket(id, size) => var (s', o) := TunStep(s, id, size); (s', HandledTun(id, o))
      case ResetFilter => (Reset(s), WasReset)
      case ZeroTraffic => (Zeroed(s), WasZeroed)
  }

  function Run(h: Host, s: Srv, events: seq<Event>): (Srv, seq<Entry>)
    requires h.Lawful()
  {
    if |events| == 0 then (s, [])
    else
      var (before, entries) := Run(h, s, events[..|events| - 1]);
      var (after, entry) := Step(h, before, events[|events| - 1]);
      (after, entries + [entry])
  }

  // ─── Accounting ──────────────────────────────────────────────────

  /** What became of the packets of processPacket, by outcome. */
  datatype Outcomes = Outcomes(packets: nat, drops: DropReport, keepAlives: nat, tunFailures: nat, deliveries: nat,
                               crashes: nat, hangs: nat)

  function WithOutcome(t: Outcomes, e: Entry): Outcomes {
    if !e.Handled? then t
    else
      var u := t.(packets := t.packets + 1, drops := Plus(t.drops, Cause(e.outcome)));
      match e.outcome
      case KeepAlive => u.(keepAlives := u.keepAlives + 1)
      case TunFailed => u.(tunFailures := u.tunFailures + 1)
      case Delivered(_) => u.(deliveries := u.deliveries + 1)
      case Crashed => u.(crashes := u.crashes + 1)
      case Hung => u.(hangs := u.hangs + 1)
      case _ => u
  }

  function OutcomesOf(entries: seq<Entry>): Outcomes {
    if |entries| == 0 then Outcomes(0, NO_DROPS, 0, 0, 0, 0, 0)
    else WithOutcome(OutcomesOf(entries[..|entries| - 1]), entries[|entries| - 1])
  }

  /** The sum of all report lines. */
  function Reported(log: seq<DropReport>): DropReport {
    if |log| == 0 then NO_DROPS else Plus(Reported(log[..|log| - 1]), log[|log| - 1])
  }

  /** Drops so far: those in the log and those still in the counters. */
  function AllDrops(s: Srv): DropReport {
    Plus(Reported(s.log), s.drops)
  }

  lemma LoggingMovesDrops(s: Srv, t0: int, t1: int)
    ensures AllDrops(Logged(s, t0, t1)) == AllDrops(s)
  {
    if t0 - s.lastDropLogAt >= LOG_INTERVAL {
      if Total(s.drops) > 0 {
        var l := s.log + [s.drops];
        assert l[..|l| - 1] == s.log;
        assert Reported(l) == Plus(Reported(s.log), s.drops);
      } else {
        assert s.drops == NO_DROPS;
      }
    }
  }

  lemma DroppedIsCounted(s: Srv, o: Outcome, i: Input)
    ensures AllDrops(Dropped(s, o, i).0) == Plus(AllDrops(s), Cause(o))
  {
    LoggingMovesDrops(s.(drops := Plus(s.drops, Cause(o))), i.t0, i.t1);
  }

  function DropOf(e: Entry): DropReport {
    if e.Handled? then Cause(e.outcome) else NO_DROPS
  }

  lemma SameDrops(s: Srv, v: Srv)
    requires v.drops == s.drops && v.log == s.log
    ensures AllDrops(v) == Plus(AllDrops(s), NO_DROPS)
  {
  }

  lemma EffectCountsDrops(s: Srv, i: Input, verdict: Verdict, more: set<nat>)
    requires i.pkt.shortID in s.peers
    ensures AllDrops(Effect(s, i, verdict, more).0) == Plus(AllDrops(s), Cause(Effect(s, i, verdict, more).1))
  {
    match verdict
    case Repeated => DroppedIsCounted(s, Replay, i);
    case Panics => SameDrops(s, s.(loop := Exited));
    case Rejected(fault) =>
      if fault.HmacMismatch? {
        DroppedIsCounted(s, BadMac, i);
      } else {
        DroppedIsCounted(s, BadPacket, i);
      }
    case Valid(data) => SameDrops(s, Effect(s, i, verdict, more).0);
  }

  lemma LockedCountsDrops(s: Srv, i: Input, verdict: Verdict, more: set<nat>)
    requires i.pkt.shortID in s.peers
    ensures AllDrops(Locked(s, i, verdict, more).0) == Plus(AllDrops(s), Cause(Locked(s, i, verdict, more).1))
  {
    if s.peers[i.pkt.shortID].held {
      SameDrops(s, s.(loop := Blocked));
    } else {
      EffectCountsDrops(s, i, verdict, more);
    }
  }

  lemma ProcessCountsDrops(h: Host, s: Srv, i: Input)
    requires h.Lawful()
    ensures AllDrops(Process(h, s, i).0) == Plus(AllDrops(s), Cause(Process(h, s, i).1))
  {
    var id, packet := i.pkt.shortID, i.pkt.data;
    if id !in s.peers {
      DroppedIsCounted(s, NoPeer, i);
    } else {
      LockedCountsDrops(WithWriter(s, id, i.writer), i, Judge(h, s.bits, s.peers[id].key, id, packet), BitsFor(h, id, packet));
    }
  }

  lemma StepCountsDrops(h: Host, s: Srv, e: Event)
    requires h.Lawful()
    ensures AllDrops(Step(h, s, e).0) == Plus(AllDrops(s), DropOf(Step(h, s, e).1))
  {
    if Step(h, s, e).1.Handled? {
      ProcessCountsDrops(h, s, e.input);
    } else {
      SameDrops(s, Step(h, s, e).0);
    }
  }

  lemma OutcomesSplit(entries: seq<Entry>, e: Entry)
    ensures OutcomesOf(entries + [e]) == WithOutcome(OutcomesOf(entries), e)
  {
    var all := entries + [e];
    assert all[..|all| - 1] == entries && all[|all| - 1] == e;
  }

  lemma WithOutcomeDrops(t: Outcomes, e: Entry)
    ensures WithOutcome(t, e).drops == Plus(t.drops, DropOf(e))
  {
  }

  /** Cause by cause, the drops of a run are those reported plus those pending. */
  lemma {:induction false} DropsConserved(h: Host, s: Srv, events: seq<Event>)
    requires h.Lawful()
    ensures var (v, entries) := Run(h, s, events);
            AllDrops(v) == Plus(AllDrops(s), OutcomesOf(entries).drops)
    decreases |events|
  {
    if |events| > 0 {
      var init := events[..|events| - 1];
      DropsConserved(h, s, init);
      var (before, entries) := Run(h, s, init);
      var (after, entry) := Step(h, before, events[|events| - 1]);
      StepCountsDrops(h, before, events[|events| - 1]);
      OutcomesSplit(entries, entry);
      WithOutcomeDrops(OutcomesOf(entries), entry);
    }
  }

  lemma {:induction false} EachPacketOnce(entries: seq<Entry>)
    ensures var t := OutcomesOf(entries);
            t.packets == Total(t.drops) + t.keepAlives + t.tunFailures + t.deliveries + t.crashes + t.hangs
    decreases |entries|
  {
    if |entries| > 0 {
      EachPacketOnce(entries[..|entries| - 1]);
    }
  }

  lemma NothingReported(s: Srv)
    requires s.drops == NO_DROPS && s.log == []
    ensures AllDrops(s) == NO_DROPS
  {
  }

  /** Packets handled = drops reported + drops pending + keep-alives + TUN failures + deliveries + crashes + hangs. */
  predicate Balanced(reported: DropReport, pending: DropReport, t: Outcomes) {
    t.packets == Total(reported) + Total(pending) + t.keepAlives + t.tunFailures + t.deliveries + t.crashes + t.hangs
  }

  lemma Tally(reported: DropReport, pending: DropReport, t: Outcomes)
    requires Plus(reported, pending) == Plus(NO_DROPS, t.drops)
    requires t.packets == Total(t.drops) + t.keepAlives + t.tunFailures + t.deliveries + t.crashes + t.hangs
    ensures Balanced(reported, pending, t)
  {
    TotalOfPlus(reported, pending);
    TotalOfPlus(NO_DROPS, t.drops);
  }

  lemma FreshDrops(s: Srv, v: Srv, entries: seq<Entry>)
    requires s.drops == NO_DROPS && s.log == []
    requires AllDrops(v) == Plus(AllDrops(s), OutcomesOf(entries).drops)
    ensures Plus(Reported(v.log), v.drops) == Plus(NO_DROPS, OutcomesOf(entries).drops)
  {
    NothingReported(s);
  }

  lemma EntriesBalance(s: Srv, v: Srv, entries: seq<Entry>)
    requires s.drops == NO_DROPS && s.log == []
    requires AllDrops(v) == Plus(AllDrops(s), OutcomesOf(entries).drops)
    ensures Balanced(Reported(v.log), v.drops, OutcomesOf(entries))
  {
    FreshDrops(s, v, entries);
    EachPacketOnce(entries);
    Tally(Reported(v.log), v.drops, OutcomesOf(entries));
  }

  /** Every packet is counted exactly once: as a drop already reported, a drop pending, a keep-alive, a TUN failure, a
      delivery, or the crash or hang that is the main loop's last. */
  lemma PacketsConserved(h: Host, s: Srv, events: seq<Event>)
    requires h.Lawful() && s.drops == NO_DROPS && s.log == []
    ensures var (v, entries) := Run(h, s, events); Balanced(Reported(v.log), v.drops, OutcomesOf(entries))
  {
    DropsConserved(h, s, events);
    EntriesBalance(s, Run(h, s, events).0, Run(h, s, events).1);
  }

  lemma TotalOfPlus(a: DropReport, b: DropReport)
    ensures Total(Plus(a, b)) == Total(a) + Total(b)
  {
  }

  // ─── Traffic ─────────────────────────────────────────────────────

  /** The bytes an entry delivered for a peer. */
  function BytesFor(h: Host, id: u16, e: Entry): nat {
    match e
    case Handled(i, Delivered(n)) => if i.pkt.shortID == id then n else 0
    case HandledXhttp(p, Delivered(n)) => if |p| >= HEADER && Routed(h.salt, p) == id then n else 0
    case _ => 0
  }

  function AllBytesFor(h: Host, id: u16, entries: seq<Entry>): nat {
    if |entries| == 0 then 0
    else AllBytesFor(h, id, entries[..|entries| - 1]) + BytesFor(h, id, entries[|entries| - 1])
  }

  /** ByteIn after a run: the bytes since it was last zeroed. */
  function ByteInAfter(h: Host, id: u16, start: nat, entries: seq<Entry>): nat {
    if |entries| == 0 then start
    else
      var last := entries[|entries| - 1];
      if last.WasZeroed? then 0 else ByteInAfter(h, id, start, entries[..|entries| - 1]) + BytesFor(h, id, last)
  }

  /** Same peers, and n more bytes received by one of them. */
  ghost predicate Grown(s: Srv, v: Srv, id: u16, n: nat)
    requires id in s.peers
  {
    && v.peers.Keys == s.peers.Keys
    && v.peers[id].cumRx == s.peers[id].cumRx + n
    && v.peers[id].key == s.peers[id].key
  }

  ghost predicate BothGrown(s: Srv, v: Srv, id: u16, n: nat)
    requires id in s.peers
  {
    Grown(s, v, id, n) && v.peers[id].byteIn == s.peers[id].byteIn + n
  }

  lemma LockedCountsBytes(s: Srv, i: Input, verdict: Verdict, more: set<nat>, id: u16)
    requires i.pkt.shortID in s.peers && id in s.peers
    ensures var (v, o) := Locked(s, i, verdict, more);
            BothGrown(s, v, id, if o.Delivered? && i.pkt.shortID == id then o.bytes else 0)
  {
  }

  lemma ProcessCountsBytes(h: Host, s: Srv, i: Input, id: u16)
    requires h.Lawful() && id in s.peers
    ensures var (v, o) := Process(h, s, i);
            BothGrown(s, v, id, if o.Delivered? && i.pkt.shortID == id then o.bytes else 0)
  {
    var to, packet := i.pkt.shortID, i.pkt.data;
    if to in s.peers {
      LockedCountsBytes(WithWriter(s, to, i.writer), i, Judge(h, s.bits, s.peers[to].key, to, packet), BitsFor(h, to, packet), id);
    }
  }

  lemma XhttpEffectCountsBytes(s: Srv, to: u16, verdict: Verdict, more: set<nat>, id: u16)
    requires to in s.peers && id in s.peers
    ensures var (v, o) := XhttpEffect(s, to, verdict, more);
            BothGrown(s, v, id, if o.Delivered? && to == id then o.bytes else 0)
  {
  }

  lemma XhttpCountsBytes(h: Host, s: Srv, p: seq<byte>, id: u16)
    requires h.Lawful() && id in s.peers
    ensures var (v, o) := ProcessXhttp(h, s, p);
            BothGrown(s, v, id, BytesFor(h, id, HandledXhttp(p, o)))
  {
    if |p| >= HEADER {
      var to := Routed(h.salt, p);
      if to in s.peers {
        XhttpEffectCountsBytes(s, to, Judge(h, s.bits, s.peers[to].key, to, p), BitsFor(h, to, p), id);
      }
    }
  }

  lemma StepCountsBytes(h: Host, s: Srv, e: Event, id: u16)
    requires h.Lawful() && id in s.peers
    ensures var (v, entry) := Step(h, s, e);
            && Grown(s, v, id, BytesFor(h, id, entry))
            && v.peers[id].byteIn == if entry.WasZeroed? then 0 else s.peers[id].byteIn + BytesFor(h, id, entry)
  {
    match e
    case Packet(i) => ProcessCountsBytes(h, s, i, id);
    case XhttpPacket(p) => XhttpCountsBytes(h, s, p, id);
    case TunPacket(_, _) =>
    case ResetFilter =>
    case ZeroTraffic => assert Zeroed(s).peers.Keys == s.peers.Keys;
  }

  /** Each peer's CumRx grows by exactly the bytes delivered for it, and ByteIn holds those since it was last zeroed. */
  lemma {:induction false} TrafficConserved(h: Host, s: Srv, events: seq<Event>, id: u16)
    requires h.Lawful() && id in s.peers
    ensures var (v, entries) := Run(h, s, events);
            && Grown(s, v, id, AllBytesFor(h, id, entries))
            && v.peers[id].byteIn == ByteInAfter(h, id, s.peers[id].byteIn, entries)
    decreases |events|
  {
    if |events| > 0 {
      var init := events[..|events| - 1];
      TrafficConserved(h, s, init, id);
      var (before, entries) := Run(h, s, init);
      var (after, entry) := Step(h, before, events[|events| - 1]);
      StepCountsBytes(h, before, events[|events| - 1], id);
      assert (entries + [entry])[..|entries|] == entries;
    }
  }

  // ─── The filter ──────────────────────────────────────────────────

  /** The key an entry put into the filter. */
  function Inserted(h: Host, e: Entry): Option<seq<byte>> {
    match e
    case Handled(i, o) =>
      if |i.pkt.data| >= HEADER && (o.KeepAlive? || o.TunFailed? || o.Delivered?)
      then Some(ReplayKey(i.pkt.shortID, i.pkt.data)) else None
    case HandledXhttp(p, o) =>
      if |p| >= HEADER && !o.NoPeer? && !o.Replay? then Some(ReplayKey(Routed(h.salt, p), p)) else None
    case _ => None
  }

  /** The bits of all keys put in since the last reset. */
  function BitsSinceReset(h: Host, start: set<nat>, entries: seq<Entry>): set<nat> {
    if |entries| == 0 then start
    else
      var last := entries[|entries| - 1];
      if last.WasReset? then {}
      else
        BitsSinceReset(h, start, entries[..|entries| - 1])
        + (match Inserted(h, last) case None => {} case Some(key) => h.indices(key))
  }

  function InsertionsSinceReset(h: Host, entries: seq<Entry>): nat {
    if |entries| == 0 then 0
    else
      var last := entries[|entries| - 1];
      if last.WasReset? then 0
      else InsertionsSinceReset(h, entries[..|entries| - 1]) + if Inserted(h, last).Some? then 1 else 0
  }

  /** What an entry does to the filter. */
  predicate Fills(h: Host, s: Srv, v: Srv, entry: Entry) {
    if entry.WasReset? then v.bits == {} && v.bloomCount == 0
    else match Inserted(h, entry)
      case None => v.bits == s.bits && v.bloomCount == s.bloomCount
      case Some(key) => v.bits == s.bits + h.indices(key) && v.bloomCount == s.bloomCount + 1
  }

  lemma ProcessInserts(h: Host, s: Srv, i: Input)
    requires h.Lawful()
    ensures Fills(h, s, Process(h, s, i).0, Handled(i, Process(h, s, i).1))
  {
  }

  lemma XhttpInserts(h: Host, s: Srv, p: seq<byte>)
    requires h.Lawful()
    ensures Fills(h, s, ProcessXhttp(h, s, p).0, HandledXhttp(p, ProcessXhttp(h, s, p).1))
  {
  }

  lemma StepInserts(h: Host, s: Srv, e: Event)
    requires h.Lawful()
    ensures Fills(h, s, Step(h, s, e).0, Step(h, s, e).1)
  {
    match e
    case Packet(i) => ProcessInserts(h, s, i);
    case XhttpPacket(p) => XhttpInserts(h, s, p);
    case TunPacket(_, _) =>
    case ResetFilter =>
    case ZeroTraffic =>
  }

  /** The filter holds exactly the bits of the keys inserted since the last reset, and the counter counts them. A packet
      that fails to open in processPacket is not among them. */
  lemma {:induction false} FilterContents(h: Host, s: Srv, events: seq<Event>)
    requires h.Lawful() && s.bloomCount == 0
    ensures var (v, entries) := Run(h, s, events);
            && v.bits == BitsSinceReset(h, s.bits, entries)
            && v.bloomCount == InsertionsSinceReset(h, entries)
    decreases |events|
  {
    if |events| > 0 {
      var init := events[..|events| - 1];
      FilterContents(h, s, init);
      var (before, entries) := Run(h, s, init);
      var (after, entry) := Step(h, before, events[|events| - 1]);
      StepInserts(h, before, events[|events| - 1]);
      assert (entries + [entry])[..|entries|] == entries;
    }
  }

  ghost predicate WithinBudget(s: Srv) {
    |s.bits| <= 3 * s.bloomCount
  }

  /** Three bits an insertion, so fewer than half of all bits as long as the counter has not passed its threshold. */
  lemma {:induction false} FilterBudget(h: Host, s: Srv, events: seq<Event>)
    requires h.Lawful() && WithinBudget(s)
    ensures WithinBudget(Run(h, s, events).0)
    ensures Run(h, s, events).0.bloomCount <= 85000 ==> 2 * |Run(h, s, events).0.bits| < TOTAL_BITS
    decreases |events|
  {
    if |events| > 0 {
      var init := events[..|events| - 1];
      FilterBudget(h, s, init);
      var before := Run(h, s, init).0;
      StepInserts(h, before, events[|events| - 1]);
      var key := Inserted(h, Step(h, before, events[|events| - 1]).1);
      if key.Some? {
        UnionSize(before.bits, h.indices(key.value));
      }
    }
  }
}
