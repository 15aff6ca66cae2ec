/** processPacket step by step, interleaved with itself, with filter resets and with insertions from elsewhere. */
module ReplayRuns {
  import opened Bytes
  import opened Cipher
  import opened BloomFilter
  import opened Pipeline

  /** Where a goroutine stands between locking a peer's cpMu and unlocking it. After a panic in Decrypt it stays locked. */
  datatype Phase =
    | Locked(id: u16, packet: seq<byte>)
    | Checked(id: u16, packet: seq<byte>)
    | Decrypted(id: u16, packet: seq<byte>)
    | Leaving(id: u16)
    | Panicked(id: u16)

  datatype Item = Accepted(id: u16, nonce: seq<byte>) | Cleared

  /** holder: who holds which peer's cpMu. log: acceptances and resets in the order of bloomMu. */
  datatype State = State(bits: set<nat>, holder: map<u16, nat>, phases: map<nat, Phase>, log: seq<Item>)

  datatype Event =
    | Lock(t: nat, id: u16, packet: seq<byte>)
    | Check(t: nat)
    | Decrypt(t: nat)
    | Set(t: nat)
    | Unlock(t: nat)
    | Clear
    | Insert(key: seq<byte>)

  /** The peers loaded at start-up and their keys. */
  type Keys = map<u16, seq<byte>>

  /** One atomic step; an event that cannot happen changes nothing. */
  function Step(h: Host, keys: Keys, s: State, e: Event): State
    requires h.Lawful()
  {
    match e
    case Lock(t, id, packet) =>
      if t in s.phases || id in s.holder || id !in keys then s
      else s.(holder := s.holder[id := t], phases := s.phases[t := Locked(id, packet)])
    case Check(t) =>
      if t !in s.phases || !s.phases[t].Locked? then s
      else
        var Locked(id, packet) := s.phases[t];
        if |packet| >= HEADER && h.indices(ReplayKey(id, packet)) <= s.bits then s.(phases := s.phases[t := Leaving(id)])
        else s.(phases := s.phases[t := Checked(id, packet)])
    case Decrypt(t) =>
      if t !in s.phases || !s.phases[t].Checked? || s.phases[t].id !in keys then s
      else
        var Checked(id, packet) := s.phases[t];
        if Opened(h.prim, keys[id], packet).Ok? then s.(phases := s.phases[t := Decrypted(id, packet)])
        else if Opened(h.prim, keys[id], packet) == Err(SliceBounds) then s.(phases := s.phases[t := Panicked(id)])
        else s.(phases := s.phases[t := Leaving(id)])
    case Set(t) =>
      if t !in s.phases || !s.phases[t].Decrypted? || |s.phases[t].packet| < HEADER then s
      else
        var Decrypted(id, packet) := s.phases[t];
        s.(bits := s.bits + h.indices(ReplayKey(id, packet)), phases := s.phases[t := Leaving(id)],
           log := s.log + [Accepted(id, packet[6..18])])
    case Unlock(t) =>
      if t !in s.phases || !s.phases[t].Leaving? then s
      else s.(holder := s.holder - {s.phases[t].id}, phases := s.phases - {t})
    case Clear => s.(bits := {}, log := s.log + [Cleared])
    case Insert(key) => s.(bits := s.bits + h.indices(key))
  }

  const START := State({}, map[], map[], [])

  function Run(h: Host, keys: Keys, s: State, events: seq<Event>): State
    requires h.Lawful()
  {
    if |events| == 0 then s else Step(h, keys, Run(h, keys, s, events[..|events| - 1]), events[|events| - 1])
  }

  // ─── Acceptances since the last reset ────────────────────────────

  function Recent(log: seq<Item>): set<Item> {
    if |log| == 0 || log[|log| - 1].Cleared? then {} else Recent(log[..|log| - 1]) + {log[|log| - 1]}
  }

  ghost predicate OncePerEpoch(log: seq<Item>) {
    |log| == 0
    || (OncePerEpoch(log[..|log| - 1]) && (log[|log| - 1].Accepted? ==> log[|log| - 1] !in Recent(log[..|log| - 1])))
  }

  lemma LogLast(log: seq<Item>, item: Item)
    ensures Recent(log + [item]) == if item.Cleared? then {} else Recent(log) + {item}
    ensures OncePerEpoch(log + [item]) <==> OncePerEpoch(log) && (item.Accepted? ==> item !in Recent(log))
  {
    assert (log + [item])[..|log|] == log;
  }

  lemma {:induction false} StillRecent(log: seq<Item>, i: nat)
    requires i < |log| && log[i].Accepted?
    requires forall m :: i < m < |log| ==> log[m].Accepted?
    ensures log[i] in Recent(log)
    decreases |log|
  {
    if i < |log| - 1 {
      assert log[|log| - 1].Accepted?;
      StillRecent(log[..|log| - 1], i);
    }
  }

  lemma {:induction false} TwiceNeedsReset(log: seq<Item>, i: nat, j: nat)
    requires OncePerEpoch(log) && i < j < |log| && log[i] == log[j] && log[i].Accepted?
    ensures exists m :: i < m < j && log[m].Cleared?
    decreases |log|
  {
    var before := log[..|log| - 1];
    if j < |log| - 1 {
      TwiceNeedsReset(before, i, j);
      var m :| i < m < j && before[m].Cleared?;
      assert log[m].Cleared?;
    } else if forall m :: i < m < j ==> log[m].Accepted? {
      assert forall m :: i < m < |before| ==> before[m] == log[m];
      StillRecent(before, i);
    } else {
      var m :| i < m < j && !log[m].Accepted?;
      assert log[m].Cleared?;
    }
  }

  // ─── Invariant ───────────────────────────────────────────────────

  ghost predicate Exclusive(s: State) {
    forall t :: t in s.phases ==> s.phases[t].id in s.holder && s.holder[s.phases[t].id] == t
  }

  ghost predicate Remembered(h: Host, s: State) {
    forall item :: item in Recent(s.log) ==> item.Accepted? && h.indices(BloomKey(item.id, item.nonce)) <= s.bits
  }

  /** A goroutine past the check holds a nonce that no one has had accepted since the last reset. */
  ghost predicate StillNew(s: State) {
    forall t :: t in s.phases && (s.phases[t].Checked? || s.phases[t].Decrypted?) && |s.phases[t].packet| >= HEADER ==>
      Accepted(s.phases[t].id, s.phases[t].packet[6..18]) !in Recent(s.log)
  }

  ghost predicate Inv(h: Host, s: State) {
    Exclusive(s) && Remembered(h, s) && StillNew(s) && OncePerEpoch(s.log)
  }

  lemma SetKeeps(h: Host, keys: Keys, s: State, t: nat)
    requires h.Lawful() && Inv(h, s)
    ensures Inv(h, Step(h, keys, s, Set(t)))
  {
    var v := Step(h, keys, s, Set(t));
    if v != s {
      var id, packet := s.phases[t].id, s.phases[t].packet;
      LogLast(s.log, Accepted(id, packet[6..18]));
      forall u | u in v.phases && (v.phases[u].Checked? || v.phases[u].Decrypted?) && |v.phases[u].packet| >= HEADER
        ensures Accepted(v.phases[u].id, v.phases[u].packet[6..18]) !in Recent(v.log)
      {
        // whoever else is past the check holds another peer's cpMu
        assert u != t && s.holder[s.phases[u].id] == u && s.holder[id] == t;
      }
    }
  }

  lemma CheckKeeps(h: Host, keys: Keys, s: State, t: nat)
    requires h.Lawful() && Inv(h, s)
    ensures Inv(h, Step(h, keys, s, Check(t)))
  {
    var v := Step(h, keys, s, Check(t));
    if v != s && v.phases[t].Checked? && |s.phases[t].packet| >= HEADER {
      var item := Accepted(s.phases[t].id, s.phases[t].packet[6..18]);
      assert ReplayKey(s.phases[t].id, s.phases[t].packet) == BloomKey(item.id, item.nonce);
      assert item !in Recent(s.log);
    }
  }

  lemma StepKeeps(h: Host, keys: Keys, s: State, e: Event)
    requires h.Lawful() && Inv(h, s)
    ensures Inv(h, Step(h, keys, s, e))
  {
    match e
    case Lock(t, id, packet) =>
    case Check(t) => CheckKeeps(h, keys, s, t);
    case Decrypt(t) =>
    case Set(t) => SetKeeps(h, keys, s, t);
    case Unlock(t) =>
    case Clear => LogLast(s.log, Cleared);
    case Insert(key) =>
  }

  lemma {:induction false} RunKeeps(h: Host, keys: Keys, events: seq<Event>)
    requires h.Lawful()
    ensures Inv(h, Run(h, keys, START, events))
    decreases |events|
  {
    if |events| > 0 {
      RunKeeps(h, keys, events[..|events| - 1]);
      StepKeeps(h, keys, Run(h, keys, START, events[..|events| - 1]), events[|events| - 1]);
    }
  }

  /** However any number of processPacket calls, resets and foreign insertions interleave, the same ShortID and nonce are
      accepted twice only with a reset in between. */
  lemma AtMostOnceBetweenResets(h: Host, keys: Keys, events: seq<Event>, i: nat, j: nat)
    requires h.Lawful()
    requires var log := Run(h, keys, START, events).log;
             i < j < |log| && log[i] == log[j] && log[i].Accepted?
    ensures var log := Run(h, keys, START, events).log; exists m :: i < m < j && log[m].Cleared?
  {
    RunKeeps(h, keys, events);
    TwiceNeedsReset(Run(h, keys, START, events).log, i, j);
  }

  // ─── The same call with nothing in between ───────────────────────

  function Alone(t: nat, id: u16, packet: seq<byte>): seq<Event> {
    [Lock(t, id, packet), Check(t), Decrypt(t), Set(t), Unlock(t)]
  }

  lemma {:induction false} RunFive(h: Host, keys: Keys, s: State, e: seq<Event>)
    requires h.Lawful() && |e| == 5
    ensures Run(h, keys, s, e)
         == Step(h, keys, Step(h, keys, Step(h, keys, Step(h, keys, Step(h, keys, s, e[0]), e[1]), e[2]), e[3]), e[4])
  {
    var e4, e3, e2, e1 := e[..4], e[..3], e[..2], e[..1];
    assert e4[..3] == e3 && e3[..2] == e2 && e2[..1] == e1 && e1[..0] == [];
    assert Run(h, keys, s, e1) == Step(h, keys, s, e[0]);
    assert Run(h, keys, s, e2) == Step(h, keys, Run(h, keys, s, e1), e[1]);
    assert Run(h, keys, s, e3) == Step(h, keys, Run(h, keys, s, e2), e[2]);
    assert Run(h, keys, s, e4) == Step(h, keys, Run(h, keys, s, e3), e[3]);
  }

  lemma Refused(h: Host, keys: Keys, s: State, t: nat, id: u16, packet: seq<byte>)
    requires h.Lawful() && id in keys && t !in s.phases && id !in s.holder
    requires Judge(h, s.bits, Some(keys[id]), id, packet).Repeated? || Judge(h, s.bits, Some(keys[id]), id, packet).Rejected?
    ensures Run(h, keys, s, Alone(t, id, packet)) == s
  {
    var e := Alone(t, id, packet);
    RunFive(h, keys, s, e);
    var s1 := Step(h, keys, s, e[0]);
    assert s1.phases[t] == Locked(id, packet);
    var s2 := Step(h, keys, s1, e[1]);
    if Judge(h, s.bits, Some(keys[id]), id, packet).Repeated? {
      assert s2 == s1.(phases := s1.phases[t := Leaving(id)]);
      assert Step(h, keys, s2, e[2]) == s2;
    } else {
      assert s2 == s1.(phases := s1.phases[t := Checked(id, packet)]);
      assert Step(h, keys, s2, e[2]) == s2.(phases := s2.phases[t := Leaving(id)]);
    }
    var s3 := Step(h, keys, s2, e[2]);
    assert s3.phases == s.phases[t := Leaving(id)] && Step(h, keys, s3, e[3]) == s3;
    Unlocked(s, Step(h, keys, s3, e[4]));
  }

  /** Back where it was, but for the filter and the log. */
  lemma Unlocked(s: State, v: State)
    requires v.phases.Keys == s.phases.Keys && forall t :: t in s.phases ==> v.phases[t] == s.phases[t]
    requires v.holder.Keys == s.holder.Keys && forall id :: id in s.holder ==> v.holder[id] == s.holder[id]
    ensures v == s.(bits := v.bits, log := v.log)
  {
    assert v.phases == s.phases && v.holder == s.holder;
  }

  lemma Taken(h: Host, keys: Keys, s: State, t: nat, id: u16, packet: seq<byte>)
    requires h.Lawful() && id in keys && t !in s.phases && id !in s.holder
    requires Judge(h, s.bits, Some(keys[id]), id, packet).Valid?
    ensures |packet| >= HEADER
    ensures Run(h, keys, s, Alone(t, id, packet))
         == s.(bits := s.bits + BitsFor(h, id, packet), log := s.log + [Accepted(id, packet[6..18])])
  {
    var e := Alone(t, id, packet);
    RunFive(h, keys, s, e);
    var s1 := Step(h, keys, s, e[0]);
    assert s1.phases[t] == Locked(id, packet);
    var s2 := Step(h, keys, s1, e[1]);
    assert s2 == s1.(phases := s1.phases[t := Checked(id, packet)]);
    var s3 := Step(h, keys, s2, e[2]);
    assert s3 == s2.(phases := s2.phases[t := Decrypted(id, packet)]);
    SetAndUnlock(h, keys, s, s3, t, id, packet);
  }

  lemma SetAndUnlock(h: Host, keys: Keys, s: State, s3: State, t: nat, id: u16, packet: seq<byte>)
    requires h.Lawful() && t !in s.phases && id !in s.holder && |packet| >= HEADER
    requires s3.bits == s.bits && s3.log == s.log && s3.holder == s.holder[id := t]
    requires t in s3.phases && s3.phases[t] == Decrypted(id, packet) && s3.phases - {t} == s.phases
    ensures Step(h, keys, Step(h, keys, s3, Set(t)), Unlock(t))
         == s.(bits := s.bits + BitsFor(h, id, packet), log := s.log + [Accepted(id, packet[6..18])])
  {
    var s4 := Step(h, keys, s3, Set(t));
    assert s4.phases[t] == Leaving(id);
    Unlocked(s, Step(h, keys, s4, Unlock(t)));
  }

  predicate Accepts(o: Outcome) {
    o.KeepAlive? || o.TunFailed? || o.Delivered?
  }

  lemma Stopped(h: Host, keys: Keys, s: State, t: nat, id: u16, packet: seq<byte>)
    requires h.Lawful() && id in keys && t !in s.phases && id !in s.holder
    requires Judge(h, s.bits, Some(keys[id]), id, packet).Panics?
    ensures Run(h, keys, s, Alone(t, id, packet)) == s.(holder := s.holder[id := t], phases := s.phases[t := Panicked(id)])
  {
    var e := Alone(t, id, packet);
    RunFive(h, keys, s, e);
    var s1 := Step(h, keys, s, e[0]);
    assert s1.phases[t] == Locked(id, packet);
    var s2 := Step(h, keys, s1, e[1]);
    assert s2 == s1.(phases := s1.phases[t := Checked(id, packet)]);
    var s3 := Step(h, keys, s2, e[2]);
    assert s3 == s2.(phases := s2.phases[t := Panicked(id)]);
    assert s3.phases == s.phases[t := Panicked(id)];
  }

  lemma ProcessByVerdict(h: Host, srv: Srv, i: Input)
    requires h.Lawful() && i.pkt.shortID in srv.peers && !srv.peers[i.pkt.shortID].held
    ensures var verdict := Judge(h, srv.bits, srv.peers[i.pkt.shortID].key, i.pkt.shortID, i.pkt.data);
            var (srv', o) := Process(h, srv, i);
            && (Accepts(o) <==> verdict.Valid?) && (o.Crashed? <==> verdict.Panics?)
            && srv'.bits == if verdict.Valid? then srv.bits + BitsFor(h, i.pkt.shortID, i.pkt.data) else srv.bits
  {
  }

  /** Run without interference, the steps do to the filter what Process does, accept exactly the packets it accepts, and
      leave the lock held exactly where it crashes. */
  lemma AloneIsProcess(h: Host, keys: Keys, s: State, srv: Srv, t: nat, i: Input)
    requires h.Lawful() && srv.bits == s.bits
    requires i.pkt.shortID in keys && i.pkt.shortID in srv.peers && srv.peers[i.pkt.shortID].key == Some(keys[i.pkt.shortID])
    requires t !in s.phases && i.pkt.shortID !in s.holder && !srv.peers[i.pkt.shortID].held
    ensures var v := Run(h, keys, s, Alone(t, i.pkt.shortID, i.pkt.data));
            var (srv', o) := Process(h, srv, i);
            && v.bits == srv'.bits
            && (if o.Crashed? then i.pkt.shortID in v.holder && v.holder[i.pkt.shortID] == t
                else v.holder == s.holder && v.phases == s.phases)
            && (if Accepts(o)
                then |i.pkt.data| >= HEADER && v.log == s.log + [Accepted(i.pkt.shortID, i.pkt.data[6..18])]
                else v.log == s.log)
  {
    ProcessByVerdict(h, srv, i);
    match Judge(h, s.bits, Some(keys[i.pkt.shortID]), i.pkt.shortID, i.pkt.data)
    case Valid(_) => Taken(h, keys, s, t, i.pkt.shortID, i.pkt.data);
    case Panics => Stopped(h, keys, s, t, i.pkt.shortID, i.pkt.data);
    case _ => Refused(h, keys, s, t, i.pkt.shortID, i.pkt.data);
  }
}
