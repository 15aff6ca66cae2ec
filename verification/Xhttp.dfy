/** The batched HTTP transport: the client connection of core/transport.go and the body parser of server/server.go. */
module Xhttp {
  import opened Bytes

  type Packet = seq<byte>

  const SHORTEST := 4 + 2 + 12
  const FLUSH_AT := 500

  // ─── Bodies ──────────────────────────────────────────────────────

  function Frame(p: Packet): seq<byte> {
    PutU32(|p|) + p
  }

  function Frames(ps: seq<Packet>): seq<byte> {
    if |ps| == 0 then [] else Frame(ps[0]) + Frames(ps[1..])
  }

  /** A POST body: the count, then the frames. */
  function Body(ps: seq<Packet>): seq<byte> {
    PutU32(|ps|) + Frames(ps)
  }

  function Flatten(groups: seq<seq<Packet>>): seq<Packet> {
    if |groups| == 0 then [] else groups[0] + Flatten(groups[1..])
  }

  lemma {:induction false} FramesAppend(ps: seq<Packet>, qs: seq<Packet>)
    ensures Frames(ps + qs) == Frames(ps) + Frames(qs)
    decreases |ps|
  {
    if |ps| == 0 {
      assert ps + qs == qs;
    } else {
      FramesAppend(ps[1..], qs);
      assert (ps + qs)[0] == ps[0] && (ps + qs)[1..] == ps[1..] + qs;
      assert Frames(ps + qs) == Frame(ps[0]) + (Frames(ps[1..]) + Frames(qs));
    }
  }

  lemma FrameLast(ps: seq<Packet>, p: Packet)
    ensures Frames(ps + [p]) == Frames(ps) + Frame(p)
  {
    FramesAppend(ps, [p]);
    assert [p][1..] == [];
    assert Frames([p]) == Frame(p);
  }

  lemma {:induction false} FlattenLast(groups: seq<seq<Packet>>, g: seq<Packet>)
    ensures Flatten(groups + [g]) == Flatten(groups) + g
    decreases |groups|
  {
    if |groups| == 0 {
      assert groups + [g] == [g] && [g][1..] == [];
    } else {
      FlattenLast(groups[1..], g);
      assert (groups + [g])[1..] == groups[1..] + [g];
    }
  }

  // ─── The server's parser ─────────────────────────────────────────

  /** A frame the parser takes starts at off: at least 18 bytes long and inside the body. */
  predicate FrameAt(body: seq<byte>, off: nat) {
    off + 4 <= |body| && SHORTEST <= GetU32(body[off..]) <= |body| - off - 4
  }

  /** handled is what a batch of this body makes the server process: frames read one after another up to the count, or to
      the first that is short or does not fit. */
  ghost predicate Serves(body: seq<byte>, count: nat, handled: seq<Packet>) {
    var end := 4 + |Frames(handled)|;
    && |handled| <= count
    && (forall k :: 0 <= k < |handled| ==> SHORTEST <= |handled[k]|)
    && end <= |body|
    && body[4..end] == Frames(handled)
    && (|handled| == count || !FrameAt(body, end))
    && (forall k :: 0 <= k < |handled| ==> |handled[k]| < 0x1_0000_0000)
  }

  /** The request handler: the packets it passes to xhttpProcessPacket. */
  method ServeBody(body: seq<byte>) returns (handled: seq<Packet>)
    ensures |body| < 4 ==> handled == []
    ensures |body| >= 4 && GetU32(body) == 0 ==> handled == if |body| < SHORTEST then [] else [body[4..]]
    ensures |body| >= 4 && GetU32(body) > 0 ==> Serves(body, GetU32(body), handled)
  {
    handled := [];
    if |body| < 4 {
      return;
    }
    var count := GetU32(body[..4]);
    var off := 4;
    if count == 0 {
      if |body| < SHORTEST {
        return;
      }
      return [body[4..]];
    }
    var i := 0;
    while i < count && off + 6 <= |body|
      invariant 4 <= off <= |body|
      invariant i == |handled| <= count
      invariant forall k :: 0 <= k < |handled| ==> SHORTEST <= |handled[k]| < 0x1_0000_0000
      invariant off == 4 + |Frames(handled)| && body[4..off] == Frames(handled)
      decreases |body| - off
    {
      if off + 4 > |body| {
        break;
      }
      var pktLen := GetU32(body[off..]);
      if off + 4 + pktLen > |body| || pktLen < SHORTEST {
        break;
      }
      ghost var start := off;
      off := off + 4;
      var pkt := body[off..off + pktLen];
      FrameLast(handled, pkt);
      FrameTaken(body, start, pkt);
      handled := handled + [pkt];
      off := off + pktLen;
      i := i + 1;
    }
  }

  /** The bytes of one more frame. */
  lemma FrameTaken(body: seq<byte>, start: nat, pkt: Packet)
    requires 4 <= start && start + 4 <= |body| && |pkt| == GetU32(body[start..])
    requires start + 4 + |pkt| <= |body| && pkt == body[start + 4..start + 4 + |pkt|]
    ensures body[4..start + 4 + |pkt|] == body[4..start] + Frame(pkt)
  {
    GetPut(body[start..]);
    assert body[start..][..4] == body[start..start + 4];
    assert body[4..start + 4 + |pkt|] == body[4..start] + (body[start..start + 4] + pkt);
  }

  lemma GetPut(b: seq<byte>)
    requires |b| >= 4
    ensures GetU32(b) < 0x1_0000_0000 && b[..4] == PutU32(GetU32(b))
  {
    var d3, d2, d1, d0 := b[0], b[1], b[2], b[3];
    var n := GetU32(b);
    Digits(d3, d2, d1, d0, n);
    assert b[..4] == [d3, d2, d1, d0];
  }

  lemma Digits(d3: byte, d2: byte, d1: byte, d0: byte, n: nat)
    requires n == (d3 as nat) * 0x100_0000 + (d2 as nat) * 0x1_0000 + (d1 as nat) * 0x100 + d0
    ensures PutU32(n) == [d3, d2, d1, d0]
  {
    assert n / 0x100 == (d3 as nat) * 0x1_0000 + (d2 as nat) * 0x100 + d1;
    assert n / 0x1_0000 == (d3 as nat) * 0x100 + d2;
    assert n / 0x100_0000 == d3;
  }

  /** A body determines what is served. */
  lemma {:induction false} ServedIsUnique(body: seq<byte>, count: nat, a: seq<Packet>, b: seq<Packet>)
    requires Serves(body, count, a) && Serves(body, count, b)
    ensures a == b
  {
    SharedPrefix(body, count, a, b, 0);
  }

  lemma {:induction false} SharedPrefix(body: seq<byte>, count: nat, a: seq<Packet>, b: seq<Packet>, k: nat)
    requires Serves(body, count, a) && Serves(body, count, b)
    requires k <= |a| && k <= |b| && a[..k] == b[..k]
    ensures a == b
    decreases |a| - k
  {
    if k < |a| {
      FrameInBody(body, a, k);
    }
    if k < |b| {
      FrameInBody(body, b, k);
    }
    assert k == |a| ==> a[..k] == a;
    assert k == |b| ==> b[..k] == b;
    if k < |a| && k < |b| {
      assert a[..k + 1] == a[..k] + [a[k]];
      assert b[..k + 1] == b[..k] + [b[k]];
      SharedPrefix(body, count, a, b, k + 1);
    }
  }

  /** Where the k-th served packet sits. */
  lemma FrameInBody(body: seq<byte>, ps: seq<Packet>, k: nat)
    requires k < |ps| && SHORTEST <= |ps[k]| < 0x1_0000_0000
    requires 4 + |Frames(ps)| <= |body| && body[4..4 + |Frames(ps)|] == Frames(ps)
    ensures var off := 4 + |Frames(ps[..k])|;
            && off <= |body|
            && FrameAt(body, off)
            && ps[k] == body[off + 4..off + 4 + GetU32(body[off..])]
  {
    var off := 4 + |Frames(ps[..k])|;
    var rest := FrameSplit(body, ps, k);
    FrameRead(body, off, ps[k], rest);
  }

  lemma FrameSplit(body: seq<byte>, ps: seq<Packet>, k: nat) returns (rest: seq<byte>)
    requires k < |ps|
    requires 4 + |Frames(ps)| <= |body| && body[4..4 + |Frames(ps)|] == Frames(ps)
    ensures 4 + |Frames(ps[..k])| <= |body|
    ensures body[4 + |Frames(ps[..k])|..] == Frame(ps[k]) + rest
  {
    var head, tail := ps[..k], ps[k..];
    assert ps == head + tail;
    FramesAppend(head, tail);
    var mid := Frame(tail[0]);
    rest := Frames(tail[1..]) + body[4 + |Frames(ps)|..];
    Middle(body, 4, Frames(head), mid + Frames(tail[1..]));
    assert (mid + Frames(tail[1..])) + body[4 + |Frames(ps)|..] == mid + rest;
  }

  lemma Middle(body: seq<byte>, start: nat, a: seq<byte>, b: seq<byte>)
    requires start + |a + b| <= |body| && body[start..start + |a + b|] == a + b
    ensures body[start + |a|..] == b + body[start + |a + b|..]
  {
    assert body == body[..start] + (a + b) + body[start + |a + b|..];
  }

  lemma FrameRead(body: seq<byte>, off: nat, p: Packet, rest: seq<byte>)
    requires off <= |body| && body[off..] == Frame(p) + rest && |p| < 0x1_0000_0000
    ensures off + 4 <= |body| && GetU32(body[off..]) == |p|
    ensures FrameAt(body, off) <==> SHORTEST <= |p|
    ensures off + 4 + |p| <= |body| && body[off + 4..off + 4 + |p|] == p
  {
    assert body[off..] == PutU32(|p|) + (p + rest);
    U32RoundTrip(|p|, p + rest);
    assert body[off + 4..] == body[off..][4..];
    assert body[off + 4..] == p + rest;
  }

  // ─── Print, then parse ───────────────────────────────────────────

  /** The longest prefix without a packet under 18 bytes. */
  function LongEnough(ps: seq<Packet>): (r: seq<Packet>)
    ensures r <= ps && (forall k :: 0 <= k < |r| ==> SHORTEST <= |r[k]|)
    ensures |r| < |ps| ==> |ps[|r|]| < SHORTEST
  {
    if |ps| == 0 || |ps[0]| < SHORTEST then [] else [ps[0]] + LongEnough(ps[1..])
  }

  lemma GoodPartServed(ps: seq<Packet>)
    requires 0 < |ps| < 0x1_0000_0000
    requires forall k :: 0 <= k < |ps| ==> |ps[k]| < 0x1_0000_0000
    ensures Serves(Body(ps), |ps|, LongEnough(ps))
  {
    var body, good := Body(ps), LongEnough(ps);
    var rest := ps[|good|..];
    assert ps == good + rest;
    var end := 4 + |Frames(good)|;
    BodySplit(good, rest);
    if |good| < |ps| {
      FrameRead(body, end, rest[0], Frames(rest[1..]));
    }
  }

  lemma BodySplit(head: seq<Packet>, tail: seq<Packet>)
    ensures var body, end := Body(head + tail), 4 + |Frames(head)|;
            end <= |body| && body[4..end] == Frames(head) && body[end..] == Frames(tail)
  {
    FramesAppend(head, tail);
    ThreeParts(PutU32(|head + tail|), Frames(head), Frames(tail));
  }

  lemma ThreeParts(a: seq<byte>, b: seq<byte>, c: seq<byte>)
    ensures (a + (b + c))[|a|..|a| + |b|] == b && (a + (b + c))[|a| + |b|..] == c
  {
  }

  /** The server handles exactly the longest prefix of the batch that has no packet under 18 bytes. */
  lemma ServedBatch(ps: seq<Packet>, handled: seq<Packet>)
    requires 0 < |ps| < 0x1_0000_0000
    requires forall k :: 0 <= k < |ps| ==> |ps[k]| < 0x1_0000_0000
    ensures GetU32(Body(ps)) == |ps|
    ensures Serves(Body(ps), |ps|, handled) <==> handled == LongEnough(ps)
  {
    U32RoundTrip(|ps|, Frames(ps));
    GoodPartServed(ps);
    if Serves(Body(ps), |ps|, handled) {
      ServedIsUnique(Body(ps), |ps|, handled, LongEnough(ps));
    }
  }

  /** p comes out of a body at position k. */
  ghost predicate Yields(body: seq<byte>, k: nat, p: Packet) {
    |body| >= 4 && exists handled :: Serves(body, GetU32(body), handled) && k < |handled| && handled[k] == p
  }

  lemma {:induction false} PrefixReaches(before: seq<Packet>, p: Packet, after: seq<Packet>)
    requires SHORTEST <= |p|
    ensures |LongEnough(before + [p] + after)| > |before| <==> forall k :: 0 <= k < |before| ==> SHORTEST <= |before[k]|
    decreases |before|
  {
    var all := before + [p] + after;
    if |before| == 0 {
      assert all[0] == p;
    } else {
      assert all[0] == before[0];
      assert all[1..] == before[1..] + [p] + after;
      PrefixReaches(before[1..], p, after);
      assert forall k :: 1 <= k < |before| ==> before[k] == before[1..][k - 1];
    }
  }

  /** A packet in a batch is handled exactly when none before it is under 18 bytes. */
  lemma YieldsExactly(before: seq<Packet>, p: Packet, after: seq<Packet>)
    requires SHORTEST <= |p|
    requires |before + [p] + after| < 0x1_0000_0000
    requires forall q :: q in before + [p] + after ==> |q| < 0x1_0000_0000
    ensures Yields(Body(before + [p] + after), |before|, p) <==> forall k :: 0 <= k < |before| ==> SHORTEST <= |before[k]|
  {
    var all := before + [p] + after;
    var body, good := Body(all), LongEnough(all);
    ServedBatch(all, good);
    PrefixReaches(before, p, after);
    assert all[|before|] == p;
    if |good| > |before| {
      assert Serves(body, GetU32(body), good) && good[|before|] == p;
    }
    forall handled | Serves(body, GetU32(body), handled) ensures handled == good {
      ServedBatch(all, handled);
    }
  }

  // ─── Writers and flushers ────────────────────────────────────────

  /** The connection under batchMu. owing: writers that saw 500 packets and have not yet run the flush they owe. */
  datatype Conn = Conn(batch: seq<byte>, batchN: nat, bodies: seq<seq<byte>>, accepted: seq<Packet>, owing: set<nat>)

  const EMPTY := Conn([], 0, [], [], {})

  /** The two critical sections, each run by one goroutine. */
  datatype Section = Append(writer: nat, packet: Packet) | Flush(runner: nat)

  /** A writer that owes a flush does not append before it has flushed. */
  function Step(c: Conn, s: Section): Conn {
    match s
    case Append(w, p) =>
      if w in c.owing then c
      else c.(batch := c.batch + Frame(p), batchN := c.batchN + 1, accepted := c.accepted + [p],
              owing := if c.batchN + 1 >= FLUSH_AT then c.owing + {w} else c.owing)
    case Flush(r) =>
      if c.batchN == 0 then c.(owing := c.owing - {r})
      else c.(batch := [], batchN := 0, bodies := c.bodies + [PutU32(c.batchN) + c.batch], owing := c.owing - {r})
  }

  /** The state after a schedule of sections, last section last. */
  function Run(sections: seq<Section>): Conn {
    if |sections| == 0 then EMPTY else Step(Run(sections[..|sections| - 1]), sections[|sections| - 1])
  }

  /** Each body carries one group of packets, the batch the rest; together they are the packets accepted, in order. */
  ghost predicate Carries(c: Conn, groups: seq<seq<Packet>>, pending: seq<Packet>) {
    && |c.bodies| == |groups|
    && (forall k :: 0 <= k < |groups| ==> |groups[k]| > 0 && c.bodies[k] == Body(groups[k]))
    && c.batch == Frames(pending) && c.batchN == |pending|
    && Flatten(groups) + pending == c.accepted
  }

  lemma CarriesStep(c: Conn, s: Section, groups: seq<seq<Packet>>, pending: seq<Packet>)
    returns (groups': seq<seq<Packet>>, pending': seq<Packet>)
    requires Carries(c, groups, pending)
    ensures Carries(Step(c, s), groups', pending')
    ensures groups' == if s.Flush? && c.batchN > 0 then groups + [pending] else groups
  {
    groups', pending' := groups, pending;
    match s
    case Append(w, p) =>
      if w !in c.owing {
        pending' := pending + [p];
        FrameLast(pending, p);
        assert Flatten(groups) + pending' == (Flatten(groups) + pending) + [p];
      }
    case Flush(r) =>
      if c.batchN > 0 {
        groups', pending' := groups + [pending], [];
        FlattenLast(groups, pending);
      }
  }

  /** In every interleaving nothing is lost, duplicated or reordered between Write and the bodies handed off. */
  lemma {:induction false} NothingLost(sections: seq<Section>)
    ensures exists groups, pending :: Carries(Run(sections), groups, pending)
    decreases |sections|
  {
    if |sections| == 0 {
      assert Carries(Run(sections), [], []);
    } else {
      var before := sections[..|sections| - 1];
      NothingLost(before);
      var groups, pending :| Carries(Run(before), groups, pending);
      var groups', pending' := CarriesStep(Run(before), sections[|sections| - 1], groups, pending);
      assert Carries(Run(sections), groups', pending');
    }
  }

  /** With writers 0..writers-1 a batch never holds more than 499 packets plus one per writer. */
  lemma {:induction false} BatchBounded(sections: seq<Section>, writers: nat)
    requires forall k :: 0 <= k < |sections| && sections[k].Append? ==> sections[k].writer < writers
    ensures Run(sections).batchN < FLUSH_AT + |Run(sections).owing|
    ensures forall w :: w in Run(sections).owing ==> w < writers
    ensures Run(sections).batchN < FLUSH_AT + writers
    decreases |sections|
  {
    if |sections| > 0 {
      BatchBounded(sections[..|sections| - 1], writers);
    }
    AtMost(Run(sections).owing, writers);
  }

  lemma {:induction false} AtMost(s: set<nat>, n: nat)
    requires forall x :: x in s ==> x < n
    ensures |s| <= n
    decreases n
  {
    if n == 0 {
      assert s == {};
    } else {
      AtMost(s - {n - 1}, n - 1);
    }
  }

  ghost predicate Small(groups: seq<seq<Packet>>, bound: nat) {
    forall k :: 0 <= k < |groups| ==> |groups[k]| < bound
  }

  lemma {:induction false} GroupsBounded(sections: seq<Section>, writers: nat)
    requires forall i :: 0 <= i < |sections| && sections[i].Append? ==> sections[i].writer < writers
    ensures exists groups, pending :: Carries(Run(sections), groups, pending) && Small(groups, FLUSH_AT + writers)
    decreases |sections|
  {
    if |sections| == 0 {
      assert Carries(Run(sections), [], []) && Small([], FLUSH_AT + writers);
    } else {
      var before := sections[..|sections| - 1];
      GroupsBounded(before, writers);
      BatchBounded(before, writers);
      var groups, pending :| Carries(Run(before), groups, pending) && Small(groups, FLUSH_AT + writers);
      StaysSmall(Run(before), sections[|sections| - 1], groups, pending, FLUSH_AT + writers);
      var groups', pending' :| Carries(Step(Run(before), sections[|sections| - 1]), groups', pending')
                               && Small(groups', FLUSH_AT + writers);
      assert Carries(Run(sections), groups', pending');
    }
  }

  /** The count field of a body. */
  predicate CountIs(body: seq<byte>, n: nat) {
    |body| >= 4 && GetU32(body) == n
  }

  lemma CountOfBody(ps: seq<Packet>)
    requires |ps| < 0x1_0000_0000
    ensures CountIs(Body(ps), |ps|)
  {
    U32RoundTrip(|ps|, Frames(ps));
  }

  /** Every count field is its body's number of frames, not that number modulo 2^32, as long as no more than 2^32 - 500
      writers share the connection. */
  lemma CountsFit(sections: seq<Section>, writers: nat)
    requires forall i :: 0 <= i < |sections| && sections[i].Append? ==> sections[i].writer < writers
    requires FLUSH_AT + writers <= 0x1_0000_0000
    ensures exists groups, pending ::
              && Carries(Run(sections), groups, pending)
              && forall k :: 0 <= k < |groups| ==> CountIs(Run(sections).bodies[k], |groups[k]|)
  {
    GroupsBounded(sections, writers);
    var groups, pending :| Carries(Run(sections), groups, pending) && Small(groups, FLUSH_AT + writers);
    forall k | 0 <= k < |groups| ensures CountIs(Run(sections).bodies[k], |groups[k]|) {
      CountOfBody(groups[k]);
    }
  }

  lemma StaysSmall(c: Conn, s: Section, groups: seq<seq<Packet>>, pending: seq<Packet>, bound: nat)
    requires Carries(c, groups, pending) && Small(groups, bound) && c.batchN < bound
    ensures exists groups', pending' :: Carries(Step(c, s), groups', pending') && Small(groups', bound)
  {
    var groups', pending' := CarriesStep(c, s, groups, pending);
    assert Small(groups', bound);
  }

  lemma {:induction false} InFlatten(groups: seq<seq<Packet>>, k: nat, i: nat)
    requires k < |groups| && i < |groups[k]|
    ensures groups[k][i] in Flatten(groups)
    decreases k
  {
    if k > 0 {
      InFlatten(groups[1..], k - 1, i);
    }
  }

  lemma {:induction false} AllLongEnough(ps: seq<Packet>)
    requires forall k :: 0 <= k < |ps| ==> SHORTEST <= |ps[k]|
    ensures LongEnough(ps) == ps
  {
    if |ps| > 0 {
      AllLongEnough(ps[1..]);
    }
  }

  ghost predicate AllServed(bodies: seq<seq<byte>>, served: seq<seq<Packet>>) {
    && |served| == |bodies|
    && forall k :: 0 <= k < |served| ==> |bodies[k]| >= 4 && Serves(bodies[k], GetU32(bodies[k]), served[k])
  }

  lemma ServedAreGroups(c: Conn, groups: seq<seq<Packet>>, pending: seq<Packet>, served: seq<seq<Packet>>)
    requires Carries(c, groups, pending) && Small(groups, 0x1_0000_0000)
    requires forall p :: p in c.accepted ==> SHORTEST <= |p| < 0x1_0000_0000
    requires AllServed(c.bodies, served)
    ensures served == groups
  {
    forall k | 0 <= k < |served| ensures served[k] == groups[k] {
      forall i | 0 <= i < |groups[k]| ensures groups[k][i] in c.accepted {
        InFlatten(groups, k, i);
      }
      ServedWhole(groups[k], served[k]);
    }
  }

  lemma ServedWhole(group: seq<Packet>, handled: seq<Packet>)
    requires 0 < |group| < 0x1_0000_0000
    requires forall i :: 0 <= i < |group| ==> SHORTEST <= |group[i]| < 0x1_0000_0000
    requires Serves(Body(group), GetU32(Body(group)), handled)
    ensures handled == group
  {
    AllLongEnough(group);
    ServedBatch(group, handled);
  }

  // ─── In numbers ──────────────────────────────────────────────────

  /** A frame is the length in four bytes and the packet, a body the count in four bytes and the frames in order. */
  lemma BodyLayout(p: Packet, ps: seq<Packet>)
    ensures ValueOf(Frame(p)[..4]) == |p| % 4294967296 && Frame(p)[4..] == p
    ensures ValueOf(Body(ps)[..4]) == |ps| % 4294967296 && Body(ps)[4..] == Frames(ps)
    ensures Frames([]) == [] && Frames([p] + ps) == Frame(p) + Frames(ps)
  {
    BigEndian(|p|);
    BigEndian(|ps|);
    assert Frame(p)[..4] == PutU32(|p|) && Body(ps)[..4] == PutU32(|ps|);
    assert ([p] + ps)[1..] == ps && ([p] + ps)[0] == p;
  }

  /** Short is under 18 bytes. */
  lemma GoodPartExactly(ps: seq<Packet>, k: nat)
    requires k <= |ps|
    ensures LongEnough(ps) == ps[..k]
            <==> (forall i :: 0 <= i < k ==> |ps[i]| >= 18) && (k < |ps| ==> |ps[k]| < 18)
  {
    var good := LongEnough(ps);
    assert good == ps[..|good|];
    assert forall i :: 0 <= i < |good| ==> good[i] == ps[i];
  }

  /** The writer of the 500th packet, and of any after it, owes a flush; of those before none does. */
  lemma FlushAtFiveHundred(c: Conn, w: nat, p: Packet)
    requires w !in c.owing
    ensures var d := Step(c, Append(w, p));
            && d.batchN == c.batchN + 1 && d.batch == c.batch + Frame(p)
            && (w in d.owing <==> d.batchN >= 500)
            && (forall v :: v != w ==> (v in d.owing <==> v in c.owing))
  {
  }

  // ─── The client object ───────────────────────────────────────────

  class XhttpConn {
    var closed: bool
    var batch: seq<byte>
    var batchN: nat
    ghost var bodies: seq<seq<byte>>
    ghost var accepted: seq<Packet>
    ghost var owing: set<nat>

    ghost function State(): Conn
      reads this
    {
      Conn(batch, batchN, bodies, accepted, owing)
    }

    constructor ()
      ensures State() == EMPTY && !closed
    {
      closed, batch, batchN, bodies, accepted, owing := false, [], 0, [], [], {};
    }

    /** What Write does under batchMu; true when the caller has to flush. */
    method AppendSection(ghost writer: nat, b: Packet) returns (full: bool)
      requires writer !in owing
      modifies this
      ensures State() == Step(old(State()), Append(writer, b)) && closed == old(closed)
      ensures full <==> batchN >= FLUSH_AT
      ensures writer in owing <==> full
    {
      batch := batch + PutU32(|b|);
      batch := batch + b;
      assert batch == old(batch) + Frame(b);
      batchN := batchN + 1;
      full := batchN >= FLUSH_AT;
      accepted := accepted + [b];
      owing := if full then owing + {writer} else owing;
    }

    /** What flush does under batchMu; the body, if any, is then posted. */
    method FlushSection(ghost runner: nat) returns (body: Option<seq<byte>>)
      modifies this
      ensures State() == Step(old(State()), Flush(runner)) && closed == old(closed)
      ensures bodies == if body.Some? then old(bodies) + [body.value] else old(bodies)
    {
      owing := owing - {runner};
      if batchN == 0 {
        return None;
      }
      body := Some(PutU32(batchN) + batch);
      bodies := bodies + [body.value];
      batch := [];
      batchN := 0;
    }

    /** Write with no other goroutine in between: two sections at most. */
    method Write(ghost writer: nat, b: Packet) returns (r: Result<nat, ()>, body: Option<seq<byte>>)
      requires writer !in owing
      modifies this
      ensures closed == old(closed) && writer !in owing
      ensures closed ==> r.Err? && State() == old(State())
      ensures !closed ==> r == Ok(|b|)
                          && State() == (var c := Step(old(State()), Append(writer, b));
                                         if c.batchN >= FLUSH_AT then Step(c, Flush(writer)) else c)
    {
      body := None;
      if closed {
        return Err(()), None;
      }
      var full := AppendSection(writer, b);
      if full {
        body := FlushSection(writer);
      }
      r := Ok(|b|);
    }
  }
}
