/** How packets reach processPacket: the wrapping done by the client transports and the readers of server/server.go. */
module Demux {
  import opened Bytes
  import opened Cipher
  import Xhttp

  datatype Incoming = Incoming(shortID: u16, data: seq<byte>)

  const QUIC_PREFIX := 7
  const UDP_BUFFER := 65535

  // ─── Server side ─────────────────────────────────────────────────

  /** ReadFromUDP into a buffer of 65535 bytes: the rest of a longer datagram is lost. */
  function Received(datagram: seq<byte>): seq<byte> {
    if |datagram| <= UDP_BUFFER then datagram else datagram[..UDP_BUFFER]
  }

  /** Long enough, top bits 01, second and third byte zero. */
  predicate LooksQuic(d: seq<byte>) {
    |d| >= QUIC_PREFIX + HEADER && d[0] / 0x40 == 1 && d[1] == 0 && d[2] == 0
  }

  /** One turn of the UDP reader. */
  function RouteUdp(salt: seq<byte>, datagram: seq<byte>): Option<Incoming> {
    var d := Received(datagram);
    if LooksQuic(d) then Some(Incoming(GetU16(d[3..5]), d[7..]))
    else if |d| < HEADER then None
    else Some(Incoming(Routed(salt, d), d))
  }

  /** One turn of a WebSocket reader; the XHTTP handler routes in the same way. */
  function RouteMessage(salt: seq<byte>, msg: seq<byte>): Option<Incoming> {
    if |msg| < HEADER then None else Some(Incoming(Routed(salt, msg), msg))
  }

  /** What the readers make of any datagram and any message. */
  lemma RoutesExactly(salt: seq<byte>, datagram: seq<byte>, msg: seq<byte>)
    ensures var d := if |datagram| <= 65535 then datagram else datagram[..65535];
            var prefixed := |d| >= 25 && d[0] / 64 == 1 && d[1] == 0 && d[2] == 0;
            && (RouteUdp(salt, datagram).None? <==> |d| < 18)
            && (prefixed ==> RouteUdp(salt, datagram).Some? && var p := RouteUdp(salt, datagram).value;
                             p.shortID == ValueOf(d[3..5]) && p.data == d[7..])
            && (!prefixed && |d| >= 18 ==> RouteUdp(salt, datagram) == Some(Incoming(Routed(salt, d), d)))
    ensures RouteMessage(salt, msg).None? <==> |msg| < 18
    ensures |msg| >= 18 ==> RouteMessage(salt, msg) == Some(Incoming(Routed(salt, msg), msg))
  {
    var d := Received(datagram);
    if |d| >= 25 {
      ValueOfTwo(d[3..5]);
    }
  }

  // ─── Client side ─────────────────────────────────────────────────

  function QuicFrame(packetNum: nat, shortID: u16, b: seq<byte>): seq<byte> {
    [0x40 + packetNum % 8] + PutU16(0) + PutU16(shortID) + PutU16(packetNum) + b
  }

  method FillFrame(pn: nat, shortID: u16, b: seq<byte>) returns (frame: seq<byte>)
    ensures frame == QuicFrame(pn, shortID, b)
  {
    var buf := new byte[7 + |b|];
    buf[0] := 0x40 + pn % 8;
    CopyInto(buf, 1, PutU16(0));
    CopyInto(buf, 3, PutU16(shortID));
    CopyInto(buf, 5, PutU16(pn));
    CopyInto(buf, 7, b);
    frame := buf[..];
  }

  class QuicUdpConn {
    const shortID: u16
    var packetNum: u64

    constructor (shortID: u16)
      ensures this.shortID == shortID && packetNum == 0
    {
      this.shortID, packetNum := shortID, 0;
    }

    /** The datagram Write hands to the socket, and the count it reports when the socket reports sent; the pooled buffer
        holds 65535 + 14 bytes. */
    method Write(b: seq<byte>, sent: int) returns (datagram: seq<byte>, n: int)
      requires QUIC_PREFIX + |b| <= 65535 + 14
      modifies this`packetNum
      ensures packetNum == (old(packetNum) + 1) % TWO64
      ensures n <= |b| && (sent <= |b| ==> n == sent) && (sent > |b| ==> n == |b|)
      ensures datagram == QuicFrame(old(packetNum) % 0x1_0000_0000, shortID, b)
    {
      var pn := packetNum % 0x1_0000_0000;
      packetNum := (packetNum + 1) % TWO64;
      datagram := FillFrame(pn, shortID, b);
      n := if sent > 0 && sent > |b| then |b| else sent;
    }
  }

  // ─── Delivery ────────────────────────────────────────────────────

  /** The prefix: 01 in the top bits, the packet number's last three bits below, two zero bytes, the ShortID, the packet
      number; then the packet. */
  lemma FrameFields(packetNum: nat, shortID: u16, b: seq<byte>)
    ensures var frame := QuicFrame(packetNum, shortID, b);
            && |frame| == 7 + |b|
            && frame[0] == 64 + packetNum % 8 && frame[1] == 0 && frame[2] == 0
            && frame[3..5] == PutU16(shortID) && ValueOf(frame[3..5]) == shortID
            && ValueOf(frame[5..7]) == packetNum % 65536 && frame[7..] == b
  {
    var id := PutU16(shortID);
    BigEndian(shortID);
    BigEndian(packetNum);
    assert PutU16(0) == [0, 0];
    FramePieces([0x40 + packetNum % 8, 0, 0], id, PutU16(packetNum), b);
    assert QuicFrame(packetNum, shortID, b) == ([0x40 + packetNum % 8, 0, 0] + id) + (PutU16(packetNum) + b);
  }

  lemma FramePieces(head: seq<byte>, id: seq<byte>, number: seq<byte>, b: seq<byte>)
    requires |head| == 3 && |id| == 2 && |number| == 2
    ensures var f := (head + id) + (number + b);
            f[..3] == head && f[3..5] == id && f[5..7] == number && f[7..] == b
  {
  }

  /** Behind the QUIC prefix: delivered under the sender's ShortID exactly when the datagram fits the server's buffer. */
  lemma QuicPrefixDelivered(salt: seq<byte>, packetNum: nat, shortID: u16, packet: seq<byte>)
    requires |packet| >= HEADER
    ensures RouteUdp(salt, QuicFrame(packetNum, shortID, packet)) == Some(Incoming(shortID, packet))
            <==> QUIC_PREFIX + |packet| <= UDP_BUFFER
  {
    var frame := QuicFrame(packetNum, shortID, packet);
    var d := Received(frame);
    FrameFields(packetNum, shortID, packet);
    assert d[3..5] == frame[3..5];
    FieldHoldsID(shortID, d[3..5]);
  }

  /** Over UDP no packet is long enough for the panic in Decrypt. */
  lemma UdpNeverPanics(prim: Primitives, key: seq<byte>, salt: seq<byte>, datagram: seq<byte>)
    requires prim.Lawful() && RouteUdp(salt, datagram).Some?
    ensures |RouteUdp(salt, datagram).value.data| <= UDP_BUFFER
    ensures Opened(prim, key, RouteUdp(salt, datagram).value.data) != Err(SliceBounds)
  {
    PanicsExactly(prim, key, RouteUdp(salt, datagram).value.data);
  }

  /** A packet whose marker has the top bit clear and then two zero bytes. */
  predicate LooksPrefixed(packet: seq<byte>)
    requires |packet| >= 3
  {
    packet[0] < 0x80 && packet[1] == 0 && packet[2] == 0
  }

  /** On raw UDP a packet from Encrypt is delivered exactly when it fits the buffer and its marker is not taken for a prefix. */
  lemma RawUdpDelivered(prim: Primitives, key: seq<byte>, shortID: u16, salt: seq<byte>, nonce: seq<byte>, inner: seq<byte>)
    requires prim.Lawful() && |nonce| == 12 && |inner| >= 2
    ensures var packet := Packet(prim, key, shortID, salt, nonce, inner);
            && |packet| >= HEADER
            && (RouteUdp(salt, packet) == Some(Incoming(shortID, packet))
                <==> |packet| <= UDP_BUFFER && !LooksPrefixed(packet))
  {
    var packet := Packet(prim, key, shortID, salt, nonce, inner);
    PacketFields(prim, key, shortID, salt, nonce, inner);
    RoutedPacket(prim, key, shortID, salt, nonce, inner);
    MarkerBitSet(packet[..4], Tag(prim, key, AuthData(DynamicID(shortID, salt, nonce), nonce)));
  }

  lemma MarkerBitSet(marker: seq<byte>, tag: seq<byte>)
    requires |tag| == 4 && marker == SetFixedBit(tag)
    ensures marker[0] / 0x40 == 1 <==> marker[0] < 0x80
  {
  }

  // ─── The unlucky marker exists ───────────────────────────────────

  function ZeroTail(): seq<byte> {
    seq(16, _ => 0)
  }

  /** A lawful instance whose authentication codes are all zero. */
  function ZeroPrimitives(): Primitives {
    Primitives(
      (k, n, p) => p + ZeroTail(),
      (k, n, c) => if |c| >= 16 then Some(c[..|c| - 16]) else None,
      (k, m) => seq(32, _ => 0))
  }

  lemma ZeroPrimitivesLawful()
    ensures ZeroPrimitives().Lawful()
  {
    forall k, n, p ensures ZeroPrimitives().open(k, n, ZeroPrimitives().seal(k, n, p)) == Some(p) {
      assert (p + ZeroTail())[..|p + ZeroTail()| - 16] == p;
    }
  }

  /** With those primitives every packet sent over raw UDP is misread: no key, ShortID, salt or nonce helps. */
  lemma RawUdpCanMisroute(key: seq<byte>, shortID: u16, salt: seq<byte>, nonce: seq<byte>, inner: seq<byte>)
    requires |nonce| == 12 && |inner| >= 2
    ensures ZeroPrimitives().Lawful()
    ensures var packet := Packet(ZeroPrimitives(), key, shortID, salt, nonce, inner);
            RouteUdp(salt, packet) != Some(Incoming(shortID, packet))
  {
    ZeroPrimitivesLawful();
    PacketFields(ZeroPrimitives(), key, shortID, salt, nonce, inner);
    RawUdpDelivered(ZeroPrimitives(), key, shortID, salt, nonce, inner);
  }

  // ─── End to end ──────────────────────────────────────────────────

  /** XhttpBatch: the packets posted in the same body before and after. */
  datatype Lane = RawUdp | QuicUdp(packetNum: nat) | WebSocket | XhttpBatch(before: seq<seq<byte>>, after: seq<seq<byte>>)

  /** The server's reader for a lane hands the client's packet on unchanged, under the sender's ShortID. */
  ghost predicate Arrives(lane: Lane, salt: seq<byte>, shortID: u16, packet: seq<byte>) {
    match lane
    case RawUdp => RouteUdp(salt, packet) == Some(Incoming(shortID, packet))
    case QuicUdp(n) => RouteUdp(salt, QuicFrame(n, shortID, packet)) == Some(Incoming(shortID, packet))
    case WebSocket => RouteMessage(salt, packet) == Some(Incoming(shortID, packet))
    case XhttpBatch(before, after) =>
      && Xhttp.Yields(Xhttp.Body(before + [packet] + after), |before|, packet)
      && RouteMessage(salt, packet) == Some(Incoming(shortID, packet))
  }

  /** When a lane loses or misreads a packet. */
  predicate Mangles(lane: Lane, packet: seq<byte>)
    requires |packet| >= 3
  {
    match lane
    case RawUdp => |packet| > UDP_BUFFER || LooksPrefixed(packet)
    case QuicUdp(_) => QUIC_PREFIX + |packet| > UDP_BUFFER
    case WebSocket => false
    case XhttpBatch(before, _) => exists k :: 0 <= k < |before| && |before[k]| < HEADER
  }

  /** A body's 32-bit count and length fields hold what they should. */
  predicate FieldsHold(lane: Lane) {
    lane.XhttpBatch? ==>
      && |lane.before| + 1 + |lane.after| < 0x1_0000_0000
      && forall p :: p in lane.before + lane.after ==> |p| < 0x1_0000_0000
  }

  lemma BatchDelivered(salt: seq<byte>, shortID: u16, packet: seq<byte>, before: seq<seq<byte>>, after: seq<seq<byte>>)
    requires HEADER <= |packet| < 0x1_0000_0000 && FieldsHold(XhttpBatch(before, after))
    requires RouteMessage(salt, packet) == Some(Incoming(shortID, packet))
    ensures Arrives(XhttpBatch(before, after), salt, shortID, packet) <==> !Mangles(XhttpBatch(before, after), packet)
  {
    Xhttp.YieldsExactly(before, packet, after);
  }

  /** Whatever Encrypt made of a plaintext arrives under the sender's ShortID exactly when the lane does not mangle it,
      and then decrypts to that plaintext. */
  lemma EndToEnd(prim: Primitives, key: seq<byte>, shortID: u16, salt: seq<byte>, nonce: seq<byte>,
                 plaintext: seq<byte>, padding: seq<byte>, lane: Lane)
    requires prim.Lawful() && |nonce| == 12
    requires 2 + |plaintext| + |padding| <= POOLED && FieldsHold(lane)
    ensures var packet := Packet(prim, key, shortID, salt, nonce, Inner(plaintext, padding));
            && |packet| == HEADER + 2 + |plaintext| + |padding| + 16
            && (Arrives(lane, salt, shortID, packet) <==> !Mangles(lane, packet))
            && Opened(prim, key, packet) == Ok(plaintext)
  {
    var inner := Inner(plaintext, padding);
    var packet := Packet(prim, key, shortID, salt, nonce, inner);
    PacketFields(prim, key, shortID, salt, nonce, inner);
    RoutedPacket(prim, key, shortID, salt, nonce, inner);
    OpenedPacket(prim, key, shortID, salt, nonce, plaintext, padding);
    match lane
    case RawUdp => RawUdpDelivered(prim, key, shortID, salt, nonce, inner);
    case QuicUdp(n) => QuicPrefixDelivered(salt, n, shortID, packet);
    case WebSocket =>
    case XhttpBatch(before, after) => BatchDelivered(salt, shortID, packet, before, after);
  }
}
