/** The short-header form of protocol/quic.go: layout after RFC 9000, section 17.3.1, masking after RFC 9001, section 5.4,
    with the packet number as the sample. */
module QuicHeader {
  import opened Bytes
  import Fnv

  const PREFIX := 1 + 4 + 2
  const KEY_PHASE_INTERVAL := 1000

  /** AES on one block. */
  ghost predicate BlockCipher(aes: (seq<byte>, seq<byte>) -> seq<byte>) {
    forall k, b :: |aes(k, b)| == 16
  }

  // ─── The mask ────────────────────────────────────────────────────

  function Mask(aes: (seq<byte>, seq<byte>) -> seq<byte>, key: seq<byte>, packetNum: seq<byte>): (m: seq<byte>)
    requires BlockCipher(aes)
    ensures |m| == 5
  {
    aes(key, packetNum + seq(14, _ => 0))[..5]
  }

  function MaskedByte(x: byte, m: byte): byte {
    XorByte(x, m);
    Xor(x, m)
  }

  /** The mask byte that meets position i; the ConnectionID at 1..4 meets none. */
  function MaskAt(mask: seq<byte>, i: nat): byte
    requires |mask| == 5
  {
    if i == 0 then mask[0] % 32
    else if i == 5 then mask[1]
    else if i == 6 then mask[2]
    else if i >= PREFIX then mask[(i - 7 + 3) % 5]
    else 0
  }

  /** Header protection as one pass over the packet. */
  function Protected(packet: seq<byte>, mask: seq<byte>): seq<byte>
    requires |mask| == 5
  {
    seq(|packet|, i requires 0 <= i < |packet| => if 1 <= i <= 4 then packet[i] else MaskedByte(packet[i], MaskAt(mask, i)))
  }

  /** The pass with a fixed mask is its own inverse. */
  lemma ProtectionIsInvolution(packet: seq<byte>, mask: seq<byte>)
    requires |mask| == 5
    ensures Protected(Protected(packet, mask), mask) == packet
  {
    forall i | 0 <= i < |packet| ensures Protected(Protected(packet, mask), mask)[i] == packet[i] {
      XorCancels(packet[i], MaskAt(mask, i));
    }
  }

  /** It keeps the three top bits of the first byte, among them the header form, and the ConnectionID. */
  lemma ProtectionKeepsForm(packet: seq<byte>, mask: seq<byte>)
    requires |mask| == 5 && |packet| >= PREFIX
    ensures Protected(packet, mask)[0] / 0x20 == packet[0] / 0x20
    ensures Protected(packet, mask)[1..5] == packet[1..5]
  {
    XorKeepsHighBits(packet[0], mask[0] % 32);
  }

  // ─── Encoding and decoding ───────────────────────────────────────

  /** The key after EncodeQUICHeader's append(key[:8], ...): that append writes into the key's own array. */
  function EncoderKey(key: seq<byte>, shortID: u16): seq<byte>
    requires |key| == 32
  {
    key[8 := shortID % 0x100][9 := shortID / 0x100]
  }

  function ConnMask(key: seq<byte>, shortID: u16): u16
    requires |key| == 32
  {
    Fnv.Hash16(key[..8] + [shortID % 0x100, shortID / 0x100])
  }

  function FirstByte(spin: u64, keyPhase: u64): byte {
    0x40 + spin % 2 * 0x10 + keyPhase / KEY_PHASE_INTERVAL % 2 * 0x08
  }

  function ConnID(key: seq<byte>, shortID: u16): u16
    requires |key| == 32
  {
    XorU16(shortID, ConnMask(key, shortID));
    Xor(shortID, ConnMask(key, shortID))
  }

  /** The packet before protection. */
  function Plain(first: byte, key: seq<byte>, shortID: u16, packetNum: nat, payload: seq<byte>): seq<byte>
    requires |key| == 32
  {
    [first] + PutU16(0) + PutU16(ConnID(key, shortID)) + PutU16(packetNum) + payload
  }

  function Encoded(aes: (seq<byte>, seq<byte>) -> seq<byte>, first: byte, key: seq<byte>, shortID: u16, packetNum: nat,
                   payload: seq<byte>): seq<byte>
    requires BlockCipher(aes) && |key| == 32
  {
    Protected(Plain(first, key, shortID, packetNum, payload), Mask(aes, EncoderKey(key, shortID), PutU16(packetNum)))
  }

  datatype Fault = TooShort | NotShortHeader

  function Decoded(aes: (seq<byte>, seq<byte>) -> seq<byte>, key: seq<byte>, packet: seq<byte>): Result<(seq<byte>, u16), Fault>
    requires BlockCipher(aes)
  {
    if |packet| < PREFIX then Err(TooShort)
    else
      var p := Protected(packet, Mask(aes, key, packet[5..7]));
      if p[0] / 0x40 != 1 then Err(NotShortHeader) else Ok((p[7..], GetU16(p[5..7])))
  }

  method ApplyMask(packet: array<byte>, mask: seq<byte>)
    requires packet.Length >= PREFIX && |mask| == 5
    modifies packet
    ensures packet[..] == Protected(old(packet[..]), mask)
  {
    packet[0] := MaskedByte(packet[0], mask[0] % 32);
    packet[5] := MaskedByte(packet[5], mask[1]);
    packet[6] := MaskedByte(packet[6], mask[2]);
    ghost var head := packet[..];
    for i := 7 to packet.Length
      invariant forall k :: 0 <= k < 7 ==> packet[k] == head[k]
      invariant forall k :: 7 <= k < i ==> packet[k] == MaskedByte(head[k], mask[(k - 7 + 3) % 5])
      invariant forall k :: i <= k < packet.Length ==> packet[k] == head[k]
    {
      packet[i] := MaskedByte(packet[i], mask[(i - 7 + 3) % 5]);
    }
  }

  class Codec {
    const aes: (seq<byte>, seq<byte>) -> seq<byte>
    var spinBit: u64
    var keyPhase: u64

    constructor (aes: (seq<byte>, seq<byte>) -> seq<byte>)
      ensures this.aes == aes && spinBit == 0 && keyPhase == 0
    {
      this.aes, spinBit, keyPhase := aes, 0, 0;
    }

    method Encode(payload: seq<byte>, shortID: u16, packetNum: nat, key: seq<byte>) returns (packet: array<byte>)
      requires BlockCipher(aes) && |key| == 32
      modifies this`spinBit
      ensures fresh(packet)
      ensures spinBit == (old(spinBit) + 1) % TWO64
      ensures packet[..] == Encoded(aes, FirstByte(spinBit, keyPhase), key, shortID, packetNum, payload)
    {
      spinBit := (spinBit + 1) % TWO64;
      var spin := spinBit % 2;
      var kp := keyPhase / KEY_PHASE_INTERVAL % 2;
      var firstByte := 0x40 + spin * 0x10 + kp * 0x08;
      packet := new byte[1 + 4 + 2 + |payload|];
      var key' := key[8 := shortID % 0x100];
      key' := key'[9 := shortID / 0x100];
      var maskVal := Fnv.Fnv1a16(key'[..8] + [shortID % 0x100, shortID / 0x100]);
      assert key'[..8] == key[..8];
      XorU16(shortID, maskVal);
      packet[0] := firstByte;
      CopyInto(packet, 1, PutU16(0));
      CopyInto(packet, 3, PutU16(Xor(shortID, maskVal)));
      CopyInto(packet, 5, PutU16(packetNum));
      CopyInto(packet, 7, payload);
      assert packet[..] == Plain(firstByte, key, shortID, packetNum, payload);
      assert packet[5..7] == PutU16(packetNum);
      assert key' == EncoderKey(key, shortID) && firstByte == FirstByte(spinBit, keyPhase);
      var mask := Mask(aes, key', packet[5..7]);
      assert mask == Mask(aes, EncoderKey(key, shortID), PutU16(packetNum));
      ApplyMask(packet, mask);
    }

    /** Unmasks the caller's packet in place. */
    method Decode(packet: array<byte>, key: seq<byte>) returns (r: Result<(seq<byte>, u16), Fault>)
      requires BlockCipher(aes)
      modifies packet
      ensures r == Decoded(aes, key, old(packet[..]))
      ensures packet[..] == if packet.Length < PREFIX then old(packet[..])
                            else Protected(old(packet[..]), Mask(aes, key, old(packet[5..7])))
    {
      if packet.Length < 7 {
        return Err(TooShort);
      }
      assert packet[..][5..7] == packet[5..7];
      ApplyMask(packet, Mask(aes, key, packet[5..7]));
      if packet[0] / 0x40 != 1 {
        return Err(NotShortHeader);
      }
      assert packet[..][5..7] == packet[5..7] && packet[..][7..] == packet[7..];
      return Ok((packet[7..], GetU16(packet[5..7])));
    }
  }

  // ─── When decoding undoes encoding ───────────────────────────────

  /** The two masks agree wherever the packet number and a payload of n bytes meet them. */
  predicate AgreeFor(a: seq<byte>, b: seq<byte>, n: nat)
    requires |a| == 5 && |b| == 5
  {
    a[1] == b[1] && a[2] == b[2] && forall i :: PREFIX <= i < PREFIX + n ==> MaskAt(a, i) == MaskAt(b, i)
  }

  lemma FiveBytesSeeAll(a: seq<byte>, b: seq<byte>, n: nat)
    requires |a| == 5 && |b| == 5 && n >= 5
    ensures AgreeFor(a, b, n) <==> a == b
  {
    if AgreeFor(a, b, n) {
      assert MaskAt(a, 7) == a[3] && MaskAt(a, 8) == a[4] && MaskAt(a, 9) == a[0];
      assert MaskAt(b, 7) == b[3] && MaskAt(b, 8) == b[4] && MaskAt(b, 9) == b[0];
    }
  }

  lemma TwoMasks(plain: seq<byte>, a: seq<byte>, b: seq<byte>)
    requires |a| == 5 && |b| == 5 && |plain| >= PREFIX
    ensures var p := Protected(Protected(plain, a), b);
            p[5..7] == plain[5..7] && p[7..] == plain[7..] <==> AgreeFor(a, b, |plain| - 7)
  {
    var p := Protected(Protected(plain, a), b);
    forall i | 5 <= i < |plain| ensures p[i] == plain[i] <==> MaskAt(a, i) == MaskAt(b, i) {
      XorMasksCancel(plain[i], MaskAt(a, i), MaskAt(b, i));
    }
    var n := |plain| - 7;
    assert p[5..7] == plain[5..7] <==> p[5] == plain[5] && p[6] == plain[6];
    if p[5..7] == plain[5..7] && p[7..] == plain[7..] {
      forall i | PREFIX <= i < PREFIX + n ensures MaskAt(a, i) == MaskAt(b, i) {
        assert p[7..][i - 7] == plain[7..][i - 7];
      }
    }
  }

  lemma SameNumber(a: seq<byte>, b: seq<byte>)
    requires |a| == 2 && |b| == 2
    ensures GetU16(a) == GetU16(b) <==> a == b
  {
  }

  /** The mask of the encoder, from the plain packet number and the key it has altered. */
  function EncoderMask(aes: (seq<byte>, seq<byte>) -> seq<byte>, key: seq<byte>, shortID: u16, packetNum: nat): (m: seq<byte>)
    requires BlockCipher(aes) && |key| == 32
    ensures |m| == 5
  {
    Mask(aes, EncoderKey(key, shortID), PutU16(packetNum))
  }

  /** The mask of the decoder, from the protected packet number and the key. */
  function DecoderMask(aes: (seq<byte>, seq<byte>) -> seq<byte>, key: seq<byte>, shortID: u16, packetNum: nat): (m: seq<byte>)
    requires BlockCipher(aes) && |key| == 32
    ensures |m| == 5
  {
    var m := EncoderMask(aes, key, shortID, packetNum);
    Mask(aes, key, [MaskedByte(PutU16(packetNum)[0], m[1]), MaskedByte(PutU16(packetNum)[1], m[2])])
  }

  lemma PlainFields(first: byte, key: seq<byte>, shortID: u16, packetNum: nat, payload: seq<byte>)
    requires |key| == 32
    ensures var plain := Plain(first, key, shortID, packetNum, payload);
            |plain| == PREFIX + |payload| && plain[0] == first && plain[5..7] == PutU16(packetNum) && plain[7..] == payload
  {
  }

  lemma DecoderSees(aes: (seq<byte>, seq<byte>) -> seq<byte>, first: byte, key: seq<byte>, shortID: u16, packetNum: nat,
                    payload: seq<byte>)
    requires BlockCipher(aes) && |key| == 32
    ensures var e := Encoded(aes, first, key, shortID, packetNum, payload);
            |e| >= PREFIX && Mask(aes, key, e[5..7]) == DecoderMask(aes, key, shortID, packetNum)
  {
    var plain := Plain(first, key, shortID, packetNum, payload);
    var a := EncoderMask(aes, key, shortID, packetNum);
    PlainFields(first, key, shortID, packetNum, payload);
    var e := Protected(plain, a);
    assert plain[5] == PutU16(packetNum)[0] && plain[6] == PutU16(packetNum)[1];
    assert e[5..7] == [MaskedByte(plain[5], a[1]), MaskedByte(plain[6], a[2])];
  }

  lemma DecodedParts(aes: (seq<byte>, seq<byte>) -> seq<byte>, key: seq<byte>, e: seq<byte>, b: seq<byte>)
    requires BlockCipher(aes) && |e| >= PREFIX && b == Mask(aes, key, e[5..7]) && e[0] / 0x40 == 1
    ensures Decoded(aes, key, e) == Ok((Protected(e, b)[7..], GetU16(Protected(e, b)[5..7])))
  {
    ProtectionKeepsForm(e, b);
    FormOfPrefix(Protected(e, b)[0], e[0]);
  }

  lemma FormOfPrefix(x: byte, y: byte)
    requires x / 0x20 == y / 0x20
    ensures x / 0x40 == y / 0x40
  {
  }

  /** Decoding an encoded packet never fails, and returns payload and packet number exactly when the decoder's mask agrees
      with the encoder's wherever it is used. */
  lemma RoundTripExactly(aes: (seq<byte>, seq<byte>) -> seq<byte>, first: byte, key: seq<byte>, shortID: u16,
                         packetNum: nat, payload: seq<byte>)
    requires BlockCipher(aes) && |key| == 32 && first / 0x40 == 1
    ensures var r := Decoded(aes, key, Encoded(aes, first, key, shortID, packetNum, payload));
            && r.Ok?
            && (r == Ok((payload, packetNum % 0x1_0000))
                <==> AgreeFor(EncoderMask(aes, key, shortID, packetNum), DecoderMask(aes, key, shortID, packetNum), |payload|))
  {
    var plain := Plain(first, key, shortID, packetNum, payload);
    var a, b := EncoderMask(aes, key, shortID, packetNum), DecoderMask(aes, key, shortID, packetNum);
    var e := Protected(plain, a);
    PlainFields(first, key, shortID, packetNum, payload);
    DecoderSees(aes, first, key, shortID, packetNum, payload);
    ProtectionKeepsForm(plain, a);
    FormOfPrefix(e[0], first);
    DecodedParts(aes, key, e, b);
    TwoMasks(plain, a, b);
    SameNumber(Protected(e, b)[5..7], plain[5..7]);
    U16RoundTrip(packetNum, []);
    assert PutU16(packetNum) + [] == PutU16(packetNum);
  }

  /** From five payload bytes on, that is when the two masks are equal. */
  lemma RoundTripOfLongPayload(aes: (seq<byte>, seq<byte>) -> seq<byte>, first: byte, key: seq<byte>, shortID: u16,
                               packetNum: nat, payload: seq<byte>)
    requires BlockCipher(aes) && |key| == 32 && first / 0x40 == 1 && |payload| >= 5
    ensures Decoded(aes, key, Encoded(aes, first, key, shortID, packetNum, payload)) == Ok((payload, packetNum % 0x1_0000))
            <==> EncoderMask(aes, key, shortID, packetNum) == DecoderMask(aes, key, shortID, packetNum)
  {
    RoundTripExactly(aes, first, key, shortID, packetNum, payload);
    FiveBytesSeeAll(EncoderMask(aes, key, shortID, packetNum), DecoderMask(aes, key, shortID, packetNum), |payload|);
  }

  // ─── Where it holds and where it fails ───────────────────────────

  /** A permutation of the blocks for every key. */
  function Identity(key: seq<byte>, block: seq<byte>): (b: seq<byte>)
    ensures |b| == 16
  {
    if |block| == 16 then block else seq(16, _ => 0)
  }

  lemma XorSame(x: nat, a: nat)
    ensures Xor(x, a) == x <==> a == 0
  {
    XorMasksCancel(x, a, 0);
    XorZero(x);
    XorZero(Xor(x, a));
  }

  lemma IdentityMasks(key: seq<byte>, shortID: u16, packetNum: nat)
    requires |key| == 32
    ensures BlockCipher(Identity)
    ensures var hi, lo := PutU16(packetNum)[0], PutU16(packetNum)[1];
            && EncoderMask(Identity, key, shortID, packetNum) == [hi, lo, 0, 0, 0]
            && DecoderMask(Identity, key, shortID, packetNum) == [MaskedByte(hi, lo), lo, 0, 0, 0]
  {
    var hi, lo := PutU16(packetNum)[0], PutU16(packetNum)[1];
    assert PutU16(packetNum) == [hi, lo];
    var tail: seq<byte> := seq(14, _ => 0);
    assert ([hi, lo] + tail)[..5] == [hi, lo, 0, 0, 0];
    assert EncoderMask(Identity, key, shortID, packetNum) == [hi, lo, 0, 0, 0];
    XorZero(lo);
    var h, l := MaskedByte(hi, lo), MaskedByte(lo, 0);
    assert l == lo;
    assert ([h, l] + tail)[..5] == [h, l, 0, 0, 0];
  }

  lemma IdentityAgrees(hi: byte, lo: byte, n: nat)
    ensures AgreeFor([hi, lo, 0, 0, 0], [MaskedByte(hi, lo), lo, 0, 0, 0], n) <==> lo == 0 || n < 3
  {
    var a, b := [hi, lo, 0, 0, 0], [MaskedByte(hi, lo), lo, 0, 0, 0];
    XorSame(hi, lo);
    if n >= 3 {
      assert MaskAt(a, 9) == hi && MaskAt(b, 9) == MaskedByte(hi, lo);
    } else {
      assert forall i :: PREFIX <= i < PREFIX + n ==> MaskAt(a, i) == 0 && MaskAt(b, i) == 0;
    }
  }

  lemma LowByte(packetNum: nat)
    ensures PutU16(packetNum)[1] == packetNum % 0x100
  {
  }

  /** For one permutation of the blocks, whatever the key: payload and packet number come back exactly when the number is
      a multiple of 256 or the payload has fewer than three bytes. Packet number 1 with three bytes fails, 256 does not. */
  lemma RoundTripUnderIdentity(first: byte, key: seq<byte>, shortID: u16, packetNum: nat, payload: seq<byte>)
    requires |key| == 32 && first / 0x40 == 1
    ensures BlockCipher(Identity)
    ensures Decoded(Identity, key, Encoded(Identity, first, key, shortID, packetNum, payload)) == Ok((payload, packetNum % 0x1_0000))
            <==> packetNum % 0x100 == 0 || |payload| < 3
  {
    IdentityMasks(key, shortID, packetNum);
    RoundTripExactly(Identity, first, key, shortID, packetNum, payload);
    IdentityAgrees(PutU16(packetNum)[0], PutU16(packetNum)[1], |payload|);
    LowByte(packetNum);
  }

  // ─── The packet Encode builds ────────────────────────────────────

  /** Top bits 01, then bit 4 the parity of the spin counter, bit 3 the key phase, all else zero. */
  lemma FirstByteExactly(spin: u64, keyPhase: u64)
    ensures var b := FirstByte(spin, keyPhase);
            && b / 64 == 1 && b / 32 % 2 == 0 && b % 8 == 0
            && b / 16 % 2 == spin % 2 && b / 8 % 2 == keyPhase / 1000 % 2
  {
  }

  /** What Encode sends when its counters stand at spin and keyPhase. */
  function Sent(aes: (seq<byte>, seq<byte>) -> seq<byte>, spin: u64, keyPhase: u64, key: seq<byte>, shortID: u16,
                packetNum: nat, payload: seq<byte>): seq<byte>
    requires BlockCipher(aes) && |key| == 32
  {
    Encoded(aes, FirstByte(spin, keyPhase), key, shortID, packetNum, payload)
  }

  /** Decoding it never fails, and returns payload and packet number exactly when the two masks agree where they are used;
      from five payload bytes on, when they are equal. */
  lemma SentComesBack(aes: (seq<byte>, seq<byte>) -> seq<byte>, spin: u64, keyPhase: u64, key: seq<byte>, shortID: u16,
                      packetNum: nat, payload: seq<byte>)
    requires BlockCipher(aes) && |key| == 32
    ensures var r := Decoded(aes, key, Sent(aes, spin, keyPhase, key, shortID, packetNum, payload));
            var a, b := EncoderMask(aes, key, shortID, packetNum), DecoderMask(aes, key, shortID, packetNum);
            && r.Ok?
            && (r == Ok((payload, packetNum % 65536)) <==> AgreeFor(a, b, |payload|))
            && (|payload| >= 5 ==> (r == Ok((payload, packetNum % 65536)) <==> a == b))
  {
    FirstByteExactly(spin, keyPhase);
    RoundTripExactly(aes, FirstByte(spin, keyPhase), key, shortID, packetNum, payload);
    if |payload| >= 5 {
      RoundTripOfLongPayload(aes, FirstByte(spin, keyPhase), key, shortID, packetNum, payload);
    }
  }

  /** The same for the permutation above. */
  lemma SentUnderIdentity(spin: u64, keyPhase: u64, key: seq<byte>, shortID: u16, packetNum: nat, payload: seq<byte>)
    requires |key| == 32
    ensures BlockCipher(Identity)
    ensures Decoded(Identity, key, Sent(Identity, spin, keyPhase, key, shortID, packetNum, payload)) == Ok((payload, packetNum % 65536))
            <==> packetNum % 256 == 0 || |payload| < 3
  {
    FirstByteExactly(spin, keyPhase);
    RoundTripUnderIdentity(FirstByte(spin, keyPhase), key, shortID, packetNum, payload);
  }

  // ─── The ConnectionID ────────────────────────────────────────────

  /** The mask of the ConnectionID: the hash of eight key bytes and the ShortID, least significant byte first. */
  function IDMask(key: seq<byte>, shortID: u16): u16
    requires |key| == 32
  {
    Fnv.Hash16(key[..8] + [shortID % 256, shortID / 256])
  }

  /** Bytes 1 and 2 of a sent packet are zero, bytes 3 and 4 the ShortID under its mask; with the mask they give it back. */
  lemma ConnectionIDExactly(aes: (seq<byte>, seq<byte>) -> seq<byte>, first: byte, key: seq<byte>, shortID: u16,
                            packetNum: nat, payload: seq<byte>)
    requires BlockCipher(aes) && |key| == 32
    ensures var e := Encoded(aes, first, key, shortID, packetNum, payload);
            && |e| >= 7 && e[1] == 0 && e[2] == 0
            && ValueOf(e[3..5]) == Xor(shortID, IDMask(key, shortID))
            && Xor(ValueOf(e[3..5]), IDMask(key, shortID)) == shortID
  {
    var plain := Plain(first, key, shortID, packetNum, payload);
    ProtectionKeepsForm(plain, EncoderMask(aes, key, shortID, packetNum));
    PlainID(first, key, shortID, packetNum, payload);
    IDField(Encoded(aes, first, key, shortID, packetNum, payload), plain);
    BigEndian(ConnID(key, shortID));
    XorCancels(shortID, IDMask(key, shortID));
  }

  lemma PlainID(first: byte, key: seq<byte>, shortID: u16, packetNum: nat, payload: seq<byte>)
    requires |key| == 32
    ensures var plain := Plain(first, key, shortID, packetNum, payload);
            |plain| >= 7 && plain[1] == 0 && plain[2] == 0 && plain[3..5] == PutU16(ConnID(key, shortID))
  {
    assert PutU16(0) == [0, 0];
  }

  lemma IDField(e: seq<byte>, plain: seq<byte>)
    requires |e| >= 7 && |plain| >= 7 && e[1..5] == plain[1..5]
    ensures e[1] == plain[1] && e[2] == plain[2] && e[3..5] == plain[3..5]
  {
    assert e[1] == e[1..5][0] && e[2] == e[1..5][1] && e[3..5] == e[1..5][2..];
    assert plain[1] == plain[1..5][0] && plain[2] == plain[1..5][1] && plain[3..5] == plain[1..5][2..];
  }

  /** A holder of the key can only try ShortIDs: one fits the field exactly when it has the same ConnectionID. */
  lemma CandidateFits(key: seq<byte>, shortID: u16, candidate: u16)
    requires |key| == 32
    ensures Xor(ConnID(key, shortID), IDMask(key, candidate)) == candidate <==> ConnID(key, candidate) == ConnID(key, shortID)
  {
    XorCancels(candidate, IDMask(key, candidate));
    XorCancels(ConnID(key, shortID), IDMask(key, candidate));
  }

  // ─── The pass and the key, byte by byte ──────────────────────────

  /** Five low bits of byte 0, the two bytes of the packet number, and the payload from mask byte 3 on, round and round. */
  lemma ProtectionLayout(packet: seq<byte>, mask: seq<byte>)
    requires |packet| >= 7 && |mask| == 5
    ensures var p := Protected(packet, mask);
            && |p| == |packet| && p[0] == Xor(packet[0], mask[0] % 32) && p[1..5] == packet[1..5]
            && p[5] == Xor(packet[5], mask[1]) && p[6] == Xor(packet[6], mask[2])
            && forall i :: 7 <= i < |packet| ==> p[i] == Xor(packet[i], mask[(i - 4) % 5])
  {
  }

  /** The encoder's key differs from the given one in bytes 8 and 9, where it holds the ShortID. */
  lemma EncoderKeyLayout(key: seq<byte>, shortID: u16)
    requires |key| == 32
    ensures var k := EncoderKey(key, shortID);
            && |k| == 32 && k[8] == shortID % 256 && k[9] == shortID / 256
            && forall i :: 0 <= i < 32 && i != 8 && i != 9 ==> k[i] == key[i]
  {
  }
}
