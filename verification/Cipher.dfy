/** The packet format of protocol/cipher.go: Marker(4), DynamicID(2), Nonce(12), AES-GCM(length, data, padding). */
module Cipher {
  import opened Bytes
  import Fnv

  const HEADER := 4 + 2 + 12
  const POOLED := 65535

  /** AES-256-GCM and HMAC-SHA-256, as functions of key, nonce and text. */
  datatype Primitives = Primitives(
    seal: (seq<byte>, seq<byte>, seq<byte>) -> seq<byte>,
    open: (seq<byte>, seq<byte>, seq<byte>) -> Option<seq<byte>>,
    hmac: (seq<byte>, seq<byte>) -> seq<byte>)
  {
    /** What NIST SP 800-38D, section 7, and RFC 2104, section 2, give: opening undoes sealing and drops a tag of 16 bytes,
        a code is 32 bytes long. */
    ghost predicate Lawful() {
      && (forall k, n, p :: open(k, n, seal(k, n, p)) == Some(p))
      && (forall k, n, p :: |seal(k, n, p)| == |p| + 16)
      && (forall k, n, c :: open(k, n, c).Some? ==> |c| == |open(k, n, c).value| + 16)
      && (forall k, m :: |hmac(k, m)| == 32)
    }
  }

  /** Why a packet is not decrypted. SliceBounds is no error value: the slice expression panics. */
  datatype Fault = TooShort | HmacMismatch | OpenFailed | PayloadTooShort | InvalidLength | SliceBounds

  // ─── Wire format ─────────────────────────────────────────────────

  function RouteMask(salt: seq<byte>, nonce: seq<byte>): u16 {
    Fnv.Hash16(salt + nonce)
  }

  function DynamicID(shortID: u16, salt: seq<byte>, nonce: seq<byte>): u16 {
    XorU16(shortID, RouteMask(salt, nonce));
    Xor(shortID, RouteMask(salt, nonce))
  }

  /** b | 0x40 */
  function SetBit6(b: byte): byte {
    if b / 0x40 % 2 == 1 then b else b + 0x40
  }

  /** b &^ 0x40 */
  function ClearBit6(b: byte): byte {
    if b / 0x40 % 2 == 1 then b - 0x40 else b
  }

  /** The 14 authenticated bytes: DynamicID and nonce. */
  function AuthData(dynamicID: u16, nonce: seq<byte>): seq<byte> {
    PutU16(dynamicID) + nonce
  }

  function SetFixedBit(m: seq<byte>): seq<byte>
    requires |m| == 4
  {
    m[0 := SetBit6(m[0])]
  }

  function ClearFixedBit(m: seq<byte>): seq<byte>
    requires |m| == 4
  {
    m[0 := ClearBit6(m[0])]
  }

  /** The first four bytes of the authentication code. */
  function Tag(prim: Primitives, key: seq<byte>, auth: seq<byte>): (m: seq<byte>)
    requires prim.Lawful()
    ensures |m| == 4
  {
    prim.hmac(key, auth)[..4]
  }

  function Inner(plaintext: seq<byte>, padding: seq<byte>): seq<byte> {
    PutU16(|plaintext|) + plaintext + padding
  }

  function Packet(prim: Primitives, key: seq<byte>, shortID: u16, salt: seq<byte>, nonce: seq<byte>, inner: seq<byte>): seq<byte>
    requires prim.Lawful()
  {
    var auth := AuthData(DynamicID(shortID, salt, nonce), nonce);
    SetFixedBit(Tag(prim, key, auth)) + auth + prim.seal(key, nonce, inner)
  }

  /** What Decrypt makes of a packet. */
  function Opened(prim: Primitives, key: seq<byte>, packet: seq<byte>): Result<seq<byte>, Fault>
    requires prim.Lawful()
  {
    if |packet| < HEADER then Err(TooShort)
    else if ClearFixedBit(packet[..4]) != ClearFixedBit(Tag(prim, key, packet[4..18])) then Err(HmacMismatch)
    else match prim.open(key, packet[6..18], packet[18..])
      case None => Err(OpenFailed)
      case Some(inner) => Unpadded(inner)
  }

  /** The bound check adds in int, the slice bound in uint16. */
  function Unpadded(inner: seq<byte>): Result<seq<byte>, Fault> {
    if |inner| < 2 then Err(PayloadTooShort)
    else
      var realLen := GetU16(inner);
      var end := (2 + realLen) % 0x1_0000;
      if realLen + 2 > |inner| then Err(InvalidLength)
      else if end < 2 then Err(SliceBounds)
      else Ok(inner[2..end])
  }

  /** The ShortID a reader computes from a packet in this format. */
  function Routed(salt: seq<byte>, packet: seq<byte>): u16
    requires |packet| >= HEADER
  {
    DynamicID(GetU16(packet[4..6]), salt, packet[6..18])
  }

  // ─── Laws ────────────────────────────────────────────────────────

  /** Padding disappears: the length prefix recovers the data, whatever follows it, exactly up to 65533 bytes. */
  lemma UnpaddedInner(plaintext: seq<byte>, padding: seq<byte>)
    requires |plaintext| < 0x1_0000
    ensures Unpadded(Inner(plaintext, padding)) == if |plaintext| < 0xFFFE then Ok(plaintext) else Err(SliceBounds)
  {
    InnerFields(plaintext, padding);
    SliceEnd(|plaintext|);
  }

  lemma InnerFields(plaintext: seq<byte>, padding: seq<byte>)
    requires |plaintext| < 0x1_0000
    ensures var inner := Inner(plaintext, padding);
            |inner| == 2 + |plaintext| + |padding| && GetU16(inner) == |plaintext| && inner[2..2 + |plaintext|] == plaintext
  {
    var inner := Inner(plaintext, padding);
    assert inner == PutU16(|plaintext|) + (plaintext + padding);
    U16RoundTrip(|plaintext|, plaintext + padding);
  }

  lemma SliceEnd(n: nat)
    requires n < 0x1_0000
    ensures (2 + n) % 0x1_0000 == if n < 0xFFFE then 2 + n else n - 0xFFFE
  {
  }

  lemma PacketFields(prim: Primitives, key: seq<byte>, shortID: u16, salt: seq<byte>, nonce: seq<byte>, inner: seq<byte>)
    requires prim.Lawful() && |nonce| == 12
    ensures var p := Packet(prim, key, shortID, salt, nonce, inner);
            var auth := AuthData(DynamicID(shortID, salt, nonce), nonce);
            && |p| == HEADER + |inner| + 16
            && p[..4] == SetFixedBit(Tag(prim, key, auth))
            && p[4..18] == auth
            && p[4..6] == PutU16(DynamicID(shortID, salt, nonce))
            && p[6..18] == nonce
            && p[18..] == prim.seal(key, nonce, inner)
  {
    var p := Packet(prim, key, shortID, salt, nonce, inner);
    var dynamicID := DynamicID(shortID, salt, nonce);
    assert p == SetFixedBit(Tag(prim, key, AuthData(dynamicID, nonce))) + PutU16(dynamicID) + nonce + prim.seal(key, nonce, inner);
  }

  lemma FixedBitIgnored(m: seq<byte>)
    requires |m| == 4
    ensures ClearFixedBit(SetFixedBit(m)) == ClearFixedBit(m)
  {
  }

  /** A reader that holds the key gets the data back, whatever the ShortID, salt, nonce and padding, exactly up to 65533
      bytes. */
  lemma OpenedPacket(prim: Primitives, key: seq<byte>, shortID: u16, salt: seq<byte>, nonce: seq<byte>,
                     plaintext: seq<byte>, padding: seq<byte>)
    requires prim.Lawful() && |nonce| == 12 && |plaintext| < 0x1_0000
    ensures Opened(prim, key, Packet(prim, key, shortID, salt, nonce, Inner(plaintext, padding)))
         == if |plaintext| < 0xFFFE then Ok(plaintext) else Err(SliceBounds)
  {
    var inner := Inner(plaintext, padding);
    PacketFields(prim, key, shortID, salt, nonce, inner);
    FixedBitIgnored(Tag(prim, key, AuthData(DynamicID(shortID, salt, nonce), nonce)));
    UnpaddedInner(plaintext, padding);
  }

  /** The opened text carries a length prefix with which the slice bound wraps. */
  predicate Wraps(inner: seq<byte>) {
    |inner| >= 2 && GetU16(inner) >= 0xFFFE && GetU16(inner) + 2 <= |inner|
  }

  /** An authentic packet that carries such a text. */
  predicate Overlong(prim: Primitives, key: seq<byte>, packet: seq<byte>)
    requires prim.Lawful()
  {
    && |packet| >= HEADER
    && ClearFixedBit(packet[..4]) == ClearFixedBit(Tag(prim, key, packet[4..18]))
    && prim.open(key, packet[6..18], packet[18..]).Some?
    && Wraps(prim.open(key, packet[6..18], packet[18..]).value)
  }

  /** The panic needs an authentic packet with such a prefix, and hence at least 65570 bytes. */
  lemma PanicsExactly(prim: Primitives, key: seq<byte>, packet: seq<byte>)
    requires prim.Lawful()
    ensures Opened(prim, key, packet) == Err(SliceBounds) <==> Overlong(prim, key, packet)
    ensures Overlong(prim, key, packet) ==> |packet| >= HEADER + 0x1_0000 + 16
  {
    if |packet| >= HEADER {
      var text := prim.open(key, packet[6..18], packet[18..]);
      if text.Some? {
        UnpaddedWraps(text.value);
      }
    }
  }

  lemma UnpaddedWraps(inner: seq<byte>)
    ensures Unpadded(inner) == Err(SliceBounds) <==> Wraps(inner)
    ensures Wraps(inner) ==> |inner| >= 0x1_0000
  {
    if |inner| >= 2 {
      FieldBelow(inner);
    }
  }

  lemma FieldBelow(b: seq<byte>)
    requires |b| >= 2
    ensures GetU16(b) < 0x1_0000
  {
  }

  lemma FieldHoldsID(id: u16, field: seq<byte>)
    requires field == PutU16(id)
    ensures GetU16(field) == id
  {
  }

  /** ... and routes it to the sender's ShortID. */
  lemma RoutedPacket(prim: Primitives, key: seq<byte>, shortID: u16, salt: seq<byte>, nonce: seq<byte>, inner: seq<byte>)
    requires prim.Lawful() && |nonce| == 12
    ensures |Packet(prim, key, shortID, salt, nonce, inner)| >= HEADER
    ensures Routed(salt, Packet(prim, key, shortID, salt, nonce, inner)) == shortID
  {
    PacketFields(prim, key, shortID, salt, nonce, inner);
    FieldHoldsID(DynamicID(shortID, salt, nonce), Packet(prim, key, shortID, salt, nonce, inner)[4..6]);
    XorCancels(shortID, RouteMask(salt, nonce));
  }

  /** Replacing the marker of an accepted packet: still accepted exactly when at most bit 6 of the first byte changed. */
  lemma MarkerIsBinding(prim: Primitives, key: seq<byte>, packet: seq<byte>, marker: seq<byte>)
    requires prim.Lawful() && |marker| == 4
    requires Opened(prim, key, packet).Ok?
    ensures var forged := marker + packet[4..];
            if ClearBit6(marker[0]) == ClearBit6(packet[0]) && marker[1..] == packet[1..4]
            then Opened(prim, key, forged) == Opened(prim, key, packet)
            else Opened(prim, key, forged) == Err(HmacMismatch)
  {
    var forged := marker + packet[4..];
    assert forged[..4] == marker && forged[4..18] == packet[4..18];
    assert forged[6..18] == packet[6..18] && forged[18..] == packet[18..];
    var c, d := ClearFixedBit(marker), ClearFixedBit(packet[..4]);
    assert c == [ClearBit6(marker[0])] + marker[1..];
    assert d == [ClearBit6(packet[0])] + packet[1..4];
    assert c == d <==> c[0] == d[0] && c[1..] == d[1..];
  }

  // ─── Exactly what Decrypt accepts ────────────────────────────────

  /** The marker is the first four bytes of the code over bytes 4 to 17, but for bit 6 of its first byte. */
  predicate MarkerFits(prim: Primitives, key: seq<byte>, packet: seq<byte>)
    requires prim.Lawful() && |packet| >= 18
  {
    var code := prim.hmac(key, packet[4..18]);
    packet[0] % 64 == code[0] % 64 && packet[0] / 128 == code[0] / 128 && packet[1..4] == code[1..4]
  }

  lemma ClearedBits(x: byte, y: byte)
    ensures ClearBit6(x) == ClearBit6(y) <==> x % 64 == y % 64 && x / 128 == y / 128
  {
  }

  lemma ClearedMarkers(m: seq<byte>, n: seq<byte>)
    requires |m| == 4 && |n| == 4
    ensures ClearFixedBit(m) == ClearFixedBit(n) <==> m[0] % 64 == n[0] % 64 && m[0] / 128 == n[0] / 128 && m[1..] == n[1..]
  {
    ClearedBits(m[0], n[0]);
    var c, d := ClearFixedBit(m), ClearFixedBit(n);
    assert c == [ClearBit6(m[0])] + m[1..] && d == [ClearBit6(n[0])] + n[1..];
    assert c[0] == ClearBit6(m[0]) && d[0] == ClearBit6(n[0]) && c[1..] == m[1..] && d[1..] == n[1..];
  }

  lemma MarkerChecked(prim: Primitives, key: seq<byte>, packet: seq<byte>)
    requires prim.Lawful() && |packet| >= 18
    ensures ClearFixedBit(packet[..4]) == ClearFixedBit(Tag(prim, key, packet[4..18])) <==> MarkerFits(prim, key, packet)
  {
    var m, n := packet[..4], Tag(prim, key, packet[4..18]);
    ClearedMarkers(m, n);
    assert m[1..] == packet[1..4] && n[1..] == prim.hmac(key, packet[4..18])[1..4];
  }

  /** What AES-GCM makes of an authentic packet. */
  function TextOf(prim: Primitives, key: seq<byte>, packet: seq<byte>): Option<seq<byte>>
    requires |packet| >= 18
  {
    prim.open(key, packet[6..18], packet[18..])
  }

  /** The length prefix of an opened text. */
  function PrefixOf(text: seq<byte>): nat
    requires |text| >= 2
  {
    ValueOf(text[..2])
  }

  lemma PrefixRead(text: seq<byte>)
    requires |text| >= 2
    ensures PrefixOf(text) == GetU16(text) < 65536
  {
    ValueOfTwo(text[..2]);
    FieldBelow(text);
  }

  /** The three ways a text can be wrong, and what it gives when it is right. */
  lemma UnpaddedExactly(text: seq<byte>)
    ensures Unpadded(text) == Err(PayloadTooShort) <==> |text| < 2
    ensures Unpadded(text) == Err(InvalidLength) <==> |text| >= 2 && PrefixOf(text) + 2 > |text|
    ensures Unpadded(text) == Err(SliceBounds) <==> |text| >= 2 && 65534 <= PrefixOf(text) <= |text| - 2
    ensures Unpadded(text).Ok? <==> |text| >= 2 && PrefixOf(text) < 65534 && PrefixOf(text) + 2 <= |text|
    ensures Unpadded(text).Ok? ==> Unpadded(text).value == text[2..2 + PrefixOf(text)]
    ensures Unpadded(text).Err? ==> Unpadded(text).error in {PayloadTooShort, InvalidLength, SliceBounds}
  {
    if |text| >= 2 {
      PrefixRead(text);
      SliceEnd(PrefixOf(text));
    }
  }

  /** Each fault of Decrypt has its own cause, and there is no other. */
  lemma FaultsExactly(prim: Primitives, key: seq<byte>, packet: seq<byte>)
    requires prim.Lawful()
    ensures Opened(prim, key, packet) == Err(TooShort) <==> |packet| < 18
    ensures Opened(prim, key, packet) == Err(HmacMismatch) <==> |packet| >= 18 && !MarkerFits(prim, key, packet)
    ensures Opened(prim, key, packet) == Err(OpenFailed)
            <==> |packet| >= 18 && MarkerFits(prim, key, packet) && TextOf(prim, key, packet).None?
    ensures |packet| >= 18 && MarkerFits(prim, key, packet) && TextOf(prim, key, packet).Some? ==>
              var text := TextOf(prim, key, packet).value;
              && (Opened(prim, key, packet) == Err(PayloadTooShort) <==> |text| < 2)
              && (Opened(prim, key, packet) == Err(InvalidLength) <==> |text| >= 2 && PrefixOf(text) + 2 > |text|)
              && (Opened(prim, key, packet) == Err(SliceBounds) <==> |text| >= 2 && 65534 <= PrefixOf(text) <= |text| - 2)
  {
    if |packet| >= 18 {
      MarkerChecked(prim, key, packet);
      if TextOf(prim, key, packet).Some? {
        UnpaddedExactly(TextOf(prim, key, packet).value);
      }
    }
  }

  /** Decrypt gives data exactly for an authentic packet that AES-GCM opens to a text whose prefix fits, and the data are
      the bytes the prefix counts. */
  lemma OpensExactly(prim: Primitives, key: seq<byte>, packet: seq<byte>)
    requires prim.Lawful()
    ensures Opened(prim, key, packet).Ok?
            <==> && |packet| >= 18 && MarkerFits(prim, key, packet) && TextOf(prim, key, packet).Some?
                 && var text := TextOf(prim, key, packet).value;
                    |text| >= 2 && PrefixOf(text) < 65534 && PrefixOf(text) + 2 <= |text|
    ensures Opened(prim, key, packet).Ok? ==>
              var text, data := TextOf(prim, key, packet).value, Opened(prim, key, packet).value;
              |data| < 65534 && PutU16(|data|) + data <= text
  {
    FaultsExactly(prim, key, packet);
    if |packet| >= 18 && MarkerFits(prim, key, packet) && TextOf(prim, key, packet).Some? {
      MarkerChecked(prim, key, packet);
      var text := TextOf(prim, key, packet).value;
      UnpaddedExactly(text);
      if Opened(prim, key, packet).Ok? {
        PrefixIsField(text);
        var n := PrefixOf(text);
        assert text == text[..2] + (text[2..2 + n] + text[2 + n..]);
      }
    }
  }

  lemma PrefixIsField(text: seq<byte>)
    requires |text| >= 2
    ensures text[..2] == PutU16(PrefixOf(text))
  {
    PrefixRead(text);
    var hi: nat, lo: nat := text[0], text[1];
    FieldDigits(hi, lo);
    assert text[..2] == [text[0], text[1]];
  }

  lemma FieldDigits(hi: nat, lo: nat)
    requires hi < 256 && lo < 256
    ensures (hi * 256 + lo) / 256 % 256 == hi && (hi * 256 + lo) % 256 == lo
  {
  }

  // ─── The format, byte by byte ────────────────────────────────────

  /** Marker with bit 6 set, DynamicID, nonce, ciphertext. */
  lemma PacketLayout(prim: Primitives, key: seq<byte>, shortID: u16, salt: seq<byte>, nonce: seq<byte>, inner: seq<byte>)
    requires prim.Lawful() && |nonce| == 12
    ensures var p := Packet(prim, key, shortID, salt, nonce, inner);
            && |p| == 18 + |inner| + 16
            && MarkerFits(prim, key, p) && p[0] / 64 % 2 == 1
            && ValueOf(p[4..6]) == Xor(shortID, Fnv.Hash16(salt + nonce))
            && p[6..18] == nonce && p[18..] == prim.seal(key, nonce, inner)
  {
    var p := Packet(prim, key, shortID, salt, nonce, inner);
    var tag := Tag(prim, key, AuthData(DynamicID(shortID, salt, nonce), nonce));
    PacketFields(prim, key, shortID, salt, nonce, inner);
    FixedBitIgnored(tag);
    MarkerChecked(prim, key, p);
    assert p[..4][0] == p[0];
    ValueOfTwo(p[4..6]);
    FieldHoldsID(DynamicID(shortID, salt, nonce), p[4..6]);
  }

  /** Length in two bytes, data, padding. */
  lemma InnerLayout(plaintext: seq<byte>, padding: seq<byte>)
    ensures var inner := Inner(plaintext, padding);
            && |inner| == 2 + |plaintext| + |padding|
            && PrefixOf(inner) == |plaintext| % 65536
            && inner[2..2 + |plaintext|] == plaintext && inner[2 + |plaintext|..] == padding
  {
    BigEndian(|plaintext|);
    var inner := Inner(plaintext, padding);
    assert inner == PutU16(|plaintext|) + (plaintext + padding);
    assert inner[..2] == PutU16(|plaintext|);
  }

  /** A reader takes the ShortID from bytes 4, 5 and the nonce. */
  lemma RoutedLayout(salt: seq<byte>, packet: seq<byte>)
    requires |packet| >= 18
    ensures Routed(salt, packet) == Xor(ValueOf(packet[4..6]), Fnv.Hash16(salt + packet[6..18]))
  {
    ValueOfTwo(packet[4..6]);
  }

  // ─── Nonces ──────────────────────────────────────────────────────

  /** Eight bytes of counter, four of PRNG output. */
  function NonceBytes(counter: u64, random: nat): seq<byte> {
    PutU32(counter / 0x1_0000_0000) + PutU32(counter) + PutU32(random)
  }

  lemma NonceFields(hi: seq<byte>, lo: seq<byte>, rest: seq<byte>)
    requires |hi| == 4 && |lo| == 4
    ensures (hi + lo + rest) == hi + (lo + rest) && (hi + lo + rest)[4..] == lo + rest
  {
  }

  lemma Halves(counter: u64)
    ensures counter / 0x1_0000_0000 < 0x1_0000_0000
    ensures counter / 0x1_0000_0000 * 0x1_0000_0000 + counter % 0x1_0000_0000 == counter
  {
  }

  lemma NonceHoldsCounter(counter: u64, random: nat)
    ensures var n := NonceBytes(counter, random);
            |n| == 12 && GetU32(n) * 0x1_0000_0000 + GetU32(n[4..]) == counter
  {
    var hi := counter / 0x1_0000_0000;
    Halves(counter);
    NonceFields(PutU32(hi), PutU32(counter), PutU32(random));
    U32RoundTrip(hi, PutU32(counter) + PutU32(random));
    U32RoundTrip(counter, PutU32(random));
    SmallRemainder(hi);
  }

  lemma SmallRemainder(n: nat)
    requires n < 0x1_0000_0000
    ensures n % 0x1_0000_0000 == n
  {
  }

  /** Bytes 0 to 7 are the counter, 8 to 11 the PRNG output. */
  lemma NonceLayout(counter: u64, random: nat)
    ensures var n := NonceBytes(counter, random);
            && |n| == 12
            && ValueOf(n[..4]) * 4294967296 + ValueOf(n[4..8]) == counter
            && ValueOf(n[8..]) == random % 4294967296
  {
    var hi := counter / 0x1_0000_0000;
    Halves(counter);
    SmallRemainder(hi);
    BigEndian(hi);
    BigEndian(counter);
    BigEndian(random);
    var n := NonceBytes(counter, random);
    assert n[..4] == PutU32(hi) && n[4..8] == PutU32(counter) && n[8..] == PutU32(random);
  }

  /** The nonce of the i-th Encrypt after the counter stood at start. */
  function NonceAfter(start: u64, i: nat, random: nat): seq<byte> {
    NonceBytes((start + i) % TWO64, random)
  }

  /** No two of 2^64 consecutive Encrypt calls of one CipherPack use the same nonce, whatever the PRNG returns. */
  lemma NoncesNeverRepeat(start: u64, i: nat, j: nat, randomI: nat, randomJ: nat)
    requires i < j < i + TWO64
    ensures NonceAfter(start, i, randomI) != NonceAfter(start, j, randomJ)
  {
    NonceHoldsCounter((start + i) % TWO64, randomI);
    NonceHoldsCounter((start + j) % TWO64, randomJ);
    assert (start + i) % 0x1_0000_0000_0000_0000 != (start + j) % 0x1_0000_0000_0000_0000;
  }

  // ─── The cipher context ──────────────────────────────────────────

  method FillInner(plaintext: seq<byte>, padding: seq<byte>) returns (inner: seq<byte>)
    ensures inner == Inner(plaintext, padding)
  {
    var buf := new byte[2 + |plaintext| + |padding|];
    CopyInto(buf, 0, PutU16(|plaintext|));
    CopyInto(buf, 2, plaintext);
    if |padding| > 0 {
      CopyInto(buf, 2 + |plaintext|, padding);
    }
    inner := buf[..];
  }

  method FillPacket(marker: seq<byte>, authData: seq<byte>, ciphertext: seq<byte>) returns (packet: seq<byte>)
    requires |marker| == 4 && |authData| == 14
    ensures packet == marker + authData + ciphertext
  {
    var buf := new byte[4 + 2 + 12 + |ciphertext|];
    CopyInto(buf, 0, marker);
    CopyInto(buf, 4, authData[..2]);
    CopyInto(buf, 6, authData[2..]);
    CopyInto(buf, 18, ciphertext);
    packet := buf[..];
    assert authData == authData[..2] + authData[2..];
  }

  class CipherPack {
    const prim: Primitives
    const key: seq<byte>
    const padMax: int
    var nonce: u64

    ghost predicate Usable() {
      prim.Lawful()
    }

    constructor (prim: Primitives, key: seq<byte>, padMax: int, start: u64)
      ensures this.prim == prim && this.key == key && this.padMax == padMax && nonce == start
    {
      this.prim, this.key, this.padMax, nonce := prim, key, padMax, start;
    }

    /** Without a limit of its own a context pads by 0 to 40 bytes. */
    function MaxPad(): (m: int)
      ensures padMax <= 0 ==> m == 41
      ensures 0 < padMax < 0x1_0000_0000 ==> m == padMax
    {
      (if padMax <= 0 then 41 else padMax) % 0x1_0000_0000
    }

    /** random and draw are the two PRNG outputs the call consumes, pool the bytes padding is copied from. */
    method Encrypt(plaintext: seq<byte>, shortID: u16, salt: seq<byte>, random: nat, draw: nat, pool: seq<byte>)
      returns (packet: seq<byte>)
      requires Usable() && MaxPad() > 0
      requires 2 + |plaintext| + draw % MaxPad() <= POOLED == |pool|
      modifies this`nonce
      ensures nonce == (old(nonce) + 1) % TWO64
      ensures packet == Packet(prim, key, shortID, salt, NonceAfter(old(nonce), 1, random),
                               Inner(plaintext, pool[..draw % MaxPad()]))
    {
      nonce := (nonce + 1) % TWO64;
      var n := NonceBytes(nonce, random);
      var padLen := draw % MaxPad();
      var inner := FillInner(plaintext, pool[..padLen]);
      var routeMask := Fnv.Fnv1a16(salt + n);
      XorU16(shortID, routeMask);
      var authData := PutU16(Xor(shortID, routeMask)) + n;
      var marker := prim.hmac(key, authData)[..4];
      marker := marker[0 := SetBit6(marker[0])];
      var ciphertext := prim.seal(key, n, inner);
      packet := FillPacket(marker, authData, ciphertext);
    }

    method Decrypt(packet: seq<byte>) returns (r: Result<seq<byte>, Fault>)
      requires Usable()
      ensures r == Opened(prim, key, packet)
    {
      if |packet| < 4 + 2 + 12 {
        return Err(TooShort);
      }
      var marker := packet[..4];
      marker := marker[0 := ClearBit6(marker[0])];
      var authData := packet[4..6] + packet[6..18];
      assert authData == packet[4..18];
      var expected := prim.hmac(key, authData)[..4];
      expected := expected[0 := ClearBit6(expected[0])];
      if marker != expected {
        return Err(HmacMismatch);
      }
      var plaintext := prim.open(key, packet[6..18], packet[18..]);
      if plaintext.None? {
        return Err(OpenFailed);
      }
      if |plaintext.value| < 2 {
        return Err(PayloadTooShort);
      }
      var realLen := GetU16(plaintext.value[..2]);
      if realLen + 2 > |plaintext.value| {
        return Err(InvalidLength);
      }
      var end := (2 + realLen) % 0x1_0000;
      if end < 2 {
        return Err(SliceBounds);
      }
      return Ok(plaintext.value[2..end]);
    }
  }
}
