/** The two FNV-1a hashes of protocol/cipher.go, over 64-bit words. */
module Fnv {
  import opened Bytes

  const OFFSET: u64 := 14695981039346656037
  const PRIME: u64 := 1099511628211

  /** Multiplication of uint64 values. */
  function Mul(x: u64, y: u64): u64 {
    x * y % TWO64
  }

  /** One round: xor the byte in, multiply. */
  function Round(h: u64, b: byte): u64 {
    XorWord(h, b);
    Mul(Xor(h, b), PRIME)
  }

  /** All rounds, first byte first. */
  function Rounds(h: u64, data: seq<byte>): u64
    decreases |data|
  {
    if |data| == 0 then h else Round(Rounds(h, data[..|data| - 1]), data[|data| - 1])
  }

  function Start(seed: u64): u64 {
    XorWord(seed, OFFSET);
    Xor(seed, OFFSET)
  }

  function Hash64(data: seq<byte>, seed: u64): u64 {
    Rounds(Start(seed), data)
  }

  function Hash16(data: seq<byte>): u16 {
    Rounds(OFFSET, data) % 0x1_0000
  }

  method Fnv1a64(data: seq<byte>, seed: u64) returns (hash: u64)
    ensures hash == Hash64(data, seed)
  {
    hash := Start(seed);
    for i := 0 to |data|
      invariant hash == Rounds(Start(seed), data[..i])
    {
      assert data[..i + 1][..i] == data[..i];
      XorWord(hash, data[i]);
      hash := Xor(hash, data[i]);
      hash := Mul(hash, PRIME);
    }
    assert data[..|data|] == data;
  }

  method Fnv1a16(data: seq<byte>) returns (h16: u16)
    ensures h16 == Hash16(data)
  {
    var h: u64 := OFFSET;
    for i := 0 to |data|
      invariant h == Rounds(OFFSET, data[..i])
    {
      assert data[..i + 1][..i] == data[..i];
      XorWord(h, data[i]);
      h := Xor(h, data[i]);
      h := Mul(h, PRIME);
    }
    assert data[..|data|] == data;
    h16 := h % 0x1_0000;
  }

  // ─── The hash modulo 2^19 ────────────────────────────────────────

  lemma XorOnLow19(x: nat, y: nat, o: nat)
    ensures Xor(x, o) % 0x80000 == Xor(y, o) % 0x80000 <==> x % 0x80000 == y % 0x80000
  {
    PowersUsed();
    XorOnLowBits(x, y, o, 19);
    LowIsRemainder(x, 19);
    LowIsRemainder(y, 19);
    LowIsRemainder(Xor(x, o), 19);
    LowIsRemainder(Xor(y, o), 19);
  }

  /** PRIME is 435 modulo 2^19, and 435 is invertible there. */
  lemma MulOnLow19(x: u64, y: u64)
    ensures Mul(x, PRIME) % 0x80000 == Mul(y, PRIME) % 0x80000 <==> x % 0x80000 == y % 0x80000
  {
    MulLow19(x);
    MulLow19(y);
    var a, b := x % 0x80000, y % 0x80000;
    if 435 * a % 0x80000 == 435 * b % 0x80000 {
      Unscale(a);
      Unscale(b);
    }
  }

  lemma MulLow19(x: u64)
    ensures Mul(x, PRIME) % 0x80000 == 435 * (x % 0x80000) % 0x80000
  {
    var m := x * 1099511628211;
    var q, r := m / 0x1_0000_0000_0000_0000, x / 0x80000;
    assert m % 0x1_0000_0000_0000_0000 == m - q * 0x1_0000_0000_0000_0000;
    assert m == 435 * (x % 0x80000) + (435 * r + 2097152 * x) * 0x80000;
    SameRemainder(m % 0x1_0000_0000_0000_0000, 435 * (x % 0x80000), 435 * r + 2097152 * x - q * 0x2000_0000_0000);
  }

  lemma SameRemainder(a: nat, b: nat, k: int)
    requires a == b + k * 0x80000
    ensures a % 0x80000 == b % 0x80000
  {
  }

  lemma Unscale(a: nat)
    requires a < 0x80000
    ensures (435 * a % 0x80000) * 431483 % 0x80000 == a
  {
    var q, r := 435 * a / 0x80000, 435 * a % 0x80000;
    assert 435 * 431483 == 358 * 0x80000 + 1;
    assert r == 435 * a - q * 0x80000;
    assert r * 431483 == a + (358 * a - 431483 * q) * 0x80000;
    SameRemainder(r * 431483, a, 358 * a - 431483 * q);
  }

  /** A round acts on the low 19 bits alone, and two inputs that differ there still differ after it. */
  lemma RoundOnLow19(x: u64, y: u64, b: byte)
    ensures Round(x, b) % 0x80000 == Round(y, b) % 0x80000 <==> x % 0x80000 == y % 0x80000
  {
    XorOnLow19(x, y, b);
    XorWord(x, b);
    XorWord(y, b);
    MulOnLow19(Xor(x, b), Xor(y, b));
  }

  lemma {:induction false} RoundsOnLow19(x: u64, y: u64, data: seq<byte>)
    ensures Rounds(x, data) % 0x80000 == Rounds(y, data) % 0x80000 <==> x % 0x80000 == y % 0x80000
    decreases |data|
  {
    if |data| > 0 {
      var n := |data| - 1;
      RoundsOnLow19(x, y, data[..n]);
      RoundOnLow19(Rounds(x, data[..n]), Rounds(y, data[..n]), data[n]);
    }
  }

  /** Two seeds give a key the same index exactly when they agree modulo 2^19. */
  lemma IndexInjectiveInSeed(data: seq<byte>, s: u64, t: u64)
    ensures Hash64(data, s) % 0x80000 == Hash64(data, t) % 0x80000 <==> s % 0x80000 == t % 0x80000
  {
    XorOnLow19(s, t, OFFSET);
    RoundsOnLow19(Start(s), Start(t), data);
  }

  // ─── and it is onto ──────────────────────────────────────────────

  /** A word below 2^19 that one round with b sends to t modulo 2^19. */
  function Unround(t: nat, b: byte): nat {
    Xor(t * 431483 % 0x80000, b) % 0x80000
  }

  lemma UnroundRight(t: nat, b: byte, h: u64)
    requires t < 0x80000 && h % 0x80000 == Unround(t, b)
    ensures Round(h, b) % 0x80000 == t
  {
    var z := t * 431483 % 0x80000;
    XorUndone(h, z, b);
    RoundLow19(h, b, z);
    Rescale(t);
  }

  lemma RoundLow19(h: u64, b: byte, z: nat)
    requires Xor(h, b) % 0x80000 == z
    ensures Round(h, b) % 0x80000 == 435 * z % 0x80000
  {
    XorWord(h, b);
    MulLow19(Xor(h, b));
  }

  lemma XorUndone(h: nat, z: nat, o: nat)
    requires h % 0x80000 == Xor(z, o) % 0x80000
    ensures Xor(h, o) % 0x80000 == z % 0x80000
  {
    var y := Xor(z, o);
    XorCancels(z, o);
    XorOnLow19(h, y, o);
  }

  lemma Rescale(t: nat)
    requires t < 0x80000
    ensures 435 * (t * 431483 % 0x80000) % 0x80000 == t
  {
    var q := t * 431483 / 0x80000;
    assert 435 * (t * 431483 % 0x80000) == t + (358 * t - 435 * q) * 0x80000;
  }

  function Unstart(t: nat): u64 {
    Xor(t, OFFSET) % 0x80000
  }

  /** The seed below 2^19 that sends a key to index t. */
  function SeedFor(data: seq<byte>, t: nat): u64
    decreases |data|
  {
    if |data| == 0 then Unstart(t) else SeedFor(data[..|data| - 1], Unround(t, data[|data| - 1]))
  }

  lemma StartReaches(seed: u64, t: nat)
    requires t < 0x80000 && seed % 0x80000 == Xor(t, OFFSET) % 0x80000
    ensures Start(seed) % 0x80000 == t
  {
    XorUndone(seed, t, OFFSET);
  }

  /** Every index is reached from some seed: for a fixed key the index is a bijection of the seed. */
  lemma {:induction false} IndexOntoInSeed(data: seq<byte>, t: nat)
    requires t < 0x80000
    ensures Hash64(data, SeedFor(data, t)) % 0x80000 == t
    decreases |data|
  {
    if |data| == 0 {
      StartReaches(SeedFor(data, t), t);
    } else {
      var init, last := data[..|data| - 1], data[|data| - 1];
      IndexOntoInSeed(init, Unround(t, last));
      UnroundRight(t, last, Hash64(init, SeedFor(init, Unround(t, last))));
    }
  }

  // ─── The hashes by their recurrence ──────────────────────────────

  /** The empty string hashes to the offset basis. */
  lemma HashOfEmpty(seed: u64)
    ensures Hash64([], seed) == Xor(seed, 14695981039346656037)
    ensures seed == 0 ==> Hash64([], seed) == 14695981039346656037
  {
    if seed == 0 {
      XorFromZero(seed, OFFSET);
    }
  }

  lemma XorFromZero(zero: nat, x: nat)
    requires zero == 0
    ensures Xor(zero, x) == x
  {
    XorCommutes(zero, x);
    XorZero(x);
  }

  /** One byte more: exclusive or, then the prime, modulo 2^64. */
  lemma HashOfMore(data: seq<byte>, b: byte, seed: u64)
    ensures Hash64(data + [b], seed) == Xor(Hash64(data, seed), b) * 1099511628211 % 18446744073709551616
  {
    assert (data + [b])[..|data|] == data;
  }

  /** The short hash is the low 16 bits of the long one without a seed. */
  lemma ShortIsLow(data: seq<byte>, seed: u64)
    requires seed == 0
    ensures Hash16(data) == Hash64(data, seed) % 65536
  {
    HashOfEmpty(seed);
  }
}
