/** The replay filter of server/server.go: 8192 words of 64 bits, three indices per key. */
module BloomFilter {
  import opened Bytes
  import Fnv

  const WORDS := 8192
  const TOTAL_BITS := 0x80000

  const SEED0: u64 := 0x1234567890ABCDEF
  const SEED1: u64 := 0xFEDCBA0987654321
  const SEED2: u64 := 0xA1B2C3D4E5F60708

  /** ShortID, big-endian, then the nonce. */
  function BloomKey(shortID: u16, nonce: seq<byte>): seq<byte> {
    PutU16(shortID) + nonce
  }

  lemma BloomKeyInjective(a: u16, x: seq<byte>, b: u16, y: seq<byte>)
    ensures BloomKey(a, x) == BloomKey(b, y) <==> a == b && x == y
  {
    if BloomKey(a, x) == BloomKey(b, y) {
      U16RoundTrip(a, x);
      U16RoundTrip(b, y);
      assert x == BloomKey(a, x)[2..];
      assert y == BloomKey(b, y)[2..];
    }
  }

  function Index(key: seq<byte>, seed: u64): nat {
    Fnv.Hash64(key, seed) % TOTAL_BITS
  }

  function Indices(key: seq<byte>): set<nat> {
    {Index(key, SEED0), Index(key, SEED1), Index(key, SEED2)}
  }

  function FirstIndices(key: seq<byte>, n: nat): set<nat> {
    (if n > 0 then {Index(key, SEED0)} else {})
    + (if n > 1 then {Index(key, SEED1)} else {})
    + (if n > 2 then {Index(key, SEED2)} else {})
  }

  /** The three bits of a key never coincide, whatever the key. */
  lemma ThreeDistinctBits(key: seq<byte>)
    ensures |Indices(key)| == 3
    ensures forall p :: p in Indices(key) ==> p < TOTAL_BITS
  {
    Fnv.IndexInjectiveInSeed(key, SEED0, SEED1);
    Fnv.IndexInjectiveInSeed(key, SEED0, SEED2);
    Fnv.IndexInjectiveInSeed(key, SEED1, SEED2);
    assert SEED0 % TOTAL_BITS == 0x3CDEF && SEED1 % TOTAL_BITS == 0x54321 && SEED2 % TOTAL_BITS == 0x60708;
    assert |{Index(key, SEED0), Index(key, SEED1)}| == 2;
    assert Indices(key) == {Index(key, SEED0), Index(key, SEED1)} + {Index(key, SEED2)};
  }

  lemma UnionSize(a: set<nat>, b: set<nat>)
    ensures |a + b| <= |a| + |b|
    ensures |a + b| == |a| + |b| <==> a !! b
  {
    assert |a + b| + |a * b| == |a| + |b|;
    if a * b == {} {
      assert forall x :: x in a ==> x in b ==> x in a * b;
    } else {
      var x :| x in a * b;
      assert x in a && x in b;
    }
  }

  /** Seeds and size of the filter. */
  lemma ThreeIndices(key: seq<byte>)
    ensures Indices(key) == {Fnv.Hash64(key, 0x1234567890ABCDEF) % 524288, Fnv.Hash64(key, 0xFEDCBA0987654321) % 524288,
                             Fnv.Hash64(key, 0xA1B2C3D4E5F60708) % 524288}
  {
  }

  /** A key is the ShortID in two bytes, most significant first, and the nonce. */
  lemma BloomKeyLayout(shortID: u16, nonce: seq<byte>)
    ensures ValueOf(BloomKey(shortID, nonce)[..2]) == shortID && BloomKey(shortID, nonce)[2..] == nonce
  {
    BigEndian(shortID);
    assert BloomKey(shortID, nonce)[..2] == PutU16(shortID);
  }

  // ─── Bits of words ───────────────────────────────────────────────

  /** word & (1 << k) != 0 */
  predicate BitIn(word: nat, k: nat) {
    if k == 0 then word % 2 == 1 else BitIn(word / 2, k - 1)
  }

  /** word | (1 << k) */
  function OrBit(word: nat, k: nat): nat {
    if k == 0 then word - word % 2 + 1 else 2 * OrBit(word / 2, k - 1) + word % 2
  }

  lemma {:induction false} OrBitBelow(word: nat, k: nat, n: nat)
    requires k < n && word < Pow2(n)
    ensures OrBit(word, k) < Pow2(n)
  {
    if k > 0 {
      OrBitBelow(word / 2, k - 1, n - 1);
    }
  }

  lemma {:induction false} OrSetsOneBit(word: nat, k: nat, j: nat)
    ensures BitIn(OrBit(word, k), j) <==> k == j || BitIn(word, j)
  {
    if k > 0 && j > 0 {
      OrSetsOneBit(word / 2, k - 1, j - 1);
    }
  }

  lemma {:induction false} ZeroHasNoBit(k: nat)
    ensures !BitIn(0, k)
  {
    if k > 0 {
      ZeroHasNoBit(k - 1);
    }
  }

  /** The positions set in an array of words. */
  ghost function BitsOf(words: seq<u64>): set<nat>
    requires |words| == WORDS
  {
    set p: nat | p < TOTAL_BITS && BitIn(words[p / 64], p % 64)
  }

  class Bloom {
    const words: array<u64>

    ghost predicate Valid()
    {
      words.Length == WORDS
    }

    ghost function Bits(): set<nat>
      requires Valid()
      reads words
    {
      BitsOf(words[..])
    }

    constructor ()
      ensures Valid() && fresh(words)
      ensures Bits() == {}
    {
      words := new u64[WORDS](_ => 0);
      new;
      forall k: nat | k < 64 ensures !BitIn(0, k) {
        ZeroHasNoBit(k);
      }
    }

    /** True when the key is new: not all three of its bits are set. */
    method Check(key: seq<byte>) returns (isNew: bool)
      requires Valid()
      ensures isNew <==> !(Indices(key) <= Bits())
    {
      var h0 := Fnv.Fnv1a64(key, SEED0);
      var h1 := Fnv.Fnv1a64(key, SEED1);
      var h2 := Fnv.Fnv1a64(key, SEED2);
      var i0, i1, i2 := h0 % TOTAL_BITS, h1 % TOTAL_BITS, h2 % TOTAL_BITS;
      isNew := !(BitIn(words[i0 / 64], i0 % 64) && BitIn(words[i1 / 64], i1 % 64) && BitIn(words[i2 / 64], i2 % 64));
    }

    method SetBit(p: nat)
      requires Valid() && p < TOTAL_BITS
      modifies words
      ensures Bits() == old(Bits()) + {p}
    {
      var w := p / 64;
      PowersUsed();
      OrBitBelow(words[w], p % 64, 64);
      words[w] := OrBit(words[w], p % 64);
      forall q: nat | q < TOTAL_BITS
        ensures q in Bits() <==> q == p || q in old(Bits())
      {
        OrSetsOneBit(old(words[w]), p % 64, q % 64);
      }
    }

    method Set(key: seq<byte>)
      requires Valid()
      modifies words
      ensures Bits() == old(Bits()) + Indices(key)
    {
      var seeds := [SEED0, SEED1, SEED2];
      for i := 0 to 3
        invariant Bits() == old(Bits()) + FirstIndices(key, i)
      {
        var h := Fnv.Fnv1a64(key, seeds[i]);
        SetBit(h % TOTAL_BITS);
      }
    }

    method Reset()
      requires Valid()
      modifies words
      ensures Bits() == {}
    {
      for i := 0 to WORDS
        invariant forall k :: 0 <= k < i ==> words[k] == 0
      {
        words[i] := 0;
      }
      forall k: nat | k < 64 ensures !BitIn(0, k) {
        ZeroHasNoBit(k);
      }
    }
  }
}
