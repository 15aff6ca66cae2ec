/** Machine words as bounded integers, their bitwise operations, and the big-endian byte strings that carry them. */
module Bytes {

  const TWO64: nat := 0x1_0000_0000_0000_0000

  type byte = x: nat | x < 0x100
  type u16 = x: nat | x < 0x1_0000
  type u64 = x: nat | x < 0x1_0000_0000_0000_0000

  datatype Option<+T> = None | Some(value: T)

  datatype Result<+T, +E> = Ok(value: T) | Err(error: E)

  // ─── Big-endian integers ─────────────────────────────────────────

  /** PutUint16(uint16(n)): the conversion keeps n modulo 2^16. */
  function PutU16(n: nat): seq<byte> {
    [n / 0x100 % 0x100, n % 0x100]
  }

  function GetU16(b: seq<byte>): u16
    requires |b| >= 2
  {
    var hi: nat := b[0];
    hi * 0x100 + b[1]
  }

  /** PutUint32(uint32(n)): the conversion keeps n modulo 2^32. */
  function PutU32(n: nat): seq<byte> {
    [n / 0x100_0000 % 0x100, n / 0x1_0000 % 0x100, n / 0x100 % 0x100, n % 0x100]
  }

  function GetU32(b: seq<byte>): nat
    requires |b| >= 4
  {
    var b3: nat, b2: nat, b1: nat := b[0], b[1], b[2];
    b3 * 0x100_0000 + b2 * 0x1_0000 + b1 * 0x100 + b[3]
  }

  lemma U16RoundTrip(n: nat, rest: seq<byte>)
    ensures GetU16(PutU16(n) + rest) == n % 0x1_0000
  {
  }

  lemma FourDigits(n: nat, q1: nat, q2: nat, q3: nat)
    requires q1 == n / 0x100 && q2 == q1 / 0x100 && q3 == q2 / 0x100
    ensures q3 % 0x100 * 0x100_0000 + q2 % 0x100 * 0x1_0000 + q1 % 0x100 * 0x100 + n % 0x100 == n % 0x1_0000_0000
  {
    var q4 := q3 / 0x100;
    assert n == q4 * 0x1_0000_0000 + (q3 % 0x100 * 0x100_0000 + q2 % 0x100 * 0x1_0000 + q1 % 0x100 * 0x100 + n % 0x100);
  }

  lemma U32RoundTrip(n: nat, rest: seq<byte>)
    ensures GetU32(PutU32(n) + rest) == n % 0x1_0000_0000
  {
    var q1, q2, q3 := n / 0x100, n / 0x1_0000, n / 0x100_0000;
    assert q2 == q1 / 0x100 && q3 == q2 / 0x100;
    FourDigits(n, q1, q2, q3);
  }

  /** Go's copy into buf at off: the range [off, off + |src|) becomes src, the rest is kept. */
  method CopyInto(buf: array<byte>, off: nat, src: seq<byte>)
    requires off + |src| <= buf.Length
    modifies buf
    ensures buf[..] == old(buf[..off]) + src + old(buf[off + |src|..])
  {
    for i := 0 to |src|
      invariant buf[..off] == old(buf[..off])
      invariant buf[off..off + i] == src[..i]
      invariant buf[off + i..] == old(buf[off + i..])
    {
      buf[off + i] := src[i];
      assert buf[off..off + i + 1] == buf[off..off + i] + [src[i]];
    }
    assert buf[..] == buf[..off] + buf[off..off + |src|] + buf[off + |src|..];
  }

  // ─── Exclusive or ────────────────────────────────────────────────

  /** Bitwise exclusive or. */
  function Xor(x: nat, y: nat): nat
    decreases x + y
  {
    if x == 0 && y == 0 then 0 else 2 * Xor(x / 2, y / 2) + (x % 2 + y % 2) % 2
  }

  /** The n low bits of x. */
  function Low(x: nat, n: nat): nat {
    if n == 0 then 0 else 2 * Low(x / 2, n - 1) + x % 2
  }

  function Pow2(n: nat): (r: nat)
    ensures r > 0
  {
    if n == 0 then 1 else 2 * Pow2(n - 1)
  }

  lemma Pow2Byte(n: nat)
    ensures Pow2(n + 8) == 0x100 * Pow2(n)
  {
    assert Pow2(n + 4) == 0x10 * Pow2(n) by {
      assert Pow2(n + 2) == 4 * Pow2(n);
    }
    assert Pow2(n + 6) == 4 * Pow2(n + 4);
  }

  lemma PowersUsed()
    ensures Pow2(19) == 0x80000 && Pow2(64) == TWO64 && Pow2(16) == 0x1_0000 && Pow2(8) == 0x100
  {
    assert Pow2(3) == 8;
    Pow2Byte(3);
    Pow2Byte(11);
    assert Pow2(0) == 1;
    Pow2Byte(0);
    Pow2Byte(8);
    Pow2Byte(16);
    Pow2Byte(24);
    Pow2Byte(32);
    Pow2Byte(40);
    Pow2Byte(48);
    Pow2Byte(56);
  }

  lemma {:induction false} XorBelow(x: nat, y: nat, n: nat)
    requires x < Pow2(n) && y < Pow2(n)
    ensures Xor(x, y) < Pow2(n)
    decreases n
  {
    if n > 0 && (x > 0 || y > 0) {
      XorBelow(x / 2, y / 2, n - 1);
    }
  }

  lemma XorWord(x: u64, y: u64)
    ensures Xor(x, y) < TWO64
  {
    PowersUsed();
    XorBelow(x, y, 64);
  }

  lemma XorByte(x: byte, y: byte)
    ensures Xor(x, y) < 0x100
  {
    PowersUsed();
    XorBelow(x, y, 8);
  }

  lemma XorU16(x: u16, y: u16)
    ensures Xor(x, y) < 0x1_0000
  {
    PowersUsed();
    XorBelow(x, y, 16);
  }

  lemma {:induction false} XorCancels(x: nat, o: nat)
    ensures Xor(Xor(x, o), o) == x
    decreases x + o
  {
    if x != 0 || o != 0 {
      XorStep(x, o);
      XorCancels(x / 2, o / 2);
      ParityTwice(x, Xor(x, o), o);
      XorUndoneHere(x, o, Xor(x, o), x / 2, x % 2);
    }
  }

  lemma XorUndoneHere(x: nat, o: nat, y: nat, h: nat, b: nat)
    requires Xor(y / 2, o / 2) == h && x == 2 * h + b
    requires (y % 2 + o % 2) % 2 == b
    ensures Xor(y, o) == x
  {
  }

  lemma ParityTwice(x: nat, y: nat, o: nat)
    requires y % 2 == (x % 2 + o % 2) % 2
    ensures (y % 2 + o % 2) % 2 == x % 2
  {
  }

  lemma SumParity(x: nat, y: nat, o: nat)
    ensures (x % 2 + o % 2) % 2 == (y % 2 + o % 2) % 2 <==> x % 2 == y % 2
  {
  }

  lemma LowStep(x: nat, y: nat, n: nat)
    requires n > 0
    ensures Low(x, n) == Low(y, n) <==> x % 2 == y % 2 && Low(x / 2, n - 1) == Low(y / 2, n - 1)
  {
  }

  /** Exclusive or with a fixed word is injective on the low bits, however many are kept. */
  lemma {:induction false} XorOnLowBits(x: nat, y: nat, o: nat, n: nat)
    ensures Low(Xor(x, o), n) == Low(Xor(y, o), n) <==> Low(x, n) == Low(y, n)
    decreases n
  {
    if n > 0 {
      XorOnLowBits(x / 2, y / 2, o / 2, n - 1);
      var a, b := Xor(x, o), Xor(y, o);
      XorStep(x, o);
      XorStep(y, o);
      LowStep(x, y, n);
      LowStep(a, b, n);
      SumParity(x, y, o);
    }
  }

  lemma XorStep(x: nat, y: nat)
    ensures Xor(x, y) / 2 == Xor(x / 2, y / 2) && Xor(x, y) % 2 == (x % 2 + y % 2) % 2
  {
  }

  lemma {:induction false} LowIsRemainder(x: nat, n: nat)
    ensures Low(x, n) == x % Pow2(n)
  {
    if n > 0 {
      LowIsRemainder(x / 2, n - 1);
      DoubledRemainder(x, Pow2(n - 1));
    }
  }

  lemma DoubledRemainder(x: nat, p: nat)
    requires p > 0
    ensures x % (2 * p) == 2 * (x / 2 % p) + x % 2
  {
    var h := x / 2;
    var q, r := h / p, h % p;
    assert h == q * p + r;
    assert q * (2 * p) == 2 * (q * p);
    Remainder(x, 2 * p, q, 2 * r + x % 2);
  }

  lemma Remainder(x: nat, m: nat, q: nat, r: nat)
    requires r < m && x == q * m + r
    ensures x % m == r
  {
    var e := x / m;
    MulDiff(e, q, m);
    if e > q {
      MulAtLeast(e - q, m);
      assert false;
    } else if q > e {
      MulAtLeast(q - e, m);
      assert false;
    }
  }

  lemma MulDiff(a: nat, b: nat, m: nat)
    ensures (a - b) * m == a * m - b * m && (b - a) * m == b * m - a * m
  {
  }

  lemma MulAtLeast(d: nat, m: nat)
    requires d >= 1
    ensures d * m >= m
  {
  }

  lemma {:induction false} XorZero(x: nat)
    ensures Xor(x, 0) == x
  {
    if x > 0 {
      XorZero(x / 2);
    }
  }

  lemma {:induction false} XorCommutes(x: nat, y: nat)
    ensures Xor(x, y) == Xor(y, x)
    decreases x + y
  {
    if x > 0 || y > 0 {
      XorCommutes(x / 2, y / 2);
    }
  }

  /** Two masks applied one after the other cancel exactly when they are equal. */
  lemma XorMasksCancel(x: nat, a: nat, b: nat)
    ensures Xor(Xor(x, a), b) == x <==> a == b
  {
    var y := Xor(x, a);
    XorCancels(x, a);
    if Xor(y, b) == x {
      XorCommutes(y, a);
      XorCommutes(y, b);
      XorCancels(a, y);
      XorCancels(b, y);
    }
  }

  /** A mask below 2^5 leaves the higher bits alone. */
  lemma XorKeepsHighBits(x: nat, m: nat)
    requires m < 32
    ensures Xor(x, m) / 32 == x / 32
  {
    XorStep(x, m);
    XorStep(x / 2, m / 2);
    XorStep(x / 2 / 2, m / 2 / 2);
    XorStep(x / 2 / 2 / 2, m / 2 / 2 / 2);
    XorStep(x / 2 / 2 / 2 / 2, m / 2 / 2 / 2 / 2);
    FifthHalf(x);
    FifthHalf(m);
    FifthHalf(Xor(x, m));
    XorZero(x / 32);
  }

  lemma FifthHalf(x: nat)
    ensures x / 2 / 2 / 2 / 2 / 2 == x / 32
  {
  }

  // ─── What the words above mean ───────────────────────────────────

  /** A byte string read as one number, most significant byte first. */
  function ValueOf(b: seq<byte>): nat {
    if |b| == 0 then 0 else 256 * ValueOf(b[..|b| - 1]) + b[|b| - 1]
  }

  lemma ValueOfTwo(b: seq<byte>)
    requires |b| == 2
    ensures ValueOf(b) == GetU16(b)
  {
    assert b[..1] == [b[0]] && b[..1][..0] == [];
    assert ValueOf(b[..1]) == b[0];
  }

  lemma ValueOfFour(b: seq<byte>)
    requires |b| == 4
    ensures ValueOf(b) == GetU32(b)
  {
    ValueOfTwo(b[..2]);
    assert b[..3][..2] == b[..2];
    assert ValueOf(b[..3]) == 256 * ValueOf(b[..2]) + b[2];
  }

  /** The fields hold n modulo 2^16 and 2^32, most significant byte first. */
  lemma BigEndian(n: nat)
    ensures |PutU16(n)| == 2 && ValueOf(PutU16(n)) == n % 65536
    ensures |PutU32(n)| == 4 && ValueOf(PutU32(n)) == n % 4294967296
  {
    ValueOfTwo(PutU16(n));
    ValueOfFour(PutU32(n));
    U16RoundTrip(n, []);
    U32RoundTrip(n, []);
    assert PutU16(n) + [] == PutU16(n) && PutU32(n) + [] == PutU32(n);
  }

  /** Bit k of a word. */
  predicate Bit(x: nat, k: nat) {
    x / Pow2(k) % 2 == 1
  }

  lemma BitOfHalf(x: nat, k: nat)
    requires k > 0
    ensures Bit(x, k) <==> Bit(x / 2, k - 1)
  {
    HalfThen(x, Pow2(k - 1));
  }

  lemma HalfThen(x: nat, p: nat)
    requires p > 0
    ensures x / (2 * p) == x / 2 / p
  {
    var q, r := x / 2 / p, x / 2 % p;
    assert x / 2 == p * q + r;
    assert x == 2 * (p * q + r) + x % 2;
    assert x == (2 * p) * q + (2 * r + x % 2) by {
      assert (2 * p) * q == 2 * (p * q);
    }
    QuotientIs(x, 2 * p, q, 2 * r + x % 2);
  }

  lemma QuotientIs(x: nat, d: nat, q: nat, r: nat)
    requires r < d && x == d * q + r
    ensures x / d == q
  {
    var k, m := x / d, x % d;
    assert x == d * k + m;
    assert d * (k - q) == r - m;
    if k > q {
      MulAtLeast(k - q, d);
    } else if k < q {
      MulAtLeast(q - k, d);
    }
  }

  /** Exclusive or, bit by bit. */
  lemma {:induction false} XorBitwise(x: nat, y: nat, k: nat)
    ensures Bit(Xor(x, y), k) <==> Bit(x, k) != Bit(y, k)
    decreases k
  {
    XorStep(x, y);
    if k > 0 {
      BitOfHalf(x, k);
      BitOfHalf(y, k);
      BitOfHalf(Xor(x, y), k);
      XorBitwise(x / 2, y / 2, k - 1);
    } else {
      assert Pow2(0) == 1;
    }
  }
}
