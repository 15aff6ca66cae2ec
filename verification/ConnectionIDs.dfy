/** Two ShortIDs with one ConnectionID: the field of protocol/quic.go does not determine the ShortID, even with the key. */
module ConnectionIDs {
  import opened Bytes
  import opened QuicHeader

  // ─── Exclusive or by halving ─────────────────────────────────────

  predicate Halves(xs: seq<nat>) {
    forall i :: 0 <= i < |xs| - 1 ==> xs[i] / 2 == xs[i + 1]
  }

  predicate Combined(xs: seq<nat>, ys: seq<nat>, zs: seq<nat>) {
    && |xs| == |ys| == |zs|
    && forall i :: 0 <= i < |xs| - 1 ==> zs[i] == 2 * zs[i + 1] + (xs[i] % 2 + ys[i] % 2) % 2
  }

  /** xs and ys halve step by step until ys is zero; zs is their exclusive or at each step. */
  predicate Halving(xs: seq<nat>, ys: seq<nat>, zs: seq<nat>) {
    Halves(xs) && Halves(ys) && Combined(xs, ys, zs) && |xs| > 0 && ys[|ys| - 1] == 0 && zs[|zs| - 1] == xs[|xs| - 1]
  }

  lemma {:induction false} XorByHalving(xs: seq<nat>, ys: seq<nat>, zs: seq<nat>, k: nat)
    requires Halving(xs, ys, zs) && k < |xs|
    ensures Xor(xs[k], ys[k]) == zs[k]
    decreases |xs| - k
  {
    if k == |xs| - 1 {
      XorZero(xs[k]);
    } else {
      XorByHalving(xs, ys, zs, k + 1);
      FromHalves(xs[k], ys[k], zs[k + 1]);
    }
  }

  lemma FromHalves(x: nat, y: nat, h: nat)
    requires Xor(x / 2, y / 2) == h
    ensures Xor(x, y) == 2 * h + (x % 2 + y % 2) % 2
  {
    XorStep(x, y);
  }

  // ─── Hashing on the low bits ─────────────────────────────────────

  lemma RoundsMore(h: u64, data: seq<byte>, b: byte)
    ensures Fnv.Rounds(h, data + [b]) == Fnv.Round(Fnv.Rounds(h, data), b)
  {
    assert (data + [b])[..|data|] == data;
  }

  /** A round with a byte on known low bits. */
  lemma KnownRound(h: u64, b: byte, r: nat, x: nat, next: nat)
    requires h % 0x80000 == r && Xor(r, b) % 0x80000 == x && next == 435 * x % 0x80000
    ensures Fnv.Round(h, b) % 0x80000 == next
  {
    LowOfXor(h, r, b);
    Fnv.RoundLow19(h, b, x);
  }

  lemma LowOfXor(h: nat, r: nat, b: nat)
    requires h % 0x80000 == r
    ensures Xor(h, b) % 0x80000 == Xor(r, b) % 0x80000
  {
    Fnv.XorOnLow19(h, r, b);
  }

  /** A zero byte only multiplies. */
  lemma ZeroRound(h: u64, zero: byte, r: nat, next: nat)
    requires zero == 0 && h % 0x80000 == r && next == 435 * r % 0x80000
    ensures Fnv.Round(h, zero) % 0x80000 == next
  {
    XorZero(r);
    KnownRound(h, zero, r, r, next);
  }

  function Zeros(n: nat): seq<byte> {
    seq(n, _ => 0)
  }

  /** Each number is the low bits of the one before after a zero byte. */
  predicate Chain(rs: seq<nat>) {
    forall i :: 0 <= i < |rs| - 1 ==> rs[i + 1] == 435 * rs[i] % 0x80000
  }

  lemma {:induction false} ZerosHashed(h: u64, n: nat, rs: seq<nat>)
    requires |rs| > n && Chain(rs) && h % 0x80000 == rs[0]
    ensures Fnv.Rounds(h, Zeros(n)) % 0x80000 == rs[n]
    decreases n
  {
    if n > 0 {
      ZerosHashed(h, n - 1, rs);
      assert Zeros(n) == Zeros(n - 1) + [0];
      RoundsMore(h, Zeros(n - 1), 0);
      assert rs[n - 1 + 1] == 435 * rs[n - 1] % 0x80000;
      ZeroRound(Fnv.Rounds(h, Zeros(n - 1)), 0, rs[n - 1], rs[n]);
    }
  }

  // ─── The collision ───────────────────────────────────────────────

  predicate AllZero(key: seq<byte>) {
    |key| == 32 && forall i :: 0 <= i < 32 ==> key[i] == 0
  }

  lemma MaskInput(key: seq<byte>, shortID: u16, n: nat)
    requires AllZero(key) && shortID < 256 && n == 8
    ensures key[..8] + [shortID % 256, shortID / 256] == Zeros(n) + [shortID] + [0]
  {
  }

  lemma LowOfLow(h: nat, r: nat)
    requires h % 0x80000 == r
    ensures h % 65536 == r % 65536
  {
  }

  /** A computation of one ConnectionID under the zero key. rs: the low bits of the hash after each zero byte; zs: the last of
      them with the ShortID; y, z: after two multiplications; ws: the mask with the ShortID. */
  datatype Computation = Computation(rs: seq<nat>, xs: seq<nat>, ys: seq<nat>, zs: seq<nat>, y: nat, z: nat,
                                     us: seq<nat>, vs: seq<nat>, ws: seq<nat>)

  /** Its numbers are right for a ShortID. */
  predicate Right(c: Computation, shortID: nat) {
    && shortID < 256 && |c.rs| == 9 && Chain(c.rs) && Fnv.OFFSET % 0x80000 == c.rs[0]
    && Halving(c.xs, c.ys, c.zs) && c.xs[0] == c.rs[8] && c.ys[0] == shortID && c.zs[0] < 0x80000
    && c.y == 435 * c.zs[0] % 0x80000 && c.z == 435 * c.y % 0x80000
    && Halving(c.us, c.vs, c.ws) && c.us[0] == c.z % 65536 && c.vs[0] == shortID
  }

  lemma MaskComputed(key: seq<byte>, n: nat, c: Computation, shortID: u16)
    requires AllZero(key) && n == 8 && Right(c, shortID)
    ensures IDMask(key, shortID) == c.z % 65536
  {
    MaskInput(key, shortID, n);
    HashComputed(Fnv.OFFSET, n, c, shortID);
    LowOfLow(Fnv.Rounds(Fnv.OFFSET, Zeros(n) + [shortID] + [0]), c.z);
  }

  lemma HashComputed(start: u64, n: nat, c: Computation, shortID: byte)
    requires n == 8 && Right(c, shortID) && start == Fnv.OFFSET
    ensures Fnv.Rounds(start, Zeros(n) + [shortID] + [0]) % 0x80000 == c.z
  {
    ZerosHashed(start, n, c.rs);
    var h := Fnv.Rounds(start, Zeros(n));
    XorByHalving(c.xs, c.ys, c.zs, 0);
    KnownRound(h, shortID, c.rs[n], c.zs[0], c.y);
    ZeroRound(Fnv.Round(h, shortID), 0, c.y, c.z);
    RoundsMore(start, Zeros(n), shortID);
    RoundsMore(start, Zeros(n) + [shortID], 0);
  }

  lemma FieldComputed(key: seq<byte>, n: nat, c: Computation, shortID: u16)
    requires AllZero(key) && n == 8 && Right(c, shortID)
    ensures ConnID(key, shortID) == c.ws[0]
  {
    MaskComputed(key, n, c, shortID);
    XorByHalving(c.us, c.vs, c.ws, 0);
    XorCommutes(shortID, c.us[0]);
  }

  lemma SameField(key: seq<byte>, n: nat, c: Computation, a: u16, d: Computation, b: u16)
    requires AllZero(key) && n == 8 && Right(c, a) && Right(d, b) && c.ws[0] == d.ws[0]
    ensures ConnID(key, a) == ConnID(key, b)
  {
    FieldComputed(key, n, c, a);
    FieldComputed(key, n, d, b);
  }

  lemma EightZeros()
    ensures Chain([140069, 112607, 225261, 470967, 398325, 256335, 356669, 486055, 145861]) && Fnv.OFFSET % 0x80000 == 140069
  {
  }

  lemma OfTwoHashHalves()
    ensures Halves([145861, 72930, 36465]) && Halves([2, 1, 0])
  {
  }

  lemma OfTwoHashCombined()
    ensures Combined([145861, 72930, 36465], [2, 1, 0], [145863, 72931, 36465])
  {
  }

  lemma OfTwoHash()
    ensures Halving([145861, 72930, 36465], [2, 1, 0], [145863, 72931, 36465])
  {
    OfTwoHashHalves();
    OfTwoHashCombined();
  }

  lemma OfTwoMask()
    ensures 11557 == 435 * 145863 % 0x80000 && 308703 == 435 * 11557 % 0x80000 && 308703 % 65536 == 46559
  {
  }

  lemma OfTwoFieldHalves()
    ensures Halves([46559, 23279, 11639]) && Halves([2, 1, 0])
  {
  }

  lemma OfTwoFieldCombined()
    ensures Combined([46559, 23279, 11639], [2, 1, 0], [46557, 23278, 11639])
  {
  }

  lemma OfTwoField()
    ensures Halving([46559, 23279, 11639], [2, 1, 0], [46557, 23278, 11639])
  {
    OfTwoFieldHalves();
    OfTwoFieldCombined();
  }

  function OfTwo(): Computation {
    Computation([140069, 112607, 225261, 470967, 398325, 256335, 356669, 486055, 145861],
                [145861, 72930, 36465], [2, 1, 0], [145863, 72931, 36465], 11557, 308703,
                [46559, 23279, 11639], [2, 1, 0], [46557, 23278, 11639])
  }

  lemma OfTwoRight()
    ensures Right(OfTwo(), 2) && OfTwo().ws[0] == 46557
  {
    EightZeros();
    OfTwoHash();
    OfTwoMask();
    OfTwoField();
  }

  lemma Of252HashHalves()
    ensures Halves([145861, 72930, 36465, 18232, 9116, 4558, 2279, 1139, 569]) && Halves([252, 126, 63, 31, 15, 7, 3, 1, 0])
  {
  }

  lemma Of252HashCombined()
    ensures Combined([145861, 72930, 36465, 18232, 9116, 4558, 2279, 1139, 569], [252, 126, 63, 31, 15, 7, 3, 1, 0], [145721, 72860, 36430, 18215, 9107, 4553, 2276, 1138, 569])
  {
  }

  lemma Of252Hash()
    ensures Halving([145861, 72930, 36465, 18232, 9116, 4558, 2279, 1139, 569], [252, 126, 63, 31, 15, 7, 3, 1, 0], [145721, 72860, 36430, 18215, 9107, 4553, 2276, 1138, 569])
  {
    Of252HashHalves();
    Of252HashCombined();
  }

  lemma Of252Mask()
    ensures 474075 == 435 * 145721 % 0x80000 && 177441 == 435 * 474075 % 0x80000 && 177441 % 65536 == 46369
  {
  }

  lemma Of252FieldHalves()
    ensures Halves([46369, 23184, 11592, 5796, 2898, 1449, 724, 362, 181]) && Halves([252, 126, 63, 31, 15, 7, 3, 1, 0])
  {
  }

  lemma Of252FieldCombined()
    ensures Combined([46369, 23184, 11592, 5796, 2898, 1449, 724, 362, 181], [252, 126, 63, 31, 15, 7, 3, 1, 0], [46557, 23278, 11639, 5819, 2909, 1454, 727, 363, 181])
  {
  }

  lemma Of252Field()
    ensures Halving([46369, 23184, 11592, 5796, 2898, 1449, 724, 362, 181], [252, 126, 63, 31, 15, 7, 3, 1, 0], [46557, 23278, 11639, 5819, 2909, 1454, 727, 363, 181])
  {
    Of252FieldHalves();
    Of252FieldCombined();
  }

  function Of252(): Computation {
    Computation([140069, 112607, 225261, 470967, 398325, 256335, 356669, 486055, 145861],
                [145861, 72930, 36465, 18232, 9116, 4558, 2279, 1139, 569], [252, 126, 63, 31, 15, 7, 3, 1, 0], [145721, 72860, 36430, 18215, 9107, 4553, 2276, 1138, 569], 474075, 177441,
                [46369, 23184, 11592, 5796, 2898, 1449, 724, 362, 181], [252, 126, 63, 31, 15, 7, 3, 1, 0], [46557, 23278, 11639, 5819, 2909, 1454, 727, 363, 181])
  }

  lemma Of252Right()
    ensures Right(Of252(), 252) && Of252().ws[0] == 46557
  {
    EightZeros();
    Of252Hash();
    Of252Mask();
    Of252Field();
  }

  /** Under the zero key the ShortIDs 2 and 252 have the same ConnectionID. */
  lemma ConnectionIDsCollide(key: seq<byte>, a: u16, b: u16)
    requires AllZero(key) && a == 2 && b == 252
    ensures ConnID(key, a) == ConnID(key, b)
  {
    OfTwoRight();
    Of252Right();
    SameField(key, 8, OfTwo(), a, Of252(), b);
  }
}
