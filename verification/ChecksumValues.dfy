/**
 The checksum by its values: the check value of the digits 1 to 9, and the register every message
 leaves behind when its own checksum follows it.
 */
module ChecksumValues {
  import opened ShiftRegister
  import opened Bits
  import opened Crc32

  // ---- registers as words of any machine ----

  /** A word's operations: dropping its lowest bit, reading that bit, mixing two words. */
  datatype Machine<!W> = Machine(half: W -> W, odd: W -> bool, mix: (W, W) -> W)

  /** The n lowest bits of a word, lowest first. */
  function BitsIn<W>(m: Machine<W>, w: W, n: nat): (bits: seq<bool>)
    ensures |bits| == n
    decreases n
  {
    if n == 0 then [] else [m.odd(w)] + BitsIn(m, m.half(w), n - 1)
  }

  ghost predicate HalfMixes<W(!new)>(half: W -> W, mix: (W, W) -> W) {
    forall a, b :: half(mix(a, b)) == mix(half(a), half(b))
  }

  ghost predicate OddMixes<W(!new)>(odd: W -> bool, mix: (W, W) -> W) {
    forall a, b :: odd(mix(a, b)) == (odd(a) != odd(b))
  }

  ghost predicate MixesBits<W(!new)>(m: Machine<W>) {
    HalfMixes(m.half, m.mix) && OddMixes(m.odd, m.mix)
  }

  /** No bit is left after dropping 32. */
  ghost predicate Has32Bits<W(!new)>(m: Machine<W>) {
    forall w :: !m.odd(Iterate(m.half, w, 32))
  }

  lemma {:induction false} MixedBit<W(!new)>(m: Machine<W>, a: W, b: W, n: nat, i: nat)
    requires MixesBits(m) && i < n
    ensures BitsIn(m, m.mix(a, b), n)[i] == (BitsIn(m, a, n)[i] != BitsIn(m, b, n)[i])
    decreases n
  {
    if i > 0 {
      MixedBit(m, m.half(a), m.half(b), n - 1, i - 1);
    }
  }

  lemma MixedBits<W(!new)>(m: Machine<W>, a: W, b: W)
    requires MixesBits(m)
    ensures BitsIn(m, m.mix(a, b), 32) == Xor(BitsIn(m, a, 32), BitsIn(m, b, 32))
  {
    forall i | 0 <= i < 32 ensures BitsIn(m, m.mix(a, b), 32)[i] == Xor(BitsIn(m, a, 32), BitsIn(m, b, 32))[i] {
      MixedBit(m, a, b, 32, i);
    }
  }

  lemma {:induction false} LastBit<W>(m: Machine<W>, w: W, n: nat)
    ensures BitsIn(m, w, n + 1) == BitsIn(m, w, n) + [m.odd(Iterate(m.half, w, n))]
    decreases n
  {
    if n > 0 {
      LastBit(m, m.half(w), n - 1);
    }
  }

  lemma HalfDrops<W(!new)>(m: Machine<W>, w: W)
    requires Has32Bits(m)
    ensures BitsIn(m, m.half(w), 32) == DropBit(BitsIn(m, w, 32))
  {
    LastBit(m, m.half(w), 31);
    assert Iterate(m.half, w, 32) == Iterate(m.half, m.half(w), 31);
  }

  /** Step shifts a word as the register shifts its bits. */
  ghost predicate StepsWith<W(!new)>(m: Machine<W>, poly: W, step: W -> W) {
    forall w :: step(w) == if m.odd(w) then m.mix(poly, m.half(w)) else m.half(w)
  }

  lemma StepShifts<W(!new)>(m: Machine<W>, poly: W, step: W -> W, w: W)
    requires MixesBits(m) && Has32Bits(m) && StepsWith(m, poly, step) && BitsIn(m, poly, 32) == POLYNOMIAL
    ensures BitsIn(m, step(w), 32) == Shift(BitsIn(m, w, 32))
  {
    HalfDrops(m, w);
    MixedBits(m, poly, m.half(w));
    assert BitsIn(m, w, 32)[0] == m.odd(w);
  }

  function RegisterOf<W>(m: Machine<W>): W -> Bits32 {
    w => BitsIn(m, w, 32)
  }

  ghost predicate ShiftsLike<W(!new)>(m: Machine<W>, step: W -> W) {
    forall w :: RegisterOf(m)(step(w)) == Shift(RegisterOf(m)(w))
  }

  lemma AllStepsShift<W(!new)>(m: Machine<W>, poly: W, step: W -> W)
    requires MixesBits(m) && Has32Bits(m) && StepsWith(m, poly, step) && BitsIn(m, poly, 32) == POLYNOMIAL
    ensures ShiftsLike(m, step)
  {
    forall w ensures RegisterOf(m)(step(w)) == Shift(RegisterOf(m)(w)) {
      StepShifts(m, poly, step, w);
    }
  }

  // ---- 32-bit words ----

  function Half(w: bv32): bv32 {
    w >> 1
  }

  function Odd(w: bv32): bool {
    w & 1 != 0
  }

  function Mix(a: bv32, b: bv32): bv32 {
    a ^ b
  }

  function Step(w: bv32): bv32 {
    if w & 1 != 0 then 0xEDB88320 ^ (w >> 1) else w >> 1
  }

  function Words(): Machine<bv32> {
    Machine(Half, Odd, Mix)
  }

  lemma HalfOfMix(a: bv32, b: bv32)
    ensures (a ^ b) >> 1 == (a >> 1) ^ (b >> 1)
  {
  }

  lemma OddOfMix(a: bv32, b: bv32)
    ensures ((a ^ b) & 1 != 0) == ((a & 1 != 0) != (b & 1 != 0))
  {
  }

  lemma HalvesMix(half: bv32 -> bv32, mix: (bv32, bv32) -> bv32)
    requires half == Half && mix == Mix
    ensures HalfMixes(half, mix)
  {
    forall a: bv32, b: bv32 ensures half(mix(a, b)) == mix(half(a), half(b)) {
      HalfOfMix(a, b);
    }
  }

  lemma OddsMix(odd: bv32 -> bool, mix: (bv32, bv32) -> bv32)
    requires odd == Odd && mix == Mix
    ensures OddMixes(odd, mix)
  {
    forall a: bv32, b: bv32 ensures odd(mix(a, b)) == (odd(a) != odd(b)) {
      OddOfMix(a, b);
    }
  }

  lemma WordsStep()
    ensures StepsWith(Words(), 0xEDB88320, Step)
  {
  }

  /** A number and a word have the same n lowest bits. */
  predicate Same(v: nat, w: bv32, n: nat)
    decreases n
  {
    n == 0 || ((v % 2 == 1) == (w & 1 != 0) && Same(v / 2, w >> 1, n - 1))
  }

  lemma {:induction false} SameBits(v: nat, w: bv32, n: nat)
    requires Same(v, w, n)
    ensures BitsOf(v, n) == BitsIn(Words(), w, n)
    decreases n
  {
    if n > 0 {
      SameBits(v / 2, w >> 1, n - 1);
    }
  }

  function Steps(w: bv32, n: nat): bv32
    decreases n
  {
    if n == 0 then w else Steps(Step(w), n - 1)
  }

  lemma {:induction false} StepsIterate(w: bv32, n: nat)
    ensures Iterate<bv32>(Step, w, n) == Steps(w, n)
    decreases n
  {
    if n > 0 {
      StepsIterate(Step(w), n - 1);
    }
  }

  function Halves(w: bv32, n: nat): bv32
    decreases n
  {
    if n == 0 then w else Halves(w >> 1, n - 1)
  }

  lemma {:induction false} HalvesIterate(w: bv32, n: nat)
    ensures Iterate<bv32>(Half, w, n) == Halves(w, n)
    decreases n
  {
    if n > 0 {
      HalvesIterate(w >> 1, n - 1);
    }
  }

  lemma PolynomialWord()
    ensures BitsIn(Words(), 0xEDB88320, 32) == POLYNOMIAL
  {
    assert Same(0xED, 0xED, 8);
    assert Same(0xEDB8, 0xEDB8, 16);
    assert Same(0xEDB883, 0xEDB883, 24);
    SameBits(0xEDB88320, 0xEDB88320, 32);
  }

  lemma {:induction false} HalvesTwice(w: bv32, m: nat, n: nat)
    ensures Halves(w, m + n) == Halves(Halves(w, m), n)
    decreases m
  {
    if m > 0 {
      HalvesTwice(w >> 1, m - 1, n);
    }
  }

  lemma EightHalves(w: bv32)
    ensures Halves(w, 8) == w >> 8
  {
    HalvesTwice(w, 4, 4);
  }

  lemma WordsEnd(w: bv32)
    ensures Halves(w, 32) == 0
  {
    HalvesTwice(w, 8, 24);
    HalvesTwice(w >> 8, 8, 16);
    HalvesTwice(w >> 16, 8, 8);
    EightHalves(w);
    EightHalves(w >> 8);
    EightHalves(w >> 16);
    EightHalves(w >> 24);
  }

  lemma WordsHave32Bits(half: bv32 -> bv32, odd: bv32 -> bool)
    requires half == Half && odd == Odd
    ensures forall w :: !odd(Iterate(half, w, 32))
  {
    forall w: bv32 ensures !odd(Iterate(half, w, 32)) {
      HalvesIterate(w, 32);
      WordsEnd(w);
    }
  }

  lemma WordsShift(m: Machine<bv32>, step: bv32 -> bv32)
    requires m == Words() && step == Step
    ensures ShiftsLike(m, step)
  {
    HalvesMix(m.half, m.mix);
    OddsMix(m.odd, m.mix);
    WordsStep();
    WordsHave32Bits(m.half, m.odd);
    PolynomialWord();
    AllStepsShift(m, 0xEDB88320, step);
  }

  /** The register after n shifts, by machine words. */
  lemma RegisterByWords(w: bv32, n: nat)
    ensures Iterate<Bits32>(Shift, BitsIn(Words(), w, 32), n) == BitsIn(Words(), Steps(w, n), 32)
  {
    WordsShift(Words(), Step);
    IterateMaps(RegisterOf(Words()), Step, Shift, w, n);
    StepsIterate(w, n);
  }

  // ---- the check value ----

  lemma {:induction false} ZeroSame(n: nat)
    ensures Same(0, 0, n)
  {
    if n > 0 {
      ZeroSame(n - 1);
    }
  }

  lemma {:induction false} OnesAre(n: nat)
    ensures BitsOf(Power(n) - 1, n) == Ones(n)
  {
    if n > 0 {
      OnesAre(n - 1);
      assert (Power(n) - 1) / 2 == Power(n - 1) - 1;
      assert Ones(n) == [true] + Ones(n - 1);
    }
  }

  lemma OnesWord()
    ensures BitsIn(Words(), 0xFFFFFFFF, 32) == ONES
  {
    assert Power(8) == 0x100 && Power(16) == 0x1_0000 && Power(24) == 0x100_0000 && Power(32) == 0x1_0000_0000;
    OnesAre(32);
    assert Same(0xFF, 0xFF, 8);
    assert Same(0xFFFF, 0xFFFF, 16);
    assert Same(0xFFFFFF, 0xFFFFFF, 24);
    SameBits(0xFFFFFFFF, 0xFFFFFFFF, 32);
  }

  /** Mixing two words mixes their bits. */
  lemma MixedWords(a: bv32, b: bv32, x: bv32)
    requires x == Mix(a, b)
    ensures BitsIn(Words(), x, 32) == Xor(BitsIn(Words(), a, 32), BitsIn(Words(), b, 32))
  {
    HalvesMix(Half, Mix);
    OddsMix(Odd, Mix);
    MixedBits(Words(), a, b);
  }

  /** One byte of a message: the register mixed with it, and shifted eight times. */
  lemma FeedWord(r: bv32, b: byte, w: bv32, x: bv32, next: bv32)
    requires Same(b, w, 32) && x == Mix(r, w) && Steps(x, 8) == next
    ensures FeedByte(BitsIn(Words(), r, 32), b) == BitsIn(Words(), next, 32)
  {
    ByteAtOnce(BitsIn(Words(), r, 32), b);
    SameBits(b, w, 32);
    MixedWords(r, w, x);
    RegisterByWords(x, 8);
  }

  lemma Digit1()
    ensures FeedByte(BitsIn(Words(), 0xFFFFFFFF, 32), 0x31) == BitsIn(Words(), 0x7C231048, 32)
  {
    ZeroSame(24);
    FeedWord(0xFFFFFFFF, 0x31, 0x31, 0xFFFFFFCE, 0x7C231048);
  }

  lemma Digit2()
    ensures FeedByte(BitsIn(Words(), 0x7C231048, 32), 0x32) == BitsIn(Words(), 0xB0ACBB32, 32)
  {
    ZeroSame(24);
    FeedWord(0x7C231048, 0x32, 0x32, 0x7C23107A, 0xB0ACBB32);
  }

  lemma Digit3()
    ensures FeedByte(BitsIn(Words(), 0xB0ACBB32, 32), 0x33) == BitsIn(Words(), 0x77B79C2D, 32)
  {
    ZeroSame(24);
    FeedWord(0xB0ACBB32, 0x33, 0x33, 0xB0ACBB01, 0x77B79C2D);
  }

  lemma Digit4()
    ensures FeedByte(BitsIn(Words(), 0x77B79C2D, 32), 0x34) == BitsIn(Words(), 0x641C1F5C, 32)
  {
    ZeroSame(24);
    FeedWord(0x77B79C2D, 0x34, 0x34, 0x77B79C19, 0x641C1F5C);
  }

  lemma Digit5()
    ensures FeedByte(BitsIn(Words(), 0x641C1F5C, 32), 0x35) == BitsIn(Words(), 0x340AC5E3, 32)
  {
    ZeroSame(24);
    FeedWord(0x641C1F5C, 0x35, 0x35, 0x641C1F69, 0x340AC5E3);
  }

  lemma Digit6()
    ensures FeedByte(BitsIn(Words(), 0x340AC5E3, 32), 0x36) == BitsIn(Words(), 0xF68D2C9E, 32)
  {
    ZeroSame(24);
    FeedWord(0x340AC5E3, 0x36, 0x36, 0x340AC5D5, 0xF68D2C9E);
  }

  lemma Digit7()
    ensures FeedByte(BitsIn(Words(), 0xF68D2C9E, 32), 0x37) == BitsIn(Words(), 0xAFFC9660, 32)
  {
    ZeroSame(24);
    FeedWord(0xF68D2C9E, 0x37, 0x37, 0xF68D2CA9, 0xAFFC9660);
  }

  lemma Digit8()
    ensures FeedByte(BitsIn(Words(), 0xAFFC9660, 32), 0x38) == BitsIn(Words(), 0x651F2550, 32)
  {
    ZeroSame(24);
    FeedWord(0xAFFC9660, 0x38, 0x38, 0xAFFC9658, 0x651F2550);
  }

  lemma Digit9()
    ensures FeedByte(BitsIn(Words(), 0x651F2550, 32), 0x39) == BitsIn(Words(), 0x340BC6D9, 32)
  {
    ZeroSame(24);
    FeedWord(0x651F2550, 0x39, 0x39, 0x651F2569, 0x340BC6D9);
  }

  lemma NineFed(c: Bits32, c1: Bits32, c2: Bits32, c3: Bits32, c4: Bits32, c5: Bits32, c6: Bits32, c7: Bits32, c8: Bits32, c9: Bits32)
    requires FeedByte(c, 0x31) == c1 && FeedByte(c1, 0x32) == c2 && FeedByte(c2, 0x33) == c3
    requires FeedByte(c3, 0x34) == c4 && FeedByte(c4, 0x35) == c5 && FeedByte(c5, 0x36) == c6
    requires FeedByte(c6, 0x37) == c7 && FeedByte(c7, 0x38) == c8 && FeedByte(c8, 0x39) == c9
    ensures FeedMessage(c, [0x31, 0x32, 0x33, 0x34] + ([0x35] + [0x36, 0x37, 0x38, 0x39])) == c9
  {
    FeedAppend(FeedByte, c, [0x31, 0x32, 0x33, 0x34], [0x35] + [0x36, 0x37, 0x38, 0x39]);
    FourFed(c, 0x31, 0x32, 0x33, 0x34);
    FirstFed(c4, 0x35, [0x36, 0x37, 0x38, 0x39]);
    FourFed(c5, 0x36, 0x37, 0x38, 0x39);
  }

  /** The check value that catalogues of checksums list for this one: that of the digits 1 to 9. */
  lemma CheckValue()
    ensures Checksum([0x31, 0x32, 0x33, 0x34, 0x35, 0x36, 0x37, 0x38, 0x39]) == BitsOf(0xCBF43926, 32)
  {
    assert [0x31, 0x32, 0x33, 0x34] + ([0x35] + [0x36, 0x37, 0x38, 0x39]) == [0x31, 0x32, 0x33, 0x34, 0x35, 0x36, 0x37, 0x38, 0x39];
    OnesWord();
    Digit1();
    Digit2();
    Digit3();
    Digit4();
    Digit5();
    Digit6();
    Digit7();
    Digit8();
    Digit9();
    NineFed(BitsIn(Words(), 0xFFFFFFFF, 32), BitsIn(Words(), 0x7C231048, 32), BitsIn(Words(), 0xB0ACBB32, 32),
            BitsIn(Words(), 0x77B79C2D, 32), BitsIn(Words(), 0x641C1F5C, 32), BitsIn(Words(), 0x340AC5E3, 32),
            BitsIn(Words(), 0xF68D2C9E, 32), BitsIn(Words(), 0xAFFC9660, 32), BitsIn(Words(), 0x651F2550, 32),
            BitsIn(Words(), 0x340BC6D9, 32));
    LastWord();
  }

  lemma LastWord()
    ensures Xor(BitsIn(Words(), 0x340BC6D9, 32), ONES) == BitsOf(0xCBF43926, 32)
  {
    OnesWord();
    MixedWords(0x340BC6D9, 0xFFFFFFFF, 0xCBF43926);
    CheckWord();
  }

  lemma CheckWord()
    ensures BitsOf(0xCBF43926, 32) == BitsIn(Words(), 0xCBF43926, 32)
  {
    assert Same(0xCB, 0xCB, 8);
    assert Same(0xCBF, 0xCBF, 12);
    assert Same(0xCBF4, 0xCBF4, 16);
    assert Same(0xCBF43, 0xCBF43, 20);
    assert Same(0xCBF439, 0xCBF439, 24);
    assert Same(0xCBF4392, 0xCBF4392, 28);
    SameBits(0xCBF43926, 0xCBF43926, 32);
  }

  // ---- a message followed by its own checksum ----

  /** The bytes of a word, lowest first. */
  function LowFirst(c: Bits32): seq<byte> {
    LowFirstInRange(c);
    [ValueOf(c[0..8]), ValueOf(c[8..16]), ValueOf(c[16..24]), ValueOf(c[24..32])]
  }

  lemma LowFirstInRange(c: Bits32)
    ensures ValueOf(c[0..8]) < 256 && ValueOf(c[8..16]) < 256 && ValueOf(c[16..24]) < 256 && ValueOf(c[24..32]) < 256
  {
    assert Power(8) == 256;
    ValueInRange(c[0..8]);
    ValueInRange(c[8..16]);
    ValueInRange(c[16..24]);
    ValueInRange(c[24..32]);
  }

  lemma {:induction false} FeedBitsTwice<W>(w: Word<W>, c: W, b: W, m: nat, n: nat)
    ensures FeedBits(w, c, b, m + n) == FeedBits(w, FeedBits(w, c, b, m), Iterate(w.drop, b, m), n)
    decreases m
  {
    if m > 0 {
      FeedBitsTwice(w, w.shift(w.xor(c, w.low(b))), w.drop(b), m - 1, n);
    }
  }

  /** Only the bits fed matter. */
  lemma {:induction false} FeedBitsLow(c: Bits32, a: Bits32, b: Bits32, n: nat)
    requires n <= 32 && a[..n] == b[..n]
    ensures FeedBits(Register(), c, a, n) == FeedBits(Register(), c, b, n)
    decreases n
  {
    if n > 0 {
      assert a[0] == a[..n][0] == b[..n][0] == b[0];
      assert DropBit(a)[..n - 1] == a[..n][1..] && DropBit(b)[..n - 1] == b[..n][1..];
      FeedBitsLow(Shift(Xor(c, LowBit(a))), DropBit(a), DropBit(b), n - 1);
    }
  }

  /** Feeding the lowest eight bits of b is feeding them as a byte. */
  lemma LowByteFed(c: Bits32, b: Bits32, n: nat)
    ensures ValueOf(b[..8]) < 256
    ensures FeedBits(Register(), c, b, 8 + n) == FeedBits(Register(), FeedByte(c, ValueOf(b[..8])), b[8..] + Zeros(8), n)
  {
    SlotEntry(b);
    FeedBitsLow(c, b, ByteBits(ValueOf(b[..8])), 8);
    FeedBitsTwice(Register(), c, b, 8, n);
    DropBits(b, 8);
  }

  /** Feeding all 32 bits of a word is feeding its four bytes. */
  lemma WordFed(c: Bits32, b: Bits32)
    ensures FeedBits(Register(), c, b, 32) == FeedMessage(c, LowFirst(b))
  {
    var b1: Bits32 := b[8..] + Zeros(8);
    var b2: Bits32 := b1[8..] + Zeros(8);
    var b3: Bits32 := b2[8..] + Zeros(8);
    assert b1[..8] == b[8..16] && b2[..8] == b[16..24] && b3[..8] == b[24..32] && b[..8] == b[0..8];
    LowFirstInRange(b);
    var c1 := FeedByte(c, ValueOf(b[0..8]));
    var c2 := FeedByte(c1, ValueOf(b[8..16]));
    var c3 := FeedByte(c2, ValueOf(b[16..24]));
    LowByteFed(c, b, 24);
    LowByteFed(c1, b1, 16);
    LowByteFed(c2, b2, 8);
    LowByteFed(c3, b3, 0);
    FourFed(c, ValueOf(b[0..8]), ValueOf(b[8..16]), ValueOf(b[16..24]), ValueOf(b[24..32]));
  }

  lemma FirstFed(c: Bits32, b: byte, rest: seq<byte>)
    ensures FeedMessage(c, [b] + rest) == FeedMessage(FeedByte(c, b), rest)
  {
    assert ([b] + rest)[1..] == rest;
  }

  lemma FourFed(c: Bits32, b0: byte, b1: byte, b2: byte, b3: byte)
    ensures FeedMessage(c, [b0, b1, b2, b3]) == FeedByte(FeedByte(FeedByte(FeedByte(c, b0), b1), b2), b3)
  {
    var c1 := FeedByte(c, b0);
    var c2 := FeedByte(c1, b1);
    var c3 := FeedByte(c2, b2);
    assert [b0, b1, b2, b3] == [b0] + ([b1] + ([b2] + ([b3] + [])));
    FirstFed(c, b0, [b1] + ([b2] + ([b3] + [])));
    FirstFed(c1, b1, [b2] + ([b3] + []));
    FirstFed(c2, b2, [b3] + []);
    FirstFed(c3, b3, []);
  }

  /** Whatever the message, feeding it and then its checksum's bytes, lowest first, leaves one register. */
  lemma ResidueIsConstant(message: seq<byte>)
    ensures FeedMessage(ONES, message + LowFirst(Checksum(message))) == BitsOf(0xDEBB20E3, 32)
  {
    var r, c := FeedMessage(ONES, message), Checksum(message);
    FeedAppend(FeedByte, ONES, message, LowFirst(c));
    WordFed(r, c);
    AllBitsAtOnce(r, c, 32);
    assert Xor(r, c) == ONES;
    OnesShifted();
  }

  lemma OnesShifted()
    ensures Iterate<Bits32>(Shift, ONES, 32) == BitsOf(0xDEBB20E3, 32)
  {
    OnesWord();
    RegisterByWords(0xFFFFFFFF, 32);
    OnesStepped();
    ResidueWord();
  }

  lemma OnesStepped()
    ensures Steps(0xFFFFFFFF, 32) == 0xDEBB20E3
  {
    StepsTwice(0xFFFFFFFF, 8, 24);
    StepsTwice(0x2DFD1072, 8, 16);
    StepsTwice(0xBE26ED00, 8, 8);
    FirstSteps();
    LastSteps();
  }

  lemma FirstSteps()
    ensures Steps(0xFFFFFFFF, 8) == 0x2DFD1072 && Steps(0x2DFD1072, 8) == 0xBE26ED00
  {
  }

  lemma LastSteps()
    ensures Steps(0xBE26ED00, 8) == 0x00BE26ED && Steps(0x00BE26ED, 8) == 0xDEBB20E3
  {
  }

  lemma ResidueWord()
    ensures BitsOf(0xDEBB20E3, 32) == BitsIn(Words(), 0xDEBB20E3, 32)
  {
    ResidueUpper();
    assert Same(0xDEBB20, 0xDEBB20, 24);
    assert Same(0xDEBB20E, 0xDEBB20E, 28);
    SameBits(0xDEBB20E3, 0xDEBB20E3, 32);
  }

  lemma ResidueUpper()
    ensures Same(0xDEBB2, 0xDEBB2, 20)
  {
    assert Same(0xDE, 0xDE, 8);
    assert Same(0xDEB, 0xDEB, 12);
    assert Same(0xDEBB, 0xDEBB, 16);
  }

  lemma {:induction false} StepsTwice(w: bv32, m: nat, n: nat)
    ensures Steps(w, m + n) == Steps(Steps(w, m), n)
    decreases m
  {
    if m > 0 {
      StepsTwice(Step(w), m - 1, n);
    }
  }
}
