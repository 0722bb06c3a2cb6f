/**
 Shift registers fed one symbol at a time, over any word type: what does not depend on the
 polynomial.
 */
module ShiftRegister {

  function Iterate<W>(f: W -> W, c: W, n: nat): W
    decreases n, c
  {
    if n == 0 then c else Iterate(f, f(c), n - 1)
  }

  /** Runs step over the message, first symbol first. */
  function Feed<W, S>(step: (W, S) -> W, c: W, message: seq<S>): W
    decreases |message|
  {
    if message == [] then c else Feed(step, step(c, message[0]), message[1..])
  }

  /** A word's operations: mixing two words, one register shift, lowest bit, dropping that bit. */
  datatype Word<!W> = Word(xor: (W, W) -> W, shift: W -> W, low: W -> W, drop: W -> W)

  /** Feeds the n lowest bits of b, lowest first. */
  function FeedBits<W>(w: Word<W>, c: W, b: W, n: nat): W
    decreases n, c
  {
    if n == 0 then c else FeedBits(w, w.shift(w.xor(c, w.low(b))), w.drop(b), n - 1)
  }

  /** Shifting distributes over mixing. */
  ghost predicate Linear<W(!new)>(w: Word<W>) {
    forall a, b :: w.shift(w.xor(a, b)) == w.xor(w.shift(a), w.shift(b))
  }

  /** Mixing in just the lowest bit before a shift keeps the other bits waiting, shifted too. */
  ghost predicate Waits<W(!new)>(w: Word<W>) {
    forall x, b :: w.shift(w.xor(w.xor(x, b), w.low(b))) == w.xor(w.shift(x), w.drop(b))
  }

  lemma {:induction false} IterateLinear<W(!new)>(w: Word<W>, a: W, b: W, n: nat)
    requires Linear(w)
    ensures Iterate(w.shift, w.xor(a, b), n) == w.xor(Iterate(w.shift, a, n), Iterate(w.shift, b, n))
    decreases n
  {
    if n > 0 {
      IterateLinear(w, w.shift(a), w.shift(b), n - 1);
    }
  }

  /** Feeding bits one at a time is mixing all of them in first and then shifting. */
  lemma {:induction false} BitsAtOnce<W(!new)>(w: Word<W>, x: W, b: W, n: nat)
    requires Waits(w)
    ensures FeedBits(w, w.xor(x, b), b, n) == w.xor(Iterate(w.shift, x, n), Iterate(w.drop, b, n))
    decreases n
  {
    if n > 0 {
      BitsAtOnce(w, w.shift(x), w.drop(b), n - 1);
    }
  }

  ghost predicate Injective<W(!new)>(f: W -> W) {
    forall a, b :: f(a) == f(b) ==> a == b
  }

  lemma {:induction false} IterateInjective<W(!new)>(f: W -> W, a: W, b: W, n: nat)
    requires Injective(f) && Iterate(f, a, n) == Iterate(f, b, n)
    ensures a == b
    decreases n
  {
    if n > 0 {
      IterateInjective(f, f(a), f(b), n - 1);
    }
  }

  /** What goes with every step goes with all of them. */
  lemma {:induction false} IterateMaps<V(!new), W>(f: V -> W, g: V -> V, h: W -> W, c: V, n: nat)
    requires forall v :: f(g(v)) == h(f(v))
    ensures f(Iterate(g, c, n)) == Iterate(h, f(c), n)
    decreases n
  {
    if n > 0 {
      IterateMaps(f, g, h, g(c), n - 1);
    }
  }

  /** Neither the register nor the symbol is lost in a step. */
  ghost predicate StepInjective<W(!new), S(!new)>(step: (W, S) -> W) {
    && (forall c, d, s :: step(c, s) == step(d, s) ==> c == d)
    && (forall c, s, t :: step(c, s) == step(c, t) ==> s == t)
  }

  lemma {:induction false} FeedAppend<W, S>(step: (W, S) -> W, c: W, a: seq<S>, b: seq<S>)
    ensures Feed(step, c, a + b) == Feed(step, Feed(step, c, a), b)
    decreases |a|
  {
    if a == [] {
      assert a + b == b;
    } else {
      assert (a + b)[1..] == a[1..] + b;
      FeedAppend(step, step(c, a[0]), a[1..], b);
    }
  }

  lemma {:induction false} FeedInjective<W(!new), S(!new)>(step: (W, S) -> W, c: W, d: W, message: seq<S>)
    requires StepInjective(step) && Feed(step, c, message) == Feed(step, d, message)
    ensures c == d
    decreases |message|
  {
    if message != [] {
      FeedInjective(step, step(c, message[0]), step(d, message[0]), message[1..]);
    }
  }

  /** Messages that differ in exactly one symbol leave different registers. */
  lemma OneSymbolShows<W(!new), S(!new)>(step: (W, S) -> W, c: W, a: seq<S>, b: seq<S>, i: nat)
    requires StepInjective(step)
    requires |a| == |b| && i < |a| && a[i] != b[i] && a[..i] == b[..i] && a[i + 1..] == b[i + 1..]
    ensures Feed(step, c, a) != Feed(step, c, b)
  {
    var mid := Feed(step, c, a[..i]);
    assert a == a[..i] + ([a[i]] + a[i + 1..]) && b == b[..i] + ([b[i]] + b[i + 1..]);
    FeedAppend(step, c, a[..i], [a[i]] + a[i + 1..]);
    FeedAppend(step, c, b[..i], [b[i]] + b[i + 1..]);
    assert ([a[i]] + a[i + 1..])[1..] == a[i + 1..] && ([b[i]] + b[i + 1..])[1..] == b[i + 1..];
    if Feed(step, c, a) == Feed(step, c, b) {
      FeedInjective(step, step(mid, a[i]), step(mid, b[i]), a[i + 1..]);
    }
  }
}

/** Numbers as bit sequences, lowest bit first. */
module Bits {

  type byte = b: int | 0 <= b < 256

  function Power(n: nat): (p: nat)
    ensures p > 0
  {
    if n == 0 then 1 else 2 * Power(n - 1)
  }

  /** The n lowest bits of v. */
  function BitsOf(v: nat, n: nat): (bits: seq<bool>)
    ensures |bits| == n
    decreases n, v
  {
    if n == 0 then [] else [v % 2 == 1] + BitsOf(v / 2, n - 1)
  }

  function ValueOf(bits: seq<bool>): nat {
    if bits == [] then 0 else (if bits[0] then 1 else 0) + 2 * ValueOf(bits[1..])
  }

  function Zeros(n: nat): seq<bool> {
    seq(n, i => false)
  }

  function Ones(n: nat): seq<bool> {
    seq(n, i => true)
  }

  lemma {:induction false} ValueInRange(bits: seq<bool>)
    ensures ValueOf(bits) < Power(|bits|)
  {
    if bits != [] {
      ValueInRange(bits[1..]);
    }
  }

  lemma {:induction false} BitsOfValue(bits: seq<bool>)
    ensures BitsOf(ValueOf(bits), |bits|) == bits
  {
    if bits != [] {
      BitsOfValue(bits[1..]);
      var rest := ValueOf(bits[1..]);
      assert ValueOf(bits) / 2 == rest && (ValueOf(bits) % 2 == 1) == bits[0];
    }
  }

  lemma {:induction false} ValueOfBits(v: nat, n: nat)
    requires v < Power(n)
    ensures ValueOf(BitsOf(v, n)) == v
    decreases n
  {
    if n > 0 {
      ValueOfBits(v / 2, n - 1);
      assert BitsOf(v, n)[1..] == BitsOf(v / 2, n - 1);
    }
  }

  lemma {:induction false} BitsOfZero(n: nat)
    ensures BitsOf(0, n) == Zeros(n)
  {
    if n > 0 {
      BitsOfZero(n - 1);
      assert Zeros(n) == [false] + Zeros(n - 1);
    }
  }

  /** More bits than a number needs are zeros. */
  lemma {:induction false} BitsOfPadded(v: nat, n: nat, m: nat)
    requires v < Power(n)
    ensures BitsOf(v, n + m) == BitsOf(v, n) + Zeros(m)
    decreases n
  {
    if n == 0 {
      BitsOfZero(m);
      assert BitsOf(v, 0) + Zeros(m) == Zeros(m);
    } else {
      BitsOfPadded(v / 2, n - 1, m);
      assert BitsOf(v, n) + Zeros(m) == [v % 2 == 1] + (BitsOf(v / 2, n - 1) + Zeros(m));
    }
  }
}

/**
 The checksum of deletion-vector blobs: the reflected CRC-32 of section 8 of RFC 1952, computed a
 byte at a time from a 256-entry table.  A register is its 32 bits, lowest first.
 */
module Crc32 {
  import opened ShiftRegister
  import opened Bits

  type Bits32 = w: seq<bool> | |w| == 32 witness Zeros(32)

  const POLYNOMIAL: Bits32 := BitsOf(0xEDB88320, 32)
  const ONES: Bits32 := Ones(32)

  // ---- the reference: one message bit at a time, least significant bit first ----

  function Xor(a: Bits32, b: Bits32): Bits32 {
    seq(32, i requires 0 <= i < 32 => a[i] != b[i])
  }

  /** The register moved down one place. */
  function DropBit(b: Bits32): Bits32 {
    b[1..] + [false]
  }

  /** Shift the register by one bit, feeding back the polynomial when a one falls out. */
  function Shift(c: Bits32): Bits32 {
    if c[0] then Xor(POLYNOMIAL, DropBit(c)) else DropBit(c)
  }

  function LowBit(b: Bits32): Bits32 {
    [b[0]] + Zeros(31)
  }

  function Register(): Word<Bits32> {
    Word(Xor, Shift, LowBit, DropBit)
  }

  function ByteBits(b: byte): Bits32 {
    BitsOf(b, 32)
  }

  /** Feeds one byte, bit by bit. */
  function FeedByte(c: Bits32, b: byte): Bits32 {
    FeedBits(Register(), c, ByteBits(b), 8)
  }

  function FeedMessage(c: Bits32, data: seq<byte>): Bits32 {
    Feed(FeedByte, c, data)
  }

  function Checksum(data: seq<byte>): Bits32 {
    Xor(FeedMessage(ONES, data), ONES)
  }

  // ---- the table ----

  function Entry(i: nat): Bits32 {
    Iterate<Bits32>(Shift, BitsOf(i, 32), 8)
  }

  ghost predicate IsTable(table: seq<Bits32>) {
    |table| == 256 && forall i :: 0 <= i < 256 ==> table[i] == Entry(i)
  }

  method MakeTable() returns (table: array<Bits32>)
    ensures fresh(table) && IsTable(table[..])
  {
    table := new Bits32[256](i => Zeros(32));
    var i := 0;
    while i < 256
      invariant 0 <= i <= 256
      invariant forall k :: 0 <= k < i ==> table[k] == Entry(k)
    {
      var c := MakeEntry(BitsOf(i, 32), 8);
      table[i] := c;
      i := i + 1;
    }
  }

  lemma IterateOne(c: Bits32, n: nat)
    requires n > 0
    ensures Iterate<Bits32>(Shift, c, n) == Iterate<Bits32>(Shift, Shift(c), n - 1)
  {
  }

  method ShiftOnce(c: Bits32) returns (d: Bits32)
    ensures d == Shift(c)
  {
    d := if c[0] then Xor(POLYNOMIAL, DropBit(c)) else DropBit(c);
  }

  method MakeEntry(start: Bits32, steps: nat) returns (c: Bits32)
    ensures c == Iterate<Bits32>(Shift, start, steps)
  {
    c := start;
    var j := 0;
    ghost var left := steps;
    while j < steps
      invariant 0 <= j <= steps && left == steps - j
      invariant Iterate<Bits32>(Shift, c, left) == Iterate<Bits32>(Shift, start, steps)
    {
      IterateOne(c, left);
      c := ShiftOnce(c);
      j, left := j + 1, left - 1;
    }
  }

  class Crc {
    var crc: Bits32

    constructor ()
      ensures crc == ONES
    {
      crc := ONES;
    }

    /** The table-driven update computes the bit-by-bit reference. */
    method Update(table: array<Bits32>, data: seq<byte>)
      requires IsTable(table[..])
      modifies this
      ensures crc == FeedMessage(old(crc), data)
    {
      var i := 0;
      while i < |data|
        invariant 0 <= i <= |data|
        invariant FeedMessage(crc, data[i..]) == FeedMessage(old(crc), data)
      {
        var slot := ValueOf(Xor(crc, ByteBits(data[i]))[..8]);
        TableStep(crc, data[i]);
        assert table[..][slot] == Entry(slot);
        crc := Xor(table[slot], crc[8..] + Zeros(8));
        assert data[i..][1..] == data[i + 1..];
        i := i + 1;
      }
    }

    method GetValue() returns (value: Bits32)
      ensures value == Xor(crc, ONES)
    {
      value := Xor(crc, ONES);
    }
  }

  // ---- one table lookup is eight bit steps ----

  /** Bit i after a shift: the bit above it, flipped where the polynomial is fed back. */
  lemma ShiftBit(c: Bits32, i: nat)
    requires i < 32
    ensures Shift(c)[i] == ((c[0] && POLYNOMIAL[i]) != (i < 31 && c[i + 1]))
  {
    assert DropBit(c)[i] == (i < 31 && c[i + 1]);
  }

  lemma ShiftLinear(a: Bits32, b: Bits32)
    ensures Shift(Xor(a, b)) == Xor(Shift(a), Shift(b))
  {
    forall i | 0 <= i < 32 ensures Shift(Xor(a, b))[i] == Xor(Shift(a), Shift(b))[i] {
      ShiftBit(a, i);
      ShiftBit(b, i);
      ShiftBit(Xor(a, b), i);
    }
  }

  lemma RegisterIsLinear()
    ensures Linear(Register())
  {
    forall a: Bits32, b: Bits32 ensures Shift(Xor(a, b)) == Xor(Shift(a), Shift(b)) {
      ShiftLinear(a, b);
    }
  }

  lemma RegisterWaits()
    ensures Waits(Register())
  {
    forall x: Bits32, b: Bits32 ensures Shift(Xor(Xor(x, b), LowBit(b))) == Xor(Shift(x), DropBit(b)) {
      var mixed := Xor(Xor(x, b), LowBit(b));
      assert mixed[0] == x[0];
      assert DropBit(mixed) == Xor(DropBit(x), DropBit(b));
    }
  }

  /** A register whose low bits are clear just moves down. */
  lemma {:induction false} ClearLowBits(c: Bits32, n: nat)
    requires n <= 32 && forall i :: 0 <= i < n ==> !c[i]
    ensures Iterate<Bits32>(Shift, c, n) == c[n..] + Zeros(n)
    decreases n
  {
    if n > 0 {
      ClearLowBits(DropBit(c), n - 1);
      assert DropBit(c)[n - 1..] + Zeros(n - 1) == c[n..] + Zeros(n);
    }
  }

  lemma {:induction false} DropBits(c: Bits32, n: nat)
    requires n <= 32
    ensures Iterate<Bits32>(DropBit, c, n) == c[n..] + Zeros(n)
    decreases n
  {
    if n > 0 {
      DropBits(DropBit(c), n - 1);
      assert DropBit(c)[n - 1..] + Zeros(n - 1) == c[n..] + Zeros(n);
    }
  }

  /** A byte occupies the low eight bits. */
  lemma ByteInLowBits(b: byte)
    ensures ByteBits(b) == BitsOf(b, 8) + Zeros(24)
  {
    assert Power(8) == 256;
    BitsOfPadded(b, 8, 24);
  }

  /** Feeding all of a value's bits is mixing it into the register and shifting. */
  lemma AllBitsAtOnce(crc: Bits32, bits: Bits32, n: nat)
    requires n <= 32 && forall i :: n <= i < 32 ==> !bits[i]
    ensures FeedBits(Register(), crc, bits, n) == Iterate<Bits32>(Shift, Xor(crc, bits), n)
  {
    var w, x := Register(), Xor(crc, bits);
    RegisterWaits();
    BitsAtOnce(w, x, bits, n);
    assert Xor(x, bits) == crc;
    DropBits(bits, n);
    assert bits[n..] + Zeros(n) == Zeros(32);
    XorZeros(Iterate<Bits32>(Shift, x, n));
  }

  lemma XorZeros(r: Bits32)
    ensures Xor(r, Zeros(32)) == r
  {
  }

  lemma ByteAtOnce(crc: Bits32, b: byte)
    ensures FeedByte(crc, b) == Iterate<Bits32>(Shift, Xor(crc, ByteBits(b)), 8)
  {
    ByteInLowBits(b);
    AllBitsAtOnce(crc, ByteBits(b), 8);
  }

  /** The low bits of a register shift like the register with the rest cleared; the rest moves down. */
  lemma SplitShift(c: Bits32, n: nat)
    requires n <= 32
    ensures Iterate<Bits32>(Shift, c, n) == Xor(Iterate<Bits32>(Shift, c[..n] + Zeros(32 - n), n), c[n..] + Zeros(n))
  {
    var low: Bits32, high: Bits32 := c[..n] + Zeros(32 - n), Zeros(n) + c[n..];
    assert c == Xor(low, high);
    RegisterIsLinear();
    IterateLinear(Register(), low, high, n);
    ClearLowBits(high, n);
    assert high[n..] == c[n..];
  }

  /** The slot's entry is the low byte's share. */
  lemma SlotEntry(c: Bits32)
    ensures var slot := ValueOf(c[..8]);
            slot < 256 && BitsOf(slot, 32) == c[..8] + Zeros(24)
  {
    ValueInRange(c[..8]);
    assert Power(8) == 256;
    BitsOfValue(c[..8]);
    BitsOfPadded(ValueOf(c[..8]), 8, 24);
  }

  lemma TableStep(crc: Bits32, b: byte)
    ensures var slot := ValueOf(Xor(crc, ByteBits(b))[..8]);
            slot < 256 && Xor(Entry(slot), crc[8..] + Zeros(8)) == FeedByte(crc, b)
  {
    var c := Xor(crc, ByteBits(b));
    ByteAtOnce(crc, b);
    SlotEntry(c);
    SplitShift(c, 8);
    ByteInLowBits(b);
    assert c[8..] == crc[8..];
  }

  // ---- every step is injective ----

  lemma XorCancels(a: Bits32, b: Bits32, m: Bits32)
    requires Xor(a, m) == Xor(b, m)
    ensures a == b
  {
    forall i | 0 <= i < 32 ensures a[i] == b[i] {
      assert Xor(a, m)[i] == Xor(b, m)[i];
    }
  }

  lemma XorSymmetric(a: Bits32, b: Bits32)
    ensures Xor(a, b) == Xor(b, a)
  {
  }

  /** The polynomial's top bit is set, so the bit that fell out can be read off the result. */
  lemma ShiftTop(c: Bits32)
    ensures Shift(c)[31] == c[0]
  {
    PolynomialTop();
    ShiftBit(c, 31);
  }

  lemma DropBitKnown(a: Bits32, b: Bits32)
    requires DropBit(a) == DropBit(b) && a[0] == b[0]
    ensures a == b
  {
    assert a == [a[0]] + DropBit(a)[..31];
    assert b == [b[0]] + DropBit(b)[..31];
  }

  lemma ShiftInjective(a: Bits32, b: Bits32)
    requires Shift(a) == Shift(b)
    ensures a == b
  {
    ShiftTop(a);
    ShiftTop(b);
    if a[0] {
      XorSymmetric(POLYNOMIAL, DropBit(a));
      XorSymmetric(POLYNOMIAL, DropBit(b));
      XorCancels(DropBit(a), DropBit(b), POLYNOMIAL);
    }
    DropBitKnown(a, b);
  }

  lemma PolynomialTop()
    ensures POLYNOMIAL[31]
  {
    PowerOfSum(8, 8);
    PowerOfSum(16, 15);
    PowerOfSum(16, 16);
    assert Power(8) == 256 && Power(15) == 32768;
    TopBit(0xEDB88320, 32);
  }

  lemma {:induction false} PowerOfSum(m: nat, n: nat)
    ensures Power(m + n) == Power(m) * Power(n)
    decreases m
  {
    if m > 0 {
      PowerOfSum(m - 1, n);
    }
  }

  lemma {:induction false} TopBit(v: nat, n: nat)
    requires n > 0 && Power(n - 1) <= v < Power(n)
    ensures BitsOf(v, n)[n - 1]
    decreases n
  {
    if n > 1 {
      TopBit(v / 2, n - 1);
    }
  }

  lemma RegisterInjective()
    ensures Injective(Shift)
  {
    forall a: Bits32, b: Bits32 | Shift(a) == Shift(b) ensures a == b {
      ShiftInjective(a, b);
    }
  }

  lemma ByteBitsInjective(a: byte, b: byte)
    requires ByteBits(a) == ByteBits(b)
    ensures a == b
  {
    assert a < Power(32) && b < Power(32) by {
      assert Power(8) == 256;
      PowerGrows(8, 32);
    }
    ValueOfBits(a, 32);
    ValueOfBits(b, 32);
  }

  lemma {:induction false} PowerGrows(m: nat, n: nat)
    requires m <= n
    ensures Power(m) <= Power(n)
    decreases n
  {
    if m < n {
      PowerGrows(m, n - 1);
    }
  }

  /** Feeding a byte loses neither the register nor the byte. */
  lemma ByteStepInjective()
    ensures StepInjective(FeedByte)
  {
    RegisterInjective();
    forall c: Bits32, d: Bits32, s: byte | FeedByte(c, s) == FeedByte(d, s) ensures c == d {
      ByteAtOnce(c, s);
      ByteAtOnce(d, s);
      IterateInjective(Shift, Xor(c, ByteBits(s)), Xor(d, ByteBits(s)), 8);
      XorCancels(c, d, ByteBits(s));
    }
    forall c: Bits32, s: byte, t: byte | FeedByte(c, s) == FeedByte(c, t) ensures s == t {
      ByteAtOnce(c, s);
      ByteAtOnce(c, t);
      IterateInjective(Shift, Xor(c, ByteBits(s)), Xor(c, ByteBits(t)), 8);
      XorSymmetric(c, ByteBits(s));
      XorSymmetric(c, ByteBits(t));
      XorCancels(ByteBits(s), ByteBits(t), c);
      ByteBitsInjective(s, t);
    }
  }

  /** Two messages that differ in exactly one byte have different checksums. */
  lemma SingleByteDetected(a: seq<byte>, b: seq<byte>, i: nat)
    requires |a| == |b| && i < |a| && a[i] != b[i] && a[..i] == b[..i] && a[i + 1..] == b[i + 1..]
    ensures Checksum(a) != Checksum(b)
  {
    ByteStepInjective();
    OneSymbolShows(FeedByte, ONES, a, b, i);
    if Checksum(a) == Checksum(b) {
      XorCancels(FeedMessage(ONES, a), FeedMessage(ONES, b), ONES);
    }
  }
}
