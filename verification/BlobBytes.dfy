/**
 Deletion-vector blobs byte by byte: where each field stands and in which byte order, what each test
 of the header refuses, and that a blob cut short or with bytes after its end is refused.
 */
module BlobBytes {
  import opened Tables
  import opened Bits
  import opened Crc32
  import opened DeletionVector

  /** A number from its bytes, the last one counting least. */
  function BigEndian4(b: seq<byte>): nat
    requires |b| == 4
  {
    0x100_0000 * b[0] as int + 0x1_0000 * b[1] as int + 0x100 * b[2] as int + b[3] as int
  }

  /** A number from its bytes, the first one counting least. */
  function LittleEndian4(b: seq<byte>): nat
    requires |b| == 4
  {
    b[0] as int + 0x100 * b[1] as int + 0x1_0000 * b[2] as int + 0x100_0000 * b[3] as int
  }

  function LittleEndian8(b: seq<byte>): nat
    requires |b| == 8
  {
    LittleEndian4(b[..4]) + 0x1_0000_0000 * LittleEndian4(b[4..])
  }

  lemma FourBytes(b: seq<byte>)
    requires |b| == 4
    ensures LittleValue(b) == LittleEndian4(b) && BigValue(b) == BigEndian4(b)
  {
    var r := [b[3], b[2], b[1], b[0]];
    assert Reversed(b) == r by {
      assert Reversed(b[1..]) == Reversed(b[2..]) + [b[1]] && Reversed(b[2..]) == Reversed(b[3..]) + [b[2]];
      assert b[1..][1..] == b[2..] && b[2..][1..] == b[3..] && b[3..][1..] == [];
    }
    FourValues(b);
    FourValues(r);
  }

  lemma FourValues(b: seq<byte>)
    requires |b| == 4
    ensures LittleValue(b) == b[0] as int + 256 * (b[1] as int + 256 * (b[2] as int + 256 * b[3] as int))
  {
    assert b[1..][1..] == b[2..] && b[2..][1..] == b[3..] && b[3..][1..] == [];
    assert LittleValue(b[3..]) == b[3] + 256 * LittleValue([]);
    assert LittleValue(b[2..]) == b[2] + 256 * LittleValue(b[3..]);
    assert LittleValue(b[1..]) == b[1] + 256 * LittleValue(b[2..]);
  }

  lemma {:induction false} ValueOfParts(a: seq<byte>, b: seq<byte>)
    ensures LittleValue(a + b) == LittleValue(a) + Bytes256(|a|) * LittleValue(b)
  {
    if a == [] {
      assert a + b == b;
    } else {
      ValueOfParts(a[1..], b);
      assert (a + b)[1..] == a[1..] + b;
      assert Bytes256(|a|) == 256 * Bytes256(|a| - 1);
    }
  }

  lemma EightBytes(b: seq<byte>)
    requires |b| == 8
    ensures LittleValue(b) == LittleEndian8(b)
  {
    assert b == b[..4] + b[4..];
    ValueOfParts(b[..4], b[4..]);
    assert Bytes256(4) == 0x1_0000_0000;
    FourBytes(b[..4]);
    FourBytes(b[4..]);
  }

  // ---- where the fields stand ----

  /** The written frame: the size of the body with the highest byte first, four magic bytes, the number of
      bitmaps with the lowest byte first, the bitmaps, and the checksum with the highest byte first. */
  lemma FrameBytes(codec: Codec, bitmaps: Bitmaps, entries: seq<DeletionVector.Entry>, size: nat)
    requires Lists(bitmaps, entries) && size < 0x1_0000_0000
    ensures var blob := Framed(size, Body(codec, entries)); var end := |blob| - 4;
            && |blob| == 20 + |Sections(codec, entries)|
            && BigEndian4(blob[0..4]) == size
            && blob[4] == 0xD1 && blob[5] == 0xD3 && blob[6] == 0x39 && blob[7] == 0x64
            && LittleEndian8(blob[8..16]) == |entries|
            && blob[16..end] == Sections(codec, entries)
            && BigEndian4(blob[end..]) == ValueOf(Checksum(blob[4..end]))
  {
    var body, sections := Body(codec, entries), Sections(codec, entries);
    var blob, sum := Framed(size, body), Checksum(body);
    Fields(blob, BigEndian(size, 4), MAGIC, LittleEndian(|entries|, 8), sections, ChecksumBytes(sum));
    MagicBytes(blob);
    assert Bytes256(4) == 0x1_0000_0000 && Bytes256(8) == 0x1_0000_0000_0000_0000;
    BigRoundTrip(size, 4);
    FourBytes(blob[0..4]);
    FewEntries(bitmaps, entries);
    LittleRoundTrip(|entries|, 8);
    EightBytes(blob[8..16]);
    ChecksumValue(sum);
    assert blob[|blob| - 4..] == blob[16 + |sections|..20 + |sections|];
    assert blob[4..|blob| - 4] == blob[4..16 + |sections|];
  }

  lemma MagicBytes(blob: seq<byte>)
    requires |blob| >= 8
    ensures blob[4..8] == MAGIC <==> blob[4] == 0xD1 && blob[5] == 0xD3 && blob[6] == 0x39 && blob[7] == 0x64
  {
    var m := blob[4..8];
    assert m[0] == blob[4] && m[1] == blob[5] && m[2] == blob[6] && m[3] == blob[7];
  }

  lemma {:induction false} ValueOfBoth(a: seq<bool>, b: seq<bool>)
    ensures ValueOf(a + b) == ValueOf(a) + Power(|a|) * ValueOf(b)
  {
    if a == [] {
      assert a + b == b;
    } else {
      ValueOfBoth(a[1..], b);
      assert (a + b)[1..] == a[1..] + b;
      assert Power(|a|) == 2 * Power(|a| - 1);
    }
  }

  lemma ChecksumValue(c: Bits32)
    ensures BigEndian4(ChecksumBytes(c)) == ValueOf(c)
  {
    var b0, b1, b2, b3, two, three := ChecksumParts(c);
    FourDigits(b0, b1, b2, b3, two, three);
  }

  lemma ChecksumParts(c: Bits32) returns (b0: byte, b1: byte, b2: byte, b3: byte, two: nat, three: nat)
    ensures ChecksumBytes(c) == [b0, b1, b2, b3] && ValueOf(c) == b3 as int + 256 * three
    ensures two == b1 as int + 256 * b0 as int && three == b2 as int + 256 * two
  {
    ByteValues(c);
    b0, b1, b2, b3 := ValueOf(c[24..32]), ValueOf(c[16..24]), ValueOf(c[8..16]), ValueOf(c[0..8]);
    two, three := ValueOf(c[16..32]), ValueOf(c[8..32]);
    ByteAndRest(c, 0);
    ByteAndRest(c, 8);
    ByteAndRest(c, 16);
    assert c[0..32] == c;
  }

  lemma FourDigits(b0: byte, b1: byte, b2: byte, b3: byte, two: nat, three: nat)
    requires two == b1 as int + 256 * b0 as int && three == b2 as int + 256 * two
    ensures BigEndian4([b0, b1, b2, b3]) == b3 as int + 256 * three
  {
  }

  lemma ByteAndRest(c: Bits32, i: nat)
    requires i <= 24
    ensures ValueOf(c[i..32]) == ValueOf(c[i..i + 8]) + 256 * ValueOf(c[i + 8..32])
  {
    var low, high := c[i..i + 8], c[i + 8..32];
    assert Power(8) == 256;
    assert c[i..32] == low + high;
    ValueOfBoth(low, high);
  }

  /** A written bitmap: its high word, in two's complement with the lowest byte first, then its own bytes. */
  lemma SectionBytes(codec: Codec, e: DeletionVector.Entry)
    ensures var s := Section(codec, e);
            && |s| == 4 + |codec.write(e.bitmap)| && s[4..] == codec.write(e.bitmap)
            && LittleEndian4(s[..4]) == if e.key >= 0 then e.key else e.key + 0x1_0000_0000
  {
    assert Bytes256(4) == 0x1_0000_0000;
    LittleRoundTrip(KeyWord(e.key), 4);
    FourBytes(LittleEndian(KeyWord(e.key), 4));
    assert Section(codec, e)[..4] == LittleEndian(KeyWord(e.key), 4);
  }

  /** A position is its high word, in two's complement, times 2^32, plus its low word. */
  lemma SplitMeans(p: Position)
    ensures p == (if High(p) >= 0 then High(p) else High(p) + 0x1_0000_0000) * 0x1_0000_0000 + Low(p)
    ensures High(p) < 0 <==> p >= 0x8000_0000_0000_0000
  {
  }

  // ---- what each test of the header refuses ----

  lemma HeaderErrors(codec: Codec, blob: seq<byte>)
    ensures |blob| < 12 ==> Decode(codec, blob) == Failed(TooSmall)
    ensures |blob| >= 12 ==>
              var declared := BigEndian4(blob[0..4]);
              var magic := blob[4] == 0xD1 && blob[5] == 0xD3 && blob[6] == 0x39 && blob[7] == 0x64;
              && (declared < 4 ==> Decode(codec, blob) == Failed(SizeTooSmall))
              && (declared >= 4 && !magic ==> Decode(codec, blob) == Failed(BadMagic))
              && (4 <= declared < 12 && magic ==> Decode(codec, blob) == Failed(SizeTooSmall))
              && (12 <= declared && magic && |blob| <= 16 ==> Decode(codec, blob) == Failed(TruncatedCount))
              && (12 <= declared && magic && |blob| > 16 && blob[15] >= 0x80 ==> Decode(codec, blob) == Failed(NegativeCount))
  {
    if |blob| >= 12 {
      FourBytes(blob[0..4]);
      MagicBytes(blob);
      if |blob| > 16 {
        EightBytes(blob[8..16]);
        TopByte(blob[8..16]);
      }
    }
  }

  lemma TopByte(b: seq<byte>)
    requires |b| == 8
    ensures LittleEndian8(b) >= 0x8000_0000_0000_0000 <==> b[7] >= 0x80
  {
  }

  // ---- a blob cut short, and one with bytes after its end ----

  /** The numbers and the sections of a written blob. */
  lemma WrittenFields(codec: Codec, bitmaps: Bitmaps, entries: seq<DeletionVector.Entry>, blob: seq<byte>, size: nat)
    requires IsBlob(codec, bitmaps, entries, blob) && size == |Body(codec, entries)|
    ensures size == 12 + |Sections(codec, entries)| && |blob| == size + 8
    ensures BigValue(blob[0..4]) == size && blob[4..8] == MAGIC
    ensures LittleValue(blob[8..16]) == |entries| < 0x8000_0000_0000_0000
    ensures HoldsAt(blob, 16, size - 12, Sections(codec, entries))
  {
    var body := Body(codec, entries);
    Fields(blob, BigEndian(size, 4), MAGIC, LittleEndian(|entries|, 8), Sections(codec, entries), ChecksumBytes(Checksum(body)));
    HeaderNumbers(codec, entries, size);
  }

  lemma SameStart(a: seq<byte>, b: seq<byte>, at: nat, left: nat, bytes: seq<byte>)
    requires 16 <= |a| <= |b| && b[..|a|] == a
    ensures b[0..4] == a[0..4] && b[4..8] == a[4..8] && b[8..16] == a[8..16]
    ensures HoldsAt(a, at, left, bytes) ==> HoldsAt(b, at, left, bytes)
  {
    assert b[0..4] == b[..|a|][0..4] && b[4..8] == b[..|a|][4..8] && b[8..16] == b[..|a|][8..16];
    if HoldsAt(a, at, left, bytes) {
      assert b[at..at + |bytes|] == b[..|a|][at..at + |bytes|];
    }
  }

  /** Bytes after the end of a written blob are refused. */
  lemma TrailingRefused(codec: Codec, bitmaps: Bitmaps, entries: seq<DeletionVector.Entry>, blob: seq<byte>, extra: seq<byte>)
    requires ValidCodec(codec) && IsBlob(codec, bitmaps, entries, blob) && extra != []
    ensures Decode(codec, blob + extra) == Failed(TrailingBytes)
  {
    var size, sections, longer := |Body(codec, entries)|, Sections(codec, entries), blob + extra;
    WrittenFields(codec, bitmaps, entries, blob, size);
    SameStart(blob, longer, 16, size - 12, sections);
    ReadAll(codec, bitmaps, entries, longer, size - 12);
    EndsTooLate(codec, longer, size, |entries|, bitmaps, 16 + |sections|);
  }

  lemma EndsTooLate(codec: Codec, longer: seq<byte>, size: nat, count: nat, bitmaps: Bitmaps, at: nat)
    requires 16 <= at && at + 4 < |longer| && 12 <= size && count < 0x8000_0000_0000_0000
    requires BigValue(longer[0..4]) == size && longer[4..8] == MAGIC && LittleValue(longer[8..16]) == count
    requires DecodeBitmaps(BitmapReader(codec, longer), 16, size - 12, count, map[]) == (Decoded(bitmaps), at)
    ensures Decode(codec, longer) == Failed(TrailingBytes)
  {
  }

  /** One section of a blob cut after n bytes: it is refused or read as it was. */
  lemma CutBlobStep(codec: Codec, blob: seq<byte>, n: nat, at: nat, e: DeletionVector.Entry, rest: seq<byte>, left: nat)
    requires ValidCodec(codec) && HoldsAt(blob, at, left, Section(codec, e) + rest) && at <= n <= |blob|
    ensures var one := ReadBitmap(codec, blob[..n], at, left);
            one.Bad? || (one.size == |Section(codec, e)| && at + one.size < n && HoldsAt(blob, at + one.size, left - one.size, rest))
  {
    var section, cut := Section(codec, e), blob[..n];
    HoldsParts(blob, at, left, section, rest);
    if at + |section| < n {
      assert cut[at..at + |section|] == blob[at..at + |section|];
      ReadWritten(codec, cut, at, e, left);
    } else if at + 4 < n {
      CutInBitmap(codec, blob, n, at, e, left);
    }
  }

  lemma CutInBitmap(codec: Codec, blob: seq<byte>, n: nat, at: nat, e: DeletionVector.Entry, left: nat)
    requires ValidCodec(codec) && HoldsAt(blob, at, left, Section(codec, e)) && at + 4 < n <= at + |Section(codec, e)|
    ensures ReadBitmap(codec, blob[..n], at, left).Bad?
  {
    var written, start, cut := codec.write(e.bitmap), at + 4, blob[..n];
    SplitSlice(blob, at, LittleEndian(KeyWord(e.key), 4), written);
    var window := cut[start..start + Min(left - 4, n - start)];
    assert window == cut[start..n] == blob[start..n] == blob[start..start + |written|][..n - start] == written[..n - start];
    if n - start < |written| {
      assert NoticesCut(codec, e.bitmap, n - start);
    } else {
      assert written[..n - start] == written + [];
      assert ReadsBack(codec, e.bitmap, []);
    }
    var size := codec.size(window);
    if start + size < n {
      assert cut[start..start + size] == window[..size];
    }
  }

  /** Read one after another, some entry fails or they end at the given place. */
  ghost predicate BreaksOrEnds(read: (nat, int) -> OneBitmap, entries: seq<DeletionVector.Entry>, at: nat, left: int, end: nat)
    decreases |entries|
  {
    if entries == [] then at == end
    else
      var one := read(at, left);
      one.Bad? || BreaksOrEnds(read, entries[1..], at + one.size, left - one.size, end)
  }

  lemma {:induction false} FailsOrEnds(read: (nat, int) -> OneBitmap, entries: seq<DeletionVector.Entry>, at: nat, left: int, end: nat, found: Bitmaps)
    requires BreaksOrEnds(read, entries, at, left, end)
    ensures DecodeBitmaps(read, at, left, |entries|, found).0.Failed? || DecodeBitmaps(read, at, left, |entries|, found).1 == end
    decreases |entries|
  {
    if entries != [] {
      var one := read(at, left);
      if one.Got? {
        FailsOrEnds(read, entries[1..], at + one.size, left - one.size, end,
                    if one.key in found then found else found[one.key := one.bitmap]);
      }
    }
  }

  /** Read from a blob cut short, the sections fail or end where they did. */
  lemma {:induction false} CutBlobSections(codec: Codec, entries: seq<DeletionVector.Entry>, blob: seq<byte>, n: nat, at: nat, left: nat, end: nat)
    requires ValidCodec(codec) && HoldsAt(blob, at, left, Sections(codec, entries)) && at <= n <= |blob|
    requires end == at + |Sections(codec, entries)|
    ensures BreaksOrEnds(BitmapReader(codec, blob[..n]), entries, at, left, end)
    decreases |entries|
  {
    if entries != [] {
      var rest := Sections(codec, entries[1..]);
      CutBlobStep(codec, blob, n, at, entries[0], rest, left);
      var one := ReadBitmap(codec, blob[..n], at, left);
      if one.Got? {
        assert end == at + one.size + |rest|;
        CutBlobSections(codec, entries[1..], blob, n, at + one.size, left - one.size, end);
      }
    }
  }

  /** A written blob cut short anywhere is refused. */
  lemma CutRefused(codec: Codec, bitmaps: Bitmaps, entries: seq<DeletionVector.Entry>, blob: seq<byte>, n: nat)
    requires ValidCodec(codec) && IsBlob(codec, bitmaps, entries, blob) && n < |blob|
    ensures Decode(codec, blob[..n]).Failed?
  {
    var size := |Body(codec, entries)|;
    WrittenFields(codec, bitmaps, entries, blob, size);
    if n > 16 {
      CutAfterHeader(codec, entries, blob, n, size);
    } else {
      TooShort(codec, blob[..n]);
    }
  }

  lemma CutAfterHeader(codec: Codec, entries: seq<DeletionVector.Entry>, blob: seq<byte>, n: nat, size: nat)
    requires ValidCodec(codec) && size == 12 + |Sections(codec, entries)| && 16 < n < |blob| == size + 8
    requires BigValue(blob[0..4]) == size && LittleValue(blob[8..16]) == |entries|
    requires HoldsAt(blob, 16, size - 12, Sections(codec, entries))
    ensures Decode(codec, blob[..n]).Failed?
  {
    var cut, end := blob[..n], size + 4;
    SameStart(cut, blob, 16, size - 12, []);
    CutBlobSections(codec, entries, blob, n, 16, size - 12, end);
    FailsOrEnds(BitmapReader(codec, cut), entries, 16, size - 12, end, map[]);
    EndsTooEarly(codec, cut, size, |entries|, end);
  }

  lemma TooShort(codec: Codec, cut: seq<byte>)
    requires |cut| <= 16
    ensures Decode(codec, cut).Failed?
  {
  }

  lemma EndsTooEarly(codec: Codec, cut: seq<byte>, size: nat, count: nat, at: nat)
    requires 16 < |cut| < at + 4 && 12 <= size && BigValue(cut[0..4]) == size && LittleValue(cut[8..16]) == count
    requires DecodeBitmaps(BitmapReader(codec, cut), 16, size - 12, count, map[]).0.Failed? ||
             DecodeBitmaps(BitmapReader(codec, cut), 16, size - 12, count, map[]).1 == at
    ensures Decode(codec, cut).Failed?
  {
  }
}
