/**
 The deletion-vector-v1 blob of the Apache Iceberg Puffin specification: deleted row positions are
 grouped by their high 32 bits into bitmaps of low 32 bits, written behind a size field, magic
 bytes and a bitmap count, and followed by a checksum.
 */
module DeletionVector {
  import opened Tables
  import opened Bits
  import opened Crc32

  type Position = p: int | 0 <= p < 0x1_0000_0000_0000_0000
  type LowBits = l: int | 0 <= l < 0x1_0000_0000
  type HighBits = h: int | -0x8000_0000 <= h < 0x8000_0000
  type Bitmaps = map<HighBits, set<LowBits>>

  /** The bitmap library, as far as the blob format relies on it: the portable serialization of a
      bitmap, the number of bytes a serialized bitmap takes at the start of a buffer, and reading
      one back. */
  datatype Codec = Codec(write: set<LowBits> -> seq<byte>, size: seq<byte> -> nat, read: seq<byte> -> Option<set<LowBits>>)

  /** A serialized bitmap is self-delimiting, whatever follows it, and reads back as it was. */
  ghost predicate ReadsBack(codec: Codec, bitmap: set<LowBits>, rest: seq<byte>) {
    && codec.size(codec.write(bitmap) + rest) == |codec.write(bitmap)|
    && codec.read(codec.write(bitmap)) == Some(bitmap)
  }

  /** A serialized bitmap cut short is noticed: the size found exceeds what is there, or reading fails. */
  ghost predicate NoticesCut(codec: Codec, bitmap: set<LowBits>, n: nat) {
    n < |codec.write(bitmap)| ==>
      var part := codec.write(bitmap)[..n];
      codec.size(part) > n || codec.read(part[..codec.size(part)]) == None
  }

  ghost predicate ValidCodec(codec: Codec) {
    && (forall bitmap, rest :: ReadsBack(codec, bitmap, rest))
    && (forall bitmap, n :: NoticesCut(codec, bitmap, n))
  }

  /** Such libraries exist: one flag a value will do. */
  lemma FlagCodec() returns (codec: Codec)
    ensures ValidCodec(codec)
  {
    codec := Codec((b: set<LowBits>) => seq(0x1_0000_0000, i => if i in b then 1 else 0),
                   (bytes: seq<byte>) => 0x1_0000_0000,
                   (bytes: seq<byte>) => if |bytes| == 0x1_0000_0000 then Some(set l: LowBits | bytes[l] == 1) else None);
    forall b: set<LowBits> ensures codec.read(codec.write(b)) == Some(b) {
      assert b == set l: LowBits | codec.write(b)[l] == 1;
    }
  }

  /** The outcomes of a blob's tests.  After the test for twelve bytes the blob cannot end right behind the
      size field or the magic bytes, so those two tests have no outcome of their own. */
  datatype Error =
    | TooSmall | SizeTooSmall | BadMagic | TruncatedCount | NegativeCount
    | SizeTooSmallForKey | TruncatedKey | BitmapTooLarge | BadBitmap | TruncatedBitmap
    | TruncatedChecksum | TrailingBytes | ChecksumMismatch

  datatype Decoded = Decoded(bitmaps: Bitmaps) | Failed(error: Error)

  // ---- splitting and rejoining positions ----

  function Signed64(p: Position): int {
    if p < 0x8000_0000_0000_0000 then p else p - 0x1_0000_0000_0000_0000
  }

  /** The signed high word: an arithmetic shift of the position read as a signed number. */
  function High(p: Position): HighBits {
    Signed64(p) / 0x1_0000_0000
  }

  function Low(p: Position): LowBits {
    p % 0x1_0000_0000
  }

  /** The key widened to 64 bits, moved up 32 places, with the low word filled in. */
  function Rejoin(h: HighBits, l: LowBits): Position {
    ((h % 0x1_0000_0000_0000_0000) * 0x1_0000_0000) % 0x1_0000_0000_0000_0000 + l
  }

  lemma RejoinSplit(p: Position)
    ensures Rejoin(High(p), Low(p)) == p
  {
    var h: int, l: int := High(p), Low(p);
    if p < 0x8000_0000_0000_0000 {
      assert h * 0x1_0000_0000 + l == p;
    } else {
      var u := h + 0x1_0000_0000;
      assert u * 0x1_0000_0000 + l == p;
      WrapsAway(u * 0x1_0000_0000);
      assert (h + 0x1_0000_0000_0000_0000) * 0x1_0000_0000 == u * 0x1_0000_0000 + 0xFFFF_FFFF * 0x1_0000_0000_0000_0000;
    }
  }

  lemma WrapsAway(v: int)
    requires 0 <= v < 0x1_0000_0000_0000_0000
    ensures (v + 0xFFFF_FFFF * 0x1_0000_0000_0000_0000) % 0x1_0000_0000_0000_0000 == v
  {
  }

  lemma SplitRejoin(h: HighBits, l: LowBits)
    ensures High(Rejoin(h, l)) == h && Low(Rejoin(h, l)) == l
  {
    var n: int, m: int := h, l;
    if n < 0 {
      var u := n + 0x1_0000_0000;
      WrapsAway(u * 0x1_0000_0000);
      assert (n + 0x1_0000_0000_0000_0000) * 0x1_0000_0000 == u * 0x1_0000_0000 + 0xFFFF_FFFF * 0x1_0000_0000_0000_0000;
      assert Rejoin(h, l) == u * 0x1_0000_0000 + m;
      Quotient(n, m);
      Quotient(u, m);
    } else {
      assert Rejoin(h, l) == n * 0x1_0000_0000 + m;
      Quotient(n, m);
    }
  }

  lemma Quotient(n: int, m: int)
    requires 0 <= m < 0x1_0000_0000
    ensures (n * 0x1_0000_0000 + m) / 0x1_0000_0000 == n && (n * 0x1_0000_0000 + m) % 0x1_0000_0000 == m
  {
  }

  function HighWords(positions: set<Position>): set<HighBits> {
    set p | p in positions :: High(p)
  }

  function LowWords(positions: set<Position>, h: HighBits): set<LowBits> {
    set p | p in positions && High(p) == h :: Low(p)
  }

  /** The bitmaps a set of positions is grouped into. */
  function Grouped(positions: set<Position>): Bitmaps {
    map h | h in HighWords(positions) :: LowWords(positions, h)
  }

  /** p is one of the positions some bitmaps stand for. */
  predicate Holds(bitmaps: Bitmaps, p: Position) {
    High(p) in bitmaps && Low(p) in bitmaps[High(p)]
  }

  lemma GroupedHolds(positions: set<Position>, p: Position)
    ensures Holds(Grouped(positions), p) <==> p in positions
  {
    var h, l := High(p), Low(p);
    if l in LowWords(positions, h) {
      var q :| q in positions && High(q) == h && Low(q) == l;
      RejoinSplit(p);
      RejoinSplit(q);
    }
    if p in positions {
      assert h in HighWords(positions) && l in LowWords(positions, h);
    }
  }

  /** Every position the bitmaps stand for, rejoined. */
  ghost function Positions(bitmaps: Bitmaps): set<Position> {
    set h, l | h in bitmaps && l in bitmaps[h] :: Rejoin(h, l)
  }

  lemma PositionsHold(bitmaps: Bitmaps, p: Position)
    ensures p in Positions(bitmaps) <==> Holds(bitmaps, p)
  {
    if p in Positions(bitmaps) {
      var h, l :| h in bitmaps && l in bitmaps[h] && p == Rejoin(h, l);
      SplitRejoin(h, l);
    }
    if Holds(bitmaps, p) {
      RejoinSplit(p);
    }
  }

  lemma PositionsOfGrouped(positions: set<Position>)
    ensures Positions(Grouped(positions)) == positions
  {
    forall p: Position ensures p in Positions(Grouped(positions)) <==> p in positions {
      PositionsHold(Grouped(positions), p);
      GroupedHolds(positions, p);
    }
  }

  // ---- numbers in byte order ----

  function LittleEndian(v: nat, n: nat): (bytes: seq<byte>)
    ensures |bytes| == n
    decreases n, v
  {
    if n == 0 then [] else [v % 256] + LittleEndian(v / 256, n - 1)
  }

  function LittleValue(bytes: seq<byte>): nat {
    if bytes == [] then 0 else bytes[0] + 256 * LittleValue(bytes[1..])
  }

  function Reversed(bytes: seq<byte>): (r: seq<byte>)
    ensures |r| == |bytes|
  {
    if bytes == [] then [] else Reversed(bytes[1..]) + [bytes[0]]
  }

  function BigEndian(v: nat, n: nat): (bytes: seq<byte>)
    ensures |bytes| == n
  {
    Reversed(LittleEndian(v, n))
  }

  function BigValue(bytes: seq<byte>): nat {
    LittleValue(Reversed(bytes))
  }

  function Bytes256(n: nat): nat {
    if n == 0 then 1 else 256 * Bytes256(n - 1)
  }

  lemma {:induction false} LittleRoundTrip(v: nat, n: nat)
    requires v < Bytes256(n)
    ensures LittleValue(LittleEndian(v, n)) == v
    decreases n
  {
    if n > 0 {
      LittleRoundTrip(v / 256, n - 1);
      assert LittleEndian(v, n)[1..] == LittleEndian(v / 256, n - 1);
    }
  }

  lemma {:induction false} ReversedAppend(a: seq<byte>, b: byte)
    ensures Reversed(a + [b]) == [b] + Reversed(a)
  {
    if a != [] {
      assert (a + [b])[1..] == a[1..] + [b];
      ReversedAppend(a[1..], b);
    }
  }

  lemma {:induction false} ReversedTwice(a: seq<byte>)
    ensures Reversed(Reversed(a)) == a
  {
    if a != [] {
      ReversedTwice(a[1..]);
      ReversedAppend(Reversed(a[1..]), a[0]);
    }
  }

  lemma BigRoundTrip(v: nat, n: nat)
    requires v < Bytes256(n)
    ensures BigValue(BigEndian(v, n)) == v
  {
    ReversedTwice(LittleEndian(v, n));
    LittleRoundTrip(v, n);
  }

  /** A signed 32-bit key as the word stored in the blob. */
  function KeyWord(h: HighBits): nat {
    h % 0x1_0000_0000
  }

  function KeyOfWord(v: nat): HighBits
    requires v < 0x1_0000_0000
  {
    if v < 0x8000_0000 then v else v - 0x1_0000_0000
  }

  function ChecksumBytes(c: Bits32): seq<byte> {
    ByteValues(c);
    [ValueOf(c[24..32]), ValueOf(c[16..24]), ValueOf(c[8..16]), ValueOf(c[0..8])]
  }

  function ChecksumOfBytes(bytes: seq<byte>): Bits32
    requires |bytes| == 4
  {
    BitsOf(bytes[3], 8) + BitsOf(bytes[2], 8) + BitsOf(bytes[1], 8) + BitsOf(bytes[0], 8)
  }

  lemma ByteValues(c: Bits32)
    ensures ValueOf(c[24..32]) < 256 && ValueOf(c[16..24]) < 256 && ValueOf(c[8..16]) < 256 && ValueOf(c[0..8]) < 256
  {
    assert Power(8) == 256;
    ValueInRange(c[24..32]);
    ValueInRange(c[16..24]);
    ValueInRange(c[8..16]);
    ValueInRange(c[0..8]);
  }

  lemma ChecksumRoundTrip(c: Bits32)
    ensures ChecksumOfBytes(ChecksumBytes(c)) == c
  {
    ByteValues(c);
    BitsOfValue(c[24..32]);
    BitsOfValue(c[16..24]);
    BitsOfValue(c[8..16]);
    BitsOfValue(c[0..8]);
    Rejoined(c);
  }

  lemma Rejoined(c: Bits32)
    ensures c == c[0..8] + c[8..16] + c[16..24] + c[24..32]
  {
  }

  // ---- the format ----

  const MAGIC: seq<byte> := [0xD1, 0xD3, 0x39, 0x64]

  datatype Entry = Entry(key: HighBits, bitmap: set<LowBits>)

  function Section(codec: Codec, e: Entry): seq<byte> {
    LittleEndian(KeyWord(e.key), 4) + codec.write(e.bitmap)
  }

  function Sections(codec: Codec, entries: seq<Entry>): seq<byte> {
    if entries == [] then [] else Section(codec, entries[0]) + Sections(codec, entries[1..])
  }

  /** The checksummed part. */
  function Body(codec: Codec, entries: seq<Entry>): seq<byte> {
    MAGIC + LittleEndian(|entries|, 8) + Sections(codec, entries)
  }

  function Framed(size: nat, body: seq<byte>): seq<byte> {
    BigEndian(size, 4) + body + ChecksumBytes(Checksum(body))
  }

  /** entries lists the bitmaps once each; the hash map's iteration order is unspecified. */
  ghost predicate Lists(bitmaps: Bitmaps, entries: seq<Entry>) {
    && (forall e :: e in entries ==> e.key in bitmaps && e.bitmap == bitmaps[e.key])
    && (forall h :: h in bitmaps ==> Entry(h, bitmaps[h]) in entries)
    && (forall i, j :: 0 <= i < j < |entries| ==> entries[i].key != entries[j].key)
  }

  /** blob is what writing these bitmaps in this order produces, and fits the size field. */
  ghost predicate IsBlob(codec: Codec, bitmaps: Bitmaps, entries: seq<Entry>, blob: seq<byte>) {
    && Lists(bitmaps, entries)
    && |Body(codec, entries)| < 0x1_0000_0000
    && blob == Framed(|Body(codec, entries)|, Body(codec, entries))
  }

  function Min(a: nat, b: nat): nat {
    if a < b then a else b
  }

  datatype OneBitmap = Got(key: HighBits, bitmap: set<LowBits>, size: nat) | Bad(error: Error)

  /** Reads one key and bitmap at offset at, with left bytes of the declared size remaining.  The bitmap
      library is told the remaining declared size; it can see no further than the end of the blob. */
  function ReadBitmap(codec: Codec, blob: seq<byte>, at: nat, left: int): OneBitmap {
    if left < 4 then Bad(SizeTooSmallForKey)
    else if at + 4 >= |blob| then Bad(TruncatedKey)
    else
      WordInRange(blob[at..at + 4]);
      var key := KeyOfWord(LittleValue(blob[at..at + 4]));
      var start, rest := at + 4, left - 4;
      var size := codec.size(blob[start..start + Min(rest, |blob| - start)]);
      if size > rest then Bad(BitmapTooLarge)
      else if start + size >= |blob| then Bad(TruncatedBitmap)
      else
        var bitmap := codec.read(blob[start..start + size]);
        if bitmap.None? then Bad(BadBitmap) else Got(key, bitmap.value, 4 + size)
  }

  function BitmapReader(codec: Codec, blob: seq<byte>): (nat, int) -> OneBitmap {
    (at: nat, left: int) => ReadBitmap(codec, blob, at, left)
  }

  /** Reads count bitmaps from offset at; a key already found keeps its first bitmap. */
  function DecodeBitmaps(read: (nat, int) -> OneBitmap, at: nat, left: int, count: nat, found: Bitmaps): (Decoded, nat)
    decreases count
  {
    if count == 0 then (Decoded(found), at)
    else
      var one := read(at, left);
      if one.Bad? then (Failed(one.error), at)
      else DecodeBitmaps(read, at + one.size, left - one.size, count - 1,
                         if one.key in found then found else found[one.key := one.bitmap])
  }

  function Decode(codec: Codec, blob: seq<byte>): Decoded {
    if |blob| < 12 then Failed(TooSmall)
    else
      var size := BigValue(blob[0..4]);
      if size < 4 then Failed(SizeTooSmall)
      else if blob[4..8] != MAGIC then Failed(BadMagic)
      else if size - 4 < 8 then Failed(SizeTooSmall)
      else if |blob| <= 16 then Failed(TruncatedCount)
      else
        var count := LittleValue(blob[8..16]);
        if count >= 0x8000_0000_0000_0000 then Failed(NegativeCount)
        else
          var (result, at) := DecodeBitmaps(BitmapReader(codec, blob), 16, size - 12, count, map[]);
          if result.Failed? then result
          else if at + 4 > |blob| then Failed(TruncatedChecksum)
          else if at + 4 != |blob| then Failed(TrailingBytes)
          else if at < 4 || Checksum(blob[4..at]) != ChecksumOfBytes(blob[at..at + 4]) then Failed(ChecksumMismatch)
          else result
  }

  lemma {:induction false} WordInRange(bytes: seq<byte>)
    ensures LittleValue(bytes) < Bytes256(|bytes|)
    ensures |bytes| == 4 ==> LittleValue(bytes) < 0x1_0000_0000
  {
    if bytes != [] {
      WordInRange(bytes[1..]);
    }
    assert Bytes256(4) == 0x1_0000_0000;
  }

  // ---- reading back what was written ----

  /** The bitmaps kept after reading the listed ones in order. */
  function Kept(found: Bitmaps, entries: seq<Entry>): Bitmaps
    decreases |entries|
  {
    if entries == [] then found
    else Kept(if entries[0].key in found then found else found[entries[0].key := entries[0].bitmap], entries[1..])
  }

  lemma {:induction false} KeptEntries(found: Bitmaps, bitmaps: Bitmaps, entries: seq<Entry>)
    requires forall e :: e in entries ==> e.key in bitmaps && e.bitmap == bitmaps[e.key]
    requires forall h :: h in found ==> h in bitmaps && found[h] == bitmaps[h]
    ensures var kept := Kept(found, entries);
            && (forall h :: h in kept ==> h in bitmaps && kept[h] == bitmaps[h])
            && (forall h :: h in found ==> h in kept)
            && (forall e :: e in entries ==> e.key in kept)
    decreases |entries|
  {
    if entries != [] {
      assert forall e :: e in entries <==> e == entries[0] || e in entries[1..];
      KeptEntries(if entries[0].key in found then found else found[entries[0].key := entries[0].bitmap], bitmaps, entries[1..]);
    }
  }

  /** The reader at one written section: the key, and a buffer that starts with the bitmap. */
  lemma ReadWritten(codec: Codec, blob: seq<byte>, at: nat, e: Entry, left: nat)
    requires ValidCodec(codec) && HoldsAt(blob, at, left, Section(codec, e))
    ensures ReadBitmap(codec, blob, at, left) == Got(e.key, e.bitmap, |Section(codec, e)|)
  {
    var section, written := Section(codec, e), codec.write(e.bitmap);
    var start := at + 4;
    SplitSlice(blob, at, LittleEndian(KeyWord(e.key), 4), written);
    assert Bytes256(4) == 0x1_0000_0000;
    LittleRoundTrip(KeyWord(e.key), 4);
    assert KeyOfWord(KeyWord(e.key)) == e.key;
    var window := blob[start..start + Min(left - 4, |blob| - start)];
    assert window == written + window[|written|..];
    assert ReadsBack(codec, e.bitmap, window[|written|..]);
  }

  /** A slice equal to a concatenation splits into the two parts. */
  lemma SplitSlice(blob: seq<byte>, at: nat, a: seq<byte>, b: seq<byte>)
    requires at + |a + b| <= |blob| && blob[at..at + |a + b|] == a + b
    ensures blob[at..at + |a|] == a && blob[at + |a|..at + |a| + |b|] == b
  {
    assert blob[at..at + |a|] == (a + b)[..|a|];
    assert blob[at + |a|..at + |a| + |b|] == (a + b)[|a|..];
  }

  /** blob holds these bytes at offset at, within the declared size, and does not end there. */
  ghost predicate HoldsAt(blob: seq<byte>, at: nat, left: nat, bytes: seq<byte>) {
    at + |bytes| < |blob| && |bytes| <= left && blob[at..at + |bytes|] == bytes
  }

  lemma HoldsParts(blob: seq<byte>, at: nat, left: nat, a: seq<byte>, b: seq<byte>)
    requires HoldsAt(blob, at, left, a + b)
    ensures HoldsAt(blob, at, left, a) && |a| <= left && HoldsAt(blob, at + |a|, left - |a|, b)
  {
    SplitSlice(blob, at, a, b);
  }

  /** Read from offset at, the entries follow one another and take n bytes in all. */
  ghost predicate Chain(read: (nat, int) -> OneBitmap, entries: seq<Entry>, at: nat, left: int, n: nat)
    decreases |entries|
  {
    if entries == [] then n == 0
    else
      var one := read(at, left);
      && one.Got? && one == Got(entries[0].key, entries[0].bitmap, one.size) && one.size <= n
      && Chain(read, entries[1..], at + one.size, left - one.size, n - one.size)
  }

  lemma {:induction false} ChainDecodes(read: (nat, int) -> OneBitmap, entries: seq<Entry>, at: nat, left: int, n: nat, found: Bitmaps)
    requires Chain(read, entries, at, left, n)
    ensures DecodeBitmaps(read, at, left, |entries|, found) == (Decoded(Kept(found, entries)), at + n)
    decreases |entries|
  {
    if entries != [] {
      var e, one := entries[0], read(at, left);
      ChainDecodes(read, entries[1..], at + one.size, left - one.size, n - one.size,
                   if e.key in found then found else found[e.key := e.bitmap]);
    }
  }

  lemma {:induction false} SectionsChain(codec: Codec, entries: seq<Entry>, blob: seq<byte>, at: nat, left: nat)
    requires ValidCodec(codec) && HoldsAt(blob, at, left, Sections(codec, entries))
    ensures Chain(BitmapReader(codec, blob), entries, at, left, |Sections(codec, entries)|)
    decreases |entries|
  {
    if entries != [] {
      var section := Section(codec, entries[0]);
      HoldsParts(blob, at, left, section, Sections(codec, entries[1..]));
      ReadWritten(codec, blob, at, entries[0], left);
      SectionsChain(codec, entries[1..], blob, at + |section|, left - |section|);
    }
  }

  /** Where the five fields of a blob end up. */
  lemma Fields(blob: seq<byte>, size: seq<byte>, magic: seq<byte>, count: seq<byte>, sections: seq<byte>, tail: seq<byte>)
    requires blob == size + (magic + count + sections) + tail && |size| == |magic| == |tail| == 4 && |count| == 8
    ensures |blob| == 20 + |sections|
    ensures blob[0..4] == size && blob[4..8] == magic && blob[8..16] == count && blob[16..16 + |sections|] == sections
    ensures blob[4..16 + |sections|] == magic + count + sections && blob[16 + |sections|..20 + |sections|] == tail
  {
    assert blob == size + (magic + (count + (sections + tail)));
  }

  /** The reader once its header fields and bitmaps are known. */
  lemma DecodeKnown(codec: Codec, blob: seq<byte>, size: nat, count: nat, bitmaps: Bitmaps, at: nat)
    requires 16 < |blob| == at + 4 && 12 <= size && count < 0x8000_0000_0000_0000
    requires BigValue(blob[0..4]) == size && blob[4..8] == MAGIC && LittleValue(blob[8..16]) == count
    requires DecodeBitmaps(BitmapReader(codec, blob), 16, size - 12, count, map[]) == (Decoded(bitmaps), at)
    requires ChecksumOfBytes(blob[at..at + 4]) == Checksum(blob[4..at])
    ensures Decode(codec, blob) == Decoded(bitmaps)
  {
  }

  /** A blob whose size field declares at least the written body decodes to the written bitmaps:
      every truncation and size check passes and no byte is left over. */
  lemma DecodeFramed(codec: Codec, bitmaps: Bitmaps, entries: seq<Entry>, size: nat)
    requires ValidCodec(codec) && Lists(bitmaps, entries) && |Body(codec, entries)| <= size < 0x1_0000_0000
    ensures Decode(codec, Framed(size, Body(codec, entries))) == Decoded(bitmaps)
  {
    var body, sections := Body(codec, entries), Sections(codec, entries);
    HeaderNumbers(codec, entries, size);
    DecodeFields(codec, bitmaps, entries, Framed(size, body), BigEndian(size, 4), LittleEndian(|entries|, 8), sections, body);
  }

  lemma DecodeFields(codec: Codec, bitmaps: Bitmaps, entries: seq<Entry>, blob: seq<byte>,
                     size: seq<byte>, count: seq<byte>, sections: seq<byte>, body: seq<byte>)
    requires ValidCodec(codec) && Lists(bitmaps, entries) && sections == Sections(codec, entries)
    requires |size| == 4 && |count| == 8 && 12 + |sections| <= BigValue(size) && LittleValue(count) == |entries| < 0x8000_0000_0000_0000
    requires body == MAGIC + count + sections && blob == size + body + ChecksumBytes(Checksum(body))
    ensures Decode(codec, blob) == Decoded(bitmaps)
  {
    var sum, at := Checksum(body), 16 + |sections|;
    Fields(blob, size, MAGIC, count, sections, ChecksumBytes(sum));
    ReadAll(codec, bitmaps, entries, blob, BigValue(size) - 12);
    ChecksumRoundTrip(sum);
    DecodeKnown(codec, blob, BigValue(size), |entries|, bitmaps, at);
  }

  lemma ReadAll(codec: Codec, bitmaps: Bitmaps, entries: seq<Entry>, blob: seq<byte>, left: nat)
    requires ValidCodec(codec) && Lists(bitmaps, entries) && HoldsAt(blob, 16, left, Sections(codec, entries))
    ensures DecodeBitmaps(BitmapReader(codec, blob), 16, left, |entries|, map[]) == (Decoded(bitmaps), 16 + |Sections(codec, entries)|)
  {
    SectionsChain(codec, entries, blob, 16, left);
    ChainDecodes(BitmapReader(codec, blob), entries, 16, left, |Sections(codec, entries)|, map[]);
    KeptEntries(map[], bitmaps, entries);
    assert Kept(map[], entries) == bitmaps;
  }

  lemma HeaderNumbers(codec: Codec, entries: seq<Entry>, size: nat)
    requires |Body(codec, entries)| <= size < 0x1_0000_0000
    ensures BigValue(BigEndian(size, 4)) == size
    ensures LittleValue(LittleEndian(|entries|, 8)) == |entries| < 0x8000_0000_0000_0000
  {
    assert Bytes256(4) == 0x1_0000_0000 && Bytes256(8) == 0x1_0000_0000_0000_0000;
    BigRoundTrip(size, 4);
    SectionsLonger(codec, entries);
    LittleRoundTrip(|entries|, 8);
  }

  lemma {:induction false} SectionsLonger(codec: Codec, entries: seq<Entry>)
    ensures |entries| <= |Sections(codec, entries)|
  {
    if entries != [] {
      SectionsLonger(codec, entries[1..]);
    }
  }

  /** Writing a set of positions and reading the blob back gives the same set, in any bitmap order. */
  lemma BlobRoundTrip(codec: Codec, positions: set<Position>, entries: seq<Entry>, blob: seq<byte>)
    requires ValidCodec(codec) && IsBlob(codec, Grouped(positions), entries, blob)
    ensures Decode(codec, blob) == Decoded(Grouped(positions))
    ensures Positions(Decode(codec, blob).bitmaps) == positions
  {
    DecodeFramed(codec, Grouped(positions), entries, |Body(codec, entries)|);
    PositionsOfGrouped(positions);
  }

  // ---- the size field ----

  /** A bitmap that does not fit the remaining declared size is refused. */
  lemma CutBitmapRefused(codec: Codec, blob: seq<byte>, at: nat, e: Entry, left: nat)
    requires ValidCodec(codec) && left < |Section(codec, e)|
    requires HoldsAt(blob, at, |Section(codec, e)|, Section(codec, e))
    ensures ReadBitmap(codec, blob, at, left).Bad?
  {
    if left >= 4 {
      var written, start, rest := codec.write(e.bitmap), at + 4, left - 4;
      SplitSlice(blob, at, LittleEndian(KeyWord(e.key), 4), written);
      assert blob[start..start + rest] == blob[start..start + |written|][..rest] == written[..rest];
      assert NoticesCut(codec, e.bitmap, rest);
      var size := codec.size(written[..rest]);
      if size <= rest {
        assert blob[start..start + size] == written[..rest][..size];
      }
    }
  }

  /** Read one after another, some entry fails. */
  ghost predicate Breaks(read: (nat, int) -> OneBitmap, entries: seq<Entry>, at: nat, left: int)
    decreases |entries|
  {
    entries != [] &&
    var one := read(at, left);
    one.Bad? || Breaks(read, entries[1..], at + one.size, left - one.size)
  }

  lemma {:induction false} BreaksFails(read: (nat, int) -> OneBitmap, entries: seq<Entry>, at: nat, left: int, found: Bitmaps)
    requires Breaks(read, entries, at, left)
    ensures DecodeBitmaps(read, at, left, |entries|, found).0.Failed?
    decreases |entries|
  {
    var one := read(at, left);
    if one.Got? {
      BreaksFails(read, entries[1..], at + one.size, left - one.size,
                  if one.key in found then found else found[one.key := one.bitmap]);
    }
  }

  lemma CutStep(codec: Codec, blob: seq<byte>, at: nat, e: Entry, rest: seq<byte>, left: nat)
    requires ValidCodec(codec) && HoldsAt(blob, at, |Section(codec, e) + rest|, Section(codec, e) + rest)
    ensures var one := ReadBitmap(codec, blob, at, left);
            one.Bad? || (one.size == |Section(codec, e)| <= left && HoldsAt(blob, at + one.size, |rest|, rest))
  {
    var section := Section(codec, e);
    HoldsParts(blob, at, |section + rest|, section, rest);
    if left < |section| {
      CutBitmapRefused(codec, blob, at, e, left);
    } else {
      ReadWritten(codec, blob, at, e, left);
    }
  }

  /** Bitmaps that do not all fit the remaining declared size are never read to the end. */
  lemma {:induction false} CutSectionsBreak(codec: Codec, entries: seq<Entry>, blob: seq<byte>, at: nat, left: nat)
    requires ValidCodec(codec) && left < |Sections(codec, entries)|
    requires HoldsAt(blob, at, |Sections(codec, entries)|, Sections(codec, entries))
    ensures Breaks(BitmapReader(codec, blob), entries, at, left)
    decreases |entries|
  {
    CutStep(codec, blob, at, entries[0], Sections(codec, entries[1..]), left);
    var one := ReadBitmap(codec, blob, at, left);
    if one.Got? {
      CutSectionsBreak(codec, entries[1..], blob, at + one.size, left - one.size);
    }
  }

  lemma SmallSizeRefused(codec: Codec, bitmaps: Bitmaps, entries: seq<Entry>, size: nat)
    requires ValidCodec(codec) && Lists(bitmaps, entries) && size < |Body(codec, entries)| && size < 0x1_0000_0000
    ensures Decode(codec, Framed(size, Body(codec, entries))).Failed?
  {
    var body := Body(codec, entries);
    assert Bytes256(4) == 0x1_0000_0000 && Bytes256(8) == 0x1_0000_0000_0000_0000;
    FewEntries(bitmaps, entries);
    LittleRoundTrip(|entries|, 8);
    BigRoundTrip(size, 4);
    SmallSizeFields(codec, entries, Framed(size, body), BigEndian(size, 4), LittleEndian(|entries|, 8), Sections(codec, entries), body);
  }

  lemma {:induction false} RangeSize(s: set<HighBits>, n: nat)
    requires forall h :: h in s ==> h < -0x8000_0000 + n
    ensures |s| <= n
  {
    if n == 0 {
      assert s == {};
    } else {
      var below := set h | h in s && h != n - 0x8000_0001;
      RangeSize(below, n - 1);
      assert s - below <= {n - 0x8000_0001};
      assert s == below + (s - below);
      assert |s - below| <= 1 by {
        if s - below != {} {
          assert s - below == {n - 0x8000_0001};
        }
      }
    }
  }

  lemma {:induction false} DistinctKeys(entries: seq<Entry>) returns (keys: set<HighBits>)
    requires forall i, j :: 0 <= i < j < |entries| ==> entries[i].key != entries[j].key
    ensures |keys| == |entries| && forall h :: h in keys ==> exists i :: 0 <= i < |entries| && entries[i].key == h
  {
    if entries == [] {
      keys := {};
    } else {
      var n := |entries| - 1;
      var rest := DistinctKeys(entries[..n]);
      keys := rest + {entries[n].key};
    }
  }

  /** There are no more bitmaps than high words. */
  lemma FewEntries(bitmaps: Bitmaps, entries: seq<Entry>)
    requires Lists(bitmaps, entries)
    ensures |entries| <= 0x1_0000_0000
  {
    var keys := DistinctKeys(entries);
    RangeSize(keys, 0x1_0000_0000);
  }

  lemma SmallSizeFields(codec: Codec, entries: seq<Entry>, blob: seq<byte>,
                        size: seq<byte>, count: seq<byte>, sections: seq<byte>, body: seq<byte>)
    requires ValidCodec(codec) && sections == Sections(codec, entries)
    requires |size| == 4 && |count| == 8 && BigValue(size) < 12 + |sections| && LittleValue(count) == |entries|
    requires body == MAGIC + count + sections && blob == size + body + ChecksumBytes(Checksum(body))
    ensures Decode(codec, blob).Failed?
  {
    Fields(blob, size, MAGIC, count, sections, ChecksumBytes(Checksum(body)));
    if BigValue(size) >= 12 {
      CutSectionsBreak(codec, entries, blob, 16, BigValue(size) - 12);
      BreaksFails(BitmapReader(codec, blob), entries, 16, BigValue(size) - 12, map[]);
    }
    FailsKnown(codec, blob, BigValue(size), |entries|);
  }

  lemma FailsKnown(codec: Codec, blob: seq<byte>, size: nat, count: nat)
    requires 16 < |blob| && BigValue(blob[0..4]) == size && LittleValue(blob[8..16]) == count
    requires size >= 12 ==> DecodeBitmaps(BitmapReader(codec, blob), 16, size - 12, count, map[]).0.Failed?
    ensures Decode(codec, blob).Failed?
  {
  }

  /** The size field itself is not covered by the checksum: a blob with another size field decodes, to the
      same bitmaps, exactly when the field still declares at least the written body. */
  lemma ResizedExactlyWhen(codec: Codec, bitmaps: Bitmaps, entries: seq<Entry>, blob: seq<byte>, size: nat)
    requires ValidCodec(codec) && IsBlob(codec, bitmaps, entries, blob) && size < 0x1_0000_0000
    ensures Decode(codec, BigEndian(size, 4) + blob[4..]).Decoded? <==> |blob| - 8 <= size
    ensures |blob| - 8 <= size ==> Decode(codec, BigEndian(size, 4) + blob[4..]) == Decode(codec, blob) == Decoded(bitmaps)
  {
    var body := Body(codec, entries);
    Resized(|body|, size, body);
    if |body| <= size {
      DecodeFramed(codec, bitmaps, entries, size);
      DecodeFramed(codec, bitmaps, entries, |body|);
    } else {
      SmallSizeRefused(codec, bitmaps, entries, size);
    }
  }

  lemma CutSize(n: nat)
    ensures n % 0x1_0000_0000 < 0x1_0000_0000
    ensures n < 0x1_0000_0000 ==> n % 0x1_0000_0000 == n
    ensures n >= 0x1_0000_0000 ==> n % 0x1_0000_0000 < n
  {
  }

  /** What is written for a set of positions, with a size field cut to 32 bits, can be read back exactly when
      the body fits the size field. */
  lemma WrittenExactlyWhen(codec: Codec, positions: set<Position>, entries: seq<Entry>, size: nat)
    requires ValidCodec(codec) && Lists(Grouped(positions), entries)
    requires size == |Body(codec, entries)| % 0x1_0000_0000
    ensures Decode(codec, Framed(size, Body(codec, entries))).Decoded? <==> |Body(codec, entries)| < 0x1_0000_0000
  {
    CutSize(|Body(codec, entries)|);
    if size < |Body(codec, entries)| {
      SmallSizeRefused(codec, Grouped(positions), entries, size);
    } else {
      DecodeFramed(codec, Grouped(positions), entries, size);
    }
  }

  lemma Resized(size: nat, other: nat, body: seq<byte>)
    ensures BigEndian(other, 4) + Framed(size, body)[4..] == Framed(other, body)
    ensures |Framed(size, body)| == |body| + 8
  {
  }

  // ---- corruption ----

  /** A blob that decodes carries the checksum of everything between its size field and its end. */
  lemma DecodedIsChecksummed(codec: Codec, blob: seq<byte>)
    requires Decode(codec, blob).Decoded?
    ensures |blob| >= 12 && Checksum(blob[4..|blob| - 4]) == ChecksumOfBytes(blob[|blob| - 4..])
  {
    var (result, at) := DecodeBitmaps(BitmapReader(codec, blob), 16, BigValue(blob[0..4]) - 12, LittleValue(blob[8..16]), map[]);
    assert at == |blob| - 4;
    assert blob[at..at + 4] == blob[|blob| - 4..];
  }

  lemma ChecksumBytesOfDecoded(codec: Codec, blob: seq<byte>)
    requires Decode(codec, blob).Decoded?
    ensures |blob| >= 12 && blob[|blob| - 4..] == ChecksumBytes(Checksum(blob[4..|blob| - 4]))
  {
    DecodedIsChecksummed(codec, blob);
    BytesRoundTrip(blob[|blob| - 4..]);
  }

  lemma BytesRoundTrip(bytes: seq<byte>)
    requires |bytes| == 4
    ensures ChecksumBytes(ChecksumOfBytes(bytes)) == bytes
  {
    var a, b, c, d := BitsOf(bytes[0], 8), BitsOf(bytes[1], 8), BitsOf(bytes[2], 8), BitsOf(bytes[3], 8);
    FourParts(d, c, b, a);
    ByteOfBits(bytes[0]);
    ByteOfBits(bytes[1]);
    ByteOfBits(bytes[2]);
    ByteOfBits(bytes[3]);
  }

  lemma FourParts(a: seq<bool>, b: seq<bool>, c: seq<bool>, d: seq<bool>)
    requires |a| == |b| == |c| == |d| == 8
    ensures var w := a + b + c + d; w[0..8] == a && w[8..16] == b && w[16..24] == c && w[24..32] == d
  {
  }

  lemma ByteOfBits(b: byte)
    ensures ValueOf(BitsOf(b, 8)) == b
  {
    assert Power(8) == 256;
    ValueOfBits(b, 8);
  }

  /** The last four bytes are the checksum of everything after the size field. */
  ghost predicate Sealed(blob: seq<byte>) {
    |blob| >= 8 && blob[|blob| - 4..] == ChecksumBytes(Checksum(blob[4..|blob| - 4]))
  }

  lemma SealBroken(blob: seq<byte>, i: nat, b: byte)
    requires Sealed(blob) && 4 <= i < |blob| && blob[i] != b
    ensures !Sealed(blob[i := b])
  {
    if i < |blob| - 4 {
      BodyChange(blob, i, b);
    } else {
      TailChange(blob, i, b);
    }
  }

  lemma BodyChange(blob: seq<byte>, i: nat, b: byte)
    requires |blob| >= 8 && 4 <= i < |blob| - 4 && blob[i] != b
    ensures blob[i := b][|blob| - 4..] == blob[|blob| - 4..]
    ensures ChecksumBytes(Checksum(blob[i := b][4..|blob| - 4])) != ChecksumBytes(Checksum(blob[4..|blob| - 4]))
  {
    var x, y := blob[4..|blob| - 4], blob[i := b][4..|blob| - 4];
    assert y == x[i - 4 := b];
    SingleByteDetected(x, y, i - 4);
    ChecksumRoundTrip(Checksum(x));
    ChecksumRoundTrip(Checksum(y));
  }

  lemma TailChange(blob: seq<byte>, i: nat, b: byte)
    requires |blob| >= 8 && |blob| - 4 <= i < |blob| && blob[i] != b
    ensures blob[i := b][4..|blob| - 4] == blob[4..|blob| - 4]
    ensures blob[i := b][|blob| - 4..] != blob[|blob| - 4..]
  {
    var end := |blob| - 4;
    assert blob[i := b][end..][i - end] == b && blob[end..][i - end] == blob[i];
  }

  /** Changing any one byte after the size field makes a decodable blob undecodable. */
  lemma OneByteRejected(codec: Codec, blob: seq<byte>, i: nat, b: byte)
    requires Decode(codec, blob).Decoded? && 4 <= i < |blob| && blob[i] != b
    ensures Decode(codec, blob[i := b]).Failed?
  {
    ChecksumBytesOfDecoded(codec, blob);
    SealBroken(blob, i, b);
    if Decode(codec, blob[i := b]).Decoded? {
      ChecksumBytesOfDecoded(codec, blob[i := b]);
    }
  }
}
