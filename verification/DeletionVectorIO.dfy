/**
 Writing and reading deletion-vector blobs with a pointer that moves through a byte buffer, and
 collecting the positions of decoded bitmaps.
 */
module DeletionVectorIO {
  import opened Tables
  import opened Bits
  import opened Crc32
  import opened DeletionVector

  /** Stores bytes at an offset. */
  method Put(buffer: array<byte>, at: nat, bytes: seq<byte>)
    requires at + |bytes| <= buffer.Length
    modifies buffer
    ensures buffer[..at] == old(buffer[..at]) && buffer[at..at + |bytes|] == bytes
  {
    var i := 0;
    while i < |bytes|
      invariant 0 <= i <= |bytes|
      invariant buffer[..at] == old(buffer[..at]) && buffer[at..at + i] == bytes[..i]
    {
      buffer[at + i] := bytes[i];
      i := i + 1;
    }
  }

  /** Groups row positions by their high word. */
  method Group(positions: set<Position>) returns (bitmaps: Bitmaps)
    ensures bitmaps == Grouped(positions)
  {
    bitmaps := map[];
    var rest := positions;
    while rest != {}
      invariant rest <= positions
      invariant forall h :: h in bitmaps <==> h in HighWords(positions - rest)
      invariant forall h, l :: h in bitmaps ==> (l in bitmaps[h] <==> l in LowWords(positions - rest, h))
      decreases |rest|
    {
      var row :| row in rest;
      var h, l := High(row), Low(row);
      bitmaps := bitmaps[h := (if h in bitmaps then bitmaps[h] else {}) + {l}];
      AddPosition(positions - rest, row);
      assert positions - (rest - {row}) == (positions - rest) + {row};
      rest := rest - {row};
    }
    assert positions - rest == positions;
    assert forall h :: h in bitmaps ==> bitmaps[h] == LowWords(positions, h);
  }

  lemma AddPosition(s: set<Position>, p: Position)
    ensures HighWords(s + {p}) == HighWords(s) + {High(p)}
    ensures forall h :: LowWords(s + {p}, h) == if h == High(p) then LowWords(s, h) + {Low(p)} else LowWords(s, h)
    ensures High(p) !in HighWords(s) ==> LowWords(s, High(p)) == {}
  {
    forall h: HighBits ensures LowWords(s + {p}, h) == if h == High(p) then LowWords(s, h) + {Low(p)} else LowWords(s, h) {
      forall l: LowBits ensures l in LowWords(s + {p}, h) <==> l in LowWords(s, h) || (h == High(p) && l == Low(p)) {
        if h == High(p) && l == Low(p) {
          assert p in s + {p};
        }
      }
    }
    forall h: HighBits ensures h in HighWords(s + {p}) <==> h in HighWords(s) || h == High(p) {
      if h == High(p) {
        assert p in s + {p};
      }
    }
  }

  /** The hash map's entries in the order it happens to iterate them. */
  method Iteration(bitmaps: Bitmaps) returns (entries: seq<Entry>)
    ensures Lists(bitmaps, entries)
  {
    entries := [];
    var keys := bitmaps.Keys;
    while keys != {}
      invariant keys <= bitmaps.Keys
      invariant forall e :: e in entries ==> e.key in bitmaps && e.key !in keys && e.bitmap == bitmaps[e.key]
      invariant forall h :: h in bitmaps && h !in keys ==> Entry(h, bitmaps[h]) in entries
      invariant forall i, j :: 0 <= i < j < |entries| ==> entries[i].key != entries[j].key
      decreases |keys|
    {
      var h :| h in keys;
      entries := entries + [Entry(h, bitmaps[h])];
      keys := keys - {h};
    }
  }

  lemma {:induction false} SectionsAppend(codec: Codec, entries: seq<Entry>, e: Entry)
    ensures Sections(codec, entries + [e]) == Sections(codec, entries) + Section(codec, e)
  {
    if entries == [] {
      assert [e][1..] == [];
    } else {
      assert (entries + [e])[1..] == entries[1..] + [e];
      SectionsAppend(codec, entries[1..], e);
    }
  }

  lemma NextEntry(codec: Codec, entries: seq<Entry>, i: nat)
    requires i < |entries|
    ensures Sections(codec, entries[..i + 1]) == Sections(codec, entries[..i]) + Section(codec, entries[i])
  {
    assert entries[..i + 1] == entries[..i] + [entries[i]];
    SectionsAppend(codec, entries[..i], entries[i]);
  }

  lemma {:induction false} PrefixFits(codec: Codec, entries: seq<Entry>, i: nat)
    requires i <= |entries|
    ensures |Sections(codec, entries[..i])| <= |Sections(codec, entries)|
    decreases |entries| - i
  {
    if i == |entries| {
      assert entries[..i] == entries;
    } else {
      NextEntry(codec, entries, i);
      PrefixFits(codec, entries, i + 1);
    }
  }

  /** The bytes the header, the bitmaps and the checksum need. */
  method TotalSize(codec: Codec, entries: seq<Entry>) returns (total: nat)
    ensures total == |Body(codec, entries)| + 8
  {
    total := 4 + 4 + 8;
    var i := 0;
    while i < |entries|
      invariant 0 <= i <= |entries| && total == 16 + |Sections(codec, entries[..i])|
    {
      NextEntry(codec, entries, i);
      total := total + 4 + |codec.write(entries[i].bitmap)|;
      i := i + 1;
    }
    assert entries[..i] == entries;
    total := total + 4;
  }

  /** Serializes positions.  The size field is the body's size cut to 32 bits. */
  method ToBlob(codec: Codec, positions: set<Position>) returns (buffer: array<byte>, ghost entries: seq<Entry>)
    ensures fresh(buffer) && Lists(Grouped(positions), entries)
    ensures buffer[..] == Framed(|Body(codec, entries)| % 0x1_0000_0000, Body(codec, entries))
    ensures |Body(codec, entries)| < 0x1_0000_0000 ==> IsBlob(codec, Grouped(positions), entries, buffer[..])
    ensures ValidCodec(codec) ==> (Decode(codec, buffer[..]).Decoded? <==> |Body(codec, entries)| < 0x1_0000_0000)
  {
    var bitmaps := Group(positions);
    var order := Iteration(bitmaps);
    entries := order;
    var total := TotalSize(codec, order);
    buffer := new byte[total];
    WriteFields(codec, order, buffer);
    CutSize(|Body(codec, entries)|);
    if ValidCodec(codec) {
      WrittenExactlyWhen(codec, positions, entries, |Body(codec, entries)| % 0x1_0000_0000);
    }
  }

  method WriteFields(codec: Codec, entries: seq<Entry>, buffer: array<byte>)
    requires buffer.Length == |Body(codec, entries)| + 8
    modifies buffer
    ensures buffer[..] == Framed(|Body(codec, entries)| % 0x1_0000_0000, Body(codec, entries))
  {
    var size := BigEndian((buffer.Length - 4 - 4) % 0x1_0000_0000, 4);
    Put(buffer, 0, size);
    WriteBody(codec, entries, buffer);
    var at := buffer.Length - 4;
    WriteChecksum(buffer, at);
    ghost var body := Body(codec, entries);
    Assembled(buffer[..], size, body, ChecksumBytes(Checksum(body)));
  }

  lemma Assembled(buffer: seq<byte>, size: seq<byte>, body: seq<byte>, tail: seq<byte>)
    requires |size| == |tail| == 4 && |buffer| == 8 + |body|
    requires buffer[..4] == size && buffer[4..4 + |body|] == body && buffer[4 + |body|..] == tail
    ensures buffer == size + body + tail
  {
    assert buffer == buffer[..4] + buffer[4..4 + |body|] + buffer[4 + |body|..];
  }

  /** Appends the checksum of everything after the size field. */
  method WriteChecksum(buffer: array<byte>, at: nat)
    requires 4 <= at && at + 4 == buffer.Length
    modifies buffer
    ensures buffer[..4] == old(buffer[..4]) && buffer[4..at] == old(buffer[4..at])
    ensures buffer[at..] == ChecksumBytes(Checksum(old(buffer[4..at])))
  {
    var checksum := ChecksumOf(buffer[4..at]);
    ghost var before := buffer[..at];
    Put(buffer, at, ChecksumBytes(checksum));
    assert buffer[..4] == buffer[..at][..4] && buffer[4..at] == buffer[..at][4..];
    assert before[..4] == old(buffer[..4]) && before[4..] == old(buffer[4..at]);
    assert buffer[at..at + 4] == buffer[at..];
  }

  /** Writes everything between the size field and the checksum. */
  method WriteBody(codec: Codec, entries: seq<Entry>, buffer: array<byte>)
    requires buffer.Length == |Body(codec, entries)| + 8
    modifies buffer
    ensures buffer[..4] == old(buffer[..4]) && buffer[4..buffer.Length - 4] == Body(codec, entries)
  {
    var header := MAGIC + LittleEndian(|entries|, 8);
    Put(buffer, 4, header);
    ghost var front := buffer[..16];
    assert front[..4] == old(buffer[..4]) && front[4..] == header;
    WriteSections(codec, entries, buffer, 16);
    var end := buffer.Length - 4;
    assert buffer[..4] == buffer[..16][..4];
    assert buffer[4..end] == buffer[..16][4..] + buffer[16..end];
  }

  method WriteSections(codec: Codec, entries: seq<Entry>, buffer: array<byte>, start: nat)
    requires start + |Sections(codec, entries)| <= buffer.Length
    modifies buffer
    ensures buffer[..start] == old(buffer[..start]) && buffer[start..start + |Sections(codec, entries)|] == Sections(codec, entries)
  {
    var at, i := start, 0;
    while i < |entries|
      invariant 0 <= i <= |entries| && at == start + |Sections(codec, entries[..i])| <= buffer.Length
      invariant buffer[..start] == old(buffer[..start]) && buffer[start..at] == Sections(codec, entries[..i])
    {
      NextEntry(codec, entries, i);
      PrefixFits(codec, entries, i + 1);
      var section := Section(codec, entries[i]);
      ghost var before := buffer[..at];
      Put(buffer, at, section);
      Grown(before, buffer[..at + |section|], start, at, section);
      at := at + |section|;
      i := i + 1;
    }
    assert entries[..i] == entries;
  }

  /** What was written earlier stays, and the new bytes follow it. */
  lemma Grown(before: seq<byte>, now: seq<byte>, start: nat, at: nat, more: seq<byte>)
    requires start <= at <= |now| && |before| == at && now[..at] == before && now[at..] == more
    ensures now[..start] == before[..start] && now[start..] == before[start..] + more
  {
  }

  /** Parses a blob. */
  method FromBlob(codec: Codec, blob: seq<byte>) returns (result: Decoded)
    ensures result == Decode(codec, blob)
  {
    if |blob| < 12 {
      return Failed(TooSmall);
    }
    var size := BigValue(blob[0..4]);
    var at: nat := 4;
    var magic := blob[at..at + 4];
    at := at + 4;
    if size < 4 {
      return Failed(SizeTooSmall);
    }
    size := size - 4;
    if magic != MAGIC {
      return Failed(BadMagic);
    }
    if size < 8 {
      return Failed(SizeTooSmall);
    }
    if at + 8 >= |blob| {
      return Failed(TruncatedCount);
    }
    var count := LittleValue(blob[at..at + 8]);
    at := at + 8;
    size := size - 8;
    if count >= 0x8000_0000_0000_0000 {
      return Failed(NegativeCount);
    }
    var bitmaps;
    bitmaps, at := ReadBitmaps(codec, blob, at, size, count);
    if bitmaps.Failed? {
      return bitmaps;
    }
    if at + 4 > |blob| {
      return Failed(TruncatedChecksum);
    }
    var stored := ChecksumOfBytes(blob[at..at + 4]);
    if at + 4 != |blob| {
      return Failed(TrailingBytes);
    }
    if at < 4 {
      return Failed(ChecksumMismatch);
    }
    var checksum := ChecksumOf(blob[4..at]);
    if checksum != stored {
      return Failed(ChecksumMismatch);
    }
    result := bitmaps;
  }

  method ReadBitmaps(codec: Codec, blob: seq<byte>, start: nat, size: nat, count: nat) returns (result: Decoded, at: nat)
    ensures (result, at) == DecodeBitmaps(BitmapReader(codec, blob), start, size, count, map[])
  {
    ghost var read := BitmapReader(codec, blob);
    var bitmaps: Bitmaps := map[];
    at := start;
    var left: int, i := size, 0;
    while i < count
      invariant 0 <= i <= count
      invariant DecodeBitmaps(read, at, left, count - i, bitmaps) == DecodeBitmaps(read, start, size, count, map[])
    {
      var one := ReadBitmap(codec, blob, at, left);
      assert one == read(at, left);
      if one.Bad? {
        return Failed(one.error), at;
      }
      at := at + one.size;
      left := left - one.size;
      bitmaps := if one.key in bitmaps then bitmaps else bitmaps[one.key := one.bitmap];
      i := i + 1;
    }
    result := Decoded(bitmaps);
  }

  method ChecksumOf(data: seq<byte>) returns (checksum: Bits32)
    ensures checksum == Checksum(data)
  {
    var table := MakeTable();
    var crc := new Crc();
    crc.Update(table, data);
    checksum := crc.GetValue();
  }

  /** Collects the positions of all bitmaps. */
  method ToSet(bitmaps: Bitmaps) returns (out: set<Position>)
    ensures out == Positions(bitmaps)
  {
    out := {};
    var keys := bitmaps.Keys;
    while keys != {}
      invariant keys <= bitmaps.Keys
      invariant forall p :: p in out <==> Holds(bitmaps, p) && High(p) !in keys
      decreases |keys|
    {
      var h :| h in keys;
      var values := bitmaps[h];
      while values != {}
        invariant values <= bitmaps[h]
        invariant forall p :: p in out <==> Holds(bitmaps, p) && (High(p) !in keys || (High(p) == h && Low(p) !in values))
        decreases |values|
      {
        var l :| l in values;
        SplitRejoin(h, l);
        forall p: Position | High(p) == h && Low(p) == l ensures p == Rejoin(h, l) {
          RejoinSplit(p);
        }
        out := out + {Rejoin(h, l)};
        values := values - {l};
      }
      keys := keys - {h};
    }
    forall p: Position ensures p in out <==> p in Positions(bitmaps) {
      PositionsHold(bitmaps, p);
    }
  }
}
