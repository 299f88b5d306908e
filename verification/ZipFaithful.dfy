/** What an accepted archive must hold: every emitted entry is spelled out by the bytes of its two
    headers, its extra fields and its descriptor, at the places the format gives them. */
module ZipFaithful {
  import opened Basics
  import opened ZipBytes
  import opened ZipExtra
  import opened ZipDirectory
  import opened ZipAdmission
  import opened ZipCount

  predicate Within(b: Bytes, at: int, length: int) { 0 <= at && 0 <= length && at + length <= |b| }

  /** Names and extra fields behind a header. */
  predicate NamesAreThere(b: Bytes, at: int, nameLength: nat, extraLength: nat, name: Bytes, extra: map<nat, Bytes>) {
    && Within(b, at, nameLength + extraLength) && name == b[at..at + nameLength]
    && ExtraFieldsOf(b[at + nameLength..at + nameLength + extraLength]) == Some(extra)
  }

  /** 4.3.12, with the flags that are supported: 1, 2, 3 and 11. */
  ghost predicate CentralIsThere(b: Bytes, e: Entry) {
    && Within(b, e.at, 46) && U32(b, e.at) == 0x02014b50
    && U16(b, e.at + 8) == e.name.flags && U16(b, e.at + 10) == e.compressionMethod && U32(b, e.at + 16) == e.crc
    && NamesAreThere(b, e.at + 46, U16(b, e.at + 28), U16(b, e.at + 30), e.name.central, e.name.centralExtra)
    && e.next == e.at + 46 + U16(b, e.at + 28) + U16(b, e.at + 30) + U16(b, e.at + 32)
    && exists p: nat, q: nat, r: nat, s: nat ::
         p <= 1 && q <= 1 && r <= 1 && s <= 1 && e.name.flags == FlagSum(p, q, r, s)
  }

  function FlagSum(p: nat, q: nat, r: nat, s: nat): nat { 2 * p + 4 * q + 8 * r + 2048 * s }

  /** The sizes and the place of the local header, in their slots or in the ZIP64 field. */
  predicate CentralCarries(b: Bytes, e: Entry, base: int) {
    && Within(b, e.at, 46) && e.localAt >= base
    && Carries(Values(U32(b, e.at + 20), U32(b, e.at + 24), U32(b, e.at + 42), U16(b, e.at + 34)),
               ZipField(e.name.centralExtra), true, Values(e.compressedSize, e.size, e.localAt - base, 0))
  }

  predicate Described(e: Entry) { e.name.flags / 8 % 2 == 1 }

  /** 4.3.7: the local header repeats the central one, or leaves a zero where a descriptor follows. */
  predicate LocalIsThere(b: Bytes, e: Entry) {
    && Within(b, e.localAt, 30) && U32(b, e.localAt) == 0x04034b50
    && U16(b, e.localAt + 6) == e.name.flags && U16(b, e.localAt + 8) == e.compressionMethod
    && NamesAreThere(b, e.localAt + 30, U16(b, e.localAt + 26), U16(b, e.localAt + 28), e.name.local, e.name.localExtra)
    && e.dataStart == e.localAt + 30 + U16(b, e.localAt + 26) + U16(b, e.localAt + 28)
    && (U32(b, e.localAt + 14) == e.crc || (Described(e) && U32(b, e.localAt + 14) == 0))
  }

  ghost predicate LocalCarries(b: Bytes, e: Entry) {
    && Within(b, e.localAt, 30)
    && exists c: nat, u: nat ::
         && Carries(Values(U32(b, e.localAt + 18), U32(b, e.localAt + 22), 0, 0), ZipField(e.name.localExtra), false,
                    Values(c, u, 0, 0))
         && (c == e.compressedSize || (Described(e) && c == 0)) && (u == e.size || (Described(e) && u == 0))
  }

  /** Whether a size stands in a ZIP64 field of either header. */
  predicate Wide(b: Bytes, e: Entry) {
    && Within(b, e.at, 46) && Within(b, e.localAt, 30)
    && (U32(b, e.at + 20) == 0xffff_ffff || U32(b, e.at + 24) == 0xffff_ffff
        || U32(b, e.localAt + 18) == 0xffff_ffff || U32(b, e.localAt + 22) == 0xffff_ffff)
  }

  /** 4.3.9: the data ends at the descriptor, which holds the checksum and both sizes. */
  predicate DataEnds(b: Bytes, e: Entry) {
    var stop := e.dataStart + e.compressedSize;
    && Within(b, e.dataStart, e.compressedSize) && stop <= e.dataEnd <= |b|
    && if !Described(e) then e.dataEnd == stop
       else
         var width := if Wide(b, e) then 8 else 4;
         var body := LE(e.crc, 4) + LE(e.compressedSize, width) + LE(e.size, width);
         b[stop..e.dataEnd] in {body, LE(0x08074b50, 4) + body}
  }

  ghost predicate Spelled(b: Bytes, e: Entry, base: int) {
    && CentralIsThere(b, e) && CentralCarries(b, e, base) && LocalIsThere(b, e) && LocalCarries(b, e) && DataEnds(b, e)
  }

  // ---------------------------------------------------------------- the two headers

  lemma SliceIsRead(b: Bytes, at: int, length: int, bound: int)
    requires bound <= |b|
    ensures Read(Slices(b), at, length, bound).Some? ==>
              && Within(b, at, length) && at + length <= bound
              && Read(Slices(b), at, length, bound).value == b[at..at + length]
  {
  }

  lemma NamesAreRead(b: Bytes, at: int, nameLength: nat, extraLength: nat, bound: int)
    requires bound <= |b| && NamesAt(Slices(b), at, nameLength, extraLength, bound).Some?
    ensures var (name, extra) := NamesAt(Slices(b), at, nameLength, extraLength, bound).value;
            NamesAreThere(b, at, nameLength, extraLength, name, extra)
  {
    hide ExtraFieldsOf;
    SliceIsRead(b, at, nameLength + extraLength, bound);
    var names := b[at..at + nameLength + extraLength];
    assert names[..nameLength] == b[at..at + nameLength];
    assert names[nameLength..] == b[at + nameLength..at + nameLength + extraLength];
  }

  lemma CentralIsRead(b: Bytes, l: Layout, at: int, header: Bytes)
    requires l.end <= |b| && Within(b, at, 46) && header == b[at..at + 46]
    requires CentralAt(Slices(b), l, at, header).Some?
    ensures var c := CentralAt(Slices(b), l, at, header).value;
            && c.header == header && U32(b, at) == 0x02014b50 && SupportedFlags(U16(b, at + 8))
            && NamesAreThere(b, at + 46, U16(b, at + 28), U16(b, at + 30), c.name, c.extra)
            && c.next == at + 46 + U16(b, at + 28) + U16(b, at + 30) + U16(b, at + 32)
            && Decode(Slots(header, true), ZipField(c.extra), true) == Some(c.values)
  {
    hide U16;
    hide U32;
    hide Decode;
    hide Slots;
    hide NamesAt;
    hide NamesAreThere;
    hide SupportedFlags;
    SliceReads(b, at, at + 46, 0);
    SliceReads(b, at, at + 46, 8);
    SliceReads(b, at, at + 46, 28);
    SliceReads(b, at, at + 46, 30);
    SliceReads(b, at, at + 46, 32);
    NamesAreRead(b, at + 46, U16(b, at + 28), U16(b, at + 30), l.end);
  }

  lemma LocalIsRead(b: Bytes, l: Layout, c: Central)
    requires l.start <= |b| && |c.header| >= 46 && LocalAt(Slices(b), l, c).Some?
    ensures var local, at := LocalAt(Slices(b), l, c).value, l.base + c.values.offset;
            && Within(b, at, 30) && local.at == at && local.header == b[at..at + 30] && U32(b, at) == 0x04034b50
            && U16(b, at + 6) == U16(c.header, 8) && U16(b, at + 8) == U16(c.header, 10)
            && NamesAreThere(b, at + 30, U16(b, at + 26), U16(b, at + 28), local.name, local.extra)
            && local.dataStart == at + 30 + U16(b, at + 26) + U16(b, at + 28)
  {
    hide U16;
    hide U32;
    hide NamesAt;
    hide NamesAreThere;
    var at := l.base + c.values.offset;
    SliceIsRead(b, at, 30, l.start);
    SliceReads(b, at, at + 30, 0);
    SliceReads(b, at, at + 30, 6);
    SliceReads(b, at, at + 30, 8);
    SliceReads(b, at, at + 30, 26);
    SliceReads(b, at, at + 30, 28);
    NamesAreRead(b, at + 30, U16(b, at + 26), U16(b, at + 28), l.start);
  }

  // ---------------------------------------------------------------- the descriptor

  lemma FramingIsWritten(bytes: Bytes, skip: nat, wide: bool, crc: nat, c: nat, u: nat)
    requires (skip == 0 || skip == 4) && DescriptorMatches(bytes, skip, wide, crc, c, u) == Some(true)
    ensures var width := if wide then 8 else 4;
            var body := LE(crc, 4) + LE(c, width) + LE(u, width);
            && skip + 4 + 2 * width <= |bytes|
            && bytes[..skip + 4 + 2 * width] == if skip == 4 then LE(0x08074b50, 4) + body else body
  {
    hide LE;
    hide U32;
    var width := if wide then 8 else 4;
    var end := skip + 4 + 2 * width;
    if skip == 4 { ReadIsWritten(bytes, 0, 4); }
    ReadIsWritten(bytes, skip, 4);
    ReadIsWritten(bytes, skip + 4, width);
    ReadIsWritten(bytes, skip + 4 + width, width);
    assert bytes[skip..end] == bytes[skip..skip + 4] + bytes[skip + 4..skip + 4 + width] + bytes[skip + 4 + width..end];
    assert bytes[..end] == bytes[..skip] + bytes[skip..end];
  }

  lemma PrefixOfSlice(b: Bytes, at: int, n: nat, k: nat)
    requires Within(b, at, n) && k <= n
    ensures b[at..at + n][..k] == b[at..at + k]
  {
  }

  lemma DescriptorIsThere(b: Bytes, at: int, bound: int, crc: nat, c: nat, u: nat, wide: bool)
    requires bound <= |b| && DescriptorEnd(Slices(b), at, bound, crc, c, u, wide).Some?
    ensures var end := DescriptorEnd(Slices(b), at, bound, crc, c, u, wide).value;
            var width := if wide then 8 else 4;
            var body := LE(crc, 4) + LE(c, width) + LE(u, width);
            0 <= at <= end <= |b| && b[at..end] in {body, LE(0x08074b50, 4) + body}
  {
    hide LE;
    hide DescriptorMatches;
    var length := if wide then 20 else 12;
    SliceIsRead(b, at, Min(length + 4, bound - at), bound);
    var bytes := b[at..at + Min(length + 4, bound - at)];
    var skip := if DescriptorMatches(bytes, 4, wide, crc, c, u).value then 4 else 0;
    FramingIsWritten(bytes, skip, wide, crc, c, u);
    PrefixOfSlice(b, at, |bytes|, skip + length);
  }

  // ---------------------------------------------------------------- one entry

  lemma FlagsAreKnown(flags: nat)
    requires SupportedFlags(flags)
    ensures exists p: nat, q: nat, r: nat, s: nat ::
              p <= 1 && q <= 1 && r <= 1 && s <= 1 && flags == FlagSum(p, q, r, s)
    ensures HasDescriptor(flags) <==> flags / 8 % 2 == 1
  {
    assert flags == FlagSum(Bit(flags, 2), Bit(flags, 4), Bit(flags, 8), Bit(flags, 2048));
  }

  /** The tests of an emitted entry, in terms of its two headers. */
  lemma EntryIsTested(reply: Replies, l: Layout, names: Names, earlier: seq<Entry>, at: int, c: Central, local: Local)
    requires |c.header| == 46 && |local.header| == 30 && EntryOf(reply, l, names, earlier, at, c, local).Some?
    ensures var e := EntryOf(reply, l, names, earlier, at, c, local).value;
            var flags, crc := U16(c.header, 8), U32(c.header, 16);
            && e == Entry(|earlier|, at, c.next, local.at, local.dataStart, e.dataEnd, c.values.compressed,
                          c.values.uncompressed, U16(c.header, 10), crc,
                          NameQuery(c.name, local.name, flags, c.extra, local.extra))
            && Decode(Slots(local.header, false), ZipField(local.extra), false).Some?
            && (var w := Decode(Slots(local.header, false), ZipField(local.extra), false).value;
                FramingAgrees(flags, crc, U32(local.header, 14), c.values, w))
            && local.dataStart + c.values.compressed <= l.start
            && (if HasDescriptor(flags) then
                  DescriptorEnd(reply, local.dataStart + c.values.compressed, l.start, crc, c.values.compressed,
                                c.values.uncompressed, WideSizes(c.header, true) || WideSizes(local.header, false))
                    == Some(e.dataEnd)
                else e.dataEnd == local.dataStart + c.values.compressed)
  {
    hide U16;
    hide U32;
    hide Decode;
    hide Slots;
    hide FramingAgrees;
    hide HasDescriptor;
    hide DescriptorEnd;
  }

  function SlotsAt(b: Bytes, at: int, central: bool): Values
    requires Within(b, at, if central then 46 else 30)
  {
    if central then Values(U32(b, at + 20), U32(b, at + 24), U32(b, at + 42), U16(b, at + 34))
    else Values(U32(b, at + 18), U32(b, at + 22), 0, 0)
  }

  lemma SlotsAreThere(b: Bytes, at: int, central: bool)
    requires Within(b, at, if central then 46 else 30)
    ensures Slots(b[at..at + if central then 46 else 30], central) == SlotsAt(b, at, central)
  {
    hide U16;
    hide U32;
    hide SafeU64;
    if central {
      SliceReads(b, at, at + 46, 20);
      SliceReads(b, at, at + 46, 24);
      SliceReads(b, at, at + 46, 34);
      SliceReads(b, at, at + 46, 42);
    } else {
      SliceReads(b, at, at + 30, 18);
      SliceReads(b, at, at + 30, 22);
    }
  }

  /** A decoded header carries its values. */
  lemma SlotsAreCarried(b: Bytes, at: int, central: bool, extra: map<nat, Bytes>)
    requires Within(b, at, if central then 46 else 30)
    requires var header := b[at..at + if central then 46 else 30];
             Decode(Slots(header, central), ZipField(extra), central).Some?
    ensures var header := b[at..at + if central then 46 else 30];
            var v := Decode(Slots(header, central), ZipField(extra), central).value;
            && v.disk == 0 && (!central ==> v.offset == 0)
            && Carries(SlotsAt(b, at, central), ZipField(extra), central, v)
    ensures WideSizes(b[at..at + if central then 46 else 30], central) <==>
              SlotsAt(b, at, central).compressed == 0xffff_ffff || SlotsAt(b, at, central).uncompressed == 0xffff_ffff
  {
    var header := b[at..at + if central then 46 else 30];
    SlotsAreSmall(header, central);
    hide Decode;
    hide Payload;
    hide U16;
    hide U32;
    DecodedIsCarried(Slots(header, central), ZipField(extra), central);
    SlotsAreThere(b, at, central);
    hide Slots;
  }

  lemma SlotsAreSmall(header: Bytes, central: bool)
    requires |header| == if central then 46 else 30
    ensures var s := Slots(header, central);
            s.compressed <= SENTINEL32 && s.uncompressed <= SENTINEL32 && s.offset <= SENTINEL32 && s.disk <= SENTINEL16
  {
    ReadsAreValues(header, 18);
    ReadsAreValues(header, 20);
    ReadsAreValues(header, 22);
    ReadsAreValues(header, 24);
    ReadsAreValues(header, 34);
    if central { ReadsAreValues(header, 42); }
    hide U16;
    hide U32;
  }

  /** The scan read two whole headers for a record. */
  lemma RecordHasHeaders(b: Bytes, l: Layout, names: Names, earlier: seq<Entry>, at: int)
    requires l.end <= |b| && ItemAt(Slices(b), l, names, earlier, at).Some?
    requires ItemAt(Slices(b), l, names, earlier, at).value.Record?
    ensures Within(b, at, 46) && CentralAt(Slices(b), l, at, b[at..at + 46]).Some?
    ensures var c := CentralAt(Slices(b), l, at, b[at..at + 46]).value;
            && |c.header| >= 46 && LocalAt(Slices(b), l, c).Some?
            && (var local := LocalAt(Slices(b), l, c).value;
                |local.header| >= 30
                && EntryOf(Slices(b), l, names, earlier, at, c, local)
                     == Some(ItemAt(Slices(b), l, names, earlier, at).value.entry))
  {
    hide U16;
    hide U32;
    hide LocalAt;
    hide EntryOf;
    hide NamesAt;
    hide Decode;
    var length := Min(46, l.end - at);
    SliceIsRead(b, at, length, l.end);
    var header := b[at..at + length];
    assert CentralAt(Slices(b), l, at, header).Some?;
    assert |header| >= 46;
  }

  /** Everything the scan tests of a record, on the two headers as they stand. */
  ghost predicate Tested(b: Bytes, l: Layout, c: Central, local: Local, e: Entry) {
    && l.start <= |b|
    && Within(b, e.at, 46) && c.header == b[e.at..e.at + 46] && U32(b, e.at) == 0x02014b50
    && NamesAreThere(b, e.at + 46, U16(b, e.at + 28), U16(b, e.at + 30), c.name, c.extra)
    && e.next == e.at + 46 + U16(b, e.at + 28) + U16(b, e.at + 30) + U16(b, e.at + 32)
    && Decode(Slots(c.header, true), ZipField(c.extra), true) == Some(c.values)
    && SupportedFlags(U16(b, e.at + 8))
    && e.localAt == l.base + c.values.offset && Within(b, e.localAt, 30)
    && local.header == b[e.localAt..e.localAt + 30] && U32(b, e.localAt) == 0x04034b50
    && U16(b, e.localAt + 6) == U16(c.header, 8) && U16(b, e.localAt + 8) == U16(c.header, 10)
    && NamesAreThere(b, e.localAt + 30, U16(b, e.localAt + 26), U16(b, e.localAt + 28), local.name, local.extra)
    && e.dataStart == e.localAt + 30 + U16(b, e.localAt + 26) + U16(b, e.localAt + 28)
    && e.compressedSize == c.values.compressed && e.size == c.values.uncompressed
    && e.compressionMethod == U16(c.header, 10) && e.crc == U32(c.header, 16)
    && e.name == NameQuery(c.name, local.name, U16(c.header, 8), c.extra, local.extra)
    && Decode(Slots(local.header, false), ZipField(local.extra), false).Some?
    && FramingAgrees(e.name.flags, e.crc, U32(local.header, 14), c.values,
                     Decode(Slots(local.header, false), ZipField(local.extra), false).value)
    && e.dataStart + e.compressedSize <= l.start
    && if HasDescriptor(e.name.flags) then
         DescriptorEnd(Slices(b), e.dataStart + e.compressedSize, l.start, e.crc, e.compressedSize, e.size,
                       WideSizes(c.header, true) || WideSizes(local.header, false)) == Some(e.dataEnd)
       else e.dataEnd == e.dataStart + e.compressedSize
  }

  lemma CentralAgrees(b: Bytes, l: Layout, c: Central, local: Local, e: Entry)
    requires Tested(b, l, c, local, e)
    ensures CentralIsThere(b, e) && CentralCarries(b, e, l.base)
  {
    hide U16;
    hide U32;
    hide Decode;
    hide Slots;
    hide Carries;
    hide NamesAreThere;
    hide WideSizes;
    hide SupportedFlags;
    hide HasDescriptor;
    hide DescriptorEnd;
    hide FramingAgrees;
    hide FlagSum;
    hide Slices;
    hide SafeU64;
    SliceReads(b, e.at, e.at + 46, 8);
    SliceReads(b, e.at, e.at + 46, 10);
    SliceReads(b, e.at, e.at + 46, 16);
    FlagsAreKnown(e.name.flags);
    SlotsAreCarried(b, e.at, true, c.extra);
  }

  lemma PlaceholdersAgree(e: Entry, localCrc: nat, v: Values, w: Values)
    requires FramingAgrees(e.name.flags, e.crc, localCrc, v, w)
    requires e.compressedSize == v.compressed && e.size == v.uncompressed
    ensures localCrc == e.crc || (Described(e) && localCrc == 0)
    ensures w.compressed == e.compressedSize || (Described(e) && w.compressed == 0)
    ensures w.uncompressed == e.size || (Described(e) && w.uncompressed == 0)
  {
  }

  lemma LocalAgrees(b: Bytes, l: Layout, c: Central, local: Local, e: Entry)
    requires Tested(b, l, c, local, e)
    ensures LocalIsThere(b, e) && LocalCarries(b, e)
  {
    hide U16;
    hide U32;
    hide Decode;
    hide Slots;
    hide Carries;
    hide NamesAreThere;
    hide WideSizes;
    hide SupportedFlags;
    hide HasDescriptor;
    hide DescriptorEnd;
    hide FramingAgrees;
    hide Described;
    hide Slices;
    hide SafeU64;
    SliceReads(b, e.at, e.at + 46, 8);
    SliceReads(b, e.localAt, e.localAt + 30, 14);
    SlotsAreCarried(b, e.localAt, false, local.extra);
    var w := Decode(Slots(local.header, false), ZipField(local.extra), false).value;
    PlaceholdersAgree(e, U32(local.header, 14), c.values, w);
    assert w == Values(w.compressed, w.uncompressed, 0, 0);
  }

  lemma WideAgrees(b: Bytes, l: Layout, c: Central, local: Local, e: Entry)
    requires Tested(b, l, c, local, e)
    ensures |c.header| == 46 && |local.header| == 30
    ensures Wide(b, e) <==> WideSizes(c.header, true) || WideSizes(local.header, false)
  {
    hide U16;
    hide U32;
    hide Decode;
    hide Slots;
    hide Carries;
    hide NamesAreThere;
    hide SupportedFlags;
    hide HasDescriptor;
    hide DescriptorEnd;
    hide FramingAgrees;
    SlotsAreCarried(b, e.at, true, c.extra);
    SlotsAreCarried(b, e.localAt, false, local.extra);
    hide WideSizes;
  }

  lemma DescribedEnds(b: Bytes, e: Entry, bound: int)
    requires Described(e) && bound <= |b| && Within(b, e.dataStart, e.compressedSize)
    requires DescriptorEnd(Slices(b), e.dataStart + e.compressedSize, bound, e.crc, e.compressedSize, e.size,
                           Wide(b, e)) == Some(e.dataEnd)
    ensures DataEnds(b, e)
  {
    hide LE;
    hide Wide;
    hide Described;
    hide DescriptorEnd;
    DescriptorIsThere(b, e.dataStart + e.compressedSize, bound, e.crc, e.compressedSize, e.size, Wide(b, e));
  }

  lemma PlainEnds(b: Bytes, e: Entry)
    requires !Described(e) && Within(b, e.dataStart, e.compressedSize) && e.dataEnd == e.dataStart + e.compressedSize
    ensures DataEnds(b, e)
  {
  }

  /** What `Tested` says of the end of the data. */
  lemma EndIsTested(b: Bytes, l: Layout, c: Central, local: Local, e: Entry)
    requires Tested(b, l, c, local, e)
    ensures l.start <= |b| && Within(b, e.dataStart, e.compressedSize)
    ensures Described(e) ==>
              DescriptorEnd(Slices(b), e.dataStart + e.compressedSize, l.start, e.crc, e.compressedSize, e.size,
                            Wide(b, e)) == Some(e.dataEnd)
    ensures !Described(e) ==> e.dataEnd == e.dataStart + e.compressedSize
  {
    hide U16;
    hide U32;
    hide Decode;
    hide Slots;
    hide NamesAreThere;
    hide WideSizes;
    hide Wide;
    hide DescriptorEnd;
    hide FramingAgrees;
    hide Slices;
    hide SupportedFlags;
    WideAgrees(b, l, c, local, e);
  }

  lemma DataEndIsThere(b: Bytes, l: Layout, c: Central, local: Local, e: Entry)
    requires Tested(b, l, c, local, e)
    ensures DataEnds(b, e)
  {
    hide *;
    EndIsTested(b, l, c, local, e);
    if Described(e) { DescribedEnds(b, e, l.start); } else { PlainEnds(b, e); }
  }

  lemma RecordIsTested(b: Bytes, l: Layout, names: Names, earlier: seq<Entry>, at: int, c: Central, local: Local)
    requires SoundLayout(l, |b|) && Within(b, at, 46) && CentralAt(Slices(b), l, at, b[at..at + 46]) == Some(c)
    requires |c.header| >= 46 && LocalAt(Slices(b), l, c) == Some(local) && |local.header| >= 30
    requires EntryOf(Slices(b), l, names, earlier, at, c, local).Some?
    ensures Tested(b, l, c, local, EntryOf(Slices(b), l, names, earlier, at, c, local).value)
    ensures EntryOf(Slices(b), l, names, earlier, at, c, local).value.at == at
  {
    hide U16;
    hide U32;
    hide Decode;
    hide Slots;
    hide NamesAreThere;
    hide WideSizes;
    hide SupportedFlags;
    hide HasDescriptor;
    hide DescriptorEnd;
    hide FramingAgrees;
    hide CentralAt;
    hide LocalAt;
    hide EntryOf;
    hide Slices;
    CentralIsRead(b, l, at, b[at..at + 46]);
    LocalIsRead(b, l, c);
    EntryIsTested(Slices(b), l, names, earlier, at, c, local);
  }

  /** Main result, for one record. */
  lemma RecordIsSpelled(b: Bytes, l: Layout, names: Names, earlier: seq<Entry>, at: int)
    requires SoundLayout(l, |b|) && ItemAt(Slices(b), l, names, earlier, at).Some?
    requires ItemAt(Slices(b), l, names, earlier, at).value.Record?
    ensures Spelled(b, ItemAt(Slices(b), l, names, earlier, at).value.entry, l.base)
  {
    RecordHasHeaders(b, l, names, earlier, at);
    hide CentralAt;
    hide LocalAt;
    hide EntryOf;
    hide ItemAt;
    hide Tested;
    hide CentralIsThere;
    hide CentralCarries;
    hide LocalIsThere;
    hide LocalCarries;
    hide DataEnds;
    hide Slices;
    var c := CentralAt(Slices(b), l, at, b[at..at + 46]).value;
    var local := LocalAt(Slices(b), l, c).value;
    var e := ItemAt(Slices(b), l, names, earlier, at).value.entry;
    RecordIsTested(b, l, names, earlier, at, c, local);
    CentralAgrees(b, l, c, local, e);
    LocalAgrees(b, l, c, local, e);
    DataEndIsThere(b, l, c, local, e);
  }

  lemma {:induction false} ItemsAreSpelled(b: Bytes, l: Layout, names: Names, maxEntries: nat, earlier: seq<Entry>,
                                           at: int)
    requires SoundLayout(l, |b|) && forall e :: e in earlier ==> Spelled(b, e, l.base)
    requires ItemsFrom(Slices(b), l, names, maxEntries, earlier, at).Some?
    ensures var s := ItemsFrom(Slices(b), l, names, maxEntries, earlier, at).value;
            forall e :: e in s.entries ==> Spelled(b, e, l.base)
    decreases l.end - at
  {
    hide Spelled;
    hide ItemAt;
    if at < l.end {
      var item := ItemAt(Slices(b), l, names, earlier, at).value;
      ItemShape(Slices(b), l, names, earlier, at);
      if item.Record? {
        RecordIsSpelled(b, l, names, earlier, at);
        ItemsAreSpelled(b, l, names, maxEntries, earlier + [item.entry], item.entry.next);
      }
    }
  }

  /** Main result: every entry of every accepted archive is spelled out by its bytes. */
  lemma AcceptedIsSpelled(b: Bytes, names: Names, maxEntries: nat)
    requires ScanOf(Slices(b), |b|, names, maxEntries).Some?
    ensures var s := ScanOf(Slices(b), |b|, names, maxEntries).value;
            forall e :: e in s.entries ==> Spelled(b, e, s.layout.base)
  {
    hide Spelled;
    hide LayoutOf;
    hide ItemsFrom;
    LayoutIsSound(Slices(b), |b|);
    var l := LayoutOf(Slices(b), |b|).value;
    ItemsAreSpelled(b, l, names, maxEntries, [], l.start);
    ItemsTile(Slices(b), l, names, maxEntries, [], l.start);
  }
}
