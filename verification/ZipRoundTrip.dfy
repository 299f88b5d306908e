/** Whatever is written as an archive is admitted, with exactly the entries that were written. */
module ZipRoundTrip {
  import opened Basics
  import opened ZipBytes
  import opened ZipEnd
  import opened ZipExtra
  import opened ZipDirectory
  import opened ZipAdmission
  import opened ZipCount
  import opened ZipWriter

  // ---------------------------------------------------------------- parts of a file

  /** These bytes stand at `at`. */
  predicate Stands(b: Bytes, at: int, part: Bytes) {
    0 <= at && at + |part| <= |b| && b[at..at + |part|] == part
  }

  lemma StandsApart(b: Bytes, at: int, x: Bytes, y: Bytes)
    requires Stands(b, at, x + y)
    ensures Stands(b, at, x) && Stands(b, at + |x|, y)
  {
    var whole := b[at..at + |x + y|];
    assert whole[..|x|] == x && whole[|x|..] == y;
    assert b[at..at + |x|] == whole[..|x|];
    assert b[at + |x|..at + |x| + |y|] == whole[|x|..];
  }

  lemma StandingIsRead(b: Bytes, at: int, part: Bytes, bound: int)
    requires Stands(b, at, part) && at + |part| <= bound <= |b|
    ensures Read(Slices(b), at, |part|, bound) == Some(part)
  {
  }

  /** A name and its extra area. */
  lemma NamesStand(b: Bytes, at: int, name: Bytes, payload: Bytes, fields: seq<Field>, bound: int)
    requires Stands(b, at, name + Encode(Area(payload, fields))) && OtherFields(fields) && |payload| < 0x1_0000
    requires at + |name| + |Encode(Area(payload, fields))| <= bound <= |b|
    ensures NamesAt(Slices(b), at, |name|, |Encode(Area(payload, fields))|, bound)
              == Some((name, CriticalFields(Area(payload, fields))))
  {
    hide Encode;
    hide ExtraFieldsOf;
    hide Area;
    var names := name + Encode(Area(payload, fields));
    StandingIsRead(b, at, names, bound);
    AreaReads(payload, fields);
    assert names[..|name|] == name && names[|name|..] == Encode(Area(payload, fields));
  }

  // ---------------------------------------------------------------- one entry

  function CentralMap(m: Member, offset: nat): map<nat, Bytes> {
    CriticalFields(Area(CentralPayload(m, offset), m.centralFields))
  }

  function LocalMap(m: Member): map<nat, Bytes> { CriticalFields(Area(LocalPayload(m), m.localFields)) }

  /** The directory record as the scan reads it. */
  function CentralOf(m: Member, offset: nat, at: int): Central {
    Central(CentralHeader(m, offset), m.name, CentralMap(m, offset), Values(|m.data|, m.size, offset, 0),
            at + |CentralPart(m, offset)|)
  }

  function LocalOf(m: Member, localAt: int): Local {
    Local(LocalHeader(m), m.name, LocalMap(m), localAt, localAt + 30 + |m.name| + |LocalExtra(m)|)
  }

  /** The entry as it is emitted: the sizes, the coding, the checksum and the name that were written. */
  function EntryFor(m: Member, offset: nat, index: nat, at: int, localAt: int): Entry {
    var dataStart := localAt + 30 + |m.name| + |LocalExtra(m)|;
    Entry(index, at, at + 46 + |m.name| + |CentralExtra(m, offset)| + |m.comment|,
          localAt, dataStart, dataStart + |m.data| + |DescriptorBytes(m)|,
          |m.data|, m.size, m.coding, m.crc,
          NameQuery(m.name, m.name, Flags(m), CentralMap(m, offset), LocalMap(m)))
  }

  lemma PayloadsAreShort(m: Member, offset: nat)
    ensures |LocalPayload(m)| <= 16 && |CentralPayload(m, offset)| <= 24
  {
  }

  lemma CentralIsRead(b: Bytes, l: Layout, m: Member, offset: nat, at: int)
    requires Writable(m, offset) && Stands(b, at, CentralPart(m, offset))
    requires at + |CentralPart(m, offset)| <= l.end <= |b|
    ensures CentralAt(Slices(b), l, at, CentralHeader(m, offset)) == Some(CentralOf(m, offset, at))
  {
    hide CentralHeader;
    hide CentralExtra;
    hide CentralPayload;
    hide U16;
    hide U32;
    hide Decode;
    hide Slots;
    hide NamesAt;
    hide SupportedFlags;
    hide Flags;
    var h := CentralHeader(m, offset);
    CentralHeaderFields(m, offset);
    CentralDecodes(m, offset);
    PayloadsAreShort(m, offset);
    FlagsAreSupported(m);
    AreaReads(CentralPayload(m, offset), m.centralFields);
    CentralExtraIs(m, offset);
    StandsApart(b, at, h, (m.name + CentralExtra(m, offset)) + m.comment);
    StandsApart(b, at + 46, m.name + CentralExtra(m, offset), m.comment);
    NamesStand(b, at + 46, m.name, CentralPayload(m, offset), m.centralFields, l.end);
  }

  lemma CentralExtraIs(m: Member, offset: nat)
    ensures CentralExtra(m, offset) == Encode(Area(CentralPayload(m, offset), m.centralFields))
    ensures LocalExtra(m) == Encode(Area(LocalPayload(m), m.localFields))
  {
  }

  lemma LocalIsRead(b: Bytes, l: Layout, m: Member, offset: nat, at: int)
    requires Writable(m, offset) && Stands(b, l.base + offset, LocalPart(m))
    requires l.base + offset + |LocalPart(m)| <= l.start <= |b|
    ensures LocalAt(Slices(b), l, CentralOf(m, offset, at)) == Some(LocalOf(m, l.base + offset))
  {
    hide CentralHeader;
    hide CentralPart;
    hide CentralMap;
    hide LocalHeader;
    hide LocalExtra;
    hide LocalPayload;
    hide DescriptorBytes;
    hide U16;
    hide U32;
    hide NamesAt;
    hide Flags;
    var localAt, h := l.base + offset, LocalHeader(m);
    CentralHeaderFields(m, offset);
    LocalHeaderFields(m, offset);
    PayloadsAreShort(m, offset);
    CentralExtraIs(m, offset);
    StandsApart(b, localAt, h, (m.name + LocalExtra(m)) + (m.data + DescriptorBytes(m)));
    StandsApart(b, localAt + 30, m.name + LocalExtra(m), m.data + DescriptorBytes(m));
    StandingIsRead(b, localAt, h, l.start);
    NamesStand(b, localAt + 30, m.name, LocalPayload(m), m.localFields, l.start);
  }

  /** The sizes of a descriptor have eight bytes when either header has a ZIP64 size. */
  function Width(m: Member): nat { if m.wideLocal || m.wideCentral then 8 else 4 }

  lemma Associates(x: Bytes, y: Bytes, z: Bytes)
    ensures (x + y) + z == x + (y + z)
  {
  }

  lemma DescriptorShape(m: Member, tail: Bytes)
    requires m.descriptor.Descriptor?
    ensures var body := LE(m.crc, 4) + (LE(|m.data|, Width(m)) + (LE(m.size, Width(m)) + tail));
            && DescriptorBytes(m) + tail == (if m.descriptor.signed then LE(0x08074b50, 4) + body else body)
            && |DescriptorBytes(m)| == (if m.descriptor.signed then 4 else 0) + 4 + 2 * Width(m)
  {
    hide LE;
    var w := Width(m);
    var k, c, u := LE(m.crc, 4), LE(|m.data|, w), LE(m.size, w);
    var none: Bytes := [];
    assert (u + none) + tail == u + tail;
    Associates(c, u + none, tail);
    Associates(k, c + (u + none), tail);
    var body := k + (c + (u + none));
    Associates(LE(0x08074b50, 4), body, tail);
    Associates(none, body, tail);
    assert none + (body + tail) == body + tail;
  }

  lemma DescriptorFields(m: Member, offset: nat, d: Bytes, skip: nat, tail: Bytes)
    requires Writable(m, offset) && m.descriptor.Descriptor? && d == DescriptorBytes(m) + tail
    requires skip == if m.descriptor.signed then 4 else 0
    ensures |DescriptorBytes(m)| == skip + 4 + 2 * Width(m)
    ensures m.descriptor.signed ==> U32(d, 0) == 0x08074b50
    ensures U32(d, skip) == m.crc
    ensures Width(m) == 4 ==> U32(d, skip + 4) == |m.data| && U32(d, skip + 8) == m.size
    ensures Width(m) == 8 ==> SafeU64(d, skip + 4) == Some(|m.data|) && SafeU64(d, skip + 12) == Some(m.size)
  {
    hide LE;
    hide U32;
    hide SafeU64;
    var w := Width(m);
    var u := LE(m.size, w) + tail;
    var c := LE(|m.data|, w) + u;
    var k := LE(m.crc, 4) + c;
    DescriptorShape(m, tail);
    hide DescriptorBytes;
    assert d[0..] == d;
    if m.descriptor.signed { Peel(d, 0, 0x08074b50, 4, k); }
    Peel(d, skip, m.crc, 4, c);
    Peel(d, skip + 4, |m.data|, w, u);
    Peel(d, skip + 4 + w, m.size, w, tail);
  }

  /** Exactly the framing that was written matches, whatever follows. */
  lemma OneFramingMatches(m: Member, offset: nat, d: Bytes, tail: Bytes)
    requires Writable(m, offset) && m.descriptor.Descriptor? && d == DescriptorBytes(m) + tail
    ensures DescriptorMatches(d, 0, Width(m) == 8, m.crc, |m.data|, m.size) == Some(!m.descriptor.signed)
    ensures DescriptorMatches(d, 4, Width(m) == 8, m.crc, |m.data|, m.size) == Some(m.descriptor.signed)
  {
    hide U32;
    hide SafeU64;
    hide DescriptorBytes;
    DescriptorFields(m, offset, d, if m.descriptor.signed then 4 else 0, tail);
  }

  lemma DescriptorIsRead(b: Bytes, at: int, bound: int, m: Member, offset: nat)
    requires Writable(m, offset) && m.descriptor.Descriptor? && Stands(b, at, DescriptorBytes(m))
    requires at + |DescriptorBytes(m)| <= bound <= |b|
    ensures DescriptorEnd(Slices(b), at, bound, m.crc, |m.data|, m.size, m.wideLocal || m.wideCentral)
              == Some(at + |DescriptorBytes(m)|)
  {
    hide DescriptorBytes;
    hide DescriptorMatches;
    var length := if Width(m) == 8 then 20 else 12;
    var n := Min(length + 4, bound - at);
    DescriptorShape(m, []);
    var d := b[at..at + n];
    var tail := b[at + |DescriptorBytes(m)|..at + n];
    assert d == DescriptorBytes(m) + tail;
    OneFramingMatches(m, offset, d, tail);
    assert Read(Slices(b), at, n, bound) == Some(d);
  }

  lemma EntryFromHeaders(reply: Replies, l: Layout, names: Names, earlier: seq<Entry>, m: Member, offset: nat, at: int,
                         localAt: int)
    requires Writable(m, offset) && names(EntryFor(m, offset, 0, 0, 0).name, earlier)
    requires localAt + |LocalPart(m)| <= l.start
    requires var dataEnd := localAt + 30 + |m.name| + |LocalExtra(m)| + |m.data|;
             m.descriptor.Descriptor? ==>
               DescriptorEnd(reply, dataEnd, l.start, m.crc, |m.data|, m.size, m.wideLocal || m.wideCentral)
                 == Some(dataEnd + |DescriptorBytes(m)|)
    ensures |CentralHeader(m, offset)| == 46 && |LocalHeader(m)| == 30
    ensures EntryOf(reply, l, names, earlier, at, CentralOf(m, offset, at), LocalOf(m, localAt))
         == Some(EntryFor(m, offset, |earlier|, at, localAt))
  {
    hide CentralHeader;
    hide LocalHeader;
    hide LocalExtra;
    hide CentralExtra;
    hide LocalPayload;
    hide CentralPayload;
    hide DescriptorBytes;
    hide U16;
    hide U32;
    hide Decode;
    hide Flags;
    hide HasDescriptor;
    hide DescriptorEnd;
    hide FramingAgrees;
    hide Encode;
    hide CriticalFields;
    hide Area;
    hide LE;
    CentralHeaderFields(m, offset);
    LocalHeaderFields(m, offset);
    LocalDecodes(m, offset);
    PayloadsAreShort(m, offset);
    AreaReads(LocalPayload(m), m.localFields);
    FlagsAreSupported(m);
    FramingIsWritten(m, offset);
    if m.descriptor.NoDescriptor? { NoDescriptorBytes(m); }
  }

  lemma EntryIsMade(b: Bytes, l: Layout, names: Names, earlier: seq<Entry>, m: Member, offset: nat, at: int)
    requires Writable(m, offset) && Stands(b, l.base + offset, LocalPart(m))
    requires l.base + offset + |LocalPart(m)| <= l.start <= |b|
    requires names(EntryFor(m, offset, 0, 0, 0).name, earlier)
    ensures |CentralHeader(m, offset)| == 46 && |LocalHeader(m)| == 30
    ensures EntryOf(Slices(b), l, names, earlier, at, CentralOf(m, offset, at), LocalOf(m, l.base + offset))
         == Some(EntryFor(m, offset, |earlier|, at, l.base + offset))
  {
    hide CentralHeader;
    hide LocalHeader;
    hide LocalExtra;
    hide DescriptorBytes;
    hide DescriptorEnd;
    hide EntryOf;
    hide EntryFor;
    hide CentralOf;
    hide LocalOf;
    var localAt, h := l.base + offset, LocalHeader(m);
    LocalHeaderFields(m, offset);
    StandsApart(b, localAt, h, (m.name + LocalExtra(m)) + (m.data + DescriptorBytes(m)));
    StandsApart(b, localAt + 30, m.name + LocalExtra(m), m.data + DescriptorBytes(m));
    var dataStart := localAt + 30 + |m.name + LocalExtra(m)|;
    StandsApart(b, dataStart, m.data, DescriptorBytes(m));
    if m.descriptor.Descriptor? { DescriptorIsRead(b, dataStart + |m.data|, l.start, m, offset); }
    EntryFromHeaders(Slices(b), l, names, earlier, m, offset, at, localAt);
  }

  /** The local header repeats the checksum and the sizes, or defers them. */
  lemma FramingIsWritten(m: Member, offset: nat)
    ensures FramingAgrees(Flags(m), m.crc, OrZero(m, m.crc), Values(|m.data|, m.size, offset, 0),
                          Values(OrZero(m, |m.data|), OrZero(m, m.size), 0, 0))
  {
    FlagsAreSupported(m);
    hide Flags;
    hide HasDescriptor;
  }

  lemma NoDescriptorBytes(m: Member)
    requires m.descriptor.NoDescriptor?
    ensures DescriptorBytes(m) == []
  {
  }

  lemma ItemIsRead(b: Bytes, l: Layout, names: Names, earlier: seq<Entry>, m: Member, offset: nat, at: int)
    requires Writable(m, offset)
    requires Stands(b, l.base + offset, LocalPart(m)) && Stands(b, at, CentralPart(m, offset))
    requires l.base + offset + |LocalPart(m)| <= l.start <= |b| && at + |CentralPart(m, offset)| <= l.end <= |b|
    requires names(EntryFor(m, offset, 0, 0, 0).name, earlier)
    ensures ItemAt(Slices(b), l, names, earlier, at)
         == Some(Record(EntryFor(m, offset, |earlier|, at, l.base + offset)))
  {
    hide CentralHeader;
    hide CentralExtra;
    hide LocalPart;
    hide CentralAt;
    hide LocalAt;
    hide EntryOf;
    hide EntryFor;
    hide CentralOf;
    hide LocalOf;
    hide U32;
    hide Flags;
    var h := CentralHeader(m, offset);
    CentralHeaderFields(m, offset);
    StandsApart(b, at, h, (m.name + CentralExtra(m, offset)) + m.comment);
    StandingIsRead(b, at, h, l.end);
    CentralIsRead(b, l, m, offset, at);
    LocalIsRead(b, l, m, offset, at);
    EntryIsMade(b, l, names, earlier, m, offset, at);
  }

  // ---------------------------------------------------------------- all entries

  function Locals(ms: seq<Member>): Bytes {
    if ms == [] then [] else LocalPart(ms[0]) + Locals(ms[1..])
  }

  /** The directory of members whose local parts begin at `offset`. */
  function Directory(ms: seq<Member>, offset: nat): Bytes {
    if ms == [] then []
    else CentralPart(ms[0], offset) + Directory(ms[1..], offset + |LocalPart(ms[0])|)
  }

  ghost predicate AllWritable(ms: seq<Member>, offset: nat) {
    ms == [] || (Writable(ms[0], offset) && AllWritable(ms[1..], offset + |LocalPart(ms[0])|))
  }

  /** The entries that should be emitted, the first with this index and these places. */
  function Entries(ms: seq<Member>, offset: nat, base: int, index: nat, at: int): seq<Entry> {
    if ms == [] then []
    else
      [EntryFor(ms[0], offset, index, at, base + offset)]
      + Entries(ms[1..], offset + |LocalPart(ms[0])|, base, index + 1, at + |CentralPart(ms[0], offset)|)
  }

  /** Each name is admitted after those before it. */
  predicate NamesAdmitted(names: Names, earlier: seq<Entry>, entries: seq<Entry>)
    decreases |entries|
  {
    entries == [] || (names(entries[0].name, earlier) && NamesAdmitted(names, earlier + [entries[0]], entries[1..]))
  }

  lemma RecordStep(reply: Replies, l: Layout, names: Names, maxEntries: nat, earlier: seq<Entry>, at: int, e: Entry)
    requires at < l.end && ItemAt(reply, l, names, earlier, at) == Some(Record(e)) && |earlier| < maxEntries
    ensures ItemsFrom(reply, l, names, maxEntries, earlier, at)
         == ItemsFrom(reply, l, names, maxEntries, earlier + [e], e.next)
  {
    hide ItemAt;
  }

  lemma NoMoreRecords(reply: Replies, l: Layout, names: Names, maxEntries: nat, earlier: seq<Entry>)
    ensures ItemsFrom(reply, l, names, maxEntries, earlier, l.end) == Some(Scan(l, earlier, l.end))
  {
  }

  lemma NoMembers(offset: nat, base: int, index: nat, at: int)
    ensures Directory([], offset) == [] && Entries([], offset, base, index, at) == []
  {
  }

  lemma FirstMember(ms: seq<Member>, offset: nat, base: int, index: nat, at: int)
    requires ms != [] && AllWritable(ms, offset)
    ensures var m, rest, next := ms[0], ms[1..], offset + |LocalPart(ms[0])|;
            && Writable(m, offset) && AllWritable(rest, next)
            && Locals(ms) == LocalPart(m) + Locals(rest)
            && Directory(ms, offset) == CentralPart(m, offset) + Directory(rest, next)
            && Entries(ms, offset, base, index, at)
               == [EntryFor(m, offset, index, at, base + offset)]
                  + Entries(rest, next, base, index + 1, at + |CentralPart(m, offset)|)
  {
    hide EntryFor;
    hide LocalPart;
    hide CentralPart;
    hide Writable;
  }

  lemma FirstName(names: Names, earlier: seq<Entry>, e: Entry, more: seq<Entry>)
    requires NamesAdmitted(names, earlier, [e] + more)
    ensures names(e.name, earlier) && NamesAdmitted(names, earlier + [e], more)
  {
    assert ([e] + more)[1..] == more;
  }

  lemma {:induction false} ItemsAreRead(b: Bytes, l: Layout, names: Names, maxEntries: nat, earlier: seq<Entry>,
                                        ms: seq<Member>, offset: nat, at: int)
    requires AllWritable(ms, offset)
    requires Stands(b, l.base + offset, Locals(ms)) && l.base + offset + |Locals(ms)| == l.start <= |b|
    requires Stands(b, at, Directory(ms, offset)) && at + |Directory(ms, offset)| == l.end <= |b|
    requires NamesAdmitted(names, earlier, Entries(ms, offset, l.base, |earlier|, at))
    requires |earlier| + |ms| <= maxEntries
    ensures ItemsFrom(Slices(b), l, names, maxEntries, earlier, at)
         == Some(Scan(l, earlier + Entries(ms, offset, l.base, |earlier|, at), l.end))
    decreases |ms|
  {
    hide *;
    if ms == [] {
      NoMembers(offset, l.base, |earlier|, at);
      NoMoreRecords(Slices(b), l, names, maxEntries, earlier);
      assert earlier + [] == earlier;
    } else {
      var m, rest, next := ms[0], ms[1..], offset + |LocalPart(ms[0])|;
      var entry := EntryFor(m, offset, |earlier|, at, l.base + offset);
      FirstMember(ms, offset, l.base, |earlier|, at);
      FirstName(names, earlier, entry, Entries(rest, next, l.base, |earlier| + 1, at + |CentralPart(m, offset)|));
      StandsApart(b, l.base + offset, LocalPart(m), Locals(rest));
      StandsApart(b, at, CentralPart(m, offset), Directory(rest, next));
      EntryEnds(m, offset, |earlier|, at, l.base + offset);
      ItemIsRead(b, l, names, earlier, m, offset, at);
      RecordStep(Slices(b), l, names, maxEntries, earlier, at, entry);
      ItemsAreRead(b, l, names, maxEntries, earlier + [entry], rest, next, entry.next);
      AppendsOn(earlier, entry, Entries(rest, next, l.base, |earlier| + 1, entry.next));
    }
  }

  lemma AppendsOn<T>(s: seq<T>, x: T, t: seq<T>)
    ensures s + [x] + t == s + ([x] + t) && |s + [x]| == |s| + 1
  {
  }

  /** An entry ends where the next one's parts begin. */
  lemma EntryEnds(m: Member, offset: nat, index: nat, at: int, localAt: int)
    requires Writable(m, offset)
    ensures var e := EntryFor(m, offset, index, at, localAt);
            && e.next == at + |CentralPart(m, offset)| && e.next > at
            && e.localAt == localAt && e.dataEnd == localAt + |LocalPart(m)| && e.dataEnd > localAt
            && e.name == EntryFor(m, offset, 0, 0, 0).name
  {
    CentralHeaderFields(m, offset);
    LocalHeaderFields(m, offset);
    hide CentralHeader;
    hide LocalHeader;
    hide LocalExtra;
    hide CentralExtra;
    hide DescriptorBytes;
    hide U16;
    hide U32;
    hide Flags;
  }

  // ---------------------------------------------------------------- written spans do not overlap

  /** Spans in order, each behind the one before. */
  predicate InOrder(es: seq<Entry>) {
    forall i :: 0 < i < |es| ==> es[i - 1].localAt <= es[i].localAt && es[i - 1].dataEnd <= es[i].localAt
  }

  lemma {:induction false} OrderedIsSorted(es: seq<Entry>)
    requires InOrder(es)
    ensures SortByStart(es) == es && NeighboursApart(es)
  {
    if es != [] {
      assert InOrder(es[1..]);
      OrderedIsSorted(es[1..]);
      assert [es[0]] + es[1..] == es;
      if |es| > 1 { assert es[0].localAt <= es[1].localAt; }
    }
  }

  lemma {:induction false} WrittenInOrder(ms: seq<Member>, offset: nat, base: int, index: nat, at: int)
    requires AllWritable(ms, offset)
    ensures var es := Entries(ms, offset, base, index, at);
            && InOrder(es) && |es| == |ms| && (es != [] ==> es[0].localAt == base + offset)
    decreases |ms|
  {
    hide EntryFor;
    hide LocalPart;
    hide CentralPart;
    hide Writable;
    if ms != [] {
      var m, next := ms[0], offset + |LocalPart(ms[0])|;
      var more := Entries(ms[1..], next, base, index + 1, at + |CentralPart(m, offset)|);
      EntryEnds(m, offset, index, at, base + offset);
      WrittenInOrder(ms[1..], next, base, index + 1, at + |CentralPart(m, offset)|);
      var es := Entries(ms, offset, base, index, at);
      assert es[1..] == more;
      forall i | 0 < i < |es| ensures es[i - 1].localAt <= es[i].localAt && es[i - 1].dataEnd <= es[i].localAt {
        if i > 1 { assert es[i] == more[i - 1] && es[i - 1] == more[i - 2]; }
      }
    }
  }

  // ---------------------------------------------------------------- the whole file

  /** An archive: something prepended, the members, the archive comment, and whether its counts and
      places go to a ZIP64 end record. */
  datatype Zip = Zip(prefix: Bytes, members: seq<Member>, comment: Bytes, wide: bool)

  function LocalsSize(z: Zip): nat { |Locals(z.members)| }

  function DirectorySize(z: Zip): nat { |Directory(z.members, 0)| }

  /** 4.3.16, without the comment */
  function EndBytes(count: nat, directorySize: nat, offset: nat, commentLength: nat): Bytes {
    LE(0x06054b50, 4) + (LE(0, 2) + (LE(0, 2) + (LE(count, 2) + (LE(count, 2) + (LE(directorySize, 4)
    + (LE(offset, 4) + (LE(commentLength, 2) + [])))))))
  }

  /** 4.3.14 */
  function WideBytes(count: nat, directorySize: nat, offset: nat): Bytes {
    LE(0x06064b50, 4) + (LE(44, 8) + (LE(45, 2) + (LE(45, 2) + (LE(0, 4) + (LE(0, 4) + (LE(count, 8)
    + (LE(count, 8) + (LE(directorySize, 8) + (LE(offset, 8) + [])))))))))
  }

  /** 4.3.15 */
  function LocatorBytes(place: nat): Bytes {
    LE(0x07064b50, 4) + (LE(0, 4) + (LE(place, 8) + (LE(1, 4) + [])))
  }

  function EndRecord(z: Zip): Bytes {
    EndBytes(if z.wide then 0xffff else |z.members|, Slot(z.wide, DirectorySize(z)), Slot(z.wide, LocalsSize(z)),
             |z.comment|)
  }

  function WideRecord(z: Zip): Bytes { WideBytes(|z.members|, DirectorySize(z), LocalsSize(z)) }

  function Locator(z: Zip): Bytes { LocatorBytes(LocalsSize(z) + DirectorySize(z)) }

  function WideTail(z: Zip): Bytes { if z.wide then WideRecord(z) + Locator(z) else [] }

  function File(z: Zip): Bytes {
    z.prefix + (Locals(z.members) + (Directory(z.members, 0) + (WideTail(z) + (EndRecord(z) + z.comment))))
  }

  /** Where the end record stands. */
  function EndPlace(z: Zip): nat {
    |z.prefix| + LocalsSize(z) + DirectorySize(z) + if z.wide then 76 else 0
  }

  ghost predicate Fits(z: Zip) {
    && AllWritable(z.members, 0) && |z.comment| < 0x1_0000 && |File(z)| <= MAX_SAFE_INTEGER
    && |z.members| <= MAX_SAFE_INTEGER
    && (!z.wide ==> |z.members| < 0xffff && DirectorySize(z) < 0xffff_ffff && LocalsSize(z) < 0xffff_ffff)
    && (z.wide && z.prefix != [] ==> NoWideEndAt(z, LocalsSize(z) + DirectorySize(z)))
  }

  /** The unadjusted place in the locator shows no second ZIP64 end record. */
  predicate NoWideEndAt(z: Zip, at: nat) {
    at + 4 <= |File(z)| ==> U32(File(z), at) != 0x06064b50
  }

  /** Nothing else in the file passes for the end record. */
  ghost predicate OneEnd(z: Zip) {
    forall at :: EndAt(File(z), at) ==> at == EndPlace(z)
  }

  lemma EndFields(n: nat, directorySize: nat, offset: nat, commentLength: nat)
    requires n < 0x1_0000 && directorySize < 0x1_0000_0000 && offset < 0x1_0000_0000 && commentLength < 0x1_0000
    ensures var e := EndBytes(n, directorySize, offset, commentLength);
            && |e| == 22 && U32(e, 0) == 0x06054b50 && U16(e, 4) == 0 && U16(e, 6) == 0
            && U16(e, 8) == n && U16(e, 10) == n && U32(e, 12) == directorySize && U32(e, 16) == offset
            && U16(e, 20) == commentLength
  {
    hide LE;
    hide U16;
    hide U32;
    var e := EndBytes(n, directorySize, offset, commentLength);
    var c := LE(commentLength, 2) + [];
    var o := LE(offset, 4) + c;
    var d := LE(directorySize, 4) + o;
    var n1 := LE(n, 2) + d;
    var n2 := LE(n, 2) + n1;
    var k := LE(0, 2) + n2;
    var k2 := LE(0, 2) + k;
    Peel(e, 0, 0x06054b50, 4, k2);
    Peel(e, 4, 0, 2, k);
    Peel(e, 6, 0, 2, n2);
    Peel(e, 8, n, 2, n1);
    Peel(e, 10, n, 2, d);
    Peel(e, 12, directorySize, 4, o);
    Peel(e, 16, offset, 4, c);
    Peel(e, 20, commentLength, 2, []);
  }

  lemma WideFields(n: nat, directorySize: nat, offset: nat)
    requires n <= MAX_SAFE_INTEGER && directorySize <= MAX_SAFE_INTEGER && offset <= MAX_SAFE_INTEGER
    ensures var r := WideBytes(n, directorySize, offset);
            && |r| == 56 && U32(r, 0) == 0x06064b50 && SafeU64(r, 4) == Some(44)
            && U32(r, 16) == 0 && U32(r, 20) == 0 && SafeU64(r, 24) == Some(n) && SafeU64(r, 32) == Some(n)
            && SafeU64(r, 40) == Some(directorySize) && SafeU64(r, 48) == Some(offset)
  {
    hide LE;
    hide U16;
    hide U32;
    hide SafeU64;
    var r := WideBytes(n, directorySize, offset);
    var o := LE(offset, 8) + [];
    var d := LE(directorySize, 8) + o;
    var n1 := LE(n, 8) + d;
    var n2 := LE(n, 8) + n1;
    var k := LE(0, 4) + n2;
    var k2 := LE(0, 4) + k;
    var v := LE(45, 2) + k2;
    var v2 := LE(45, 2) + v;
    var s := LE(44, 8) + v2;
    Peel(r, 0, 0x06064b50, 4, s);
    Peel(r, 4, 44, 8, v2);
    Peel(r, 12, 45, 2, v);
    Peel(r, 14, 45, 2, k2);
    Peel(r, 16, 0, 4, k);
    Peel(r, 20, 0, 4, n2);
    Peel(r, 24, n, 8, n1);
    Peel(r, 32, n, 8, d);
    Peel(r, 40, directorySize, 8, o);
    Peel(r, 48, offset, 8, []);
  }

  lemma LocatorFields(place: nat)
    requires place <= MAX_SAFE_INTEGER
    ensures var l := LocatorBytes(place);
            && |l| == 20 && U32(l, 0) == 0x07064b50 && U32(l, 4) == 0 && SafeU64(l, 8) == Some(place)
            && U32(l, 16) == 1
  {
    hide LE;
    hide U32;
    hide SafeU64;
    var l := LocatorBytes(place);
    var k := LE(1, 4) + [];
    var a := LE(place, 8) + k;
    var d := LE(0, 4) + a;
    Peel(l, 0, 0x07064b50, 4, d);
    Peel(l, 4, 0, 4, a);
    Peel(l, 8, place, 8, k);
    Peel(l, 16, 1, 4, []);
  }

  lemma FiveParts(b: Bytes, p: Bytes, l: Bytes, d: Bytes, w: Bytes, e: Bytes)
    requires b == p + (l + (d + (w + e)))
    ensures Stands(b, |p|, l) && Stands(b, |p| + |l|, d) && Stands(b, |p| + |l| + |d|, w)
    ensures Stands(b, |p| + |l| + |d| + |w|, e) && |b| == |p| + |l| + |d| + |w| + |e|
  {
    assert b[0..|b|] == b;
    assert Stands(b, 0, b);
    hide Stands;
    StandsApart(b, 0, p, l + (d + (w + e)));
    StandsApart(b, |p|, l, d + (w + e));
    StandsApart(b, |p| + |l|, d, w + e);
    StandsApart(b, |p| + |l| + |d|, w, e);
  }

  /** Where the parts of the file stand. */
  lemma PartsStand(z: Zip)
    ensures var b, o, d, base := File(z), LocalsSize(z), DirectorySize(z), |z.prefix|;
            && Stands(b, base, Locals(z.members))
            && Stands(b, base + o, Directory(z.members, 0))
            && Stands(b, base + o + d, WideTail(z))
            && Stands(b, base + o + d + |WideTail(z)|, EndRecord(z) + z.comment)
            && |b| == base + o + d + |WideTail(z)| + |EndRecord(z)| + |z.comment|
  {
    hide Stands;
    hide WideTail;
    hide EndRecord;
    hide Locals;
    hide Directory;
    FiveParts(File(z), z.prefix, Locals(z.members), Directory(z.members, 0), WideTail(z), EndRecord(z) + z.comment);
  }

  function LayoutFor(z: Zip): Layout {
    var start := |z.prefix| + LocalsSize(z);
    Layout(|z.members|, start, start + DirectorySize(z), |z.prefix|)
  }

  function EndCount(z: Zip): nat { if z.wide then 0xffff else |z.members| }

  lemma EndParts(z: Zip)
    ensures |EndRecord(z)| == 22 && |WideTail(z)| == (if z.wide then 76 else 0)
    ensures EndRecord(z)
         == EndBytes(EndCount(z), Slot(z.wide, DirectorySize(z)), Slot(z.wide, LocalsSize(z)), |z.comment|)
    ensures z.wide ==>
              WideTail(z) == WideBytes(|z.members|, DirectorySize(z), LocalsSize(z))
                + LocatorBytes(LocalsSize(z) + DirectorySize(z))
    ensures z.wide ==> |WideBytes(|z.members|, DirectorySize(z), LocalsSize(z))| == 56
    ensures z.wide ==> |LocatorBytes(LocalsSize(z) + DirectorySize(z))| == 20
    ensures EndPlace(z) == |z.prefix| + LocalsSize(z) + DirectorySize(z) + |WideTail(z)|
  {
    hide Locals;
    hide Directory;
    hide LE;
  }

  /** All that the end records must hold. */
  lemma SizesFit(z: Zip)
    requires Fits(z)
    ensures LocalsSize(z) + DirectorySize(z) <= |File(z)| <= MAX_SAFE_INTEGER && |z.members| <= MAX_SAFE_INTEGER
    ensures |File(z)| == EndPlace(z) + 22 + |z.comment| && |z.comment| < 0x1_0000 && EndCount(z) < 0x1_0000
    ensures Slot(z.wide, DirectorySize(z)) < 0x1_0000_0000 && Slot(z.wide, LocalsSize(z)) < 0x1_0000_0000
    ensures !z.wide ==> |z.members| < 0xffff && DirectorySize(z) < 0xffff_ffff && LocalsSize(z) < 0xffff_ffff
    ensures z.wide && z.prefix != [] && LocalsSize(z) + DirectorySize(z) + 4 <= |File(z)| ==>
              U32(File(z), LocalsSize(z) + DirectorySize(z)) != 0x06064b50
  {
    EndParts(z);
    PartsStand(z);
    hide Locals;
    hide Directory;
    hide AllWritable;
    hide EndRecord;
    hide WideTail;
    hide Stands;
    hide File;
    hide U32;
    hide EndPlace;
    assert z.wide && z.prefix != [] ==> NoWideEndAt(z, LocalsSize(z) + DirectorySize(z));
  }

  lemma StandingEnd(b: Bytes, at: nat, n: nat, d: nat, o: nat, c: nat)
    requires n < 0x1_0000 && d < 0x1_0000_0000 && o < 0x1_0000_0000 && c < 0x1_0000
    requires Stands(b, at, EndBytes(n, d, o, c)) && at + 22 + c == |b|
    ensures |EndBytes(n, d, o, c)| == 22 && b[at..at + 22] == EndBytes(n, d, o, c) && EndAt(b, at)
  {
    hide EndBytes;
    hide U16;
    hide U32;
    EndFields(n, d, o, c);
    SliceReads(b, at, at + 22, 0);
    SliceReads(b, at, at + 22, 20);
  }

  /** The advertised place shows the record, or nothing; the place before the locator does. */
  lemma StandingWideEnd(b: Bytes, base: nat, n: nat, d: nat, o: nat)
    requires n <= MAX_SAFE_INTEGER && o + d <= MAX_SAFE_INTEGER
    requires Stands(b, base + o + d, WideBytes(n, d, o)) && |WideBytes(n, d, o)| == 56
    requires o + d + 4 <= |b| && (base == 0 || U32(b, o + d) != 0x06064b50)
    ensures |LocatorBytes(o + d)| == 20
    ensures WideEnd(Slices(b), LocatorBytes(o + d), base + o + d + 56, |b|)
         == Some((base + o + d, WideBytes(n, d, o)))
  {
    hide LocatorBytes;
    hide WideBytes;
    hide U32;
    hide SafeU64;
    WideFields(n, d, o);
    LocatorFields(o + d);
    StandingIsRead(b, base + o + d, WideBytes(n, d, o), |b|);
    hide Stands;
    assert WideEndAt(Slices(b), base + o + d, base + o + d + 56, |b|) == Some(Some(WideBytes(n, d, o)));
    if base != 0 {
      SliceReads(b, o + d, o + d + 56, 0);
      Answered(b, o + d, 56, |b|);
      hide Slices;
      assert WideEndAt(Slices(b), o + d, base + o + d + 56, |b|) == Some(None);
    }
  }

  lemma Answered(b: Bytes, at: nat, length: nat, bound: nat)
    requires at + length <= bound <= |b|
    ensures Read(Slices(b), at, length, bound) == Some(b[at..at + length])
  {
  }

  lemma WideLayoutIs(b: Bytes, base: nat, n: nat, d: nat, o: nat, c: nat)
    requires n <= MAX_SAFE_INTEGER && o + d <= MAX_SAFE_INTEGER && c < 0x1_0000
    requires Stands(b, base + o + d, WideBytes(n, d, o)) && |WideBytes(n, d, o)| == 56
    requires Stands(b, base + o + d + 56, LocatorBytes(o + d)) && |LocatorBytes(o + d)| == 20
    requires base + o + d + 76 <= |b|
    requires o + d + 4 <= |b| && (base == 0 || U32(b, o + d) != 0x06064b50)
    ensures |EndBytes(0xffff, 0xffff_ffff, 0xffff_ffff, c)| == 22
    ensures EndLayout(Slices(b), EndBytes(0xffff, 0xffff_ffff, 0xffff_ffff, c), base + o + d + 76, |b|)
         == Some(Layout(n, base + o, base + o + d, base))
  {
    hide EndBytes;
    hide LocatorBytes;
    hide WideBytes;
    hide WideEnd;
    hide Stands;
    hide Slices;
    hide U16;
    hide U32;
    hide SafeU64;
    EndFields(0xffff, 0xffff_ffff, 0xffff_ffff, c);
    WideFields(n, d, o);
    LocatorFields(o + d);
    StandingWideEnd(b, base, n, d, o);
    StandingIsRead(b, base + o + d + 56, LocatorBytes(o + d), |b|);
  }

  lemma NarrowLayoutIs(reply: Replies, size: int, base: nat, n: nat, d: nat, o: nat, c: nat)
    requires n < 0xffff && d < 0xffff_ffff && o < 0xffff_ffff && c < 0x1_0000
    ensures |EndBytes(n, d, o, c)| == 22
    ensures EndLayout(reply, EndBytes(n, d, o, c), base + o + d, size) == Some(Layout(n, base + o, base + o + d, base))
  {
    hide EndBytes;
    hide U16;
    hide U32;
    EndFields(n, d, o, c);
  }

  lemma EndStands(z: Zip)
    requires Fits(z)
    ensures |EndRecord(z)| == 22 && EndPlace(z) + 22 <= |File(z)|
    ensures File(z)[EndPlace(z)..EndPlace(z) + 22] == EndRecord(z) && EndAt(File(z), EndPlace(z))
  {
    hide *;
    EndParts(z);
    SizesFit(z);
    PartsStand(z);
    StandsApart(File(z), EndPlace(z), EndRecord(z), z.comment);
    StandingEnd(File(z), EndPlace(z), EndCount(z), Slot(z.wide, DirectorySize(z)), Slot(z.wide, LocalsSize(z)),
                |z.comment|);
  }

  lemma EndLayoutIsWritten(z: Zip)
    requires Fits(z)
    ensures |EndRecord(z)| == 22
    ensures EndLayout(Slices(File(z)), EndRecord(z), EndPlace(z), |File(z)|) == Some(LayoutFor(z))
  {
    hide *;
    var n, d, o, base := |z.members|, DirectorySize(z), LocalsSize(z), |z.prefix|;
    EndParts(z);
    SizesFit(z);
    PartsStand(z);
    LayoutIs(z);
    EndSlots(z);
    if z.wide {
      StandsApart(File(z), base + o + d, WideBytes(n, d, o), LocatorBytes(o + d));
      WideLayoutIs(File(z), base, n, d, o, |z.comment|);
    } else {
      NarrowLayoutIs(Slices(File(z)), |File(z)|, base, n, d, o, |z.comment|);
    }
  }

  lemma LayoutIs(z: Zip)
    ensures LayoutFor(z) == Layout(|z.members|, |z.prefix| + LocalsSize(z),
                                   |z.prefix| + LocalsSize(z) + DirectorySize(z), |z.prefix|)
  {
  }

  lemma EndSlots(z: Zip)
    ensures EndCount(z) == if z.wide then 0xffff else |z.members|
    ensures Slot(z.wide, DirectorySize(z)) == if z.wide then 0xffff_ffff else DirectorySize(z)
    ensures Slot(z.wide, LocalsSize(z)) == if z.wide then 0xffff_ffff else LocalsSize(z)
  {
  }

  // ---------------------------------------------------------------- the whole scan

  /** The layout is found exactly if nothing else passes for the end record. */
  lemma LayoutIsWritten(z: Zip)
    requires Fits(z)
    ensures LayoutOf(Slices(File(z)), |File(z)|) == if OneEnd(z) then Some(LayoutFor(z)) else None
  {
    EndStands(z);
    EndLayoutIsWritten(z);
    LayoutOfOneEnd(File(z), EndPlace(z));
    hide File;
    hide EndAt;
    hide Fits;
    hide EndRecord;
    hide LayoutOf;
    hide EndLayout;
    hide LayoutFor;
  }

  lemma LayoutOfOneEnd(b: Bytes, end: nat)
    requires EndAt(b, end)
    ensures LayoutOf(Slices(b), |b|)
         == if forall at :: EndAt(b, at) ==> at == end then EndLayout(Slices(b), b[end..end + 22], end, |b|) else None
  {
    hide EndLayout;
    hide EndAt;
    hide StrictEnd;
    var from := Max(0, |b| - MAX_TAIL);
    var tail := b[from..];
    TailIsRead(b, from);
    TailAnswer(b, from, end);
    if forall at :: EndAt(b, at) ==> at == end {
      EndIsInside(b, end);
      assert tail[end - from..end - from + 22] == b[end..end + 22];
    }
  }

  lemma TailIsRead(b: Bytes, from: nat)
    requires from <= |b|
    ensures Read(Slices(b), from, |b| - from, |b|) == Some(b[from..])
  {
    assert Slices(b)(from, |b| - from) == b[from..];
  }

  lemma EndIsInside(b: Bytes, end: int)
    requires EndAt(b, end)
    ensures 0 <= end && end + 22 <= |b|
  {
  }

  lemma TailAnswer(b: Bytes, from: nat, end: nat)
    requires from == Max(0, |b| - MAX_TAIL) && EndAt(b, end)
    ensures from <= end
    ensures StrictEnd(b[from..]) == if forall at :: EndAt(b, at) ==> at == end then Found(end - from) else Ambiguous
  {
    var tail := b[from..];
    EndsAreNear(b, from);
    EndInTail(b, from, end);
    if forall at :: EndAt(b, at) ==> at == end {
      hide EndAt;
      forall o | EndAt(tail, o) ensures o == end - from {
        EndIsInside(tail, o);
        EndInTail(b, from, o + from);
      }
      AnswersAgree(tail, StrictEnd(tail), Found(end - from));
    } else {
      hide EndAt;
      var other :| EndAt(b, other) && other != end;
      EndInTail(b, from, other);
      assert EndAt(tail, other - from) && EndAt(tail, end - from);
      AnswersAgree(tail, StrictEnd(tail), Ambiguous);
    }
  }

  /** The entries of the archive as they should be emitted. */
  function WrittenEntries(z: Zip): seq<Entry> {
    Entries(z.members, 0, |z.prefix|, 0, |z.prefix| + LocalsSize(z))
  }

  /** Main result: a written archive is accepted with exactly its members, unless some other place
      passes for its end record; then it is refused as ambiguous. */
  lemma WrittenIsScanned(z: Zip, names: Names, maxEntries: nat)
    requires Fits(z) && |z.members| <= maxEntries && NamesAdmitted(names, [], WrittenEntries(z))
    ensures ScanOf(Slices(File(z)), |File(z)|, names, maxEntries)
         == if OneEnd(z) then Some(Scan(LayoutFor(z), WrittenEntries(z), LayoutFor(z).end)) else None
  {
    hide *;
    var l, at := LayoutFor(z), |z.prefix| + LocalsSize(z);
    LayoutIs(z);
    EntriesOfFile(z);
    PartsStand(z);
    PlacesFit(z);
    LayoutIsWritten(z);
    WrittenInOrder(z.members, 0, |z.prefix|, 0, at);
    OrderedIsSorted(WrittenEntries(z));
    if OneEnd(z) {
      ItemsAreRead(File(z), l, names, maxEntries, [], z.members, 0, at);
      AppendsNothing(WrittenEntries(z));
      ScanIs(Slices(File(z)), |File(z)|, names, maxEntries, l, WrittenEntries(z));
    } else {
      NoScan(Slices(File(z)), |File(z)|, names, maxEntries);
    }
  }

  lemma AppendsNothing<T>(s: seq<T>)
    ensures [] + s == s
  {
  }

  lemma PlacesFit(z: Zip)
    requires Fits(z)
    ensures AllWritable(z.members, 0)
    ensures |z.prefix| + LocalsSize(z) + DirectorySize(z) <= |File(z)|
    ensures LocalsSize(z) == |Locals(z.members)| && DirectorySize(z) == |Directory(z.members, 0)|
  {
    PartsStand(z);
    hide Stands;
    hide Locals;
    hide Directory;
    hide File;
    hide EndRecord;
    hide WideTail;
    hide AllWritable;
  }

  lemma EntriesOfFile(z: Zip)
    ensures WrittenEntries(z) == Entries(z.members, 0, |z.prefix|, 0, |z.prefix| + LocalsSize(z))
  {
    hide Entries;
    hide LocalsSize;
  }

  lemma ScanIs(reply: Replies, size: nat, names: Names, maxEntries: nat, l: Layout, es: seq<Entry>)
    requires LayoutOf(reply, size) == Some(l) && l.count <= maxEntries && |es| == l.count
    requires ItemsFrom(reply, l, names, maxEntries, [], l.start) == Some(Scan(l, es, l.end))
    requires NeighboursApart(SortByStart(es))
    ensures ScanOf(reply, size, names, maxEntries) == Some(Scan(l, es, l.end))
  {
    hide LayoutOf;
    hide ItemsFrom;
  }

  lemma NoScan(reply: Replies, size: nat, names: Names, maxEntries: nat)
    requires LayoutOf(reply, size).None?
    ensures ScanOf(reply, size, names, maxEntries).None?
  {
    hide LayoutOf;
  }

  /** The emitted entry says what was written, and its data stands where it says. */
  ghost predicate Holds(b: Bytes, e: Entry, m: Member, index: nat) {
    && e.index == index && e.compressedSize == |m.data| && e.size == m.size
    && e.compressionMethod == m.coding && e.crc == m.crc
    && e.name.central == m.name && e.name.local == m.name && e.name.flags == Flags(m)
    && Stands(b, e.dataStart, m.data)
  }

  lemma EntryHolds(b: Bytes, m: Member, offset: nat, index: nat, at: int, localAt: int)
    requires Writable(m, offset) && Stands(b, localAt, LocalPart(m))
    ensures Holds(b, EntryFor(m, offset, index, at, localAt), m, index)
  {
    hide *;
    LocalHeaderFields(m, offset);
    LocalPartIs(m);
    StandsApart(b, localAt, LocalHeader(m), (m.name + LocalExtra(m)) + (m.data + DescriptorBytes(m)));
    StandsApart(b, localAt + 30, m.name + LocalExtra(m), m.data + DescriptorBytes(m));
    StandsApart(b, localAt + 30 + |m.name + LocalExtra(m)|, m.data, DescriptorBytes(m));
    StandingDataIsHeld(b, m, offset, index, at, localAt);
  }

  lemma LocalPartIs(m: Member)
    ensures LocalPart(m) == LocalHeader(m) + ((m.name + LocalExtra(m)) + (m.data + DescriptorBytes(m)))
  {
  }

  lemma StandingDataIsHeld(b: Bytes, m: Member, offset: nat, index: nat, at: int, localAt: int)
    requires Stands(b, localAt + 30 + |m.name + LocalExtra(m)|, m.data)
    ensures Holds(b, EntryFor(m, offset, index, at, localAt), m, index)
  {
    hide LocalExtra;
    hide CentralExtra;
    hide DescriptorBytes;
    hide CentralMap;
    hide LocalMap;
    hide Flags;
  }

  lemma {:induction false} EntriesHold(b: Bytes, ms: seq<Member>, offset: nat, base: int, index: nat, at: int, i: nat)
    requires AllWritable(ms, offset) && Stands(b, base + offset, Locals(ms)) && i < |ms|
    ensures |Entries(ms, offset, base, index, at)| == |ms|
    ensures Holds(b, Entries(ms, offset, base, index, at)[i], ms[i], index + i)
    decreases |ms|
  {
    hide *;
    var m, rest, next := ms[0], ms[1..], offset + |LocalPart(ms[0])|;
    WrittenInOrder(ms, offset, base, index, at);
    FirstMember(ms, offset, base, index, at);
    StandsApart(b, base + offset, LocalPart(m), Locals(rest));
    if i == 0 {
      EntryHolds(b, m, offset, index, at, base + offset);
    } else {
      EntriesHold(b, rest, next, base, index + 1, at + |CentralPart(m, offset)|, i - 1);
    }
  }

  ghost predicate AllHold(z: Zip, entries: seq<Entry>) {
    |entries| == |z.members| && forall i :: 0 <= i < |entries| ==> Holds(File(z), entries[i], z.members[i], i)
  }

  lemma WrittenEntriesHold(z: Zip)
    requires Fits(z)
    ensures AllHold(z, WrittenEntries(z))
  {
    hide *;
    var at := |z.prefix| + LocalsSize(z);
    EntriesOfFile(z);
    PartsStand(z);
    PlacesFit(z);
    WrittenInOrder(z.members, 0, |z.prefix|, 0, at);
    forall i | 0 <= i < |z.members| ensures Holds(File(z), WrittenEntries(z)[i], z.members[i], i) {
      EntriesHold(File(z), z.members, 0, |z.prefix|, 0, at, i);
    }
    EachHolds(z, WrittenEntries(z));
  }

  lemma EachHolds(z: Zip, entries: seq<Entry>)
    requires |entries| == |z.members|
    requires forall i :: 0 <= i < |entries| ==> Holds(File(z), entries[i], z.members[i], i)
    ensures AllHold(z, entries)
  {
    hide Holds;
    hide File;
  }

  /** The same by running admission over the bytes and over the staged file. */
  method AdmitWritten(z: Zip, names: Names, maxEntries: nat, maxArchiveBytes: nat)
    returns (buffered: Option<Scan>, staged: Option<Scan>, emitted: seq<Entry>)
    requires Fits(z) && |File(z)| <= maxArchiveBytes && |z.members| <= maxEntries
    requires NamesAdmitted(names, [], WrittenEntries(z))
    ensures buffered == staged && (buffered.Some? <==> OneEnd(z))
    ensures OneEnd(z) ==> emitted == buffered.value.entries && AllHold(z, emitted)
  {
    hide *;
    WrittenIsScanned(z, names, maxEntries);
    WrittenEntriesHold(z);
    SizesFit(z);
    AdmissionIs(File(z), names, maxEntries, maxArchiveBytes);
    var again;
    buffered, emitted := AdmitBuffer(File(z), names, maxEntries, maxArchiveBytes);
    staged, again := AdmitFile(File(z), names, maxEntries, maxArchiveBytes);
  }

  lemma {:induction false} EmittedIsScanned(reply: Replies, l: Layout, names: Names, maxEntries: nat,
                                            earlier: seq<Entry>, at: int)
    requires ItemsFrom(reply, l, names, maxEntries, earlier, at).Some?
    ensures EmittedFrom(reply, l, names, maxEntries, earlier, at)
         == ItemsFrom(reply, l, names, maxEntries, earlier, at).value.entries
    decreases l.end - at
  {
    hide ItemAt;
    if at < l.end {
      var item := ItemAt(reply, l, names, earlier, at).value;
      ItemShape(reply, l, names, earlier, at);
      if item.Record? {
        EmittedIsScanned(reply, l, names, maxEntries, earlier + [item.entry], item.entry.next);
      }
    }
  }

  lemma AdmissionIs(b: Bytes, names: Names, maxEntries: nat, maxArchiveBytes: nat)
    requires |b| <= maxArchiveBytes && |b| <= MAX_SAFE_INTEGER
    ensures Admission(b, names, maxEntries, maxArchiveBytes).0 == ScanOf(Slices(b), |b|, names, maxEntries)
    ensures Admission(b, names, maxEntries, maxArchiveBytes).0.Some? ==>
              Admission(b, names, maxEntries, maxArchiveBytes).1
                == Admission(b, names, maxEntries, maxArchiveBytes).0.value.entries
  {
    hide LayoutOf;
    hide ItemsFrom;
    hide EmittedFrom;
    if ScanOf(Slices(b), |b|, names, maxEntries).Some? {
      var l := LayoutOf(Slices(b), |b|).value;
      EmittedIsScanned(Slices(b), l, names, maxEntries, [], l.start);
    }
  }
}
