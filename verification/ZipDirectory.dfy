/** Scanning a central directory: what an accepted archive looks like.

    The scan never holds the archive; it asks for byte ranges and is sent replies.  `Replies`
    is any function from requests to bytes, so the theorems hold for every archive content,
    including replies that are too short. */
module ZipDirectory {
  import opened Basics
  import opened ZipBytes
  import opened ZipEnd
  import opened ZipExtra

  type Replies = (int, int) -> Bytes

  const CENTRAL_SIGNATURE := 0x02014b50
  const LOCAL_SIGNATURE := 0x04034b50
  const DIRECTORY_SIGNATURE := 0x05054b50
  const ZIP64_END_SIGNATURE := 0x06064b50
  const ZIP64_LOCATOR_SIGNATURE := 0x07064b50
  const DESCRIPTOR_SIGNATURE := 0x08074b50
  const MAX_TAIL := 65_557

  /** Name admission is a parameter: it sees both names, their extra fields and every name
      admitted before. */
  datatype NameQuery = NameQuery(central: Bytes, local: Bytes, flags: nat,
                                 centralExtra: map<nat, Bytes>, localExtra: map<nat, Bytes>)
  type Names = (NameQuery, seq<Entry>) -> bool

  datatype Layout = Layout(count: nat, start: int, end: int, base: int)

  datatype Central = Central(header: Bytes, name: Bytes, extra: map<nat, Bytes>, values: Values, next: int)
  datatype Local = Local(header: Bytes, name: Bytes, extra: map<nat, Bytes>, at: int, dataStart: int)

  /** One emitted entry, with the positions the scan used for it. */
  datatype Entry = Entry(index: nat, at: int, next: int, localAt: int, dataStart: int, dataEnd: int,
                         compressedSize: nat, size: nat, compressionMethod: nat, crc: nat, name: NameQuery)

  datatype Item = Signature | Record(entry: Entry)

  datatype Scan = Scan(layout: Layout, entries: seq<Entry>, stop: int)

  /** `read`: a request inside [0, bound) that is answered in full. */
  function Read(reply: Replies, offset: int, length: int, bound: int): (r: Option<Bytes>)
    ensures r.Some? ==> 0 <= offset && 0 <= length && offset + length <= bound && |r.value| == length
  {
    if offset < 0 || length < 0 || length > bound - offset then None
    else if |reply(offset, length)| != length then None
    else Some(reply(offset, length))
  }

  // ---------------------------------------------------------------- the end records

  ghost function StrictEnd(tail: Bytes): (r: EndSearch)
    ensures Answers(tail, r)
  {
    if o, p :| o < p && EndAt(tail, o) && EndAt(tail, p) then Ambiguous
    else if o :| EndAt(tail, o) then Found(o)
    else Missing
  }

  /** One candidate for the ZIP64 end record: None refuses, Some(None) passes it over. */
  function WideEndAt(reply: Replies, at: int, locatorAt: int, size: int): (r: Option<Option<Bytes>>)
    ensures r.Some? && r.value.Some? ==> 0 <= at && at + 56 <= locatorAt && |r.value.value| == 56
  {
    if at < 0 || at > locatorAt - 56 then Some(None)
    else
      var record :- Read(reply, at, 56, size);
      if U32(record, 0) != ZIP64_END_SIGNATURE then Some(None)
      else
        var bodySize :- SafeU64(record, 4);
        if bodySize < 44 || bodySize != locatorAt - at - 12 then Some(None) else Some(Some(record))
  }

  /** zip64End: the advertised record, or the one right before the locator, but not both. */
  function WideEnd(reply: Replies, locator: Bytes, locatorAt: int, size: int): (r: Option<(int, Bytes)>)
    requires |locator| == 20
    ensures r.Some? ==> 0 <= r.value.0 && r.value.0 + 56 <= locatorAt && |r.value.1| == 56
  {
    var advertised :- SafeU64(locator, 8);
    var first :- WideEndAt(reply, advertised, locatorAt, size);
    var second :-
      if advertised == locatorAt - 56 then Some(None) else WideEndAt(reply, locatorAt - 56, locatorAt, size);
    if first.Some? && second.Some? then None
    else if first.Some? then Some((advertised, first.value))
    else if second.Some? then Some((locatorAt - 56, second.value))
    else None
  }

  predicate OrdinaryAgrees(ordinary: nat, sentinel: nat, value: nat) {
    ordinary == sentinel || ordinary == value
  }

  /** The counts and positions of a ZIP64 end record that agrees with the ordinary one. */
  function WideRecordLayout(end: Bytes, locator: Bytes, at: int, record: Bytes): Option<Layout>
    requires |end| == 22 && |locator| == 20 && |record| == 56
  {
    if U32(record, 16) != 0 || U32(record, 20) != 0 then None
    else
      var count :- SafeU64(record, 32);
      var directorySize :- SafeU64(record, 40);
      var offset :- SafeU64(record, 48);
      var onDisk :- SafeU64(record, 24);
      var advertised :- SafeU64(locator, 8);
      if onDisk != count
         || !OrdinaryAgrees(U16(end, 8), SENTINEL16, count) || !OrdinaryAgrees(U16(end, 10), SENTINEL16, count)
         || !OrdinaryAgrees(U32(end, 12), SENTINEL32, directorySize)
         || !OrdinaryAgrees(U32(end, 16), SENTINEL32, offset)
         || advertised != directorySize + offset
      then None
      else Some(Layout(count, at - directorySize, at, at - directorySize - offset))
  }

  function WideLayout(reply: Replies, end: Bytes, physicalEnd: int, size: int): Option<Layout>
    requires |end| == 22
  {
    var locator :- Read(reply, physicalEnd - 20, 20, size);
    if U32(locator, 0) != ZIP64_LOCATOR_SIGNATURE || U32(locator, 4) != 0 || U32(locator, 16) != 1 then None
    else
      var (at, record) :- WideEnd(reply, locator, physicalEnd - 20, size);
      WideRecordLayout(end, locator, at, record)
  }

  predicate IsWide(end: Bytes)
    requires |end| == 22
  {
    U16(end, 10) == SENTINEL16 || U16(end, 8) == SENTINEL16 || U32(end, 12) == SENTINEL32 || U32(end, 16) == SENTINEL32
  }

  /** The layout that an end record at `physicalEnd` describes. */
  function EndLayout(reply: Replies, end: Bytes, physicalEnd: int, size: int): Option<Layout>
    requires |end| == 22
  {
    if U16(end, 4) != 0 || U16(end, 6) != 0 then None
    else
      var l :-
        if IsWide(end) then WideLayout(reply, end, physicalEnd, size)
        else if U16(end, 8) != U16(end, 10) then None
        else Some(Layout(U16(end, 10), physicalEnd - U32(end, 12), physicalEnd,
          physicalEnd - U32(end, 12) - U32(end, 16)));
      if l.base < 0 || l.start < 0 then None else Some(l)
  }

  /** `layout`. */
  ghost function LayoutOf(reply: Replies, size: nat): Option<Layout> {
    var tailStart := Max(0, size - MAX_TAIL);
    var tail :- Read(reply, tailStart, size - tailStart, size);
    var found := StrictEnd(tail);
    if !found.Found? then None
    else EndLayout(reply, tail[found.offset..found.offset + END_BYTES], tailStart + found.offset, size)
  }

  predicate SoundLayout(l: Layout, size: int) {
    0 <= l.base <= l.start <= l.end <= size
  }

  lemma LayoutIsSound(reply: Replies, size: nat)
    ensures LayoutOf(reply, size).Some? ==> SoundLayout(LayoutOf(reply, size).value, size)
  {
    hide U16;
    hide U32;
    hide SafeU64;
  }

  // ---------------------------------------------------------------- one directory record

  /** Bits 1, 2, 3 and 11 are the only supported flags. */
  function Bit(flags: nat, weight: nat): nat
    requires weight > 0
  {
    flags / weight % 2
  }

  predicate SupportedFlags(flags: nat) {
    flags == 2 * Bit(flags, 2) + 4 * Bit(flags, 4) + 8 * Bit(flags, 8) + 2048 * Bit(flags, 2048)
  }

  predicate HasDescriptor(flags: nat) {
    Bit(flags, 8) == 1
  }

  function ZipField(extra: map<nat, Bytes>): Option<Bytes> {
    if ZIP64_ID in extra then Some(extra[ZIP64_ID]) else None
  }

  /** A name and the critical extra fields behind it. */
  function NamesAt(reply: Replies, at: int, nameLength: nat, extraLength: nat, bound: int)
    : (r: Option<(Bytes, map<nat, Bytes>)>)
    ensures r.Some? ==> at + nameLength + extraLength <= bound
  {
    var names :- Read(reply, at, nameLength + extraLength, bound);
    var extra :- ExtraFieldsOf(names[nameLength..]);
    Some((names[..nameLength], extra))
  }

  function CentralAt(reply: Replies, l: Layout, at: int, header: Bytes): (r: Option<Central>)
    ensures r.Some? ==> |r.value.header| >= 46 && at + 46 <= r.value.next <= l.end
  {
    if |header| < 46 || U32(header, 0) != CENTRAL_SIGNATURE then None
    else
      var nameLength, extraLength := U16(header, 28), U16(header, 30);
      var next := at + 46 + nameLength + extraLength + U16(header, 32);
      if next > l.end then None
      else
        var (name, extra) :- NamesAt(reply, at + 46, nameLength, extraLength, l.end);
        var values :- Decode(Slots(header, true), ZipField(extra), true);
        if !SupportedFlags(U16(header, 8)) then None
        else Some(Central(header, name, extra, values, next))
  }

  function LocalAt(reply: Replies, l: Layout, c: Central): (r: Option<Local>)
    requires |c.header| >= 46
    ensures r.Some? ==>
              |r.value.header| == 30 && l.base <= r.value.at && r.value.at + 30 <= r.value.dataStart <= l.start
  {
    var at := l.base + c.values.offset;
    var header :- Read(reply, at, 30, l.start);
    if U32(header, 0) != LOCAL_SIGNATURE || U16(header, 6) != U16(c.header, 8)
      || U16(header, 8) != U16(c.header, 10) then None
    else
      var nameLength, extraLength := U16(header, 26), U16(header, 28);
      var (name, extra) :- NamesAt(reply, at + 30, nameLength, extraLength, l.start);
      Some(Local(header, name, extra, at, at + 30 + nameLength + extraLength))
  }

  /** Sizes and CRC of the two headers: equal, or placeholders when a descriptor follows. */
  predicate FramingAgrees(flags: nat, crc: nat, localCrc: nat, v: Values, w: Values) {
    if HasDescriptor(flags) then
      && (localCrc == 0 || localCrc == crc)
      && (w.compressed == 0 || w.compressed == v.compressed)
      && (w.uncompressed == 0 || w.uncompressed == v.uncompressed)
    else
      localCrc == crc && w.compressed == v.compressed && w.uncompressed == v.uncompressed
  }

  /** A data descriptor in one of its two framings: None refuses, Some(false) does not match. */
  function DescriptorMatches(bytes: Bytes, skip: nat, wide: bool, crc: nat, compressed: nat,
                             uncompressed: nat): Option<bool> {
    if skip == 4 && (|bytes| < 4 || U32(bytes, 0) != DESCRIPTOR_SIGNATURE) then Some(false)
    else if |bytes| < (if wide then 20 else 12) + skip || U32(bytes, skip) != crc then Some(false)
    else if !wide then Some(U32(bytes, skip + 4) == compressed && U32(bytes, skip + 8) == uncompressed)
    else
      var c :- SafeU64(bytes, skip + 4);
      var u :- SafeU64(bytes, skip + 12);
      Some(c == compressed && u == uncompressed)
  }

  /** descriptorEnd: exactly one framing must match. */
  function DescriptorEnd(reply: Replies, at: int, bound: int, crc: nat, compressed: nat, uncompressed: nat,
                         wide: bool): (r: Option<int>)
    ensures r.Some? ==> at + 12 <= r.value <= bound
  {
    var length := if wide then 20 else 12;
    var bytes :- Read(reply, at, Min(length + 4, bound - at), bound);
    var bare :- DescriptorMatches(bytes, 0, wide, crc, compressed, uncompressed);
    var signed :- DescriptorMatches(bytes, 4, wide, crc, compressed, uncompressed);
    if bare == signed then None else Some(at + length + (if signed then 4 else 0))
  }

  /** The entry that a central record and its local header make. */
  function EntryOf(reply: Replies, l: Layout, names: Names, earlier: seq<Entry>, at: int, c: Central,
                   local: Local): (r: Option<Entry>)
    requires |c.header| >= 46 && |local.header| >= 30
    ensures r.Some? ==>
              && r.value.index == |earlier| && r.value.at == at && r.value.next == c.next
              && r.value.localAt == local.at && r.value.dataStart == local.dataStart
              && local.dataStart + r.value.compressedSize <= r.value.dataEnd <= l.start
  {
    var flags, crc, v := U16(c.header, 8), U32(c.header, 16), c.values;
    var name := NameQuery(c.name, local.name, flags, c.extra, local.extra);
    if !names(name, earlier) then None
    else
      var w :- Decode(Slots(local.header, false), ZipField(local.extra), false);
      if !FramingAgrees(flags, crc, U32(local.header, 14), v, w) || v.compressed > l.start - local.dataStart then None
      else
        var wide := WideSizes(c.header, true) || WideSizes(local.header, false);
        var dataEnd :- if HasDescriptor(flags)
                       then DescriptorEnd(reply, local.dataStart + v.compressed, l.start,
                                          crc, v.compressed, v.uncompressed, wide)
                       else Some(local.dataStart + v.compressed);
        Some(Entry(|earlier|, at, c.next, local.at, local.dataStart, dataEnd,
                   v.compressed, v.uncompressed, U16(c.header, 10), crc, name))
  }

  predicate WideSizes(header: Bytes, central: bool)
    requires |header| >= (if central then 46 else 30)
  {
    Slots(header, central).compressed == SENTINEL32 || Slots(header, central).uncompressed == SENTINEL32
  }

  function ItemAt(reply: Replies, l: Layout, names: Names, earlier: seq<Entry>, at: int): Option<Item> {
    var header :- Read(reply, at, Min(46, l.end - at), l.end);
    if |header| >= 6 && U32(header, 0) == DIRECTORY_SIGNATURE then
      if U16(header, 4) != l.end - at - 6 then None else Some(Signature)
    else
      var c :- CentralAt(reply, l, at, header);
      var local :- LocalAt(reply, l, c);
      var entry :- EntryOf(reply, l, names, earlier, at, c, local);
      Some(Record(entry))
  }

  predicate EntryShape(l: Layout, e: Entry, index: nat, at: int) {
    && e.index == index && e.at == at && at + 46 <= e.next <= l.end
    && l.base <= e.localAt && e.localAt + 30 <= e.dataStart
    && e.dataStart + e.compressedSize <= e.dataEnd <= l.start
  }

  lemma ItemShape(reply: Replies, l: Layout, names: Names, earlier: seq<Entry>, at: int)
    ensures var item := ItemAt(reply, l, names, earlier, at);
      item.Some? ==>
        && (item.value.Signature? ==> at + 6 <= l.end)
        && (item.value.Record? ==> EntryShape(l, item.value.entry, |earlier|, at))
  {
  }

  /** The records from `at` on: the entries, and where they stopped. */
  function ItemsFrom(reply: Replies, l: Layout, names: Names, maxEntries: nat, earlier: seq<Entry>,
                     at: int): Option<Scan>
    decreases l.end - at
  {
    if at >= l.end then Some(Scan(l, earlier, at))
    else
      var item :- ItemAt(reply, l, names, earlier, at);
      if item.Signature? then Some(Scan(l, earlier, at))
      else if |earlier| + 1 > maxEntries then None
      else
        assert item.entry.next > at by { ItemShape(reply, l, names, earlier, at); }
        ItemsFrom(reply, l, names, maxEntries, earlier + [item.entry], item.entry.next)
  }

  /** What the caller has been sent by the time the records end or one is refused. */
  function EmittedFrom(reply: Replies, l: Layout, names: Names, maxEntries: nat, earlier: seq<Entry>,
                       at: int): seq<Entry>
    decreases l.end - at
  {
    var item := ItemAt(reply, l, names, earlier, at);
    if at >= l.end || item.None? || item.value.Signature? || |earlier| + 1 > maxEntries then earlier
    else
      assert item.value.entry.next > at by { ItemShape(reply, l, names, earlier, at); }
      EmittedFrom(reply, l, names, maxEntries, earlier + [item.value.entry], item.value.entry.next)
  }

  ghost function EmittedOf(reply: Replies, size: nat, names: Names, maxEntries: nat): seq<Entry> {
    var l := LayoutOf(reply, size);
    if l.None? || l.value.count > maxEntries then []
    else EmittedFrom(reply, l.value, names, maxEntries, [], l.value.start)
  }

  // ---------------------------------------------------------------- overlap

  /** Array.sort by local offset: entries with equal offsets keep their order. */
  function InsertByStart(e: Entry, es: seq<Entry>): seq<Entry> {
    if es == [] || e.localAt <= es[0].localAt then [e] + es else [es[0]] + InsertByStart(e, es[1..])
  }

  function SortByStart(es: seq<Entry>): seq<Entry> {
    if es == [] then [] else InsertByStart(es[0], SortByStart(es[1..]))
  }

  predicate NeighboursApart(es: seq<Entry>) {
    forall i :: 0 < i < |es| ==> es[i - 1].dataEnd <= es[i].localAt
  }

  /** The whole scan. */
  ghost function ScanOf(reply: Replies, size: nat, names: Names, maxEntries: nat): Option<Scan> {
    var l :- LayoutOf(reply, size);
    if l.count > maxEntries then None
    else
      var scan :- ItemsFrom(reply, l, names, maxEntries, [], l.start);
      if |scan.entries| != l.count || !NeighboursApart(SortByStart(scan.entries)) then None else Some(scan)
  }

  // ---------------------------------------------------------------- an accepted directory is a true layout

  /** Central records follow each other from the directory's start to where the scan stopped. */
  predicate Tiles(l: Layout, es: seq<Entry>, stop: int) {
    if es == [] then stop == l.start
    else
      && es[0].at == l.start
      && es[|es| - 1].next == stop
      && (forall i :: 0 < i < |es| ==> es[i - 1].next == es[i].at)
  }

  predicate Disjoint(a: Entry, b: Entry) {
    a.dataEnd <= b.localAt || b.dataEnd <= a.localAt
  }

  function CompressedTotal(es: seq<Entry>): nat {
    if es == [] then 0 else es[0].compressedSize + CompressedTotal(es[1..])
  }

  ghost predicate TrueLayout(reply: Replies, size: nat, names: Names, maxEntries: nat, s: Scan) {
    var l, es := s.layout, s.entries;
    && SoundLayout(l, size)
    && |es| == l.count <= maxEntries
    && Tiles(l, es, s.stop)
    // the records end where the directory ends, or at the optional signature
    && (s.stop == l.end || (s.stop < l.end && ItemAt(reply, l, names, es, s.stop) == Some(Signature)))
    && (forall i :: 0 <= i < |es| ==> EntryShape(l, es[i], i, es[i].at))
    && (forall i, j :: 0 <= i < j < |es| ==> Disjoint(es[i], es[j]))
    && CompressedTotal(es) <= l.start - l.base
  }

  lemma {:induction false} ItemsTile(reply: Replies, l: Layout, names: Names, maxEntries: nat, earlier: seq<Entry>,
                                     at: int)
    requires l.start <= at <= l.end
    requires Tiles(l, earlier, at)
    requires forall i :: 0 <= i < |earlier| ==> EntryShape(l, earlier[i], i, earlier[i].at)
    requires ItemsFrom(reply, l, names, maxEntries, earlier, at).Some?
    ensures var s := ItemsFrom(reply, l, names, maxEntries, earlier, at).value;
      && s.layout == l
      && Tiles(l, s.entries, s.stop)
      && (s.stop == l.end || (s.stop < l.end && ItemAt(reply, l, names, s.entries, s.stop) == Some(Signature)))
      && (forall i :: 0 <= i < |s.entries| ==> EntryShape(l, s.entries[i], i, s.entries[i].at))
    decreases l.end - at
  {
    if at < l.end {
      var item := ItemAt(reply, l, names, earlier, at).value;
      ItemShape(reply, l, names, earlier, at);
      if item.Record? {
        ItemsTile(reply, l, names, maxEntries, earlier + [item.entry], item.entry.next);
      }
    }
  }

  predicate ApartFromAll(e: Entry, es: seq<Entry>) {
    forall k :: 0 <= k < |es| ==> Disjoint(e, es[k])
  }

  /** Pairwise disjointness, one entry at a time. */
  predicate AllApart(es: seq<Entry>) {
    es == [] || (ApartFromAll(es[0], es[1..]) && AllApart(es[1..]))
  }

  lemma {:induction false} AllApartIsPairwise(es: seq<Entry>, i: int, j: int)
    requires AllApart(es) && 0 <= i < j < |es|
    ensures Disjoint(es[i], es[j])
  {
    if i == 0 {
      assert es[j] == es[1..][j - 1];
    } else {
      AllApartIsPairwise(es[1..], i - 1, j - 1);
    }
  }

  lemma {:induction false} InsertMembers(e: Entry, es: seq<Entry>)
    ensures forall x :: x in InsertByStart(e, es) <==> x == e || x in es
    ensures CompressedTotal(InsertByStart(e, es)) == CompressedTotal(es) + e.compressedSize
  {
    if es == [] || e.localAt <= es[0].localAt {
      assert ([e] + es)[1..] == es;
    } else {
      InsertMembers(e, es[1..]);
      var tail := InsertByStart(e, es[1..]);
      assert ([es[0]] + tail)[1..] == tail;
      assert es == [es[0]] + es[1..];
    }
  }

  lemma {:induction false} SortMembers(es: seq<Entry>)
    ensures forall x :: x in SortByStart(es) <==> x in es
    ensures CompressedTotal(SortByStart(es)) == CompressedTotal(es)
  {
    if es != [] {
      SortMembers(es[1..]);
      InsertMembers(es[0], SortByStart(es[1..]));
      assert es == [es[0]] + es[1..];
    }
  }

  lemma ApartFromMembers(e: Entry, es: seq<Entry>, fs: seq<Entry>)
    requires ApartFromAll(e, es) && forall x :: x in fs ==> x in es
    ensures ApartFromAll(e, fs)
  {
    forall k | 0 <= k < |fs| ensures Disjoint(e, fs[k]) {
      assert fs[k] in es;
    }
  }

  lemma {:induction false} InsertedApart(e: Entry, es: seq<Entry>)
    requires AllApart(InsertByStart(e, es))
    ensures ApartFromAll(e, es) && AllApart(es)
  {
    if es == [] || e.localAt <= es[0].localAt {
      assert ([e] + es)[1..] == es;
    } else {
      var tail := InsertByStart(e, es[1..]);
      assert ([es[0]] + tail)[1..] == tail;
      InsertedApart(e, es[1..]);
      InsertMembers(e, es[1..]);
      ApartFromMembers(es[0], tail, es[1..]);
      ApartFromMembers(es[0], tail, [e]);
      assert Disjoint(es[0], [e][0]);
      forall k | 0 <= k < |es| ensures Disjoint(e, es[k]) {
        if k > 0 { assert es[k] == es[1..][k - 1]; }
      }
    }
  }

  /** Sorting loses no overlap: what is apart once sorted was apart before. */
  lemma {:induction false} SortedApart(es: seq<Entry>)
    requires AllApart(SortByStart(es))
    ensures AllApart(es)
  {
    if es != [] {
      var sorted := SortByStart(es[1..]);
      InsertedApart(es[0], sorted);
      SortedApart(es[1..]);
      SortMembers(es[1..]);
      ApartFromMembers(es[0], sorted, es[1..]);
    }
  }

  /** Comparing sorted neighbours is enough: entries are not empty, so ends increase too. */
  lemma {:induction false} NeighboursSuffice(es: seq<Entry>, i: int, j: int)
    requires NeighboursApart(es) && 0 <= i < j < |es|
    requires forall k :: 0 <= k < |es| ==> es[k].localAt <= es[k].dataEnd
    ensures es[i].dataEnd <= es[j].localAt
    decreases j - i
  {
    if i + 1 < j {
      NeighboursSuffice(es, i, j - 1);
      assert es[j - 1].dataEnd <= es[j].localAt;
    }
  }

  lemma {:induction false} NeighboursGiveAllApart(es: seq<Entry>)
    requires NeighboursApart(es)
    requires forall k :: 0 <= k < |es| ==> es[k].localAt <= es[k].dataEnd
    ensures AllApart(es)
  {
    if es != [] {
      forall k | 0 <= k < |es[1..]| ensures Disjoint(es[0], es[1..][k]) {
        NeighboursSuffice(es, 0, k + 1);
      }
      assert forall i :: 0 < i < |es[1..]| ==> es[1..][i - 1] == es[i] && es[1..][i] == es[i + 1];
      NeighboursGiveAllApart(es[1..]);
    }
  }

  /** Spans that are apart and inside [low, high) cannot hold more than high - low bytes. */
  lemma {:induction false} TotalFits(es: seq<Entry>, low: int, high: int)
    requires NeighboursApart(es) && low <= high
    requires forall k :: 0 <= k < |es| ==>
              low <= es[k].localAt && es[k].localAt + es[k].compressedSize <= es[k].dataEnd <= high
    ensures CompressedTotal(es) <= high - low
  {
    if es != [] {
      var rest := es[1..];
      forall k | 0 <= k < |rest| ensures es[0].dataEnd <= rest[k].localAt {
        NeighboursSuffice(es, 0, k + 1);
      }
      assert forall i :: 0 < i < |rest| ==> rest[i - 1] == es[i] && rest[i] == es[i + 1];
      TotalFits(rest, es[0].dataEnd, high);
    }
  }

  /** Main result: every directory the scanner accepts is a true layout, whatever the replies. */
  lemma AcceptedIsTrueLayout(reply: Replies, size: nat, names: Names, maxEntries: nat)
    requires ScanOf(reply, size, names, maxEntries).Some?
    ensures TrueLayout(reply, size, names, maxEntries, ScanOf(reply, size, names, maxEntries).value)
  {
    var s := ScanOf(reply, size, names, maxEntries).value;
    var l, es, sorted := s.layout, s.entries, SortByStart(s.entries);
    LayoutIsSound(reply, size);
    ItemsTile(reply, LayoutOf(reply, size).value, names, maxEntries, [], LayoutOf(reply, size).value.start);
    SortMembers(es);
    forall k | 0 <= k < |sorted|
      ensures l.base <= sorted[k].localAt
                && sorted[k].localAt + sorted[k].compressedSize <= sorted[k].dataEnd <= l.start
    {
      assert sorted[k] in es;
    }
    NeighboursGiveAllApart(sorted);
    SortedApart(es);
    forall i, j | 0 <= i < j < |es| ensures Disjoint(es[i], es[j]) {
      AllApartIsPairwise(es, i, j);
    }
    TotalFits(sorted, l.base, l.start);
  }
}
