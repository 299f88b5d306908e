/** The public entry-count hint, and what it says about archives the strict scan accepts. */
module ZipCount {
  import opened Basics
  import opened ZipBytes
  import opened ZipEnd
  import opened ZipExtra
  import opened ZipDirectory
  import opened ZipAdmission

  /** What the end records declare. */
  datatype Info = Info(declared: nat, offset: nat, directorySize: nat, end: nat)

  /** readSafeUInt64LE: too large values saturate. */
  function Saturated(b: Bytes, at: nat): (r: nat)
    requires at + 8 <= |b|
    ensures r <= MAX_SAFE_INTEGER && (SafeU64(b, at).Some? ==> SafeU64(b, at) == Some(r))
  {
    if U64(b, at) > MAX_SAFE_INTEGER then MAX_SAFE_INTEGER else U64(b, at)
  }

  predicate HintIsWide(b: Bytes, end: nat)
    requires end + END_BYTES <= |b|
  {
    U16(b, end + 10) == SENTINEL16 || U32(b, end + 12) == SENTINEL32 || U32(b, end + 16) == SENTINEL32
  }

  /** readZip64CentralDirectoryInfo. */
  function WideInfo(b: Bytes, end: nat): Option<Info>
    requires end + END_BYTES <= |b|
  {
    if end < 20 || U32(b, end - 20) != ZIP64_LOCATOR_SIGNATURE then None
    else
      var at := Saturated(b, end - 12);
      if at + 56 > |b| || U32(b, at) != ZIP64_END_SIGNATURE then None
      else Some(Info(Saturated(b, at + 32), Saturated(b, at + 48), Saturated(b, at + 40), end))
  }

  /** readZipCentralDirectoryInfo, the end record being known. */
  function InfoAt(b: Bytes, end: nat): Info
    requires end + END_BYTES <= |b|
  {
    var ordinary := Info(U16(b, end + 10), U32(b, end + 16), U32(b, end + 12), end);
    if HintIsWide(b, end) && WideInfo(b, end).Some? then WideInfo(b, end).value else ordinary
  }

  /** The headers from `at` on; None when one does not fit. */
  function CountFrom(b: Bytes, at: nat, scanEnd: nat): (r: Option<nat>)
    requires scanEnd <= |b|
    decreases scanEnd - at
  {
    if at + 46 > scanEnd || U32(b, at) != CENTRAL_SIGNATURE then Some(0)
    else
      var next := at + 46 + U16(b, at + 28) + U16(b, at + 30) + U16(b, at + 32);
      if next > scanEnd then None
      else
        var rest :- CountFrom(b, next, scanEnd);
        Some(rest + 1)
  }

  predicate Countable(b: Bytes, i: Info) {
    i.offset + i.directorySize <= MAX_SAFE_INTEGER && i.end <= MAX_SAFE_INTEGER && i.offset <= i.end <= |b|
  }

  /** countZipCentralDirectoryHeaders. */
  function Counted(b: Bytes, i: Info): Option<nat> {
    if !Countable(b, i) then None
    else
      var n :- CountFrom(b, i.offset, i.end);
      if n > 0 || i.declared == 0 then Some(n) else None
  }

  /** readZipCentralDirectoryEntryCount, the end record being known. */
  function Hint(b: Bytes, end: int): Option<nat>
    requires end == -1 || EndAt(b, end)
  {
    if end == -1 then None
    else
      var info := InfoAt(b, end);
      var n := Counted(b, info);
      Some(if n.Some? && n.value > info.declared then n.value else info.declared)
  }

  /** The latest end record, or -1. */
  ghost predicate Latest(b: Bytes, end: int) {
    (end == -1 || EndAt(b, end)) && forall at :: end < at ==> !EndAt(b, at)
  }

  method CountHeaders(b: Bytes, info: Info) returns (r: Option<nat>)
    ensures r == Counted(b, info)
  {
    if !Countable(b, info) { return None; }
    var offset, count := info.offset, 0;
    while offset < info.end
      invariant CountFrom(b, info.offset, info.end)
             == match CountFrom(b, offset, info.end) case None => None case Some(n) => Some(n + count)
      decreases info.end - offset
    {
      if info.end - offset < 46 || U32(b, offset) != CENTRAL_SIGNATURE { break; }
      var next := offset + 46 + U16(b, offset + 28) + U16(b, offset + 30) + U16(b, offset + 32);
      if next > info.end { return None; }
      offset, count := next, count + 1;
    }
    return if count > 0 || info.declared == 0 then Some(count) else None;
  }

  /** readZipCentralDirectoryEntryCount. */
  method ReadEntryCount(b: Bytes) returns (r: Option<nat>, end: int)
    ensures Latest(b, end)
    ensures r == Hint(b, end)
  {
    end := FindLatestEnd(b);
    if end < 0 { return None, end; }
    var info := InfoAt(b, end);
    var n := CountHeaders(b, info);
    return Some(if n.Some? && n.value > info.declared then n.value else info.declared), end;
  }

  // ---------------------------------------------------------------- accepted archives

  lemma SliceReads(b: Bytes, from: nat, to: nat, k: nat)
    requires from <= to <= |b|
    ensures from + k + 2 <= to ==> U16(b[from..to], k) == U16(b, from + k)
    ensures from + k + 4 <= to ==> U32(b[from..to], k) == U32(b, from + k)
    ensures from + k + 8 <= to ==> SafeU64(b[from..to], k) == SafeU64(b, from + k)
  {
  }

  lemma EndInTail(b: Bytes, from: nat, at: int)
    requires from <= |b| && from <= at
    ensures EndAt(b[from..], at - from) <==> EndAt(b, at)
  {
  }

  lemma TailEndIsLatest(b: Bytes, from: nat, end: int, found: nat)
    requires Latest(b, end)
    requires from == Max(0, |b| - MAX_TAIL) && Answers(b[from..], Found(found))
    ensures end == from + found
  {
    hide EndAt;
    EndsAreNear(b, from);
    EndInTail(b, from, from + found);
    EndInTail(b, from, Max(from, end));
    assert end >= from;
  }

  /** Where the strict scan found the end record is the latest end record of the file. */
  lemma StrictEndIsLatest(b: Bytes, end: int)
    requires Latest(b, end)
    requires LayoutOf(Slices(b), |b|).Some?
    ensures end >= 0 && EndLayout(Slices(b), b[end..end + END_BYTES], end, |b|) == LayoutOf(Slices(b), |b|)
  {
    hide EndLayout;
    hide U16;
    hide U32;
    var from := Max(0, |b| - MAX_TAIL);
    var tail := b[from..];
    assert Slices(b)(from, |b| - from) == tail;
    var found := StrictEnd(tail).offset;
    TailEndIsLatest(b, from, end, found);
    assert tail[found..found + END_BYTES] == b[end..end + END_BYTES];
  }

  /** After the last record no header follows. */
  predicate Ends(b: Bytes, at: nat, scanEnd: nat)
    requires scanEnd <= |b|
  {
    at + 46 > scanEnd || U32(b, at) != CENTRAL_SIGNATURE
  }

  lemma RecordIsHeader(reply: Replies, l: Layout, names: Names, earlier: seq<Entry>, at: int, header: Bytes)
    requires Read(reply, at, Min(46, l.end - at), l.end) == Some(header)
    requires ItemAt(reply, l, names, earlier, at).Some? && ItemAt(reply, l, names, earlier, at).value.Record?
    ensures |header| >= 46 && U32(header, 0) == CENTRAL_SIGNATURE
    ensures ItemAt(reply, l, names, earlier, at).value.entry.next
              == at + 46 + U16(header, 28) + U16(header, 30) + U16(header, 32)
  {
  }

  /** One scanned item, as the counting loop sees the same bytes. */
  lemma ItemIsCounted(b: Bytes, l: Layout, names: Names, earlier: seq<Entry>, at: nat, scanEnd: nat)
    requires at < l.end <= scanEnd <= |b| && ItemAt(Slices(b), l, names, earlier, at).Some?
    ensures var item := ItemAt(Slices(b), l, names, earlier, at).value;
            && (item.Signature? ==> Ends(b, at, scanEnd))
            && (item.Record? ==>
                  && !Ends(b, at, scanEnd) && at < item.entry.next <= l.end
                  && item.entry.next == at + 46 + U16(b, at + 28) + U16(b, at + 30) + U16(b, at + 32))
  {
    hide U16;
    hide U32;
    hide CentralAt;
    var stop := Min(at + 46, l.end);
    var header := b[at..stop];
    assert Read(Slices(b), at, Min(46, l.end - at), l.end) == Some(header);
    SliceReads(b, at, stop, 0);
    SliceReads(b, at, stop, 28);
    SliceReads(b, at, stop, 30);
    SliceReads(b, at, stop, 32);
    var item := ItemAt(Slices(b), l, names, earlier, at).value;
    if item.Record? {
      ItemShape(Slices(b), l, names, earlier, at);
      RecordIsHeader(Slices(b), l, names, earlier, at, header);
    }
  }

  lemma {:induction false} ScannedAreCounted(b: Bytes, l: Layout, names: Names, maxEntries: nat, earlier: seq<Entry>,
                                             at: nat, scanEnd: nat)
    requires at <= l.end <= scanEnd <= |b| && Ends(b, l.end, scanEnd)
    requires ItemsFrom(Slices(b), l, names, maxEntries, earlier, at).Some?
    ensures CountFrom(b, at, scanEnd)
              == Some(|ItemsFrom(Slices(b), l, names, maxEntries, earlier, at).value.entries| - |earlier|)
    decreases l.end - at
  {
    hide U16;
    hide U32;
    hide ItemAt;
    hide Slices;
    if at < l.end {
      ItemIsCounted(b, l, names, earlier, at, scanEnd);
      var item := ItemAt(Slices(b), l, names, earlier, at).value;
      if item.Record? {
        ScannedAreCounted(b, l, names, maxEntries, earlier + [item.entry], item.entry.next, scanEnd);
      }
    }
  }

  /** The end of an accepted directory: the end record itself, or a ZIP64 end record before it. */
  lemma DirectoryEnds(b: Bytes, end: int)
    requires EndAt(b, end) && EndLayout(Slices(b), b[end..end + END_BYTES], end, |b|).Some?
    ensures var l := EndLayout(Slices(b), b[end..end + END_BYTES], end, |b|).value;
            0 <= l.end <= end && Ends(b, l.end, end)
  {
    var record := b[end..end + END_BYTES];
    if IsWide(record) {
      WideEndIsThere(b, record, end);
    }
  }

  lemma WideEndIsThere(b: Bytes, record: Bytes, end: int)
    requires EndAt(b, end) && |record| == END_BYTES && WideLayout(Slices(b), record, end, |b|).Some?
    ensures end >= 76
    ensures var l := WideLayout(Slices(b), record, end, |b|).value;
            var locator := b[end - 20..end];
            && 0 <= l.end && l.end + 56 <= end - 20 && U32(b, l.end) == ZIP64_END_SIGNATURE
            && U32(b, end - 20) == ZIP64_LOCATOR_SIGNATURE
            && WideRecordLayout(record, locator, l.end, b[l.end..l.end + 56]) == Some(l)
  {
    hide U16;
    hide U32;
    hide SafeU64;
    var locator := b[end - 20..end];
    assert Read(Slices(b), end - 20, 20, |b|) == Some(locator);
    SliceReads(b, end - 20, end, 0);
    var (at, wide) := WideEnd(Slices(b), locator, end - 20, |b|).value;
    WideRecordIsRead(b, locator, end - 20);
    SliceReads(b, at, at + 56, 0);
  }

  lemma WideRecordIsRead(b: Bytes, locator: Bytes, locatorAt: int)
    requires |locator| == 20 && locatorAt <= |b| && WideEnd(Slices(b), locator, locatorAt, |b|).Some?
    ensures var (at, record) := WideEnd(Slices(b), locator, locatorAt, |b|).value;
            at + 56 <= |b| && record == b[at..at + 56] && U32(record, 0) == ZIP64_END_SIGNATURE
  {
  }

  /** Unless something was prepended to the archive, the hint reads what the strict scan reads. */
  lemma InfoIsLayout(b: Bytes, end: int)
    requires EndAt(b, end) && EndLayout(Slices(b), b[end..end + END_BYTES], end, |b|).Some?
    requires EndLayout(Slices(b), b[end..end + END_BYTES], end, |b|).value.base == 0
    ensures var l := EndLayout(Slices(b), b[end..end + END_BYTES], end, |b|).value;
            InfoAt(b, end) == Info(l.count, l.start, l.end - l.start, end)
  {
    hide U16;
    hide U32;
    hide SafeU64;
    var record := b[end..end + END_BYTES];
    SliceReads(b, end, end + END_BYTES, 8);
    SliceReads(b, end, end + END_BYTES, 10);
    SliceReads(b, end, end + END_BYTES, 12);
    SliceReads(b, end, end + END_BYTES, 16);
    if IsWide(record) {
      WideEndIsThere(b, record, end);
      var l := WideLayout(Slices(b), record, end, |b|).value;
      SliceReads(b, end - 20, end, 8);
      SliceReads(b, l.end, l.end + 56, 32);
      SliceReads(b, l.end, l.end + 56, 40);
      SliceReads(b, l.end, l.end + 56, 48);
    }
  }

  /** Main result: for an accepted archive with nothing prepended the hint is the exact number of
      entries; with something prepended and no ZIP64 sentinel it is never too small. */
  lemma HintOfAccepted(b: Bytes, end: int, names: Names, maxEntries: nat)
    requires Latest(b, end)
    requires |b| <= MAX_SAFE_INTEGER && ScanOf(Slices(b), |b|, names, maxEntries).Some?
    ensures var l := ScanOf(Slices(b), |b|, names, maxEntries).value.layout;
            && (l.base == 0 ==> Hint(b, end) == Some(l.count))
            && (end >= 0 && !HintIsWide(b, end) ==> Hint(b, end).Some? && Hint(b, end).value >= l.count)
  {
    hide U16;
    hide U32;
    hide EndAt;
    hide EndLayout;
    hide ItemAt;
    StrictEndIsLatest(b, end);
    LayoutIsSound(Slices(b), |b|);
    var l := LayoutOf(Slices(b), |b|).value;
    ItemsTile(Slices(b), l, names, maxEntries, [], l.start);
    DirectoryEnds(b, end);
    EndFits(b, end);
    if l.base == 0 {
      InfoIsLayout(b, end);
      ScannedAreCounted(b, l, names, maxEntries, [], l.start, end);
    }
    if !HintIsWide(b, end) { DeclaredAtLeast(b, end); }
  }

  lemma EndFits(b: Bytes, end: int)
    requires EndAt(b, end)
    ensures 0 <= end && end + END_BYTES <= |b|
  {
  }

  lemma DeclaredAtLeast(b: Bytes, end: int)
    requires EndAt(b, end) && !HintIsWide(b, end) && EndLayout(Slices(b), b[end..end + END_BYTES], end, |b|).Some?
    ensures Hint(b, end).Some?
              && Hint(b, end).value >= EndLayout(Slices(b), b[end..end + END_BYTES], end, |b|).value.count
  {
    hide U16;
    hide U32;
    SliceReads(b, end, end + END_BYTES, 8);
    SliceReads(b, end, end + END_BYTES, 10);
    SliceReads(b, end, end + END_BYTES, 12);
    SliceReads(b, end, end + END_BYTES, 16);
    var record := b[end..end + END_BYTES];
    if IsWide(record) { WideEndIsThere(b, record, end); }
  }

  /** The hint is large enough for every accepted archive with nothing prepended or without a
      sentinel in its end record. */
  predicate Unmoved(b: Bytes, end: nat, base: int)
    requires end + END_BYTES <= |b|
  {
    base == 0 || !HintIsWide(b, end)
  }

  /** Otherwise it is large enough exactly when the bytes at the offset that the locator advertises
      declare enough, or so many headers follow from the directory offset they give.  A ZIP64 end
      signature standing there gives its 64-bit fields; without one the end record's own are used, whose
      count declares enough unless it is the sentinel and more entries than the sentinel exist. */
  predicate AdvertisesEnough(b: Bytes, end: nat, count: nat)
    requires 20 <= end && end + END_BYTES <= |b|
  {
    var at := Saturated(b, end - 12);
    if at + 56 <= |b| && U32(b, at) == ZIP64_END_SIGNATURE then
      || Saturated(b, at + 32) >= count
      || HeadersFrom(b, Saturated(b, at + 48), Saturated(b, at + 40), end, count)
    else
      || U16(b, end + 10) != SENTINEL16 || count <= SENTINEL16
      || HeadersFrom(b, U32(b, end + 16), U32(b, end + 12), end, count)
  }

  /** At least `count` headers follow each other from `start` on, and none is cut off by the end record. */
  predicate HeadersFrom(b: Bytes, start: nat, directorySize: nat, end: nat, count: nat)
    requires end <= |b|
  {
    && start <= end && start + directorySize <= MAX_SAFE_INTEGER && end <= MAX_SAFE_INTEGER
    && CountFrom(b, start, end).Some? && CountFrom(b, start, end).value >= count
  }

  /** Main result: exactly when the hint reaches the entry count of an accepted archive. */
  lemma HintIsEnoughExactly(b: Bytes, end: int, names: Names, maxEntries: nat)
    requires Latest(b, end)
    requires |b| <= MAX_SAFE_INTEGER && ScanOf(Slices(b), |b|, names, maxEntries).Some?
    ensures EndAt(b, end) && Hint(b, end).Some?
    ensures var l := ScanOf(Slices(b), |b|, names, maxEntries).value.layout;
            && (HintIsWide(b, end) ==> end >= 20)
            && (Hint(b, end).value >= l.count <==> Unmoved(b, end, l.base) || AdvertisesEnough(b, end, l.count))
  {
    hide U16;
    hide U32;
    hide EndLayout;
    hide ItemAt;
    hide CountFrom;
    HintOfAccepted(b, end, names, maxEntries);
    StrictEndIsLatest(b, end);
    LayoutIsSound(Slices(b), |b|);
    var l := LayoutOf(Slices(b), |b|).value;
    ItemsTile(Slices(b), l, names, maxEntries, [], l.start);
    if HintIsWide(b, end) { WideDeclares(b, end); }
  }

  lemma WideDeclares(b: Bytes, end: int)
    requires EndAt(b, end) && HintIsWide(b, end) && EndLayout(Slices(b), b[end..end + END_BYTES], end, |b|).Some?
    ensures end >= 76 && U32(b, end - 20) == ZIP64_LOCATOR_SIGNATURE
    ensures U16(b, end + 10) != SENTINEL16 ==>
              U16(b, end + 10) == EndLayout(Slices(b), b[end..end + END_BYTES], end, |b|).value.count
  {
    hide U16;
    hide U32;
    hide SafeU64;
    var record := b[end..end + END_BYTES];
    SliceReads(b, end, end + END_BYTES, 10);
    SliceReads(b, end, end + END_BYTES, 12);
    SliceReads(b, end, end + END_BYTES, 16);
    WideEndIsThere(b, record, end);
  }
}
