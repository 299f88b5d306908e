/** The scan itself, with its reads, and the two ways of admitting an archive. */
module ZipAdmission {
  import opened Basics
  import opened ZipBytes
  import opened ZipEnd
  import opened ZipExtra
  import opened ZipDirectory
  import opened ZipWindows

  /** The replies that an immutable archive gives. */
  function Slices(file: Bytes): Replies {
    (offset: int, length: int) =>
      if 0 <= offset && 0 <= length && offset + length <= |file| then file[offset..offset + length] else []
  }

  /** Where the scan's requests go: to any reply function, or to a staged file's windows. */
  class Source {
    const size: nat
    const reply: Replies
    const staged: WindowedFile?
    ghost var requests: seq<(int, int)>

    ghost predicate Valid()
      reads this, staged
    {
      && (forall q :: q in requests ==> 0 <= q.0 && 0 <= q.1 && q.0 + q.1 <= size)
      && (staged != null ==>
            staged.Valid() && size == |staged.file|
            && forall o: nat, n: nat :: o + n <= size ==> reply(o, n) == staged.file[o..o + n])
    }

    constructor Replying(size: nat, reply: Replies)
      ensures Valid() && this.size == size && this.reply == reply && staged == null && requests == []
    {
      this.size, this.reply, staged, requests := size, reply, null, [];
    }

    constructor Staged(file: Bytes)
      ensures Valid() && size == |file| && reply == Slices(file) && staged != null && fresh(staged) && requests == []
    {
      size, reply, requests := |file|, Slices(file), [];
      staged := new WindowedFile(file);
    }

    /** `read`: the bound check, the request, and the length check on its reply. */
    method Request(offset: int, length: int, bound: int) returns (r: Option<Bytes>)
      requires Valid() && bound <= size
      modifies this, staged
      ensures Valid() && r == Read(reply, offset, length, bound)
      ensures requests
           == old(requests) + if 0 <= offset && 0 <= length <= bound - offset then [(offset, length)] else []
    {
      if offset < 0 || length < 0 || length > bound - offset { return None; }
      requests := requests + [(offset, length)];
      var bytes: Bytes;
      if staged == null {
        bytes := reply(offset, length);
      } else {
        var served := staged.Serve(offset, length);
        bytes := served.value;
      }
      if |bytes| != length { return None; }
      return Some(bytes);
    }
  }

  /** zip64End. */
  method ScanWideEnd(src: Source, locator: Bytes, locatorAt: int) returns (r: Option<(int, Bytes)>)
    requires src.Valid() && |locator| == 20 && locatorAt <= src.size
    modifies src, src.staged
    ensures src.Valid() && old(src.requests) <= src.requests && r == WideEnd(src.reply, locator, locatorAt, src.size)
  {
    var advertised := SafeU64(locator, 8);
    if advertised.None? { return None; }
    var candidates :=
      if advertised.value == locatorAt - 56 then [advertised.value] else [advertised.value, locatorAt - 56];
    var found: Option<(int, Bytes)> := None;
    var i := 0;
    while i < |candidates|
      invariant 0 <= i <= |candidates| && src.Valid() && old(src.requests) <= src.requests
      invariant i == 0 ==> found == None
      invariant i >= 1 ==>
                  WideEndAt(src.reply, advertised.value, locatorAt, src.size).Some?
                  && (i == 1 ==>
                        found == match WideEndAt(src.reply, advertised.value, locatorAt, src.size).value
                                 case None => None case Some(record) => Some((advertised.value, record)))
      invariant i == 2 ==>
                  found == if WideEnd(src.reply, locator, locatorAt, src.size).Some?
                           then WideEnd(src.reply, locator, locatorAt, src.size) else None
    {
      var at := candidates[i];
      i := i + 1;
      if at < 0 || at > locatorAt - 56 { continue; }
      var record := src.Request(at, 56, src.size);
      if record.None? { return None; }
      if U32(record.value, 0) != ZIP64_END_SIGNATURE { continue; }
      var bodySize := SafeU64(record.value, 4);
      if bodySize.None? { return None; }
      if bodySize.value < 44 || bodySize.value != locatorAt - at - 12 { continue; }
      if found.Some? { return None; }
      found := Some((at, record.value));
    }
    return found;
  }

  method ScanWideLayout(src: Source, end: Bytes, physicalEnd: int) returns (r: Option<Layout>)
    requires src.Valid() && |end| == 22 && physicalEnd <= src.size
    modifies src, src.staged
    ensures src.Valid() && old(src.requests) <= src.requests && r == WideLayout(src.reply, end, physicalEnd, src.size)
  {
    hide WideEnd;
    hide WideRecordLayout;
    var locator := src.Request(physicalEnd - 20, 20, src.size);
    if locator.None? { return None; }
    if U32(locator.value, 0) != ZIP64_LOCATOR_SIGNATURE || U32(locator.value, 4) != 0 || U32(locator.value, 16) != 1 {
      return None;
    }
    var wideEnd := ScanWideEnd(src, locator.value, physicalEnd - 20);
    if wideEnd.None? { return None; }
    var (directoryEnd, record) := wideEnd.value;
    return WideRecordLayout(end, locator.value, directoryEnd, record);
  }

  method ScanEndLayout(src: Source, end: Bytes, physicalEnd: int) returns (r: Option<Layout>)
    requires src.Valid() && |end| == 22 && physicalEnd <= src.size
    modifies src, src.staged
    ensures src.Valid() && old(src.requests) <= src.requests && r == EndLayout(src.reply, end, physicalEnd, src.size)
  {
    if U16(end, 4) != 0 || U16(end, 6) != 0 { return None; }
    var count, directorySize, offset := U16(end, 10), U32(end, 12), U32(end, 16);
    var l := Layout(count, physicalEnd - directorySize, physicalEnd, physicalEnd - directorySize - offset);
    if IsWide(end) {
      var wide := ScanWideLayout(src, end, physicalEnd);
      if wide.None? { return None; }
      l := wide.value;
    } else if U16(end, 8) != count {
      return None;
    }
    if l.base < 0 || l.start < 0 { return None; }
    return Some(l);
  }

  /** `layout`. */
  method ScanLayout(src: Source) returns (r: Option<Layout>)
    requires src.Valid()
    modifies src, src.staged
    ensures src.Valid() && old(src.requests) <= src.requests && r == LayoutOf(src.reply, src.size)
  {
    hide EndLayout;
    hide U16;
    hide U32;
    var tailStart := Max(0, src.size - MAX_TAIL);
    var tail := src.Request(tailStart, src.size - tailStart, src.size);
    if tail.None? { return None; }
    var found := EndOffset(tail.value);
    AnswersAgree(tail.value, found, StrictEnd(tail.value));
    if !found.Found? { return None; }
    var end := tail.value[found.offset..found.offset + END_BYTES];
    r := ScanEndLayout(src, end, tailStart + found.offset);
  }

  /** descriptorEnd, with its list of matches. */
  method ScanDescriptor(src: Source, at: int, bound: int, crc: nat, compressed: nat, uncompressed: nat, wide: bool)
    returns (r: Option<int>)
    requires src.Valid() && bound <= src.size
    modifies src, src.staged
    ensures src.Valid() && old(src.requests) <= src.requests
              && r == DescriptorEnd(src.reply, at, bound, crc, compressed, uncompressed, wide)
  {
    var length := if wide then 20 else 12;
    var bytes := src.Request(at, Min(length + 4, bound - at), bound);
    if bytes.None? { return None; }
    var bare := DescriptorMatches(bytes.value, 0, wide, crc, compressed, uncompressed);
    if bare.None? { return None; }
    var signed := DescriptorMatches(bytes.value, 4, wide, crc, compressed, uncompressed);
    if signed.None? { return None; }
    var matches := (if bare.value then [at + length] else []) + (if signed.value then [at + length + 4] else []);
    if |matches| != 1 { return None; }
    return Some(matches[0]);
  }

  method ScanNames(src: Source, at: int, nameLength: nat, extraLength: nat, bound: int)
    returns (r: Option<(Bytes, map<nat, Bytes>)>)
    requires src.Valid() && bound <= src.size
    modifies src, src.staged
    ensures src.Valid() && old(src.requests) <= src.requests
              && r == NamesAt(src.reply, at, nameLength, extraLength, bound)
  {
    var names := src.Request(at, nameLength + extraLength, bound);
    if names.None? { return None; }
    var extra := ExtraFields(names.value[nameLength..]);
    if extra.None? { return None; }
    return Some((names.value[..nameLength], extra.value));
  }

  method ScanCentral(src: Source, l: Layout, at: int, header: Bytes) returns (r: Option<Central>)
    requires src.Valid() && l.end <= src.size
    modifies src, src.staged
    ensures src.Valid() && old(src.requests) <= src.requests && r == CentralAt(src.reply, l, at, header)
  {
    hide U16;
    hide U32;
    hide Decode;
    hide SupportedFlags;
    if |header| < 46 || U32(header, 0) != CENTRAL_SIGNATURE { return None; }
    var nameLength, extraLength := U16(header, 28), U16(header, 30);
    var next := at + 46 + nameLength + extraLength + U16(header, 32);
    if next > l.end { return None; }
    var names := ScanNames(src, at + 46, nameLength, extraLength, l.end);
    if names.None? { return None; }
    var (name, extra) := names.value;
    var values, wide := WideValues(header, extra, true);
    if values.None? || !SupportedFlags(U16(header, 8)) { return None; }
    return Some(Central(header, name, extra, values.value, next));
  }

  method ScanLocal(src: Source, l: Layout, c: Central) returns (r: Option<Local>)
    requires src.Valid() && l.start <= src.size && |c.header| >= 46
    modifies src, src.staged
    ensures src.Valid() && old(src.requests) <= src.requests && r == LocalAt(src.reply, l, c)
  {
    var at := l.base + c.values.offset;
    if at < l.base { return None; }
    var header := src.Request(at, 30, l.start);
    if header.None? { return None; }
    if U32(header.value, 0) != LOCAL_SIGNATURE || U16(header.value, 6) != U16(c.header, 8)
       || U16(header.value, 8) != U16(c.header, 10) {
      return None;
    }
    var nameLength, extraLength := U16(header.value, 26), U16(header.value, 28);
    var names := ScanNames(src, at + 30, nameLength, extraLength, l.start);
    if names.None? { return None; }
    var (name, extra) := names.value;
    return Some(Local(header.value, name, extra, at, at + 30 + nameLength + extraLength));
  }

  method ScanEntry(src: Source, l: Layout, names: Names, earlier: seq<Entry>, at: int, c: Central, local: Local)
    returns (r: Option<Entry>)
    requires src.Valid() && l.start <= src.size && |c.header| >= 46 && |local.header| >= 30
    modifies src, src.staged
    ensures src.Valid() && old(src.requests) <= src.requests && r == EntryOf(src.reply, l, names, earlier, at, c, local)
  {
    hide U16;
    hide U32;
    hide Decode;
    hide FramingAgrees;
    hide DescriptorEnd;
    hide Bit;
    var flags, crc, v := U16(c.header, 8), U32(c.header, 16), c.values;
    var name := NameQuery(c.name, local.name, flags, c.extra, local.extra);
    if !names(name, earlier) { return None; }
    var w, wideLocal := WideValues(local.header, local.extra, false);
    if w.None? || !FramingAgrees(flags, crc, U32(local.header, 14), v, w.value) { return None; }
    if v.compressed > l.start - local.dataStart { return None; }
    var dataEnd := local.dataStart + v.compressed;
    if HasDescriptor(flags) {
      var wide := WideSizes(c.header, true) || wideLocal;
      var end := ScanDescriptor(src, dataEnd, l.start, crc, v.compressed, v.uncompressed, wide);
      if end.None? { return None; }
      dataEnd := end.value;
    }
    return Some(Entry(|earlier|, at, c.next, local.at, local.dataStart, dataEnd,
                      v.compressed, v.uncompressed, U16(c.header, 10), crc, name));
  }

  method ScanItem(src: Source, l: Layout, names: Names, earlier: seq<Entry>, at: int) returns (r: Option<Item>)
    requires src.Valid() && SoundLayout(l, src.size)
    modifies src, src.staged
    ensures src.Valid() && old(src.requests) <= src.requests && r == ItemAt(src.reply, l, names, earlier, at)
  {
    var header := src.Request(at, Min(46, l.end - at), l.end);
    if header.None? { return None; }
    if |header.value| >= 6 && U32(header.value, 0) == DIRECTORY_SIGNATURE {
      return if U16(header.value, 4) != l.end - at - 6 then None else Some(Signature);
    }
    var c := ScanCentral(src, l, at, header.value);
    if c.None? { return None; }
    var local := ScanLocal(src, l, c.value);
    if local.None? { return None; }
    var entry := ScanEntry(src, l, names, earlier, at, c.value, local.value);
    return if entry.None? then None else Some(Record(entry.value));
  }

  /** The loop over the records. */
  method ScanItems(src: Source, l: Layout, names: Names, maxEntries: nat) returns (r: Option<Scan>, emitted: seq<Entry>)
    requires src.Valid() && SoundLayout(l, src.size)
    modifies src, src.staged
    ensures src.Valid() && old(src.requests) <= src.requests
    ensures r == ItemsFrom(src.reply, l, names, maxEntries, [], l.start)
    ensures emitted == EmittedFrom(src.reply, l, names, maxEntries, [], l.start)
    ensures r.Some? ==> r.value.entries == emitted
  {
    emitted := [];
    var at := l.start;
    while at < l.end
      invariant src.Valid() && l.start <= at <= l.end && old(src.requests) <= src.requests
      invariant ItemsFrom(src.reply, l, names, maxEntries, emitted, at)
             == ItemsFrom(src.reply, l, names, maxEntries, [], l.start)
      invariant EmittedFrom(src.reply, l, names, maxEntries, emitted, at)
             == EmittedFrom(src.reply, l, names, maxEntries, [], l.start)
      decreases l.end - at
    {
      ItemShape(src.reply, l, names, emitted, at);
      var item := ScanItem(src, l, names, emitted, at);
      if item.None? { return None, emitted; }
      if item.value.Signature? { break; }
      if |emitted| + 1 > maxEntries { return None, emitted; }
      emitted := emitted + [item.value.entry];
      at := item.value.entry.next;
    }
    return Some(Scan(l, emitted, at)), emitted;
  }

  /** The final loop over the sorted spans. */
  method CheckOverlap(spans: seq<Entry>) returns (apart: bool)
    ensures apart == NeighboursApart(spans)
  {
    var i := 1;
    while i < |spans|
      invariant 1 <= i
      invariant forall j :: 0 < j < i && j < |spans| ==> spans[j - 1].dataEnd <= spans[j].localAt
    {
      if spans[i].localAt < spans[i - 1].dataEnd { return false; }
      i := i + 1;
    }
    return true;
  }

  /** scanZipDirectory.  Every request it makes lies inside the archive, for any replies, and it
      always ends; `emitted` is what onEntry received, also before a refusal. */
  method ScanZipDirectory(src: Source, names: Names, maxEntries: nat) returns (r: Option<Scan>, emitted: seq<Entry>)
    requires src.Valid()
    modifies src, src.staged
    ensures src.Valid() && old(src.requests) <= src.requests
    ensures forall q :: q in src.requests ==> 0 <= q.0 && 0 <= q.1 && q.0 + q.1 <= src.size
    ensures r == ScanOf(src.reply, src.size, names, maxEntries)
    ensures emitted == EmittedOf(src.reply, src.size, names, maxEntries)
    ensures r.Some? ==> emitted == r.value.entries && TrueLayout(src.reply, src.size, names, maxEntries, r.value)
  {
    emitted := [];
    var directory := ScanLayout(src);
    if directory.None? || directory.value.count > maxEntries { return None, []; }
    var l := directory.value;
    LayoutIsSound(src.reply, src.size);
    r, emitted := ScanItems(src, l, names, maxEntries);
    if r.None? || |emitted| != l.count { return None, emitted; }
    var apart := CheckOverlap(SortByStart(emitted));
    if !apart { return None, emitted; }
    AcceptedIsTrueLayout(src.reply, src.size, names, maxEntries);
  }

  // ---------------------------------------------------------------- admission

  predicate SizeAdmitted(size: nat, maxArchiveBytes: nat) {
    size <= maxArchiveBytes && size <= MAX_SAFE_INTEGER
  }

  ghost function Admission(file: Bytes, names: Names, maxEntries: nat, maxArchiveBytes: nat)
    : (Option<Scan>, seq<Entry>)
  {
    if SizeAdmitted(|file|, maxArchiveBytes)
    then (ScanOf(Slices(file), |file|, names, maxEntries), EmittedOf(Slices(file), |file|, names, maxEntries))
    else (None, [])
  }

  /** admitZipBuffer: requests are plain slices. */
  method AdmitBuffer(file: Bytes, names: Names, maxEntries: nat, maxArchiveBytes: nat)
    returns (r: Option<Scan>, emitted: seq<Entry>)
    ensures (r, emitted) == Admission(file, names, maxEntries, maxArchiveBytes)
    ensures r.Some? ==> |file| <= maxArchiveBytes && |file| < 0x20_0000_0000_0000 && |emitted| <= maxEntries
  {
    if !SizeAdmitted(|file|, maxArchiveBytes) { return None, []; }
    var src := new Source.Replying(|file|, Slices(file));
    r, emitted := ScanZipDirectory(src, names, maxEntries);
  }

  /** admitZipFile: requests go through the window cache, whose file reads may be short; it
      accepts, refuses and emits, up to any refusal, exactly what admitZipBuffer does. */
  method AdmitFile(file: Bytes, names: Names, maxEntries: nat, maxArchiveBytes: nat)
    returns (r: Option<Scan>, emitted: seq<Entry>)
    ensures (r, emitted) == Admission(file, names, maxEntries, maxArchiveBytes)
    ensures r.Some? ==> |file| <= maxArchiveBytes && |file| < 0x20_0000_0000_0000 && |emitted| <= maxEntries
  {
    if !SizeAdmitted(|file|, maxArchiveBytes) { return None, []; }
    var src := new Source.Staged(file);
    r, emitted := ScanZipDirectory(src, names, maxEntries);
  }
}
