/** An archive with something prepended, for which the public entry count is too small. */
module ZipPrefix {
  import opened Basics
  import opened ZipBytes
  import opened ZipEnd
  import opened ZipExtra
  import opened ZipDirectory
  import opened ZipAdmission
  import opened ZipCount

  const PREFIX := 300
  const PLANTED := 78
  const LOCAL := 300
  const CENTRAL := 331
  const WIDE_END := 378
  const LOCATOR := 434
  const END := 454

  /** 300 foreign bytes that hold a ZIP64 end record at offset 78; then one stored, empty file "a",
      its central record, the true ZIP64 end record, a locator that says 78, and an end record with
      one entry and the offset sentinel. */
  function ByteAt(i: int): Byte {
    if i == PLANTED || i == LOCAL || i == CENTRAL || i == WIDE_END || i == LOCATOR || i == END then 0x50
    else if i == PLANTED + 1 || i == LOCAL + 1 || i == CENTRAL + 1 || i == WIDE_END + 1 || i == LOCATOR + 1
      || i == END + 1 then 0x4b
    else if i == PLANTED + 2 || i == PLANTED + 3 || i == WIDE_END + 2 || i == WIDE_END + 3 then 0x06
    else if i == PLANTED + 4 || i == WIDE_END + 4 then 44
    else if i == LOCAL + 2 then 0x03
    else if i == LOCAL + 3 then 0x04
    else if i == LOCAL + 26 || i == CENTRAL + 28 then 1
    else if i == LOCAL + 30 || i == CENTRAL + 46 then 97
    else if i == CENTRAL + 2 then 0x01
    else if i == CENTRAL + 3 then 0x02
    else if i == WIDE_END + 24 || i == WIDE_END + 32 then 1
    else if i == WIDE_END + 40 then 47
    else if i == WIDE_END + 48 then 31
    else if i == LOCATOR + 2 then 0x06
    else if i == LOCATOR + 3 then 0x07
    else if i == LOCATOR + 8 then 78
    else if i == LOCATOR + 16 then 1
    else if i == END + 2 then 0x05
    else if i == END + 3 then 0x06
    else if i == END + 8 || i == END + 10 then 1
    else if i == END + 12 then 47
    else if END + 16 <= i <= END + 19 then 0xff
    else 0
  }

  function Archive(): (b: Bytes)
    ensures |b| == 476
  {
    seq(476, i => ByteAt(i))
  }

  lemma TheEnd(b: Bytes)
    requires b == Archive()
    ensures EndAt(b, END) && forall at :: EndAt(b, at) ==> at == END
  {
    forall at | EndAt(b, at) ensures at == END {
      SignatureIsItsBytes(b, at);
    }
  }

  lemma EndFields(b: Bytes)
    requires b == Archive()
    ensures U16(b, END + 4) == 0 && U16(b, END + 6) == 0 && U16(b, END + 8) == 1 && U16(b, END + 10) == 1
    ensures U32(b, END + 12) == 47 && U32(b, END + 16) == SENTINEL32
    ensures U32(b, LOCATOR) == ZIP64_LOCATOR_SIGNATURE && U32(b, LOCATOR + 4) == 0 && U32(b, LOCATOR + 16) == 1
    ensures SafeU64(b, LOCATOR + 8) == Some(78)
  {
  }

  /** A small 64-bit field. */
  lemma SmallField(b: Bytes, at: nat)
    requires b == Archive() && at + 8 <= |b| && forall k :: at < k < at + 8 ==> ByteAt(k) == 0
    ensures SafeU64(b, at) == Some(ByteAt(at))
  {
    assert forall k :: at <= k < at + 8 ==> b[k] == ByteAt(k);
  }

  lemma WideFields(b: Bytes)
    requires b == Archive()
    ensures U32(b, WIDE_END) == ZIP64_END_SIGNATURE && SafeU64(b, WIDE_END + 4) == Some(44)
    ensures U32(b, WIDE_END + 16) == 0 && U32(b, WIDE_END + 20) == 0
    ensures SafeU64(b, WIDE_END + 24) == Some(1) && SafeU64(b, WIDE_END + 32) == Some(1)
    ensures SafeU64(b, WIDE_END + 40) == Some(47) && SafeU64(b, WIDE_END + 48) == Some(31)
  {
    hide SafeU64;
    SmallField(b, WIDE_END + 4);
    SmallField(b, WIDE_END + 24);
    SmallField(b, WIDE_END + 32);
    SmallField(b, WIDE_END + 40);
    SmallField(b, WIDE_END + 48);
  }

  lemma PlantedFields(b: Bytes)
    requires b == Archive()
    ensures U32(b, PLANTED) == ZIP64_END_SIGNATURE && SafeU64(b, PLANTED + 4) == Some(44)
    ensures SafeU64(b, PLANTED + 32) == Some(0) && SafeU64(b, PLANTED + 40) == Some(0)
              && SafeU64(b, PLANTED + 48) == Some(0)
  {
    hide SafeU64;
    SmallField(b, PLANTED + 4);
    SmallField(b, PLANTED + 32);
    SmallField(b, PLANTED + 40);
    SmallField(b, PLANTED + 48);
  }

  // ---------------------------------------------------------------- the strict scan accepts it

  const LAYOUT := Layout(1, CENTRAL, WIDE_END, PREFIX)

  lemma Answered(b: Bytes, at: nat, length: nat, bound: nat)
    requires at + length <= bound <= |b|
    ensures Read(Slices(b), at, length, bound) == Some(b[at..at + length])
  {
  }

  lemma TheWideEnd(b: Bytes, locator: Bytes)
    requires b == Archive() && locator == b[LOCATOR..LOCATOR + 20]
    ensures WideEnd(Slices(b), locator, LOCATOR, |b|) == Some((WIDE_END, b[WIDE_END..WIDE_END + 56]))
  {
    hide U32;
    hide SafeU64;
    EndFields(b);
    WideFields(b);
    PlantedFields(b);
    SliceReads(b, LOCATOR, LOCATOR + 20, 8);
    Answered(b, PLANTED, 56, |b|);
    Answered(b, WIDE_END, 56, |b|);
    SliceReads(b, PLANTED, PLANTED + 56, 0);
    SliceReads(b, PLANTED, PLANTED + 56, 4);
    SliceReads(b, WIDE_END, WIDE_END + 56, 0);
    SliceReads(b, WIDE_END, WIDE_END + 56, 4);
    assert WideEndAt(Slices(b), PLANTED, LOCATOR, |b|) == Some(None);
  }

  lemma TheWideLayout(b: Bytes, end: Bytes)
    requires b == Archive() && end == b[END..END + END_BYTES]
    ensures WideLayout(Slices(b), end, END, |b|) == Some(LAYOUT)
  {
    hide U16;
    hide U32;
    hide SafeU64;
    hide WideEnd;
    var locator, record := b[LOCATOR..LOCATOR + 20], b[WIDE_END..WIDE_END + 56];
    EndFields(b);
    WideFields(b);
    Answered(b, LOCATOR, 20, |b|);
    TheWideEnd(b, locator);
    SliceReads(b, LOCATOR, LOCATOR + 20, 0);
    SliceReads(b, LOCATOR, LOCATOR + 20, 4);
    SliceReads(b, LOCATOR, LOCATOR + 20, 8);
    SliceReads(b, LOCATOR, LOCATOR + 20, 16);
    SliceReads(b, END, END + END_BYTES, 8);
    SliceReads(b, END, END + END_BYTES, 10);
    SliceReads(b, END, END + END_BYTES, 12);
    SliceReads(b, END, END + END_BYTES, 16);
    SliceReads(b, WIDE_END, WIDE_END + 56, 16);
    SliceReads(b, WIDE_END, WIDE_END + 56, 20);
    SliceReads(b, WIDE_END, WIDE_END + 56, 24);
    SliceReads(b, WIDE_END, WIDE_END + 56, 32);
    SliceReads(b, WIDE_END, WIDE_END + 56, 40);
    SliceReads(b, WIDE_END, WIDE_END + 56, 48);
  }

  lemma TheLayout(b: Bytes)
    requires b == Archive()
    ensures LayoutOf(Slices(b), |b|) == Some(LAYOUT)
  {
    hide U16;
    hide U32;
    hide WideLayout;
    EndFields(b);
    TheEnd(b);
    Answered(b, 0, |b|, |b|);
    assert b[0..|b|] == b;
    var end := b[END..END + END_BYTES];
    SliceReads(b, END, END + END_BYTES, 4);
    SliceReads(b, END, END + END_BYTES, 6);
    SliceReads(b, END, END + END_BYTES, 16);
    TheWideLayout(b, end);
    assert StrictEnd(b) == Found(END);
  }

  lemma HeaderFields(b: Bytes)
    requires b == Archive()
    ensures U32(b, CENTRAL) == CENTRAL_SIGNATURE && U16(b, CENTRAL + 8) == 0 && U16(b, CENTRAL + 10) == 0
    ensures U32(b, CENTRAL + 16) == 0 && U32(b, CENTRAL + 20) == 0 && U32(b, CENTRAL + 24) == 0
    ensures U16(b, CENTRAL + 28) == 1 && U16(b, CENTRAL + 30) == 0 && U16(b, CENTRAL + 32) == 0
    ensures U16(b, CENTRAL + 34) == 0 && U32(b, CENTRAL + 42) == 0
  {
  }

  lemma LocalFields(b: Bytes)
    requires b == Archive()
    ensures U32(b, LOCAL) == LOCAL_SIGNATURE && U16(b, LOCAL + 6) == 0 && U16(b, LOCAL + 8) == 0
    ensures U32(b, LOCAL + 14) == 0 && U32(b, LOCAL + 18) == 0 && U32(b, LOCAL + 22) == 0
    ensures U16(b, LOCAL + 26) == 1 && U16(b, LOCAL + 28) == 0
  {
  }

  const NO_EXTRA: map<nat, Bytes> := map[]
  const NOTHING := Values(0, 0, 0, 0)

  function NameBytes(): Bytes { [97] }

  lemma OneName(b: Bytes, at: nat, bound: nat)
    requires b == Archive() && (at == LOCAL + 30 || at == CENTRAL + 46) && at + 1 <= bound <= |b|
    ensures NamesAt(Slices(b), at, 1, 0, bound) == Some((NameBytes(), NO_EXTRA))
  {
    Answered(b, at, 1, bound);
    var name := b[at..at + 1];
    assert name == NameBytes() && name[..1] == name && name[1..] == [];
    assert Parse([]) == Some([]);
  }

  function TheName(): NameQuery { NameQuery(NameBytes(), NameBytes(), 0, NO_EXTRA, NO_EXTRA) }

  function TheEntry(): Entry {
    Entry(0, CENTRAL, WIDE_END, LOCAL, CENTRAL, CENTRAL, 0, 0, 0, 0, TheName())
  }

  lemma CentralValues(b: Bytes, header: Bytes)
    requires b == Archive() && header == b[CENTRAL..CENTRAL + 46]
    ensures Decode(Slots(header, true), ZipField(NO_EXTRA), true) == Some(NOTHING)
  {
    hide U16;
    hide U32;
    HeaderFields(b);
    SliceReads(b, CENTRAL, CENTRAL + 46, 20);
    SliceReads(b, CENTRAL, CENTRAL + 46, 24);
    SliceReads(b, CENTRAL, CENTRAL + 46, 34);
    SliceReads(b, CENTRAL, CENTRAL + 46, 42);
    assert Slots(header, true) == NOTHING;
  }

  lemma NoFlags()
    ensures SupportedFlags(0) && !HasDescriptor(0)
  {
  }

  lemma TheCentral(b: Bytes, header: Bytes)
    requires b == Archive() && header == b[CENTRAL..CENTRAL + 46]
    ensures CentralAt(Slices(b), LAYOUT, CENTRAL, header)
              == Some(Central(header, NameBytes(), NO_EXTRA, NOTHING, WIDE_END))
  {
    hide U16;
    hide U32;
    hide NamesAt;
    hide Decode;
    hide Slots;
    hide Slices;
    hide Archive;
    hide SupportedFlags;
    NoFlags();
    HeaderFields(b);
    OneName(b, CENTRAL + 46, WIDE_END);
    CentralValues(b, header);
    SliceReads(b, CENTRAL, CENTRAL + 46, 0);
    SliceReads(b, CENTRAL, CENTRAL + 46, 8);
    SliceReads(b, CENTRAL, CENTRAL + 46, 28);
    SliceReads(b, CENTRAL, CENTRAL + 46, 30);
    SliceReads(b, CENTRAL, CENTRAL + 46, 32);
  }

  lemma TheLocal(b: Bytes, header: Bytes)
    requires b == Archive() && header == b[CENTRAL..CENTRAL + 46]
    ensures LocalAt(Slices(b), LAYOUT, Central(header, NameBytes(), NO_EXTRA, NOTHING, WIDE_END))
         == Some(Local(b[LOCAL..LOCAL + 30], NameBytes(), NO_EXTRA, LOCAL, CENTRAL))
  {
    hide U16;
    hide U32;
    hide NamesAt;
    HeaderFields(b);
    LocalFields(b);
    Answered(b, LOCAL, 30, CENTRAL);
    OneName(b, LOCAL + 30, CENTRAL);
    SliceReads(b, CENTRAL, CENTRAL + 46, 8);
    SliceReads(b, CENTRAL, CENTRAL + 46, 10);
    SliceReads(b, LOCAL, LOCAL + 30, 0);
    SliceReads(b, LOCAL, LOCAL + 30, 6);
    SliceReads(b, LOCAL, LOCAL + 30, 8);
    SliceReads(b, LOCAL, LOCAL + 30, 26);
    SliceReads(b, LOCAL, LOCAL + 30, 28);
  }

  lemma LocalValues(b: Bytes, header: Bytes)
    requires b == Archive() && header == b[LOCAL..LOCAL + 30]
    ensures Decode(Slots(header, false), ZipField(NO_EXTRA), false) == Some(NOTHING)
  {
    hide U16;
    hide U32;
    LocalFields(b);
    SliceReads(b, LOCAL, LOCAL + 30, 18);
    SliceReads(b, LOCAL, LOCAL + 30, 22);
    assert Slots(header, false) == NOTHING;
  }

  lemma PlainEntry(reply: Replies, names: Names, header: Bytes, local: Bytes)
    requires |header| == 46 && |local| == 30 && names(TheName(), [])
    requires U16(header, 8) == 0 && U16(header, 10) == 0 && U32(header, 16) == 0 && U32(local, 14) == 0
    requires Decode(Slots(local, false), ZipField(NO_EXTRA), false) == Some(NOTHING)
    ensures EntryOf(reply, LAYOUT, names, [], CENTRAL, Central(header, NameBytes(), NO_EXTRA, NOTHING, WIDE_END),
                    Local(local, NameBytes(), NO_EXTRA, LOCAL, CENTRAL)) == Some(TheEntry())
  {
    hide U16;
    hide U32;
    hide Decode;
    hide Slots;
  }

  lemma EntryIsThere(b: Bytes, header: Bytes, names: Names)
    requires b == Archive() && header == b[CENTRAL..CENTRAL + 46] && names(TheName(), [])
    ensures EntryOf(Slices(b), LAYOUT, names, [], CENTRAL, Central(header, NameBytes(), NO_EXTRA, NOTHING, WIDE_END),
                    Local(b[LOCAL..LOCAL + 30], NameBytes(), NO_EXTRA, LOCAL, CENTRAL)) == Some(TheEntry())
  {
    hide U16;
    hide U32;
    hide EntryOf;
    var local := b[LOCAL..LOCAL + 30];
    HeaderFields(b);
    LocalFields(b);
    LocalValues(b, local);
    SliceReads(b, CENTRAL, CENTRAL + 46, 8);
    SliceReads(b, CENTRAL, CENTRAL + 46, 10);
    SliceReads(b, CENTRAL, CENTRAL + 46, 16);
    SliceReads(b, LOCAL, LOCAL + 30, 14);
    PlainEntry(Slices(b), names, header, local);
  }

  lemma TheItem(b: Bytes, names: Names)
    requires b == Archive() && names(TheName(), [])
    ensures ItemAt(Slices(b), LAYOUT, names, [], CENTRAL) == Some(Record(TheEntry()))
  {
    hide U16;
    hide U32;
    hide CentralAt;
    hide LocalAt;
    hide EntryOf;
    var header := b[CENTRAL..CENTRAL + 46];
    Answered(b, CENTRAL, 46, WIDE_END);
    HeaderFields(b);
    SliceReads(b, CENTRAL, CENTRAL + 46, 0);
    TheCentral(b, header);
    TheLocal(b, header);
    EntryIsThere(b, header, names);
  }

  /** The failing input: the strict scan accepts it with one entry, the hint says none, and the
      ordinary end record says one. */
  lemma HintIsTooSmall(names: Names)
    requires names(TheName(), [])
    ensures var b := Archive();
      && ScanOf(Slices(b), |b|, names, 1) == Some(Scan(LAYOUT, [TheEntry()], WIDE_END))
      && Latest(b, END) && Hint(b, END) == Some(0) && U16(b, END + 10) == 1
  {
    hide LayoutOf;
    hide ItemAt;
    hide U16;
    hide U32;
    hide Hint;
    var b := Archive();
    TheLayout(b);
    TheItem(b, names);
    TheEnd(b);
    EndFields(b);
    TheHint(b);
    var es := [TheEntry()];
    assert [] + es == es && es[1..] == [];
    assert SortByStart(es) == es;
    assert ItemsFrom(Slices(b), LAYOUT, names, 1, es, WIDE_END) == Some(Scan(LAYOUT, es, WIDE_END));
  }

  lemma TheHint(b: Bytes)
    requires b == Archive()
    ensures EndAt(b, END) && Hint(b, END) == Some(0)
  {
    TheEnd(b);
    hide U16;
    hide U32;
    hide SafeU64;
    hide EndAt;
    NoHeaderFirst(b);
    TheInfo(b);
    hide InfoAt;
  }

  lemma TheInfo(b: Bytes)
    requires b == Archive()
    ensures InfoAt(b, END) == Info(0, 0, 0, END)
  {
    hide U16;
    hide U32;
    hide SafeU64;
    EndFields(b);
    PlantedFields(b);
  }

  lemma NoHeaderFirst(b: Bytes)
    requires b == Archive()
    ensures U32(b, 0) == 0
  {
  }

  /** The same by running both: buffer admission accepts one entry, and the hint says none. */
  method AdmittedButNotCounted(names: Names) returns (admitted: Option<Scan>, emitted: seq<Entry>, hint: Option<nat>)
    requires names(TheName(), [])
    ensures admitted == Some(Scan(LAYOUT, [TheEntry()], WIDE_END)) && hint == Some(0)
  {
    HintIsTooSmall(names);
    TheEnd(Archive());
    admitted, emitted := AdmitBuffer(Archive(), names, 1, 1024);
    var end;
    hint, end := ReadEntryCount(Archive());
    assert end == END;
  }
}
