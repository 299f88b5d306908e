/** Writing an archive, record by record from the tables of the PKWARE APPNOTE, and the bytes that
    stand at each place of it. */
module ZipWriter {
  import opened Basics
  import opened ZipBytes
  import opened ZipEnd
  import opened ZipExtra
  import opened ZipDirectory

  // ---------------------------------------------------------------- the records

  /** What follows an entry's data (4.3.9), with or without its signature; the local header then may
      defer the checksum and the sizes to it. */
  datatype Descriptor = NoDescriptor | Descriptor(signed: bool, deferred: bool)

  /** An entry to be written: its data as stored, and everything its two headers say. */
  datatype Member = Member(
    name: Bytes, coding: nat, crc: nat, data: Bytes, size: nat,
    option1: bool, option2: bool, utf8: bool,            // flag bits 1, 2 and 11
    descriptor: Descriptor,
    wideLocal: bool, wideCentral: bool, wideOffset: bool, // which values go to ZIP64 fields
    localFields: seq<Field>, centralFields: seq<Field>,   // further extra fields
    madeBy: nat, needed: nat, stamp: nat, internal: nat, external: nat, comment: Bytes)

  function Flags(m: Member): nat {
    (if m.option1 then 2 else 0) + (if m.option2 then 4 else 0) + (if m.descriptor.NoDescriptor? then 0 else 8)
    + if m.utf8 then 2048 else 0
  }

  predicate Deferred(m: Member) { m.descriptor.Descriptor? && m.descriptor.deferred }

  function OrZero(m: Member, n: nat): nat { if Deferred(m) then 0 else n }

  /** The extra area: a ZIP64 field (4.5.3) if it has content, and the others. */
  function Area(payload: Bytes, fields: seq<Field>): seq<Field> {
    if payload == [] then fields else [Field(1, payload)] + fields
  }

  function LocalPayload(m: Member): Bytes {
    if m.wideLocal then LE(OrZero(m, m.size), 8) + LE(OrZero(m, |m.data|), 8) else []
  }

  function LocalExtra(m: Member): Bytes { Encode(Area(LocalPayload(m), m.localFields)) }

  function CentralPayload(m: Member, offset: nat): Bytes {
    (if m.wideCentral then LE(m.size, 8) + LE(|m.data|, 8) else []) + if m.wideOffset then LE(offset, 8) else []
  }

  function CentralExtra(m: Member, offset: nat): Bytes { Encode(Area(CentralPayload(m, offset), m.centralFields)) }

  function Slot(wide: bool, n: nat): nat { if wide then 0xffff_ffff else n }

  /** 4.3.7 */
  function LocalHeader(m: Member): Bytes {
    LE(0x04034b50, 4) + (LE(m.needed, 2) + (LE(Flags(m), 2) + (LE(m.coding, 2) + (LE(m.stamp, 4)
    + (LE(OrZero(m, m.crc), 4) + (LE(Slot(m.wideLocal, OrZero(m, |m.data|)), 4)
    + (LE(Slot(m.wideLocal, OrZero(m, m.size)), 4) + (LE(|m.name|, 2) + (LE(|LocalExtra(m)|, 2)
    + [])))))))))
  }

  /** 4.3.12 */
  function CentralHeader(m: Member, offset: nat): Bytes {
    LE(0x02014b50, 4) + (LE(m.madeBy, 2) + (LE(m.needed, 2) + (LE(Flags(m), 2) + (LE(m.coding, 2) + (LE(m.stamp, 4)
    + (LE(m.crc, 4) + (LE(Slot(m.wideCentral, |m.data|), 4) + (LE(Slot(m.wideCentral, m.size), 4)
    + (LE(|m.name|, 2) + (LE(|CentralExtra(m, offset)|, 2) + (LE(|m.comment|, 2) + (LE(0, 2)
    + (LE(m.internal, 2) + (LE(m.external, 4) + (LE(Slot(m.wideOffset, offset), 4)
    + [])))))))))))))))
  }

  function DescriptorBytes(m: Member): Bytes {
    if m.descriptor.NoDescriptor? then []
    else
      var width := if m.wideLocal || m.wideCentral then 8 else 4;
      (if m.descriptor.signed then LE(0x08074b50, 4) else [])
      + (LE(m.crc, 4) + (LE(|m.data|, width) + (LE(m.size, width) + [])))
  }

  function LocalPart(m: Member): Bytes {
    LocalHeader(m) + ((m.name + LocalExtra(m)) + (m.data + DescriptorBytes(m)))
  }

  function CentralPart(m: Member, offset: nat): Bytes {
    CentralHeader(m, offset) + ((m.name + CentralExtra(m, offset)) + m.comment)
  }

  /** What fits its fields, and needs no more than the format has: an entry whose checksum is the
      descriptor's signature would make its descriptor ambiguous. */
  ghost predicate Writable(m: Member, offset: nat) {
    && |m.name| < 0x1_0000 && |m.comment| < 0x1_0000
    && |LocalExtra(m)| < 0x1_0000 && |CentralExtra(m, offset)| < 0x1_0000
    && m.coding < 0x1_0000 && m.crc < 0x1_0000_0000
    && |m.data| <= MAX_SAFE_INTEGER && m.size <= MAX_SAFE_INTEGER && offset <= MAX_SAFE_INTEGER
    && (!m.wideCentral || (!m.wideLocal && !Deferred(m)) ==> |m.data| < 0xffff_ffff && m.size < 0xffff_ffff)
    && (!m.wideOffset ==> offset < 0xffff_ffff)
    && OtherFields(m.localFields) && OtherFields(m.centralFields)
    && (m.descriptor.Descriptor? ==> m.crc != 0x08074b50)
  }

  ghost predicate OtherFields(fields: seq<Field>) {
    (forall f :: f in fields ==> WellSized(f) && f.id != 1) && UniqueCritical(fields)
  }

  // ---------------------------------------------------------------- reading fields back

  /** A number at the front of some bytes, and what is behind it. */
  predicate Ahead(b: Bytes, at: nat, rest: Bytes) {
    at <= |b| && b[at..] == rest
  }

  lemma Peel(b: Bytes, at: nat, n: nat, width: nat, rest: Bytes)
    requires Ahead(b, at, LE(n, width) + rest) && (width == 2 || width == 4 || width == 8)
    ensures Ahead(b, at + width, rest)
    ensures width == 2 && n < 0x1_0000 ==> U16(b, at) == n
    ensures width == 4 && n < 0x1_0000_0000 ==> U32(b, at) == n
    ensures width == 8 && n <= MAX_SAFE_INTEGER ==> SafeU64(b, at) == Some(n)
  {
    var tail := b[at..];
    assert tail[..width] == LE(n, width) && tail[width..] == rest;
    assert b[at..at + width] == LE(n, width) && b[at + width..] == rest;
    if n < (if width == 2 then 0x1_0000 else if width == 4 then 0x1_0000_0000 else 0x1_0000_0000_0000_0000) {
      WrittenIsRead(b, at, n, width);
    }
  }

  lemma LocalHeaderFields(m: Member, offset: nat)
    requires Writable(m, offset)
    ensures var h := LocalHeader(m);
            && |h| == 30 && U32(h, 0) == 0x04034b50 && U16(h, 6) == Flags(m) && U16(h, 8) == m.coding
            && U32(h, 14) == OrZero(m, m.crc) && U32(h, 18) == Slot(m.wideLocal, OrZero(m, |m.data|))
            && U32(h, 22) == Slot(m.wideLocal, OrZero(m, m.size))
            && U16(h, 26) == |m.name| && U16(h, 28) == |LocalExtra(m)|
  {
    hide LE;
    hide U16;
    hide U32;
    hide LocalExtra;
    hide Encode;
    var h := LocalHeader(m);
    var e := LE(|LocalExtra(m)|, 2) + [];
    var n := LE(|m.name|, 2) + e;
    var u := LE(Slot(m.wideLocal, OrZero(m, m.size)), 4) + n;
    var c := LE(Slot(m.wideLocal, OrZero(m, |m.data|)), 4) + u;
    var k := LE(OrZero(m, m.crc), 4) + c;
    var t := LE(m.stamp, 4) + k;
    var o := LE(m.coding, 2) + t;
    var f := LE(Flags(m), 2) + o;
    var v := LE(m.needed, 2) + f;
    Peel(h, 0, 0x04034b50, 4, v);
    Peel(h, 4, m.needed, 2, f);
    Peel(h, 6, Flags(m), 2, o);
    Peel(h, 8, m.coding, 2, t);
    Peel(h, 10, m.stamp, 4, k);
    Peel(h, 14, OrZero(m, m.crc), 4, c);
    Peel(h, 18, Slot(m.wideLocal, OrZero(m, |m.data|)), 4, u);
    Peel(h, 22, Slot(m.wideLocal, OrZero(m, m.size)), 4, n);
    Peel(h, 26, |m.name|, 2, e);
    Peel(h, 28, |LocalExtra(m)|, 2, []);
  }

  lemma CentralHeaderFields(m: Member, offset: nat)
    requires Writable(m, offset)
    ensures var h := CentralHeader(m, offset);
            && |h| == 46 && U32(h, 0) == 0x02014b50 && U16(h, 8) == Flags(m) && U16(h, 10) == m.coding
            && U32(h, 16) == m.crc && U32(h, 20) == Slot(m.wideCentral, |m.data|)
            && U32(h, 24) == Slot(m.wideCentral, m.size)
            && U16(h, 28) == |m.name| && U16(h, 30) == |CentralExtra(m, offset)| && U16(h, 32) == |m.comment|
            && U16(h, 34) == 0 && U32(h, 42) == Slot(m.wideOffset, offset)
  {
    hide LE;
    hide U16;
    hide U32;
    hide CentralExtra;
    hide Encode;
    var h := CentralHeader(m, offset);
    var at := LE(Slot(m.wideOffset, offset), 4) + [];
    var x := LE(m.external, 4) + at;
    var i := LE(m.internal, 2) + x;
    var d := LE(0, 2) + i;
    var l := LE(|m.comment|, 2) + d;
    var e := LE(|CentralExtra(m, offset)|, 2) + l;
    var n := LE(|m.name|, 2) + e;
    var u := LE(Slot(m.wideCentral, m.size), 4) + n;
    var c := LE(Slot(m.wideCentral, |m.data|), 4) + u;
    var k := LE(m.crc, 4) + c;
    var t := LE(m.stamp, 4) + k;
    var o := LE(m.coding, 2) + t;
    var f := LE(Flags(m), 2) + o;
    var v := LE(m.needed, 2) + f;
    var w := LE(m.madeBy, 2) + v;
    Peel(h, 0, 0x02014b50, 4, w);
    Peel(h, 4, m.madeBy, 2, v);
    Peel(h, 6, m.needed, 2, f);
    Peel(h, 8, Flags(m), 2, o);
    Peel(h, 10, m.coding, 2, t);
    Peel(h, 12, m.stamp, 4, k);
    Peel(h, 16, m.crc, 4, c);
    Peel(h, 20, Slot(m.wideCentral, |m.data|), 4, u);
    Peel(h, 24, Slot(m.wideCentral, m.size), 4, n);
    Peel(h, 28, |m.name|, 2, e);
    Peel(h, 30, |CentralExtra(m, offset)|, 2, l);
    Peel(h, 32, |m.comment|, 2, d);
    Peel(h, 34, 0, 2, i);
    Peel(h, 36, m.internal, 2, x);
    Peel(h, 38, m.external, 4, at);
    Peel(h, 42, Slot(m.wideOffset, offset), 4, []);
  }

  // ---------------------------------------------------------------- reading extra areas back

  lemma AreaReads(payload: Bytes, fields: seq<Field>)
    requires OtherFields(fields) && |payload| < 0x1_0000
    ensures ExtraFieldsOf(Encode(Area(payload, fields))) == Some(CriticalFields(Area(payload, fields)))
    ensures ZipField(CriticalFields(Area(payload, fields))) == if payload == [] then None else Some(payload)
  {
    var all := Area(payload, fields);
    AreaIsUnique(payload, fields);
    assert forall f :: f in all ==> WellSized(f);
    hide *;
    ParseOfEncode(all);
    ParsedFields(all);
  }

  lemma ParsedFields(fs: seq<Field>)
    requires Parse(Encode(fs)) == Some(fs) && UniqueCritical(fs)
    ensures ExtraFieldsOf(Encode(fs)) == Some(CriticalFields(fs))
  {
    hide Parse;
    hide Encode;
  }

  lemma AreaIsUnique(payload: Bytes, fields: seq<Field>)
    requires OtherFields(fields)
    ensures UniqueCritical(Area(payload, fields))
    ensures ZipField(CriticalFields(Area(payload, fields))) == if payload == [] then None else Some(payload)
  {
    assert [] + fields == fields;
    assert [] + [Field(1, payload)] + fields == [Field(1, payload)] + fields;
    hide CriticalFields;
    hide UniqueCritical;
    AddingZip64([], fields, payload);
  }

  lemma LocalDecodes(m: Member, offset: nat)
    requires Writable(m, offset)
    ensures |LocalHeader(m)| == 30
    ensures Decode(Slots(LocalHeader(m), false), if LocalPayload(m) == [] then None else Some(LocalPayload(m)), false)
         == Some(Values(OrZero(m, |m.data|), OrZero(m, m.size), 0, 0))
  {
    hide LE;
    hide LocalHeader;
    LocalHeaderFields(m, offset);
    var slots, v := Slots(LocalHeader(m), false), Values(OrZero(m, |m.data|), OrZero(m, m.size), 0, 0);
    var none: Bytes := [];
    assert Payload(slots, v) == LocalPayload(m) + none + none;
    assert LocalPayload(m) + none + none == LocalPayload(m);
    CarriedIsDecoded(slots, if LocalPayload(m) == [] then None else Some(LocalPayload(m)), false, v);
  }

  lemma CentralDecodes(m: Member, offset: nat)
    requires Writable(m, offset)
    ensures |CentralHeader(m, offset)| == 46
    ensures Decode(Slots(CentralHeader(m, offset), true),
                   if CentralPayload(m, offset) == [] then None else Some(CentralPayload(m, offset)), true)
         == Some(Values(|m.data|, m.size, offset, 0))
  {
    hide LE;
    hide CentralHeader;
    CentralHeaderFields(m, offset);
    var slots, v := Slots(CentralHeader(m, offset), true), Values(|m.data|, m.size, offset, 0);
    var none: Bytes := [];
    assert Payload(slots, v) == CentralPayload(m, offset) + none;
    assert CentralPayload(m, offset) + none == CentralPayload(m, offset);
    CarriedIsDecoded(slots, if CentralPayload(m, offset) == [] then None else Some(CentralPayload(m, offset)), true, v);
  }

  lemma FlagsAreSupported(m: Member)
    ensures SupportedFlags(Flags(m)) && (HasDescriptor(Flags(m)) <==> m.descriptor.Descriptor?)
    ensures Flags(m) < 0x1_0000
  {
    SumOfBits(if m.option1 then 1 else 0, if m.option2 then 1 else 0, if m.descriptor.Descriptor? then 1 else 0,
              if m.utf8 then 1 else 0);
  }

  lemma SumOfBits(a: nat, b: nat, c: nat, d: nat)
    requires a <= 1 && b <= 1 && c <= 1 && d <= 1
    ensures var flags := 2 * a + 4 * b + 8 * c + 2048 * d;
            Bit(flags, 2) == a && Bit(flags, 4) == b && Bit(flags, 8) == c && Bit(flags, 2048) == d
  {
  }
}
