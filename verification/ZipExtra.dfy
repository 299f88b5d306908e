/** Extra fields and the ZIP64 values they carry (section 4.5.3 of the PKWARE APPNOTE). */
module ZipExtra {
  import opened Basics
  import opened ZipBytes

  const ZIP64_ID := 1
  const UNICODE_PATH_ID := 0x7075
  const SENTINEL16 := 0xffff
  const SENTINEL32 := 0xffff_ffff

  datatype Field = Field(id: nat, data: Bytes)

  predicate WellSized(f: Field) {
    f.id < 0x1_0000 && |f.data| < 0x1_0000
  }

  /** The extra area that a list of fields makes. */
  function Encode(fs: seq<Field>): Bytes {
    if fs == [] then [] else EncodeField(fs[0]) + Encode(fs[1..])
  }

  function EncodeField(f: Field): Bytes {
    LE(f.id, 2) + LE(|f.data|, 2) + f.data
  }

  /** The fields of an extra area, or None when it is cut off. */
  function Parse(b: Bytes): Option<seq<Field>>
    decreases |b|
  {
    if b == [] then Some([])
    else if |b| < 4 || U16(b, 2) > |b| - 4 then None
    else
      var next := 4 + U16(b, 2);
      match Parse(b[next..])
      case None => None
      case Some(rest) => Some([Field(U16(b, 0), b[4..next])] + rest)
  }

  lemma FieldIsRead(f: Field, rest: Bytes)
    requires WellSized(f)
    ensures var b, next := EncodeField(f) + rest, 4 + |f.data|;
      |b| == next + |rest| && U16(b, 0) == f.id && U16(b, 2) == |f.data| && b[4..next] == f.data && b[next..] == rest
  {
    var b := EncodeField(f) + rest;
    assert b[0..2] == LE(f.id, 2) && b[2..4] == LE(|f.data|, 2);
    WrittenIsRead(b, 0, f.id, 2);
    WrittenIsRead(b, 2, |f.data|, 2);
  }

  lemma {:induction false} ParseOfEncode(fs: seq<Field>)
    requires forall f :: f in fs ==> WellSized(f)
    ensures Parse(Encode(fs)) == Some(fs)
  {
    if fs != [] {
      assert WellSized(fs[0]);
      FieldIsRead(fs[0], Encode(fs[1..]));
      ParseOfEncode(fs[1..]);
      assert [fs[0]] + fs[1..] == fs;
    }
  }

  lemma Join(f: Bytes, a: nat, b: nat, c: nat)
    requires a <= b <= c <= |f|
    ensures f[a..b] + f[b..c] == f[a..c]
  {
  }

  lemma FieldSlices(b: Bytes, next: nat)
    requires 4 <= next <= |b|
    ensures b[0..2] + b[2..4] + b[4..next] + b[next..] == b
  {
  }

  lemma ReadFieldIsEncoded(b: Bytes)
    requires |b| >= 4 && 4 + U16(b, 2) <= |b|
    ensures var next := 4 + U16(b, 2);
      var f := Field(U16(b, 0), b[4..next]);
      WellSized(f) && EncodeField(f) + b[next..] == b
  {
    ReadIsWritten(b, 0, 2);
    ReadIsWritten(b, 2, 2);
    ReadsAreValues(b, 0);
    ReadsAreValues(b, 2);
    FieldSlices(b, 4 + U16(b, 2));
  }

  lemma {:induction false} EncodeOfParse(b: Bytes)
    requires Parse(b).Some?
    ensures Encode(Parse(b).value) == b
    ensures forall f :: f in Parse(b).value ==> WellSized(f)
    decreases |b|
  {
    if b != [] {
      ReadFieldIsEncoded(b);
      EncodeOfParse(b[4 + U16(b, 2)..]);
      assert Parse(b).value[1..] == Parse(b[4 + U16(b, 2)..]).value;
    }
  }

  predicate Critical(id: nat) {
    id == ZIP64_ID || id == UNICODE_PATH_ID
  }

  function CriticalField(f: Field): map<nat, Bytes> {
    if Critical(f.id) then map[f.id := f.data] else map[]
  }

  function CriticalFields(fs: seq<Field>): map<nat, Bytes> {
    if fs == [] then map[] else CriticalField(fs[0]) + CriticalFields(fs[1..])
  }

  predicate UniqueCritical(fs: seq<Field>) {
    fs == [] || (CriticalField(fs[0]).Keys !! CriticalFields(fs[1..]).Keys && UniqueCritical(fs[1..]))
  }

  lemma MapsAssociate<K, V>(a: map<K, V>, b: map<K, V>, c: map<K, V>)
    ensures (a + b) + c == a + (b + c)
  {
  }

  lemma {:induction false} CriticalOfConcat(a: seq<Field>, b: seq<Field>)
    ensures CriticalFields(a + b) == CriticalFields(a) + CriticalFields(b)
    ensures UniqueCritical(a + b) <==>
            UniqueCritical(a) && UniqueCritical(b) && CriticalFields(a).Keys !! CriticalFields(b).Keys
  {
    if a == [] {
      assert a + b == b;
      assert map[] + CriticalFields(b) == CriticalFields(b);
    } else {
      assert (a + b)[1..] == a[1..] + b;
      CriticalOfConcat(a[1..], b);
      MapsAssociate(CriticalField(a[0]), CriticalFields(a[1..]), CriticalFields(b));
      assert CriticalFields(a).Keys == CriticalField(a[0]).Keys + CriticalFields(a[1..]).Keys;
      assert CriticalFields(a[1..] + b).Keys == CriticalFields(a[1..]).Keys + CriticalFields(b).Keys;
    }
  }

  lemma CriticalOfOne(f: Field)
    ensures CriticalFields([f]) == CriticalField(f) && UniqueCritical([f])
  {
  }

  lemma CriticalOfSnoc(fs: seq<Field>, f: Field)
    ensures CriticalFields(fs + [f])
         == if Critical(f.id) then CriticalFields(fs)[f.id := f.data] else CriticalFields(fs)
    ensures UniqueCritical(fs + [f]) <==> UniqueCritical(fs) && (Critical(f.id) ==> f.id !in CriticalFields(fs))
  {
    CriticalOfConcat(fs, [f]);
    CriticalOfOne(f);
  }

  /** The critical fields of an area, or None for a cut-off area or a duplicate. */
  function ExtraFieldsOf(b: Bytes): Option<map<nat, Bytes>> {
    match Parse(b)
    case None => None
    case Some(fs) => if UniqueCritical(fs) then Some(CriticalFields(fs)) else None
  }

  /** One pass over the area from `offset`, with the critical fields met so far. */
  function Scan(b: Bytes, offset: nat, critical: map<nat, Bytes>): Option<map<nat, Bytes>>
    requires offset <= |b|
    decreases |b| - offset
  {
    if offset == |b| then Some(critical)
    else if offset + 4 > |b| || U16(b, offset + 2) > |b| - offset - 4 then None
    else
      var id, next := U16(b, offset), offset + 4 + U16(b, offset + 2);
      if !Critical(id) then Scan(b, next, critical)
      else if id in critical then None
      else Scan(b, next, critical[id := b[offset + 4..next]])
  }

  lemma ParseStep(b: Bytes, offset: nat)
    requires offset + 4 <= |b| && U16(b, offset + 2) <= |b| - offset - 4
    ensures var next := offset + 4 + U16(b, offset + 2);
      Parse(b[offset..]) ==
        match Parse(b[next..])
        case None => None
        case Some(fs) => Some([Field(U16(b, offset), b[offset + 4..next])] + fs)
  {
    var rest, next := b[offset..], offset + 4 + U16(b, offset + 2);
    assert U16(rest, 0) == U16(b, offset) && U16(rest, 2) == U16(b, offset + 2);
    assert rest[4..4 + U16(rest, 2)] == b[offset + 4..next];
    assert rest[4 + U16(rest, 2)..] == b[next..];
  }

  lemma ParseCutOff(b: Bytes, offset: nat)
    requires offset < |b|
    requires offset + 4 > |b| || U16(b, offset + 2) > |b| - offset - 4
    ensures Parse(b[offset..]).None?
  {
  }

  /** What the fields `fs` add to those already seen. */
  function Extended(seen: seq<Field>, fs: Option<seq<Field>>): Option<map<nat, Bytes>> {
    if fs.None? || !UniqueCritical(seen + fs.value) then None else Some(CriticalFields(seen + fs.value))
  }

  lemma ExtendStep(seen: seq<Field>, f: Field, tail: Option<seq<Field>>)
    ensures Extended(seen, match tail case None => None case Some(fs) => Some([f] + fs)) ==
            if UniqueCritical(seen + [f]) then Extended(seen + [f], tail) else None
  {
    if tail.Some? {
      assert seen + ([f] + tail.value) == seen + [f] + tail.value;
      CriticalOfConcat(seen + [f], tail.value);
    }
  }

  lemma {:induction false} ScanFindsCritical(b: Bytes, offset: nat, seen: seq<Field>)
    requires offset <= |b| && UniqueCritical(seen)
    ensures Scan(b, offset, CriticalFields(seen)) == Extended(seen, Parse(b[offset..]))
    decreases |b| - offset
  {
    hide CriticalFields;
    hide UniqueCritical;
    if offset == |b| {
      assert b[offset..] == [] && seen + [] == seen;
    } else if offset + 4 > |b| || U16(b, offset + 2) > |b| - offset - 4 {
      ParseCutOff(b, offset);
    } else {
      var next := offset + 4 + U16(b, offset + 2);
      var f := Field(U16(b, offset), b[offset + 4..next]);
      ParseStep(b, offset);
      CriticalOfSnoc(seen, f);
      ExtendStep(seen, f, Parse(b[next..]));
      if UniqueCritical(seen + [f]) { ScanFindsCritical(b, next, seen + [f]); }
    }
  }

  /** zipExtraFields. */
  method ExtraFields(bytes: Bytes) returns (r: Option<map<nat, Bytes>>)
    ensures r == ExtraFieldsOf(bytes)
  {
    var critical: map<nat, Bytes> := map[];
    var offset := 0;
    while offset < |bytes|
      invariant 0 <= offset <= |bytes|
      invariant Scan(bytes, 0, map[]) == Scan(bytes, offset, critical)
    {
      if offset + 4 > |bytes| {
        ScanIsExtraFieldsOf(bytes);
        return None;
      }
      var id, length := U16(bytes, offset), U16(bytes, offset + 2);
      offset := offset + 4;
      if length > |bytes| - offset {
        ScanIsExtraFieldsOf(bytes);
        return None;
      }
      if id == ZIP64_ID || id == UNICODE_PATH_ID {
        if id in critical {
          ScanIsExtraFieldsOf(bytes);
          return None;
        }
        critical := critical[id := bytes[offset..offset + length]];
      }
      offset := offset + length;
    }
    ScanIsExtraFieldsOf(bytes);
    return Some(critical);
  }

  lemma ScanIsExtraFieldsOf(b: Bytes)
    ensures Scan(b, 0, map[]) == ExtraFieldsOf(b)
  {
    ScanFindsCritical(b, 0, []);
    assert b[0..] == b;
    if Parse(b).Some? { assert [] + Parse(b).value == Parse(b).value; }
  }

  // ---------------------------------------------------------------- ZIP64 values

  datatype Values = Values(compressed: nat, uncompressed: nat, offset: nat, disk: nat)

  /** The 16- and 32-bit slots of a central or local header. */
  function Slots(header: Bytes, central: bool): Values
    requires |header| >= (if central then 46 else 30)
  {
    if central then Values(U32(header, 20), U32(header, 24), U32(header, 42), U16(header, 34))
    else Values(U32(header, 18), U32(header, 22), 0, 0)
  }

  predicate Safe(v: Values) {
    v.compressed <= MAX_SAFE_INTEGER && v.uncompressed <= MAX_SAFE_INTEGER && v.offset <= MAX_SAFE_INTEGER
    && v.disk < 0x1_0000_0000
  }

  /** The ZIP64 payload: the values whose slots hold a sentinel, in the order of 4.5.3. */
  function Payload(slots: Values, v: Values): Bytes {
    (if slots.uncompressed == SENTINEL32 then LE(v.uncompressed, 8) else []) +
    (if slots.compressed == SENTINEL32 then LE(v.compressed, 8) else []) +
    (if slots.offset == SENTINEL32 then LE(v.offset, 8) else []) +
    (if slots.disk == SENTINEL16 then LE(v.disk, 4) else [])
  }

  predicate SlotHolds(slot: nat, sentinel: nat, value: nat) {
    slot == sentinel || slot == value
  }

  /** A header and its ZIP64 field carry the values `v`. */
  predicate Carries(slots: Values, field: Option<Bytes>, central: bool, v: Values) {
    && Safe(v)
    && SlotHolds(slots.compressed, SENTINEL32, v.compressed)
    && SlotHolds(slots.uncompressed, SENTINEL32, v.uncompressed)
    && SlotHolds(slots.offset, SENTINEL32, v.offset)
    && SlotHolds(slots.disk, SENTINEL16, v.disk)
    && (field.None? ==> Payload(slots, v) == [])
    && (field.Some? ==>
          && field.value != []
          && (field.value == Payload(slots, v)
              // some writers repeat both sizes of a local header that needs neither
              || (!central && Payload(slots, v) == []
                  && field.value == LE(v.uncompressed, 8) + LE(v.compressed, 8))))
  }

  /** One `value()` of wideValues: a 32-bit slot, or the next eight bytes of the field. */
  function TakeWide(slot: nat, field: Option<Bytes>, cursor: nat): Option<(nat, nat)> {
    if slot != SENTINEL32 then Some((slot, cursor))
    else if field.None? || SafeU64(field.value, cursor).None? then None
    else Some((SafeU64(field.value, cursor).value, cursor + 8))
  }

  function TakeDisk(slot: nat, field: Option<Bytes>, cursor: nat): Option<(nat, nat)> {
    if slot != SENTINEL16 then Some((slot, cursor))
    else if field.None? || cursor + 4 > |field.value| then None
    else Some((U32(field.value, cursor), cursor + 4))
  }

  /** The values that wideValues reads, in its order of reading, and where it stops. */
  function ReadValues(slots: Values, field: Option<Bytes>): Option<(Values, nat)> {
    var u := TakeWide(slots.uncompressed, field, 0);
    if u.None? then None else
    var c := TakeWide(slots.compressed, field, u.value.1);
    if c.None? then None else
    var o := TakeWide(slots.offset, field, c.value.1);
    if o.None? then None else
    var d := TakeDisk(slots.disk, field, o.value.1);
    if d.None? then None else Some((Values(c.value.0, u.value.0, o.value.0, d.value.0), d.value.1))
  }

  predicate RepeatsSizes(f: Bytes, v: Values) {
    |f| == 16 && SafeU64(f, 0) == Some(v.uncompressed) && SafeU64(f, 8) == Some(v.compressed)
  }

  function Decode(slots: Values, field: Option<Bytes>, central: bool): Option<Values> {
    if field == Some([]) || ReadValues(slots, field).None? then None
    else
      var (v, cursor) := ReadValues(slots, field).value;
      if field.Some? && cursor != |field.value| && (central || cursor != 0 || !RepeatsSizes(field.value, v)) then None
      else if v.disk != 0 then None
      else Some(v)
  }

  /** The reading closure of wideValues: a slot that holds the sentinel moves the cursor. */
  method NextValue(slot: nat, field: Option<Bytes>, cursor: nat) returns (r: Option<nat>, next: nat)
    ensures TakeWide(slot, field, cursor) == if r.Some? then Some((r.value, next)) else None
  {
    if slot != SENTINEL32 { return Some(slot), cursor; }
    if field.None? { return None, cursor; }
    return SafeU64(field.value, cursor), cursor + 8;
  }

  /** wideValues, with its cursor. */
  method WideValues(header: Bytes, extra: map<nat, Bytes>, central: bool) returns (r: Option<Values>, wide: bool)
    requires |header| >= (if central then 46 else 30)
    ensures r == Decode(Slots(header, central), if ZIP64_ID in extra then Some(extra[ZIP64_ID]) else None, central)
    ensures wide <==>
              Slots(header, central).compressed == SENTINEL32 || Slots(header, central).uncompressed == SENTINEL32
  {
    hide Slots;
    hide SafeU64;
    var slots := Slots(header, central);
    var field := if ZIP64_ID in extra then Some(extra[ZIP64_ID]) else None;
    if field == Some([]) { return None, slots.compressed == SENTINEL32 || slots.uncompressed == SENTINEL32; }
    wide := slots.compressed == SENTINEL32 || slots.uncompressed == SENTINEL32;
    var uncompressed, cursor := NextValue(slots.uncompressed, field, 0);
    if uncompressed.None? { return None, wide; }
    var compressed;
    compressed, cursor := NextValue(slots.compressed, field, cursor);
    if compressed.None? { return None, wide; }
    var offset;
    offset, cursor := NextValue(slots.offset, field, cursor);
    if offset.None? { return None, wide; }
    var disk := TakeDisk(slots.disk, field, cursor);
    if disk.None? { return None, wide; }
    cursor := disk.value.1;
    var v := Values(compressed.value, uncompressed.value, offset.value, disk.value.0);
    if field.Some? && cursor != |field.value| {
      if central || cursor != 0 || !RepeatsSizes(field.value, v) { return None, wide; }
    }
    if v.disk != 0 { return None, wide; }
    return Some(v), wide;
  }

  lemma TakeWideIsRead(slot: nat, field: Option<Bytes>, cursor: nat)
    ensures var r := TakeWide(slot, field, cursor);
      r.Some? ==>
        && SlotHolds(slot, SENTINEL32, r.value.0)
        && (slot != SENTINEL32 ==> r.value.1 == cursor)
        && (slot == SENTINEL32 ==>
              && r.value.1 == cursor + 8 && field.Some? && cursor + 8 <= |field.value|
              && r.value.0 <= MAX_SAFE_INTEGER && field.value[cursor..cursor + 8] == LE(r.value.0, 8))
  {
    if slot == SENTINEL32 && field.Some? && cursor + 8 <= |field.value| {
      ReadIsWritten(field.value, cursor, 8);
    }
  }

  lemma TakeWideFinds(slot: nat, field: Option<Bytes>, cursor: nat, v: nat)
    requires v <= MAX_SAFE_INTEGER && SlotHolds(slot, SENTINEL32, v)
    requires slot == SENTINEL32 ==>
               field.Some? && cursor + 8 <= |field.value| && field.value[cursor..cursor + 8] == LE(v, 8)
    ensures TakeWide(slot, field, cursor) == Some((v, if slot == SENTINEL32 then cursor + 8 else cursor))
  {
    if slot == SENTINEL32 {
      WrittenIsRead(field.value, cursor, v, 8);
    }
  }

  /** Four reads that cover a prefix of the field make its payload. */
  lemma ReadsMakePayload(slots: Values, v: Values, f: Bytes, u: nat, c: nat, o: nat, d: nat)
    requires u == (if slots.uncompressed == SENTINEL32 then 8 else 0)
    requires c == u + (if slots.compressed == SENTINEL32 then 8 else 0)
    requires o == c + (if slots.offset == SENTINEL32 then 8 else 0)
    requires d == o + (if slots.disk == SENTINEL16 then 4 else 0)
    requires d <= |f|
    requires u > 0 ==> f[0..u] == LE(v.uncompressed, 8)
    requires c > u ==> f[u..c] == LE(v.compressed, 8)
    requires o > c ==> f[c..o] == LE(v.offset, 8)
    requires d > o ==> f[o..d] == LE(v.disk, 4)
    ensures f[..d] == Payload(slots, v)
  {
    Join(f, 0, u, c);
    Join(f, 0, c, o);
    Join(f, 0, o, d);
    assert f[0..u] == if u > 0 then LE(v.uncompressed, 8) else [];
    assert f[u..c] == if c > u then LE(v.compressed, 8) else [];
    assert f[c..o] == if o > c then LE(v.offset, 8) else [];
    assert f[o..d] == if d > o then LE(v.disk, 4) else [];
    assert f[0..d] == f[..d];
  }

  lemma ReadValuesArePayload(slots: Values, field: Option<Bytes>)
    requires ReadValues(slots, field).Some?
    ensures var (v, cursor) := ReadValues(slots, field).value;
      && SlotHolds(slots.compressed, SENTINEL32, v.compressed)
      && SlotHolds(slots.uncompressed, SENTINEL32, v.uncompressed)
      && SlotHolds(slots.offset, SENTINEL32, v.offset) && SlotHolds(slots.disk, SENTINEL16, v.disk)
      && (slots.compressed == SENTINEL32 ==> v.compressed <= MAX_SAFE_INTEGER)
      && (slots.uncompressed == SENTINEL32 ==> v.uncompressed <= MAX_SAFE_INTEGER)
      && (slots.offset == SENTINEL32 ==> v.offset <= MAX_SAFE_INTEGER)
      && (slots.disk == SENTINEL16 ==> v.disk < 0x1_0000_0000)
      && (field.None? ==> Payload(slots, v) == [] && cursor == 0)
      && (field.Some? ==> cursor <= |field.value| && field.value[..cursor] == Payload(slots, v))
  {
    var (v, cursor) := ReadValues(slots, field).value;
    var u := TakeWide(slots.uncompressed, field, 0).value.1;
    var c := TakeWide(slots.compressed, field, u).value.1;
    var o := TakeWide(slots.offset, field, c).value.1;
    TakeWideIsRead(slots.uncompressed, field, 0);
    TakeWideIsRead(slots.compressed, field, u);
    TakeWideIsRead(slots.offset, field, c);
    if field.Some? {
      if slots.disk == SENTINEL16 {
        ReadIsWritten(field.value, o, 4);
        ReadsAreValues(field.value, o);
      }
      ReadsMakePayload(slots, v, field.value, u, c, o, cursor);
    }
  }

  lemma RepeatedSizesAreWritten(f: Bytes, v: Values)
    requires RepeatsSizes(f, v)
    ensures f == LE(v.uncompressed, 8) + LE(v.compressed, 8)
  {
    ReadIsWritten(f, 0, 8);
    ReadIsWritten(f, 8, 8);
    assert f == f[0..8] + f[8..16];
  }

  /** Everything accepted was carried: in particular a central ZIP64 field is consumed to its
      last byte, because it equals the payload of its sentinels. */
  lemma DecodedIsCarried(slots: Values, field: Option<Bytes>, central: bool)
    requires slots.compressed <= SENTINEL32 && slots.uncompressed <= SENTINEL32
    requires slots.offset <= SENTINEL32 && slots.disk <= SENTINEL16
    requires Decode(slots, field, central).Some?
    ensures Carries(slots, field, central, Decode(slots, field, central).value)
    ensures Decode(slots, field, central).value.disk == 0
  {
    var (v, cursor) := ReadValues(slots, field).value;
    ReadValuesArePayload(slots, field);
    if field.Some? {
      if cursor == |field.value| {
        assert field.value[..cursor] == field.value;
      } else {
        assert field.value[..0] == [];
        RepeatedSizesAreWritten(field.value, v);
      }
    }
  }

  lemma FourParts(u: Bytes, c: Bytes, o: Bytes, d: Bytes)
    ensures var p := u + c + o + d;
      && p[0..|u|] == u
      && p[|u|..|u| + |c|] == c
      && p[|u| + |c|..|u| + |c| + |o|] == o
      && p[|u| + |c| + |o|..|p|] == d
  {
  }

  lemma PayloadLayout(slots: Values, v: Values)
    ensures var p := Payload(slots, v);
      var u := if slots.uncompressed == SENTINEL32 then 8 else 0;
      var c := u + if slots.compressed == SENTINEL32 then 8 else 0;
      var o := c + if slots.offset == SENTINEL32 then 8 else 0;
      && |p| == o + (if slots.disk == SENTINEL16 then 4 else 0)
      && (slots.uncompressed == SENTINEL32 ==> p[0..8] == LE(v.uncompressed, 8))
      && (slots.compressed == SENTINEL32 ==> p[u..u + 8] == LE(v.compressed, 8))
      && (slots.offset == SENTINEL32 ==> p[c..c + 8] == LE(v.offset, 8))
      && (slots.disk == SENTINEL16 ==> p[o..o + 4] == LE(v.disk, 4))
  {
    FourParts(if slots.uncompressed == SENTINEL32 then LE(v.uncompressed, 8) else [],
              if slots.compressed == SENTINEL32 then LE(v.compressed, 8) else [],
              if slots.offset == SENTINEL32 then LE(v.offset, 8) else [],
              if slots.disk == SENTINEL16 then LE(v.disk, 4) else []);
  }

  lemma RepeatedSizesAreRead(f: Bytes, v: Values)
    requires Safe(v) && f == LE(v.uncompressed, 8) + LE(v.compressed, 8)
    ensures RepeatsSizes(f, v)
  {
    assert f[0..8] == LE(v.uncompressed, 8) && f[8..16] == LE(v.compressed, 8);
    WrittenIsRead(f, 0, v.uncompressed, 8);
    WrittenIsRead(f, 8, v.compressed, 8);
  }

  /** Everything carried, on the first disk, is accepted, with exactly those values. */
  lemma CarriedIsDecoded(slots: Values, field: Option<Bytes>, central: bool, v: Values)
    requires Carries(slots, field, central, v) && v.disk == 0
    ensures Decode(slots, field, central) == Some(v)
  {
    var p := Payload(slots, v);
    PayloadLayout(slots, v);
    if p == [] {
      if field.Some? { RepeatedSizesAreRead(field.value, v); }
    } else {
      PayloadIsRead(slots, v);
    }
  }

  lemma PayloadIsRead(slots: Values, v: Values)
    requires Carries(slots, Some(Payload(slots, v)), true, v)
    ensures ReadValues(slots, Some(Payload(slots, v))) == Some((v, |Payload(slots, v)|))
  {
    var p := Payload(slots, v);
    PayloadLayout(slots, v);
    hide Payload;
    var u := if slots.uncompressed == SENTINEL32 then 8 else 0;
    var c := u + if slots.compressed == SENTINEL32 then 8 else 0;
    var o := c + if slots.offset == SENTINEL32 then 8 else 0;
    TakeWideFinds(slots.uncompressed, Some(p), 0, v.uncompressed);
    TakeWideFinds(slots.compressed, Some(p), u, v.compressed);
    TakeWideFinds(slots.offset, Some(p), c, v.offset);
    if slots.disk == SENTINEL16 { WrittenIsRead(p, o, v.disk, 4); }
  }

  /** Slots written for `v`: a sentinel wherever the writer widens, which it must do for every
      value that does not fit below the sentinel. */
  predicate WrittenSlots(slots: Values, v: Values) {
    && (slots.compressed == SENTINEL32 || (slots.compressed == v.compressed < SENTINEL32))
    && (slots.uncompressed == SENTINEL32 || (slots.uncompressed == v.uncompressed < SENTINEL32))
    && (slots.offset == SENTINEL32 || (slots.offset == v.offset < SENTINEL32))
    && (slots.disk == SENTINEL16 || (slots.disk == v.disk < SENTINEL16))
  }

  lemma AddingZip64(before: seq<Field>, after: seq<Field>, payload: Bytes)
    requires forall f :: f in before + after ==> f.id != ZIP64_ID
    requires UniqueCritical(before + after)
    ensures var all := before + [Field(ZIP64_ID, payload)] + after;
      UniqueCritical(all) && ZIP64_ID in CriticalFields(all) && CriticalFields(all)[ZIP64_ID] == payload
    ensures ZIP64_ID !in CriticalFields(before + after)
  {
    var field := Field(ZIP64_ID, payload);
    CriticalOfConcat(before, after);
    CriticalOfOne(field);
    CriticalOfConcat(before, [field]);
    CriticalOfConcat(before + [field], after);
    OtherIds(before);
    OtherIds(after);
  }

  /** Main result: values written into slots and a ZIP64 field, the field standing anywhere
      among other extra fields, come back exactly. */
  lemma Zip64RoundTrip(slots: Values, v: Values, before: seq<Field>, after: seq<Field>)
    requires Safe(v) && WrittenSlots(slots, v) && v.disk == 0
    requires forall f :: f in before + after ==> WellSized(f) && f.id != ZIP64_ID
    requires UniqueCritical(before + after)
    ensures
      var payload := Payload(slots, v);
      var fields := if payload == [] then before + after else before + [Field(ZIP64_ID, payload)] + after;
      var extra := ExtraFieldsOf(Encode(fields));
      && extra.Some?
      && Decode(slots, if ZIP64_ID in extra.value then Some(extra.value[ZIP64_ID]) else None, true) == Some(v)
  {
    var payload := Payload(slots, v);
    PayloadLayout(slots, v);
    var fields := if payload == [] then before + after else before + [Field(ZIP64_ID, payload)] + after;
    forall f | f in fields ensures WellSized(f) {
      assert f == Field(ZIP64_ID, payload) || f in before + after;
    }
    ParseOfEncode(fields);
    AddingZip64(before, after, payload);
    CarriedIsDecoded(slots, if payload == [] then None else Some(payload), true, v);
  }

  lemma {:induction false} OtherIds(fs: seq<Field>)
    requires forall f :: f in fs ==> f.id != ZIP64_ID
    ensures ZIP64_ID !in CriticalFields(fs)
  {
    if fs != [] {
      assert fs[0] in fs;
      OtherIds(fs[1..]);
    }
  }
}
