/** Admitting the names of one ZIP entry: four decodings that must mean the same path. */
module ZipNames {
  import opened Basics
  import opened ZipBytes
  import opened ZipExtra
  import opened ZipDirectory
  import P = ArchivePath

  const UTF8_FLAG := 2048

  /** Text decoding, CRC and case folding are whatever the platform makes of them. */
  datatype Decoders = Decoders(
    utf8: Bytes -> Option<string>,        // fatal
    lossy: Bytes -> string,               // toString("utf8")
    latin1Of: string -> string,           // the UTF-8 bytes of a string, read as Latin-1
    crc: Bytes -> nat,
    fold: string -> string,
    on: P.Platform)

  function Latin1(b: Bytes): (r: string)
    ensures |r| == |b| && forall i :: 0 <= i < |b| ==> r[i] == b[i] as char
  {
    if b == [] then [] else [b[0] as char] + Latin1(b[1..])
  }

  function Ascii(raw: string): (r: string)
    ensures |r| == |raw| && forall i :: 0 <= i < |r| ==> r[i] == if 0x80 <= raw[i] as int <= 0xff then '_' else raw[i]
  {
    if raw == [] then [] else [if '\U{80}' <= raw[0] <= '\U{FF}' then '_' else raw[0]] + Ascii(raw[1..])
  }

  // ---------------------------------------------------------------- the path key

  function Canonical(name: string): string {
    var stripped := P.Strip(name, 0);
    if stripped.Some? then stripped.value else ""
  }

  /** zipPathKey: single components skip the canonical form. */
  function PathKey(name: string): string {
    if name != "" && name != "." && '/' !in name && '\\' !in name then name else Canonical(name)
  }

  lemma PathKeyIsCanonical(name: string)
    ensures PathKey(name) == Canonical(name)
  {
    if name != "" && name != "." && '/' !in name && '\\' !in name {
      assert P.Word(name);
      P.PartsOfJoin([name]);
      P.NormalizeOfNormal([name]);
      assert [name][0..] == [name];
    }
  }

  // ---------------------------------------------------------------- the four decodings

  /** originalName. */
  function OriginalName(d: Decoders, name: Bytes, flags: nat): Option<Option<string>> {
    var raw := Latin1(name);
    if !P.Validates(Ascii(raw), d.on) then None
    else if Bit(flags, UTF8_FLAG) == 0 then Some(None)
    else if Ascii(raw) == raw then Some(Some(raw))
    else
      var decoded :- d.utf8(name);
      if P.Validates(decoded, d.on) then Some(Some(decoded)) else None
  }

  /** unicodeName. */
  function UnicodeName(d: Decoders, name: Bytes, extra: map<nat, Bytes>): Option<Option<string>> {
    if UNICODE_PATH_ID !in extra then Some(None)
    else
      var field := extra[UNICODE_PATH_ID];
      if |field| < 6 || Digit(field, 0) != 1 || U32(field, 1) != d.crc(name) then None
      else
        var decoded :- d.utf8(field[5..]);
        if P.Validates(decoded, d.on) then Some(Some(decoded)) else None
  }

  datatype Readings = Readings(central: Option<string>, local: Option<string>, centralField: Option<string>,
                               localField: Option<string>)

  function Present(s: Option<string>): seq<string> { if s.Some? then [s.value] else [] }

  /** The defined readings, in the order the code lists them. */
  function All(r: Readings): seq<string> {
    Present(r.central) + Present(r.local) + Present(r.centralField) + Present(r.localField)
  }

  function ReadingsOf(d: Decoders, q: NameQuery): Option<Readings> {
    var central :- OriginalName(d, q.central, q.flags);
    var local :- OriginalName(d, q.local, q.flags);
    var centralField :- UnicodeName(d, q.central, q.centralExtra);
    var localField :- UnicodeName(d, q.local, q.localExtra);
    Some(Readings(central, local, centralField, localField))
  }

  predicate EndsWithSeparator(s: string) {
    |s| > 0 && (s[|s| - 1] == '/' || s[|s| - 1] == '\\')
  }

  /** All readings are one path, and all are or all are not a directory name. */
  predicate OneMeaning(names: seq<string>, directory: bool) {
    && (forall i :: 0 <= i < |names| ==> EndsWithSeparator(names[i]) == directory)
    && (forall i :: 0 <= i < |names| ==> Canonical(names[i]) == Canonical(names[0]))
  }

  function Truthy(s: Option<string>): bool { s.Some? && s.value != "" }

  /** What the portable decoder would read off the local header is the overriding name too. */
  predicate OverridesAgree(d: Decoders, q: NameQuery, r: Readings) {
    var decoded := Canonical(d.lossy(q.local));
    && (Truthy(r.centralField) && q.central != q.local ==> Canonical(r.centralField.value) == decoded)
    && (!Truthy(r.centralField) && Truthy(r.localField) ==> Canonical(r.localField.value) == decoded)
  }

  predicate Consistent(d: Decoders, q: NameQuery, r: Readings) {
    && q.central != [] && q.local != []
    && Canonical(Latin1(q.central)) == Canonical(Latin1(q.local))
    && EndsWithSeparator(Latin1(q.local)) == EndsWithSeparator(Latin1(q.central))
    && OneMeaning(All(r), EndsWithSeparator(Latin1(q.central)))
    && OverridesAgree(d, q, r)
  }

  /** The collision keys of an entry. */
  function Keys(d: Decoders, q: NameQuery, r: Readings): set<string> {
    {Canonical(Latin1(q.central))} + if r.centralField.Some? then {Canonical(d.latin1Of(r.centralField.value))} else {}
  }

  datatype Admitted = Admitted(path: Option<string>, portableKey: string, portableDirectory: bool, directory: bool)

  predicate AllAscii(b: Bytes) { forall i :: 0 <= i < |b| ==> b[i] < 128 }

  function PathOf(q: NameQuery, r: Readings): Option<string> {
    if r.centralField.Some? then r.centralField
    else if r.central.Some? then r.central
    else if AllAscii(q.central) then Some(Latin1(q.central)) else None
  }

  function PortablePath(d: Decoders, q: NameQuery, r: Readings): string {
    if r.centralField.Some? then r.centralField.value
    else if r.local.Some? then r.local.value
    else if q.central == q.local && PathOf(q, r).Some? then PathOf(q, r).value
    else d.lossy(q.local)
  }

  /** The name that decides whether a portable decoder sees a directory. */
  function DecoderPath(d: Decoders, q: NameQuery, r: Readings): string {
    if Bit(q.flags, UTF8_FLAG) == 1 && r.local.Some? then r.local.value
    else if r.centralField.Some? && UNICODE_PATH_ID in q.centralExtra && |q.centralExtra[UNICODE_PATH_ID]| >= 5
            && (q.central == q.local || U32(q.centralExtra[UNICODE_PATH_ID], 1) == d.crc(q.local))
    then r.centralField.value
    else d.lossy(q.local)
  }

  /** What admission means, with every key computed afresh. */
  function Admission(d: Decoders, q: NameQuery, seen: set<string>): Option<Admitted> {
    var r :- ReadingsOf(d, q);
    if !Consistent(d, q, r) || !(Keys(d, q, r) !! seen) then None
    else
      var decoder := DecoderPath(d, q, r);
      Some(Admitted(PathOf(q, r), Canonical(PortablePath(d, q, r)), |decoder| > 0 && decoder[|decoder| - 1] == '/',
                    EndsWithSeparator(Latin1(q.central))))
  }

  // ---------------------------------------------------------------- what is emitted, by bytes and flags

  predicate Flagged(q: NameQuery) { q.flags / 0x800 % 2 == 1 }

  /** The text of flagged bytes: ASCII is itself, anything else must be UTF-8. */
  function TextOf(d: Decoders, b: Bytes): Option<string> {
    if AllAscii(b) then Some(Latin1(b)) else d.utf8(b)
  }

  lemma AsciiExactly(b: Bytes)
    ensures Ascii(Latin1(b)) == Latin1(b) <==> AllAscii(b)
  {
    var raw := Latin1(b);
    if Ascii(raw) == raw {
      forall i | 0 <= i < |b| ensures b[i] < 128 {
        assert Ascii(raw)[i] == raw[i] && raw[i] == b[i] as char;
      }
    }
  }

  lemma ReadName(d: Decoders, name: Bytes, flags: nat)
    ensures OriginalName(d, name, flags).Some? ==>
              && P.Validates(Ascii(Latin1(name)), d.on)
              && OriginalName(d, name, flags).value == (if flags / 0x800 % 2 == 1 then TextOf(d, name) else None)
              && (flags / 0x800 % 2 == 1 ==> TextOf(d, name).Some? && P.Validates(TextOf(d, name).value, d.on))
  {
    hide Latin1;
    hide Ascii;
    AsciiExactly(name);
  }

  lemma ReadField(d: Decoders, name: Bytes, extra: map<nat, Bytes>)
    ensures 0x7075 !in extra ==> UnicodeName(d, name, extra) == Some(None)
    ensures UnicodeName(d, name, extra).Some? && 0x7075 in extra ==>
              && |extra[0x7075]| >= 6 && extra[0x7075][0] == 1 && U32(extra[0x7075], 1) == d.crc(name)
              && d.utf8(extra[0x7075][5..]).Some? && P.Validates(d.utf8(extra[0x7075][5..]).value, d.on)
              && UnicodeName(d, name, extra).value == d.utf8(extra[0x7075][5..])
  {
  }

  /** A Unicode field that is accepted, and its text. */
  predicate FieldReads(d: Decoders, name: Bytes, field: Bytes, text: Option<string>) {
    && |field| >= 6 && field[0] == 1 && U32(field, 1) == d.crc(name)
    && text.Some? && text == d.utf8(field[5..]) && P.Validates(text.value, d.on)
  }

  lemma ReadingsMean(d: Decoders, q: NameQuery)
    requires ReadingsOf(d, q).Some?
    ensures var r := ReadingsOf(d, q).value;
            && (if Flagged(q) then r.central.Some? && r.central == TextOf(d, q.central)
                                   && r.local.Some? && r.local == TextOf(d, q.local)
                else r.central.None? && r.local.None?)
            && (if 0x7075 in q.centralExtra then FieldReads(d, q.central, q.centralExtra[0x7075], r.centralField)
                else r.centralField.None?)
            && (if 0x7075 in q.localExtra then FieldReads(d, q.local, q.localExtra[0x7075], r.localField)
                else r.localField.None?)
    ensures P.Validates(Ascii(Latin1(q.central)), d.on) && P.Validates(Ascii(Latin1(q.local)), d.on)
  {
    hide OriginalName;
    hide UnicodeName;
    hide TextOf;
    ReadName(d, q.central, q.flags);
    ReadName(d, q.local, q.flags);
    ReadField(d, q.central, q.centralExtra);
    ReadField(d, q.local, q.localExtra);
  }

  /** The path an admitted entry is emitted with: that of the central Unicode field, which must match
      the name's checksum; without one the flagged text; without a flag only an ASCII name is known. */
  lemma EmittedPath(d: Decoders, q: NameQuery, seen: set<string>)
    requires Admission(d, q, seen).Some?
    ensures var path := Admission(d, q, seen).value.path;
            if 0x7075 in q.centralExtra then FieldReads(d, q.central, q.centralExtra[0x7075], path)
            else if Flagged(q) then path.Some? && path == TextOf(d, q.central)
            else path == if AllAscii(q.central) then Some(Latin1(q.central)) else None
    ensures Admission(d, q, seen).value.directory <==> |q.central| > 0 && q.central[|q.central| - 1] in {0x2f, 0x5c}
  {
    hide ReadingsOf;
    hide Canonical;
    hide Consistent;
    hide P.Validates;
    ReadingsMean(d, q);
  }

  /** What a portable decoder makes of the entry: the central field, else the flagged local text,
      else the local bytes, which an ASCII name common to both headers spells out. */
  function PortableText(d: Decoders, q: NameQuery): string {
    if 0x7075 in q.centralExtra then
      if |q.centralExtra[0x7075]| >= 5 && d.utf8(q.centralExtra[0x7075][5..]).Some?
      then d.utf8(q.centralExtra[0x7075][5..]).value else ""
    else if Flagged(q) then if TextOf(d, q.local).Some? then TextOf(d, q.local).value else ""
    else if q.central == q.local && AllAscii(q.local) then Latin1(q.local)
    else d.lossy(q.local)
  }

  lemma PortableMeans(d: Decoders, q: NameQuery)
    requires ReadingsOf(d, q).Some?
    ensures PortablePath(d, q, ReadingsOf(d, q).value) == PortableText(d, q)
  {
    hide ReadingsOf;
    hide Canonical;
    hide P.Validates;
    hide Latin1;
    hide TextOf;
    hide AllAscii;
    ReadingsMean(d, q);
  }

  lemma EmittedKey(d: Decoders, q: NameQuery, seen: set<string>)
    requires Admission(d, q, seen).Some?
    ensures Admission(d, q, seen).value.portableKey == Canonical(PortableText(d, q))
  {
    hide ReadingsOf;
    hide Canonical;
    hide Consistent;
    hide PortablePath;
    hide DecoderPath;
    hide PortableText;
    hide Keys;
    PortableMeans(d, q);
  }

  /** The text whose last character makes a directory for a portable decoder: flagged local bytes win
      over the central field, which counts only if it matches the local name's checksum. */
  function DecoderText(d: Decoders, q: NameQuery): string {
    if Flagged(q) then if TextOf(d, q.local).Some? then TextOf(d, q.local).value else ""
    else if && 0x7075 in q.centralExtra && |q.centralExtra[0x7075]| >= 5
            && d.utf8(q.centralExtra[0x7075][5..]).Some?
            && (q.central == q.local || U32(q.centralExtra[0x7075], 1) == d.crc(q.local))
      then d.utf8(q.centralExtra[0x7075][5..]).value
    else d.lossy(q.local)
  }

  lemma DecoderMeans(d: Decoders, q: NameQuery)
    requires ReadingsOf(d, q).Some?
    ensures DecoderPath(d, q, ReadingsOf(d, q).value) == DecoderText(d, q)
  {
    hide ReadingsOf;
    hide Canonical;
    hide P.Validates;
    hide Latin1;
    hide TextOf;
    hide AllAscii;
    ReadingsMean(d, q);
  }

  lemma EmittedKind(d: Decoders, q: NameQuery, seen: set<string>)
    requires Admission(d, q, seen).Some?
    ensures var text := DecoderText(d, q);
            Admission(d, q, seen).value.portableDirectory <==> |text| > 0 && text[|text| - 1] == '/'
  {
    hide ReadingsOf;
    hide Canonical;
    hide Consistent;
    hide PortablePath;
    hide DecoderPath;
    hide DecoderText;
    hide Keys;
    DecoderMeans(d, q);
  }

  lemma PlainReadings(d: Decoders, q: NameQuery)
    requires q.central == q.local && AllAscii(q.central)
    requires 0x7075 !in q.centralExtra && 0x7075 !in q.localExtra
    ensures var text := Some(Latin1(q.central));
            ReadingsOf(d, q) ==
            if !P.Validates(text.value, d.on) then None
            else Some(Readings(if Flagged(q) then text else None, if Flagged(q) then text else None, None, None))
  {
    hide Latin1;
    hide Ascii;
    AsciiExactly(q.central);
  }

  /** A plain name is admitted exactly when it validates and its key is new, and is emitted as it is. */
  lemma PlainNameIsAdmitted(d: Decoders, q: NameQuery, seen: set<string>)
    requires q.central == q.local && q.central != [] && AllAscii(q.central) && d.lossy(q.local) == Latin1(q.local)
    requires 0x7075 !in q.centralExtra && 0x7075 !in q.localExtra
    ensures var text := Latin1(q.central);
            Admission(d, q, seen) ==
            if P.Validates(text, d.on) && Canonical(text) !in seen
            then Some(Admitted(Some(text), Canonical(text), text[|text| - 1] == '/', text[|text| - 1] in {'/', '\\'}))
            else None
  {
    hide Canonical;
    hide Latin1;
    hide AllAscii;
    hide ReadingsOf;
    hide EndsWithSeparator;
    PlainReadings(d, q);
    if P.Validates(Latin1(q.central), d.on) {
      PlainIsConsistent(d, q, ReadingsOf(d, q).value);
      SeparatorEnds(Latin1(q.central));
    }
  }

  lemma SeparatorEnds(s: string)
    requires s != []
    ensures EndsWithSeparator(s) <==> s[|s| - 1] in {'/', '\\'}
  {
  }

  lemma PlainIsConsistent(d: Decoders, q: NameQuery, r: Readings)
    requires q.central == q.local && q.central != [] && AllAscii(q.central)
    requires r.central in {None, Some(Latin1(q.central))} && r.local == r.central
    requires r.centralField.None? && r.localField.None?
    ensures Consistent(d, q, r)
  {
    hide Canonical;
    hide Latin1;
    hide EndsWithSeparator;
    assert forall name :: name in All(r) ==> name == Latin1(q.central);
    assert forall i :: 0 <= i < |All(r)| ==> All(r)[i] in All(r);
  }

  // ---------------------------------------------------------------- admitZipNames

  /** The readings, with the ones of equal names and equal fields shared. */
  method Read4(d: Decoders, q: NameQuery) returns (r: Option<Readings>)
    ensures r == ReadingsOf(d, q)
  {
    var sameName := q.central == q.local;
    var central := OriginalName(d, q.central, q.flags);
    if central.None? { return None; }
    var local := if sameName then central else OriginalName(d, q.local, q.flags);
    if local.None? { return None; }
    var centralField := UnicodeName(d, q.central, q.centralExtra);
    if centralField.None? { return None; }
    var sameField := (UNICODE_PATH_ID in q.centralExtra) == (UNICODE_PATH_ID in q.localExtra)
                     && (UNICODE_PATH_ID in q.centralExtra ==>
                       q.centralExtra[UNICODE_PATH_ID] == q.localExtra[UNICODE_PATH_ID]);
    var localField := if sameName && sameField then centralField else UnicodeName(d, q.local, q.localExtra);
    if localField.None? { return None; }
    return Some(Readings(central.value, local.value, centralField.value, localField.value));
  }

  /** The agreement of all readings, comparing keys only where the texts differ. */
  method Agree(readings: seq<string>, directory: bool, centralRaw: string, centralKey: string)
    returns (ok: bool, key: string)
    requires centralKey == Canonical(centralRaw)
    ensures ok <==> OneMeaning(readings, directory)
    ensures readings != [] ==> key == Canonical(readings[0])
  {
    key := "";
    if readings != [] {
      PathKeyIsCanonical(readings[0]);
      key := if readings[0] == centralRaw then centralKey else PathKey(readings[0]);
    }
    for i := 0 to |readings|
      invariant forall k :: 0 <= k < i ==>
                EndsWithSeparator(readings[k]) == directory && Canonical(readings[k]) == Canonical(readings[0])
    {
      PathKeyIsCanonical(readings[i]);
      if EndsWithSeparator(readings[i]) != directory { return false, key; }
      if readings[i] != readings[0] && PathKey(readings[i]) != key { return false, key; }
    }
    return true, key;
  }

  /** Every test but the one for collisions; `key` is the key of the first reading. */
  method CheckConsistent(d: Decoders, q: NameQuery, r: Readings, centralRaw: string, centralKey: string)
    returns (ok: bool, key: string)
    requires q.central != [] && q.local != []
    requires centralRaw == Latin1(q.central) && centralKey == Canonical(centralRaw)
    ensures ok <==> Consistent(d, q, r)
    ensures ok && All(r) != [] ==> key == Canonical(All(r)[0])
  {
    hide Canonical;
    hide PathKey;
    hide Latin1;
    hide OneMeaning;
    hide EndsWithSeparator;
    key := "";
    var localRaw, decoded := Latin1(q.local), PathKey(d.lossy(q.local));
    PathKeyIsCanonical(localRaw);
    PathKeyIsCanonical(d.lossy(q.local));
    if q.central != q.local && centralKey != PathKey(localRaw) { return false, key; }
    var directory := EndsWithSeparator(centralRaw);
    if EndsWithSeparator(localRaw) != directory { return false, key; }
    ok, key := Agree(All(r), directory, centralRaw, centralKey);
    if !ok { return false, key; }
    if Truthy(r.centralField) && q.central != q.local {
      PathKeyIsCanonical(r.centralField.value);
      if PathKey(r.centralField.value) != decoded { return false, key; }
    }
    if !Truthy(r.centralField) && Truthy(r.localField) {
      PathKeyIsCanonical(r.localField.value);
      if PathKey(r.localField.value) != decoded { return false, key; }
    }
    return true, key;
  }

  /** admitZipNames: all the reuse of keys and readings comes to the same. */
  method AdmitNames(d: Decoders, q: NameQuery, seen: set<string>) returns (a: Option<Admitted>, after: set<string>)
    ensures a == Admission(d, q, seen)
    ensures after == seen + if a.Some? then Keys(d, q, ReadingsOf(d, q).value) else {}
  {
    hide Canonical;
    hide PathKey;
    hide Latin1;
    hide OneMeaning;
    hide EndsWithSeparator;
    hide ReadingsOf;
    hide Bit;
    if q.central == [] || q.local == [] { return None, seen; }
    var readings := Read4(d, q);
    if readings.None? { return None, seen; }
    var r, centralRaw := readings.value, Latin1(q.central);
    var centralKey := PathKey(centralRaw);
    PathKeyIsCanonical(centralRaw);
    var ok, key := CheckConsistent(d, q, r, centralRaw, centralKey);
    if !ok { return None, seen; }
    var keys := {centralKey};
    if r.centralField.Some? {
      PathKeyIsCanonical(d.latin1Of(r.centralField.value));
      keys := keys + {PathKey(d.latin1Of(r.centralField.value))};
    }
    if exists k :: k in keys && k in seen { return None, seen; }
    var portableKey := KeyOfPortable(d, q, r, centralRaw, centralKey, key);
    var decoder := DecoderPath(d, q, r);
    var portableDirectory := |decoder| > 0 && decoder[|decoder| - 1] == '/';
    a := Some(Admitted(PathOf(q, r), portableKey, portableDirectory, EndsWithSeparator(centralRaw)));
    return a, seen + keys;
  }

  /** The key of the portable path: an admitted reading's key is reused. */
  method KeyOfPortable(d: Decoders, q: NameQuery, r: Readings, centralRaw: string, centralKey: string, key: string)
    returns (portableKey: string)
    requires centralKey == Canonical(centralRaw)
    requires All(r) != [] ==> key == Canonical(All(r)[0])
    requires OneMeaning(All(r), EndsWithSeparator(centralRaw))
    ensures portableKey == Canonical(PortablePath(d, q, r))
  {
    hide Canonical;
    hide PathKey;
    hide PortablePath;
    hide All;
    var portable := PortablePath(d, q, r);
    PathKeyIsCanonical(portable);
    portableKey := if portable == centralRaw then centralKey else if portable in All(r) then key else PathKey(portable);
  }

  // ---------------------------------------------------------------- names of a whole directory

  function KeysOf(d: Decoders, q: NameQuery): set<string> {
    var r := ReadingsOf(d, q);
    if r.Some? then Keys(d, q, r.value) else {}
  }

  /** The folded output path, for entries whose path is known. */
  function OutputKeyOf(d: Decoders, q: NameQuery): set<string> {
    var r := ReadingsOf(d, q);
    if r.Some? && PathOf(q, r.value).Some? then {d.fold(P.Identity(PathOf(q, r.value).value))} else {}
  }

  function SeenKeys(d: Decoders, es: seq<Entry>): set<string> {
    if es == [] then {} else SeenKeys(d, es[..|es| - 1]) + KeysOf(d, es[|es| - 1].name)
  }

  function SeenOutputs(d: Decoders, es: seq<Entry>): set<string> {
    if es == [] then {} else SeenOutputs(d, es[..|es| - 1]) + OutputKeyOf(d, es[|es| - 1].name)
  }

  /** Name admission as the directory scan uses it, with both of its registers. */
  function Admits(d: Decoders): Names {
    (q: NameQuery, earlier: seq<Entry>) =>
      Admission(d, q, SeenKeys(d, earlier)).Some? && OutputKeyOf(d, q) !! SeenOutputs(d, earlier)
  }

  lemma {:induction false} SeenHolds(d: Decoders, es: seq<Entry>, i: nat)
    requires i < |es|
    ensures KeysOf(d, es[i].name) <= SeenKeys(d, es) && OutputKeyOf(d, es[i].name) <= SeenOutputs(d, es)
  {
    if i < |es| - 1 { SeenHolds(d, es[..|es| - 1], i); }
  }

  lemma {:induction false} ItemsAdmitted(reply: Replies, l: Layout, names: Names, maxEntries: nat,
                                         earlier: seq<Entry>, at: int)
    requires forall i :: 0 <= i < |earlier| ==> names(earlier[i].name, earlier[..i])
    requires ItemsFrom(reply, l, names, maxEntries, earlier, at).Some?
    ensures var es := ItemsFrom(reply, l, names, maxEntries, earlier, at).value.entries;
            forall i :: 0 <= i < |es| ==> names(es[i].name, es[..i])
    decreases l.end - at
  {
    if at < l.end {
      var item := ItemAt(reply, l, names, earlier, at).value;
      ItemShape(reply, l, names, earlier, at);
      if item.Record? {
        EntryWasAdmitted(reply, l, names, earlier, at);
        var more := earlier + [item.entry];
        assert forall i :: 0 <= i < |earlier| ==> more[..i] == earlier[..i];
        assert more[..|earlier|] == earlier;
        ItemsAdmitted(reply, l, names, maxEntries, more, item.entry.next);
      }
    }
  }

  lemma EntryWasAdmitted(reply: Replies, l: Layout, names: Names, earlier: seq<Entry>, at: int)
    requires ItemAt(reply, l, names, earlier, at).Some? && ItemAt(reply, l, names, earlier, at).value.Record?
    ensures names(ItemAt(reply, l, names, earlier, at).value.entry.name, earlier)
  {
  }

  /** Every name has one meaning, and no two share a collision key or an output path. */
  ghost predicate Distinct(d: Decoders, es: seq<Entry>) {
    && (forall i :: 0 <= i < |es| ==>
          ReadingsOf(d, es[i].name).Some? && Consistent(d, es[i].name, ReadingsOf(d, es[i].name).value))
    && (forall i, j :: 0 <= i < j < |es| ==>
          KeysOf(d, es[i].name) !! KeysOf(d, es[j].name) && OutputKeyOf(d, es[i].name) !! OutputKeyOf(d, es[j].name))
  }

  lemma AdmitsMeans(d: Decoders, q: NameQuery, earlier: seq<Entry>)
    requires Admits(d)(q, earlier)
    ensures ReadingsOf(d, q).Some? && Consistent(d, q, ReadingsOf(d, q).value)
    ensures KeysOf(d, q) !! SeenKeys(d, earlier) && OutputKeyOf(d, q) !! SeenOutputs(d, earlier)
  {
    hide ReadingsOf;
    hide Consistent;
    hide Keys;
  }

  lemma AdmittedAreDistinct(d: Decoders, es: seq<Entry>)
    requires forall i :: 0 <= i < |es| ==> Admits(d)(es[i].name, es[..i])
    ensures Distinct(d, es)
  {
    hide ReadingsOf;
    hide Consistent;
    hide KeysOf;
    hide OutputKeyOf;
    hide Admits;
    hide SeenKeys;
    hide SeenOutputs;
    forall i | 0 <= i < |es|
      ensures ReadingsOf(d, es[i].name).Some? && Consistent(d, es[i].name, ReadingsOf(d, es[i].name).value)
    {
      AdmitsMeans(d, es[i].name, es[..i]);
    }
    forall i, j | 0 <= i < j < |es|
      ensures KeysOf(d, es[i].name) !! KeysOf(d, es[j].name) && OutputKeyOf(d, es[i].name) !! OutputKeyOf(d, es[j].name)
    {
      SeenHolds(d, es[..j], i);
      AdmitsMeans(d, es[j].name, es[..j]);
    }
  }

  /** Main result: so it is for the names of every accepted archive. */
  lemma AcceptedNamesAreDistinct(d: Decoders, reply: Replies, size: nat, maxEntries: nat)
    requires ScanOf(reply, size, Admits(d), maxEntries).Some?
    ensures Distinct(d, ScanOf(reply, size, Admits(d), maxEntries).value.entries)
  {
    hide Distinct;
    hide Admits;
    hide LayoutOf;
    hide ItemsFrom;
    var l := LayoutOf(reply, size).value;
    ItemsAdmitted(reply, l, Admits(d), maxEntries, [], l.start);
    AdmittedAreDistinct(d, ScanOf(reply, size, Admits(d), maxEntries).value.entries);
  }
}
