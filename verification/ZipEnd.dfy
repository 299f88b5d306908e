/** Searching for the end-of-central-directory record: the fast searches against what they
    are meant to find. */
module ZipEnd {
  import opened Basics
  import opened ZipBytes

  const END_SIGNATURE := 0x06054b50
  const END_BYTES := 22
  const MAX_COMMENT := 0xffff
  const MAX_CANDIDATES := 16

  datatype EndSearch = Missing | Ambiguous | Found(offset: nat)

  /** An end record stands at `at`: its signature, and a comment that reaches the end. */
  predicate EndAt(b: Bytes, at: int) {
    0 <= at && at + END_BYTES <= |b| && U32(b, at) == END_SIGNATURE && at + END_BYTES + U16(b, at + 20) == |b|
  }

  predicate SignatureBytes(b: Bytes, at: int) {
    0 <= at && at + 4 <= |b| && b[at] == 0x50 && b[at + 1] == 0x4b && b[at + 2] == 0x05 && b[at + 3] == 0x06
  }

  lemma SignatureIsItsBytes(b: Bytes, at: int)
    requires 0 <= at && at + 4 <= |b|
    ensures U32(b, at) == END_SIGNATURE <==> SignatureBytes(b, at)
  {
  }

  /** What a strict search must answer. */
  ghost predicate Answers(b: Bytes, r: EndSearch) {
    match r
    case Missing => forall at :: !EndAt(b, at)
    case Found(o) => EndAt(b, o) && forall at :: EndAt(b, at) ==> at == o
    case Ambiguous => exists o, p :: o < p && EndAt(b, o) && EndAt(b, p)
  }

  /** The specification determines the answer, so every two strict searches agree. */
  lemma AnswersAgree(b: Bytes, r: EndSearch, s: EndSearch)
    requires Answers(b, r) && Answers(b, s)
    ensures r == s
  {
  }

  /** Buffer.indexOf for the four signature bytes. */
  method IndexOf(b: Bytes, from: nat) returns (r: int)
    ensures r >= 0 ==> from <= r && SignatureBytes(b, r) && forall at :: from <= at < r ==> !SignatureBytes(b, at)
    ensures r < 0 ==> r == -1 && forall at :: from <= at ==> !SignatureBytes(b, at)
  {
    var i := from;
    while i + 4 <= |b|
      invariant from <= i
      invariant forall at :: from <= at < i ==> !SignatureBytes(b, at)
    {
      if SignatureBytes(b, i) { return i; }
      i := i + 1;
    }
    return -1;
  }

  /** Buffer.lastIndexOf for the four signature bytes. */
  method LastIndexOf(b: Bytes, from: nat) returns (r: int)
    ensures -1 <= r <= from
    ensures r >= 0 ==> SignatureBytes(b, r)
    ensures forall at :: r < at <= from ==> !SignatureBytes(b, at)
  {
    r := from;
    while r >= 0
      invariant -1 <= r <= from
      invariant forall at :: r < at <= from ==> !SignatureBytes(b, at)
    {
      if SignatureBytes(b, r) { return; }
      r := r - 1;
    }
  }

  /** denseEndOffset. */
  method DenseEndOffset(tail: Bytes) returns (r: EndSearch)
    ensures Answers(tail, r)
  {
    r := Missing;
    var offset := |tail| - END_BYTES;
    while offset >= 0
      invariant offset + END_BYTES <= |tail|
      invariant !r.Ambiguous?
      invariant r.Missing? ==> forall at :: offset < at ==> !EndAt(tail, at)
      invariant r.Found? ==> offset < r.offset && EndAt(tail, r.offset)
      invariant r.Found? ==> forall at :: offset < at && EndAt(tail, at) ==> at == r.offset
    {
      if U32(tail, offset) == END_SIGNATURE && offset + END_BYTES + U16(tail, offset + 20) == |tail| {
        assert EndAt(tail, offset);
        if r.Found? { return Ambiguous; }
        r := Found(offset);
      }
      offset := offset - 1;
    }
  }

  /** endOffset: at most sixteen native searches before falling back on the dense scan. */
  method EndOffset(tail: Bytes) returns (r: EndSearch)
    ensures Answers(tail, r)
  {
    r := Missing;
    var from := 0;
    var candidates := 0;
    while candidates < MAX_CANDIDATES
      invariant 0 <= from
      invariant !r.Ambiguous?
      invariant r.Missing? ==> forall at :: at < from ==> !EndAt(tail, at)
      invariant r.Found? ==> r.offset < from && EndAt(tail, r.offset)
      invariant r.Found? ==> forall at :: at < from && EndAt(tail, at) ==> at == r.offset
    {
      var offset := IndexOf(tail, from);
      forall at | 0 <= at && at + 4 <= |tail|
        ensures U32(tail, at) == END_SIGNATURE <==> SignatureBytes(tail, at)
      {
        SignatureIsItsBytes(tail, at);
      }
      if offset < 0 || offset > |tail| - END_BYTES { return; }
      if offset + END_BYTES + U16(tail, offset + 20) == |tail| {
        assert EndAt(tail, offset);
        if r.Found? { return Ambiguous; }
        r := Found(offset);
      }
      from := offset + 1;
      candidates := candidates + 1;
    }
    r := DenseEndOffset(tail);
  }

  /** findZipEndOfCentralDirectory: the public count hint keeps the latest end record. */
  method FindLatestEnd(buffer: Bytes) returns (r: int)
    ensures r == -1 || EndAt(buffer, r)
    ensures forall at :: r < at ==> !EndAt(buffer, at)
  {
    if |buffer| < END_BYTES { return -1; }
    var minOffset := if |buffer| - END_BYTES - MAX_COMMENT > 0 then |buffer| - END_BYTES - MAX_COMMENT else 0;
    var lastOffset := |buffer| - END_BYTES;
    if U32(buffer, lastOffset) == END_SIGNATURE && U16(buffer, lastOffset + 20) == 0 { return lastOffset; }
    var tail := buffer[minOffset..];
    var from := lastOffset - minOffset - 1;
    var candidates := 0;
    while candidates < MAX_CANDIDATES && from >= 0
      invariant -1 <= from < lastOffset - minOffset
      invariant forall at :: minOffset + from < at ==> !EndAt(buffer, at)
    {
      var found := LastIndexOf(tail, from);
      forall at | minOffset + found < at <= minOffset + from && at + END_BYTES <= |buffer|
        ensures !EndAt(buffer, at)
      {
        SignatureIsItsBytes(buffer, at);
        assert !SignatureBytes(tail, at - minOffset);
      }
      if found < 0 {
        EndsAreNear(buffer, minOffset);
        return -1;
      }
      var offset := minOffset + found;
      SignatureIsItsBytes(buffer, offset);
      if offset + END_BYTES + U16(buffer, offset + 20) == |buffer| { return offset; }
      from := found - 1;
      candidates := candidates + 1;
    }
    var offset := minOffset + from;
    while offset >= minOffset
      invariant minOffset - 1 <= offset < lastOffset
      invariant forall at :: offset < at ==> !EndAt(buffer, at)
    {
      if U32(buffer, offset) == END_SIGNATURE && offset + END_BYTES + U16(buffer, offset + 20) == |buffer| {
        return offset;
      }
      offset := offset - 1;
    }
    EndsAreNear(buffer, minOffset);
    return -1;
  }

  /** A comment length has two bytes, so no end record starts before `minOffset`. */
  lemma EndsAreNear(b: Bytes, minOffset: nat)
    requires minOffset == 0 || minOffset == |b| - END_BYTES - MAX_COMMENT
    ensures forall at :: at < minOffset ==> !EndAt(b, at)
  {
  }

  /** The two searches agree: a strict answer is the latest record, and the hint finds nothing
      exactly when the strict search does. */
  lemma StrictAgreesWithLatest(b: Bytes, r: EndSearch, latest: int)
    requires Answers(b, r)
    requires latest == -1 || EndAt(b, latest)
    requires forall at :: latest < at ==> !EndAt(b, at)
    ensures r.Missing? <==> latest == -1
    ensures r.Found? ==> r.offset == latest
    ensures r.Ambiguous? <==> exists at :: at < latest && EndAt(b, at)
  {
    if latest != -1 && r.Found? { assert EndAt(b, latest); }
    if r.Ambiguous? {
      var o, p :| o < p && EndAt(b, o) && EndAt(b, p);
      assert o < latest;
    }
    if at :| at < latest && EndAt(b, at) {
      assert at < latest && EndAt(b, at) && EndAt(b, latest);
    }
  }
}
