/** Archives with plain names: written and admitted with the real admission of names. */
module ZipPlainNames {
  import opened Basics
  import opened ZipBytes
  import opened ZipDirectory
  import opened ZipAdmission
  import opened ZipNames
  import opened ZipWriter
  import opened ZipRoundTrip
  import P = ArchivePath

  /** The same ASCII text in both headers, without a Unicode field. */
  predicate Plain(d: Decoders, q: NameQuery) {
    && q.central == q.local && q.central != [] && AllAscii(q.central)
    && 0x7075 !in q.centralExtra && 0x7075 !in q.localExtra
    && d.lossy(q.local) == Latin1(q.local) && P.Validates(Latin1(q.central), d.on)
  }

  /** The path that extraction will use, folded. */
  function FoldedPath(d: Decoders, q: NameQuery): string { d.fold(P.Identity(Latin1(q.central))) }

  lemma PlainKeys(d: Decoders, q: NameQuery)
    requires Plain(d, q)
    ensures KeysOf(d, q) == {Canonical(Latin1(q.central))} && OutputKeyOf(d, q) == {FoldedPath(d, q)}
  {
    hide Canonical;
    hide Latin1;
    hide P.Validates;
    hide P.Identity;
    hide ReadingsOf;
    PlainReadings(d, q);
  }

  lemma PlainIsAdmitted(d: Decoders, q: NameQuery, earlier: seq<Entry>)
    requires Plain(d, q)
    ensures Admits(d)(q, earlier) <==>
              Canonical(Latin1(q.central)) !in SeenKeys(d, earlier) && FoldedPath(d, q) !in SeenOutputs(d, earlier)
  {
    hide Canonical;
    hide Latin1;
    hide P.Validates;
    hide ZipNames.Admission;
    hide FoldedPath;
    hide OutputKeyOf;
    hide SeenKeys;
    hide SeenOutputs;
    PlainKeys(d, q);
    PlainNameIsAdmitted(d, q, SeenKeys(d, earlier));
  }

  lemma {:induction false} SeenIsPlain(d: Decoders, es: seq<Entry>)
    requires forall e :: e in es ==> Plain(d, e.name)
    ensures forall k :: k in SeenKeys(d, es) ==> exists i :: 0 <= i < |es| && Canonical(Latin1(es[i].name.central)) == k
    ensures forall k :: k in SeenOutputs(d, es) ==> exists i :: 0 <= i < |es| && FoldedPath(d, es[i].name) == k
  {
    hide Canonical;
    hide Latin1;
    hide Plain;
    hide FoldedPath;
    hide KeysOf;
    hide OutputKeyOf;
    if es != [] {
      var last, rest := es[|es| - 1], es[..|es| - 1];
      SeenIsPlain(d, rest);
      PlainKeys(d, last.name);
      forall k | k in SeenKeys(d, es) ensures exists i :: 0 <= i < |es| && Canonical(Latin1(es[i].name.central)) == k {
        if k in SeenKeys(d, rest) {
          var i :| 0 <= i < |rest| && Canonical(Latin1(rest[i].name.central)) == k;
          assert es[i] == rest[i];
        }
      }
      forall k | k in SeenOutputs(d, es) ensures exists i :: 0 <= i < |es| && FoldedPath(d, es[i].name) == k {
        if k in SeenOutputs(d, rest) {
          var i :| 0 <= i < |rest| && FoldedPath(d, rest[i].name) == k;
          assert es[i] == rest[i];
        }
      }
    }
  }

  /** No two plain names share a path key or a folded output path. */
  ghost predicate NamesApart(d: Decoders, es: seq<Entry>) {
    && (forall e :: e in es ==> Plain(d, e.name))
    && (forall i, j :: 0 <= i < j < |es| ==>
          Canonical(Latin1(es[i].name.central)) != Canonical(Latin1(es[j].name.central)))
    && (forall i, j :: 0 <= i < j < |es| ==> FoldedPath(d, es[i].name) != FoldedPath(d, es[j].name))
  }

  lemma NextIsAdmitted(d: Decoders, es: seq<Entry>, n: nat)
    requires NamesApart(d, es) && n < |es|
    ensures Admits(d)(es[n].name, es[..n])
  {
    hide Canonical;
    hide Latin1;
    hide Plain;
    hide FoldedPath;
    hide Admits;
    hide SeenKeys;
    hide SeenOutputs;
    var earlier := es[..n];
    assert forall e :: e in earlier ==> e in es;
    SeenIsPlain(d, earlier);
    PlainIsAdmitted(d, es[n].name, earlier);
  }

  lemma FirstIsAdmitted(names: Names, es: seq<Entry>, n: nat)
    requires n < |es| && names(es[n].name, es[..n]) && NamesAdmitted(names, es[..n + 1], es[n + 1..])
    ensures NamesAdmitted(names, es[..n], es[n..])
  {
    assert es[n..][1..] == es[n + 1..] && es[..n] + [es[n]] == es[..n + 1];
  }

  lemma {:induction false} PlainNamesAreAdmitted(d: Decoders, es: seq<Entry>, n: nat)
    requires NamesApart(d, es) && n <= |es|
    ensures NamesAdmitted(Admits(d), es[..n], es[n..])
    decreases |es| - n
  {
    if n < |es| {
      hide *;
      PlainNamesAreAdmitted(d, es, n + 1);
      NextIsAdmitted(d, es, n);
      FirstIsAdmitted(Admits(d), es, n);
    }
  }

  /** Main result: an archive written with plain, distinct names is admitted, over its bytes and over
      its staged file, with exactly what was written; only a second end record prevents it. */
  method AdmitPlain(z: Zip, d: Decoders, maxEntries: nat, maxArchiveBytes: nat)
    returns (buffered: Option<Scan>, staged: Option<Scan>, emitted: seq<Entry>)
    requires Fits(z) && |File(z)| <= maxArchiveBytes && |z.members| <= maxEntries
    requires NamesApart(d, WrittenEntries(z))
    ensures buffered == staged && (buffered.Some? <==> OneEnd(z))
    ensures OneEnd(z) ==> emitted == buffered.value.entries && AllHold(z, emitted)
  {
    hide *;
    PlainNamesAreAdmitted(d, WrittenEntries(z), 0);
    assert WrittenEntries(z)[..0] == [] && WrittenEntries(z)[0..] == WrittenEntries(z);
    buffered, staged, emitted := AdmitWritten(z, Admits(d), maxEntries, maxArchiveBytes);
  }
}
