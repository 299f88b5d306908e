/** Planning a manifest: which entries become outputs, and what all of them together may cost. */
module ArchivePlan {
  import opened Basics
  import opened ArchivePath
  import opened ArchiveLimits

  datatype MemberKind = File | Directory | Symlink | Hardlink | Blocked | Sparse | Other

  /** What the filter and path policy see. */
  datatype EntryKind = FileKind | DirectoryKind | SymlinkKind | OtherKind

  datatype Size = Whole(n: int) | NotWhole

  datatype Entry = Entry(path: string, kind: MemberKind, size: Size)

  datatype FilterVerdict = Extract | SkipEntry | RejectArchive

  datatype Result =
    | Planned(path: string, kind: EntryKind, size: nat)
    | Skipped
    | Rejected

  datatype Options = Options(
    strip: nat, limits: Limits, zip: bool, on: Platform,
    cwd: seq<string>, rootDir: Option<string>,
    fold: string -> string,                                   // lower case, normalised
    filter: (string, EntryKind, Size) -> FilterVerdict)

  function KindOf(k: MemberKind): (r: EntryKind)
    ensures (r.FileKind? <==> k.File?) && (r.DirectoryKind? <==> k.Directory?)
    ensures r.SymlinkKind? <==> k.Symlink? || k.Hardlink?
  {
    match k
    case File => FileKind
    case Directory => DirectoryKind
    case Symlink => SymlinkKind
    case Hardlink => SymlinkKind
    case _ => OtherKind
  }

  /** Which accepted entries are charged to the budget. */
  predicate Budgeted(kind: EntryKind, o: Options) { kind.FileKind? || !o.zip }

  function Charges(r: Result, o: Options): nat {
    if r.Planned? && Budgeted(r.kind, o) then r.size else 0
  }

  function Total(results: seq<Result>, o: Options): nat {
    if results == [] then 0 else Total(results[..|results| - 1], o) + Charges(results[|results| - 1], o)
  }

  /** Where an entry would go. */
  function Target(path: string, o: Options): Option<string> {
    var canonical := Strip(path, 0);
    if o.strip == 0 then canonical else StripOption(canonical, o.strip)
  }

  /** A stripped path is its own collision identity. */
  lemma TargetIsStripped(path: string, o: Options)
    requires Validates(path, o.on) && Target(path, o).Some?
    ensures Target(path, o) == Strip(path, o.strip)
    ensures Validates(Target(path, o).value, o.on) && Identity(Target(path, o).value) == Target(path, o).value
  {
    hide Strip;
    hide Validates;
    StripAdds(path, 0, o.strip, o.on);
    StripAdds(path, o.strip, 0, o.on);
    StrippedValidates(path, o.strip, o.on);
  }

  /** What selecting an entry should come to.  There is no second validation here and no containment
      test: for a validated entry neither can fail. */
  function Selected(e: Entry, o: Options, count: nat, seen: set<string>): Result {
    if count >= o.limits.maxEntries || !Validates(e.path, o.on) then Rejected
    else if Target(e.path, o).None? then Skipped
    else
      var path := Target(e.path, o).value;
      if |Parts(path)| > o.limits.maxEntryPathComponents || o.fold(path) in seen then Rejected
      else match o.filter(Strip(e.path, 0).value, KindOf(e.kind), e.size)
           case Extract => Planned(path, KindOf(e.kind), 0)
           case SkipEntry => Skipped
           case RejectArchive => Rejected
  }

  /** The three ways in which selecting an entry ends. */
  function SelectionOf(e: Entry, rejected: bool, relPath: Option<string>): Result {
    if rejected then Rejected
    else if relPath.None? then Skipped
    else Planned(relPath.value, KindOf(e.kind), 0)
  }

  /** What planning an entry should come to, `spent` bytes having been charged. */
  function Decided(e: Entry, o: Options, selection: Result, spent: nat): Result {
    if !selection.Planned? then selection
    else match e.kind
         case Symlink => Rejected
         case Hardlink => Rejected
         case Blocked => Rejected
         case Sparse => Rejected
         case _ =>
           if e.size.NotWhole? || e.size.n < 0 || e.size.n > MAX_SAFE_INTEGER then Rejected
           else if e.kind.Other? then Skipped
           else if Budgeted(selection.kind, o) && e.size.n > 0
                && (e.size.n > o.limits.maxEntryBytes || spent + e.size.n > o.limits.maxExtractedBytes) then Rejected
           else Planned(selection.path, selection.kind, e.size.n)
  }

  /** What one output is worth. */
  ghost predicate Good(r: Result, o: Options) {
    r.Planned? ==>
      && (r.kind.FileKind? || r.kind.DirectoryKind?)
      && Charges(r, o) <= o.limits.maxEntryBytes
      && |Parts(r.path)| <= o.limits.maxEntryPathComponents
      && Validates(r.path, o.on)
      && (o.rootDir.Some? ==> Contained(r.path, o))
  }

  /** What a whole manifest's outputs are worth: they do not collide, fit their budgets together,
      and come from no more than the permitted entries. */
  ghost predicate Sound(results: seq<Result>, o: Options) {
    && (forall i, j :: 0 <= i < j < |results| && results[i].Planned? && results[j].Planned? ==>
          o.fold(results[i].path) != o.fold(results[j].path))
    && (forall i :: 0 <= i < |results| ==> Good(results[i], o) && (results[i].Planned? ==> i < o.limits.maxEntries))
    && Total(results, o) <= o.limits.maxExtractedBytes
  }

  /** The output path, resolved on POSIX, lies strictly under the root. */
  ghost predicate Contained(path: string, o: Options)
    requires o.rootDir.Some?
  {
    var root := Resolve(o.cwd, o.rootDir.value);
    Under(root, Resolve(root, path))
  }

  lemma Placed(path: string, o: Options)
    requires Validates(path, o.on) && Target(path, o).Some? && Clean(o.cwd)
    ensures o.rootDir.Some? ==> Contained(Target(path, o).value, o)
  {
    TargetIsStripped(path, o);
    if o.rootDir.Some? {
      OutputIsUnderRoot(path, o.strip, o.cwd, o.rootDir.value, o.on);
      AcceptedIsUnderRoot(o.cwd, o.rootDir.value, Target(path, o).value);
    }
  }

  ghost predicate Seen(results: seq<Result>, o: Options, seen: set<string>) {
    forall i :: 0 <= i < |results| && results[i].Planned? ==> o.fold(results[i].path) in seen
  }

  /** A planned entry is a good output, under a new key, and affordable. */
  lemma DecidedIsGood(e: Entry, o: Options, count: nat, seen: set<string>, spent: nat)
    requires Clean(o.cwd)
    ensures var r := Decided(e, o, Selected(e, o, count, seen), spent);
            && Good(r, o) && (Charges(r, o) > 0 ==> spent + Charges(r, o) <= o.limits.maxExtractedBytes)
            && (r.Planned? ==> count < o.limits.maxEntries && Selected(e, o, count, seen).Planned?
                               && r.path == Selected(e, o, count, seen).path && o.fold(r.path) !in seen)
  {
    hide Parts;
    hide Strip;
    if Decided(e, o, Selected(e, o, count, seen), spent).Planned? {
      TargetIsStripped(e.path, o);
      Placed(e.path, o);
    }
  }

  lemma StaysSound(results: seq<Result>, r: Result, o: Options, seen: set<string>, spent: nat)
    requires Sound(results, o) && Seen(results, o, seen) && Total(results, o) <= spent
    requires Good(r, o) && (Charges(r, o) > 0 ==> spent + Charges(r, o) <= o.limits.maxExtractedBytes)
    requires r.Planned? ==> |results| < o.limits.maxEntries && o.fold(r.path) !in seen
    ensures Sound(results + [r], o)
    ensures Seen(results + [r], o, if r.Planned? then seen + {o.fold(r.path)} else seen)
    ensures Total(results + [r], o) == Total(results, o) + Charges(r, o)
  {
    hide Good;
    assert (results + [r])[..|results|] == results;
  }

  // ---------------------------------------------------------------- manifests, by kinds and sizes

  /** The sizes of the planned files, or of all that is planned. */
  function PlannedBytes(results: seq<Result>, filesOnly: bool): nat {
    if results == [] then 0
    else
      var r := results[|results| - 1];
      PlannedBytes(results[..|results| - 1], filesOnly)
      + if r.Planned? && (r.kind.FileKind? || !filesOnly) then r.size else 0
  }

  /** Each planned file, or each planned entry, is within the limit. */
  predicate EachWithin(results: seq<Result>, filesOnly: bool, limit: nat) {
    forall r :: r in results && r.Planned? && (r.kind.FileKind? || !filesOnly) ==> r.size <= limit
  }

  /** ZIP charges files only, the other formats whatever they plan. */
  lemma {:induction false} TotalIsPlanned(results: seq<Result>, o: Options)
    requires forall i :: 0 <= i < |results| ==> Good(results[i], o)
    ensures Total(results, o) == PlannedBytes(results, o.zip)
    ensures PlannedBytes(results, true) <= PlannedBytes(results, false)
  {
    if results != [] { TotalIsPlanned(results[..|results| - 1], o); }
  }

  /** A planned entry is the file or directory it was in the manifest, at its stripped path and with
      its declared size, and the filter let it through. */
  ghost predicate Faithful(e: Entry, r: Result, o: Options) {
    r.Planned? ==>
      && ((e.kind.File? && r.kind.FileKind?) || (e.kind.Directory? && r.kind.DirectoryKind?))
      && e.size == Whole(r.size)
      && Validates(e.path, o.on) && Strip(e.path, o.strip) == Some(r.path)
      && Strip(e.path, 0).Some? && o.filter(Strip(e.path, 0).value, r.kind, e.size).Extract?
  }

  ghost predicate AllFaithful(entries: seq<Entry>, results: seq<Result>, o: Options) {
    |results| <= |entries| && forall i :: 0 <= i < |results| ==> Faithful(entries[i], results[i], o)
  }

  lemma OneMoreFaithful(entries: seq<Entry>, results: seq<Result>, r: Result, o: Options)
    requires AllFaithful(entries, results, o) && |results| < |entries| && Faithful(entries[|results|], r, o)
    ensures AllFaithful(entries, results + [r], o)
  {
    hide Faithful;
  }

  lemma DecidedIsFaithful(e: Entry, o: Options, count: nat, seen: set<string>, spent: nat)
    ensures Faithful(e, Decided(e, o, Selected(e, o, count, seen), spent), o)
  {
    hide Parts;
    hide Strip;
    if Selected(e, o, count, seen).Planned? { TargetIsStripped(e.path, o); }
  }

  /** By itself the entry can be planned.  The size of a ZIP directory is never limited. */
  ghost predicate Acceptable(e: Entry, o: Options) {
    && (e.kind.File? || e.kind.Directory?)
    && e.size.Whole? && 0 <= e.size.n <= MAX_SAFE_INTEGER
    && (e.kind.File? || !o.zip ==> e.size.n <= o.limits.maxEntryBytes)
    && Validates(e.path, o.on)
    && Strip(e.path, 0).Some? && Strip(e.path, o.strip).Some?
    && |Parts(Strip(e.path, o.strip).value)| <= o.limits.maxEntryPathComponents
    && o.filter(Strip(e.path, 0).value, if e.kind.File? then FileKind else DirectoryKind, e.size).Extract?
  }

  function Key(e: Entry, o: Options): string
    requires Strip(e.path, o.strip).Some?
  {
    o.fold(Strip(e.path, o.strip).value)
  }

  /** What an entry that is planned costs. */
  function Cost(e: Entry, o: Options): nat {
    if (e.kind.File? || !o.zip) && e.size.Whole? && e.size.n > 0 then e.size.n else 0
  }

  function DeclaredBytes(entries: seq<Entry>, o: Options): nat {
    if entries == [] then 0 else DeclaredBytes(entries[..|entries| - 1], o) + Cost(entries[|entries| - 1], o)
  }

  /** A manifest without a collision that fits its limits. */
  ghost predicate Fits(entries: seq<Entry>, o: Options) {
    && |entries| <= o.limits.maxEntries
    && (forall i :: 0 <= i < |entries| ==> Acceptable(entries[i], o))
    && (forall i, j :: 0 <= i < j < |entries| ==> Key(entries[i], o) != Key(entries[j], o))
    && DeclaredBytes(entries, o) <= o.limits.maxExtractedBytes
  }

  ghost function PlannedWhole(e: Entry, o: Options): Result
    requires Acceptable(e, o)
  {
    Planned(Strip(e.path, o.strip).value, if e.kind.File? then FileKind else DirectoryKind, e.size.n)
  }

  lemma AcceptableIsPlanned(e: Entry, o: Options, count: nat, seen: set<string>, spent: nat)
    requires Acceptable(e, o) && count < o.limits.maxEntries && Key(e, o) !in seen
    requires spent + Cost(e, o) <= o.limits.maxExtractedBytes
    ensures Decided(e, o, Selected(e, o, count, seen), spent) == PlannedWhole(e, o)
    ensures Charges(PlannedWhole(e, o), o) == Cost(e, o)
  {
    hide Parts;
    hide Strip;
    hide Validates;
    StripAdds(e.path, 0, o.strip, o.on);
    TargetIsStripped(e.path, o);
  }

  lemma {:induction false} PrefixCosts(entries: seq<Entry>, o: Options, n: nat)
    requires n <= |entries|
    ensures DeclaredBytes(entries[..n], o) <= DeclaredBytes(entries, o)
    ensures n < |entries| ==>
              DeclaredBytes(entries[..n + 1], o) == DeclaredBytes(entries[..n], o) + Cost(entries[n], o)
  {
    if n < |entries| {
      assert entries[..n + 1][..n] == entries[..n];
      PrefixCosts(entries[..|entries| - 1], o, n);
      assert entries[..|entries| - 1][..n] == entries[..n];
    } else {
      assert entries[..n] == entries;
    }
  }

  /** Each entry was planned as it is. */
  ghost predicate AllPlanned(entries: seq<Entry>, results: seq<Result>, o: Options) {
    && |results| <= |entries|
    && forall i :: 0 <= i < |results| ==> Acceptable(entries[i], o) && results[i] == PlannedWhole(entries[i], o)
  }

  /** All of the first entries were planned, and nothing but their keys and sizes was taken. */
  ghost predicate PlannedSoFar(results: seq<Result>, seen: set<string>, spent: nat, entries: seq<Entry>, o: Options)
    requires Fits(entries, o) && |results| <= |entries|
  {
    && AllPlanned(entries, results, o)
    && (forall key :: key in seen ==> exists j :: 0 <= j < |results| && Key(entries[j], o) == key)
    && spent == DeclaredBytes(entries[..|results|], o)
  }

  lemma NothingPlanned(entries: seq<Entry>, o: Options)
    ensures AllFaithful(entries, [], o)
    ensures Fits(entries, o) ==> AllPlanned(entries, [], o) && PlannedSoFar([], {}, 0, entries, o)
  {
    assert entries[..0] == [];
  }

  lemma NextIsPlanned(results: seq<Result>, seen: set<string>, spent: nat, entries: seq<Entry>, o: Options)
    requires Fits(entries, o) && |results| < |entries| && PlannedSoFar(results, seen, spent, entries, o)
    ensures var e := entries[|results|];
            && Decided(e, o, Selected(e, o, |results|, seen), spent) == PlannedWhole(e, o)
            && Charges(PlannedWhole(e, o), o) == Cost(e, o)
            && AllPlanned(entries, results + [PlannedWhole(e, o)], o)
            && PlannedSoFar(results + [PlannedWhole(e, o)], seen + {Key(e, o)}, spent + Cost(e, o), entries, o)
  {
    hide Strip;
    hide Validates;
    hide Parts;
    hide Decided;
    hide Selected;
    hide Charges;
    hide Cost;
    hide Key;
    hide PlannedWhole;
    var n := |results|;
    var e := entries[n];
    PrefixCosts(entries, o, n);
    PrefixCosts(entries, o, n + 1);
    assert Key(e, o) !in seen;
    AcceptableIsPlanned(e, o, n, seen, spent);
    var now, next := seen + {Key(e, o)}, results + [PlannedWhole(e, o)];
    forall key | key in now ensures exists j :: 0 <= j < |next| && Key(entries[j], o) == key {
      if key == Key(e, o) { assert 0 <= n < |next| && Key(entries[n], o) == key; }
    }
  }

  lemma SoundByKinds(results: seq<Result>, o: Options)
    requires Sound(results, o)
    ensures EachWithin(results, o.zip, o.limits.maxEntryBytes)
    ensures PlannedBytes(results, o.zip) <= o.limits.maxExtractedBytes
  {
    hide Contained;
    hide Validates;
    hide Parts;
    TotalIsPlanned(results, o);
    assert forall r :: r in results ==> Good(r, o);
  }

  class Planner {
    const o: Options
    var entryCount: nat
    var seen: set<string>
    const budget: ByteBudget
    ghost var results: seq<Result>

    ghost predicate Valid() reads this, budget {
      && budget.limits == o.limits && Clean(o.cwd)
      && entryCount == |results|
      && Seen(results, o, seen)
      && Total(results, o) <= budget.extractedBytes
      && Sound(results, o)
    }

    constructor (o: Options)
      requires Clean(o.cwd)
      ensures Valid() && fresh(budget) && this.o == o && results == [] && seen == {} && budget.extractedBytes == 0
    {
      this.o, entryCount, seen, results := o, 0, {}, [];
      budget := new ByteBudget(o.limits);
    }

    /** createArchiveEntrySelector's select: the output path, nothing, or a rejection. */
    method Select(e: Entry) returns (rejected: bool, relPath: Option<string>)
      requires Clean(o.cwd)
      modifies this`entryCount, this`seen
      ensures entryCount == old(entryCount) + 1 && old(seen) <= seen
      ensures rejected ==> relPath.None?
      ensures Selected(e, o, old(entryCount), old(seen))
           == SelectionOf(e, rejected, relPath)
      ensures relPath.Some? ==> seen == old(seen) + {o.fold(relPath.value)}
    {
      entryCount := entryCount + 1;
      relPath := None;
      if entryCount > o.limits.maxEntries { return true, None; }
      if !Validates(e.path, o.on) { return true, None; }
      var canonical := Strip(e.path, 0);
      if canonical.None? { return false, None; }
      var target := if o.strip == 0 then canonical else Strip(canonical.value, o.strip);
      if target.None? { return false, None; }
      TargetIsStripped(e.path, o);
      if !Validates(target.value, o.on) { return true, None; }
      if |Parts(target.value)| > o.limits.maxEntryPathComponents { return true, None; }
      var key := o.fold(Identity(target.value));
      if key in seen { return true, None; }
      seen := seen + {key};
      if o.rootDir.Some? {
        OutputIsUnderRoot(e.path, o.strip, o.cwd, o.rootDir.value, o.on);
        if Output(o.cwd, o.rootDir.value, target.value).None? { return true, None; }
      }
      match o.filter(canonical.value, KindOf(e.kind), e.size) {
        case Extract => return false, target;
        case SkipEntry => return false, None;
        case RejectArchive => return true, None;
      }
    }

    /** createArchiveEntryPlanner's closure. */
    method Plan(e: Entry) returns (r: Result)
      requires Valid()
      modifies this, budget
      ensures Valid() && results == old(results) + [r] && Faithful(e, r, o)
      ensures r.Planned? ==> seen == old(seen) + {o.fold(r.path)}
      ensures r.Planned? ==> budget.extractedBytes == old(budget.extractedBytes) + Charges(r, o)
      ensures r == Decided(e, o, Selected(e, o, old(entryCount), old(seen)), old(budget.extractedBytes))
    {
      var rejected, relPath := Select(e);
      hide Selected;
      hide Decided;
      hide Sound;
      hide Good;
      ghost var spent := budget.extractedBytes;
      DecidedIsGood(e, o, old(entryCount), old(seen), spent);
      DecidedIsFaithful(e, o, old(entryCount), old(seen), spent);
      hide Faithful;
      r := Decide(e, rejected, relPath);
      StaysSound(results, r, o, old(seen), spent);
      results := results + [r];
    }

    /** What follows a selection. */
    method Decide(e: Entry, rejected: bool, relPath: Option<string>) returns (r: Result)
      requires budget.limits == o.limits && (rejected ==> relPath.None?)
      modifies budget
      ensures budget.extractedBytes >= old(budget.extractedBytes) + Charges(r, o)
      ensures r.Planned? ==> budget.extractedBytes == old(budget.extractedBytes) + Charges(r, o)
      ensures r.Planned? ==> relPath == Some(r.path)
      ensures r == Decided(e, o, SelectionOf(e, rejected, relPath), old(budget.extractedBytes))
    {
      if rejected { return Rejected; }
      if relPath.None? { return Skipped; }
      var kind := KindOf(e.kind);
      if e.kind.Sparse? || kind.SymlinkKind? || e.kind.Blocked? { return Rejected; }
      if e.size.NotWhole? || e.size.n < 0 || e.size.n > MAX_SAFE_INTEGER { return Rejected; }
      if kind.OtherKind? { return Skipped; }
      if Budgeted(kind, o) {
        budget.StartEntry();
        var charge := budget.AddEntrySize(e.size.n);
        if !charge.Charged? { return Rejected; }
      }
      return Planned(relPath.value, kind, e.size.n);
    }
  }

  /** A whole manifest, planned on past any rejection. */
  method PlanAll(entries: seq<Entry>, o: Options) returns (results: seq<Result>)
    requires Clean(o.cwd)
    ensures |results| == |entries| && Sound(results, o)
    ensures AllFaithful(entries, results, o)
    // Files are always charged, and in other formats than ZIP so are directories.
    ensures EachWithin(results, o.zip, o.limits.maxEntryBytes)
    ensures PlannedBytes(results, o.zip) <= o.limits.maxExtractedBytes
    // A manifest that fits is planned whole, so nothing else is charged or refused.
    ensures Fits(entries, o) ==> AllPlanned(entries, results, o)
  {
    hide Faithful;
    hide AllFaithful;
    hide Decided;
    hide Selected;
    hide Sound;
    hide Seen;
    hide Total;
    hide PlannedBytes;
    hide EachWithin;
    hide Fits;
    hide PlannedSoFar;
    hide AllPlanned;
    var planner := new Planner(o);
    results := [];
    NothingPlanned(entries, o);
    for i := 0 to |entries|
      invariant planner.Valid() && fresh(planner) && fresh(planner.budget) && planner.o == o
      invariant planner.results == results && |results| == i
      invariant AllFaithful(entries, results, o)
      invariant Fits(entries, o) ==> AllPlanned(entries, results, o)
      invariant Fits(entries, o) ==> PlannedSoFar(results, planner.seen, planner.budget.extractedBytes, entries, o)
    {
      if Fits(entries, o) { NextIsPlanned(results, planner.seen, planner.budget.extractedBytes, entries, o); }
      var r := planner.Plan(entries[i]);
      OneMoreFaithful(entries, results, r, o);
      results := results + [r];
    }
    SoundByKinds(results, o);
  }
}
