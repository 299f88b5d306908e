/** The path algebra of archive entries: validation, stripping and resolution under a root. */
module ArchivePath {
  import opened Basics

  // ---------------------------------------------------------------- strings and segments

  function Split(s: string): (r: seq<string>)
    ensures |r| > 0 && forall i :: 0 <= i < |r| ==> '/' !in r[i] && ('\\' !in s ==> '\\' !in r[i])
  {
    if s == [] then [[]]
    else
      var rest := Split(s[1..]);
      if s[0] == '/' then [[]] + rest else [[s[0]] + rest[0]] + rest[1..]
  }

  function Join(parts: seq<string>): string {
    if parts == [] then []
    else if |parts| == 1 then parts[0]
    else parts[0] + "/" + Join(parts[1..])
  }

  /** normalizeArchiveEntryPath. */
  function Slashed(s: string): (r: string)
    ensures |r| == |s| && forall i :: 0 <= i < |s| ==> r[i] == if s[i] == '\\' then '/' else s[i]
  {
    if s == [] then [] else [if s[0] == '\\' then '/' else s[0]] + Slashed(s[1..])
  }

  lemma {:induction false} SplitWord(word: string, rest: string)
    requires '/' !in word
    ensures Split(word + "/" + rest) == [word] + Split(rest)
    ensures Split(word) == [word]
  {
    var s := word + "/" + rest;
    if word == [] {
      assert s[1..] == rest;
    } else {
      assert s[1..] == word[1..] + "/" + rest;
      SplitWord(word[1..], rest);
      assert [word[0]] + word[1..] == word;
    }
  }

  lemma {:induction false} SplitOfJoin(parts: seq<string>)
    requires |parts| > 0 && forall i :: 0 <= i < |parts| ==> '/' !in parts[i]
    ensures Split(Join(parts)) == parts
  {
    if |parts| == 1 {
      SplitWord(parts[0], "");
    } else {
      SplitOfJoin(parts[1..]);
      SplitWord(parts[0], Join(parts[1..]));
    }
  }

  lemma JoinCons(first: string, rest: seq<string>)
    ensures Join([first] + rest) == if rest == [] then first else first + "/" + Join(rest)
  {
  }

  lemma JoinPrepends(c: char, first: string, more: seq<string>)
    ensures Join([[c] + first] + more) == [c] + Join([first] + more)
  {
  }

  lemma {:induction false} JoinOfSplit(s: string)
    ensures Join(Split(s)) == s
  {
    hide Join;
    if s == [] {
      JoinCons("", []);
      assert [""] + [] == [""];
    } else {
      var rest := Split(s[1..]);
      JoinOfSplit(s[1..]);
      assert [rest[0]] + rest[1..] == rest;
      JoinPrepends(s[0], rest[0], rest[1..]);
      JoinCons("", rest);
      assert [s[0]] + s[1..] == s && "/" + s[1..] == "" + "/" + s[1..];
    }
  }

  lemma {:induction false} SlashedJoin(parts: seq<string>)
    requires forall i :: 0 <= i < |parts| ==> '\\' !in parts[i]
    ensures '\\' !in Join(parts) && Slashed(Join(parts)) == Join(parts)
  {
    if |parts| > 1 { SlashedJoin(parts[1..]); }
  }

  // ---------------------------------------------------------------- path.posix.normalize

  /** The segment stack of normalize and resolve. */
  function Fold(segments: seq<string>, absolute: bool, stack: seq<string>): seq<string>
    decreases |segments|
  {
    if segments == [] then stack
    else
      var s, rest := segments[0], segments[1..];
      if s == "" || s == "." then Fold(rest, absolute, stack)
      else if s != ".." then Fold(rest, absolute, stack + [s])
      else if |stack| > 0 && stack[|stack| - 1] != ".." then Fold(rest, absolute, stack[..|stack| - 1])
      else if absolute then Fold(rest, absolute, stack)
      else Fold(rest, absolute, stack + [s])
  }

  predicate IsAbsolute(s: string) { |s| > 0 && s[0] == '/' }

  function Normalize(s: string): string {
    if s == "" then "."
    else
      var body := Join(Fold(Split(s), IsAbsolute(s), []));
      var slash := s[|s| - 1] == '/';
      if body == "" then if IsAbsolute(s) then "/" else if slash then "./" else "."
      else (if IsAbsolute(s) then "/" else "") + body + (if slash then "/" else "")
  }

  predicate Word(s: string) { s != "" && s != "." && '/' !in s }

  predicate Clean(segments: seq<string>) {
    forall i :: 0 <= i < |segments| ==> Word(segments[i]) && segments[i] != ".."
  }

  /** Parent segments only at the front. */
  predicate Normal(segments: seq<string>) {
    && (forall i :: 0 <= i < |segments| ==> Word(segments[i]))
    && (forall i, j :: 0 <= i < j < |segments| && segments[j] == ".." ==> segments[i] == "..")
  }

  lemma {:induction false} FoldIsNormal(segments: seq<string>, stack: seq<string>)
    requires Normal(stack) && forall i :: 0 <= i < |segments| ==> '/' !in segments[i]
    ensures Normal(Fold(segments, false, stack))
    ensures (forall i :: 0 <= i < |segments| ==> '\\' !in segments[i])
              && (forall i :: 0 <= i < |stack| ==> '\\' !in stack[i]) ==>
              forall i :: 0 <= i < |Fold(segments, false, stack)| ==> '\\' !in Fold(segments, false, stack)[i]
    decreases |segments|
  {
    if segments != [] {
      var s, rest := segments[0], segments[1..];
      if s == "" || s == "." {
        FoldIsNormal(rest, stack);
      } else if s == ".." && |stack| > 0 && stack[|stack| - 1] != ".." {
        FoldIsNormal(rest, stack[..|stack| - 1]);
      } else {
        FoldIsNormal(rest, stack + [s]);
      }
    }
  }

  lemma {:induction false} FoldOfNormal(segments: seq<string>, absolute: bool, stack: seq<string>)
    requires Normal(stack + segments) && (absolute ==> forall i :: 0 <= i < |segments| ==> segments[i] != "..")
    ensures Fold(segments, absolute, stack) == stack + segments
    decreases |segments|
  {
    if segments == [] {
      assert stack + segments == stack;
    } else {
      var whole := stack + segments;
      assert whole[|stack|] == segments[0] && Word(whole[|stack|]);
      assert |stack| > 0 ==> whole[|stack| - 1] == stack[|stack| - 1];
      assert stack + [segments[0]] + segments[1..] == whole;
      FoldOfNormal(segments[1..], absolute, stack + [segments[0]]);
    }
  }

  lemma {:induction false} JoinOfWords(parts: seq<string>)
    requires |parts| > 0 && forall i :: 0 <= i < |parts| ==> Word(parts[i])
    ensures var j := Join(parts); |j| > 0 && j[0] != '/' && j[|j| - 1] != '/' && j != "." && j != "./"
  {
    if |parts| > 1 {
      JoinOfWords(parts[1..]);
      var tail := Join(parts[1..]);
      assert Join(parts) == parts[0] + "/" + tail;
      assert Join(parts)[|Join(parts)| - 1] == tail[|tail| - 1];
    }
  }

  lemma NormalizeRelative(s: string)
    requires s != "" && s[0] != '/' && s[|s| - 1] != '/'
    ensures Normalize(s) == var body := Join(Fold(Split(s), false, [])); if body == "" then "." else body
  {
  }

  /** A normal relative path is its own normal form. */
  lemma NormalizeOfNormal(parts: seq<string>)
    requires |parts| > 0 && Normal(parts)
    ensures Normalize(Join(parts)) == Join(parts)
  {
    hide Normalize;
    hide Fold;
    hide Split;
    hide Join;
    SplitOfJoin(parts);
    JoinOfWords(parts);
    NormalizeRelative(Join(parts));
    assert [] + parts == parts;
    FoldOfNormal(parts, false, []);
  }

  lemma NormalizeOfWords(parts: seq<string>)
    requires |parts| > 0 && forall i :: 0 <= i < |parts| ==> Word(parts[i])
    ensures var folded := Fold(parts, false, []);
            Normal(folded) && Normalize(Join(parts)) == if folded == [] then "." else Join(folded)
  {
    hide Normalize;
    hide Fold;
    hide Split;
    SplitOfJoin(parts);
    JoinOfWords(parts);
    NormalizeRelative(Join(parts));
    FoldIsNormal(parts, []);
    if Fold(parts, false, []) != [] { JoinOfWords(Fold(parts, false, [])); }
  }

  lemma NormalizeKeepsAbsolute(s: string)
    ensures IsAbsolute(s) ==> IsAbsolute(Normalize(s))
  {
  }

  // ---------------------------------------------------------------- validateArchiveEntryPath

  /** The parts of the platform that validation asks. */
  datatype Platform = Platform(windows: bool, device: string -> bool, width: string -> nat)

  predicate Trivial(p: string) { p == "" || p == "." || p == "./" }

  predicate Letter(c: char) { 'a' <= c <= 'z' || 'A' <= c <= 'Z' }

  predicate Drive(segment: string) { |segment| >= 2 && Letter(segment[0]) && segment[1] == ':' }

  predicate StartsWith(s: string, prefix: string) { |prefix| <= |s| && s[..|prefix|] == prefix }

  predicate Validates(p: string, on: Platform) {
    Trivial(p) ||
    var raw := Slashed(p);
    var segments := Split(raw);
    var normal := Normalize(raw);
    && (forall i :: 0 <= i < |segments| ==> !Drive(segments[i]))
    && '\0' !in p
    && (on.windows ==> forall i :: 0 <= i < |segments| ==> ':' !in segments[i] && !on.device(segments[i]))
    && (forall i :: 0 <= i < |Split(normal)| ==> on.width(Split(normal)[i]) <= 255)
    && normal != ".." && !StartsWith(normal, "../")
    && !IsAbsolute(normal)
    && ".." !in segments
  }

  // ---------------------------------------------------------------- stripArchivePath

  function Kept(segments: seq<string>): (r: seq<string>)
    ensures |r| <= |segments| && forall i :: 0 <= i < |r| ==> r[i] != "" && r[i] != "." && r[i] in segments
  {
    if segments == [] then []
    else if segments[0] == "" || segments[0] == "." then Kept(segments[1..])
    else [segments[0]] + Kept(segments[1..])
  }

  /** The components left after dropping empty and "." ones. */
  function Parts(p: string): (r: seq<string>)
    ensures forall i :: 0 <= i < |r| ==> Word(r[i]) && '\\' !in r[i] && r[i] in Split(Slashed(p))
  {
    Kept(Split(Slashed(p)))
  }

  function Strip(p: string, n: nat): Option<string> {
    if Trivial(Slashed(p)) then None
    else
      var parts := Parts(p);
      var result := Normalize(Join(if n <= |parts| then parts[n..] else []));
      if Trivial(result) then None else Some(result)
  }

  function StripOption(p: Option<string>, n: nat): Option<string> {
    if p.Some? then Strip(p.value, n) else None
  }

  /** What createArchiveOutputPathTracker folds into a key. */
  function Identity(path: string): string {
    var canonical := Strip(path, 0);
    if canonical.Some? then canonical.value else Normalize(Slashed(path))
  }

  lemma TrivialHasNoParts(p: string)
    requires Trivial(Slashed(p))
    ensures Parts(p) == []
  {
    var raw := Slashed(p);
    if raw == "./" {
      SplitWord(".", "");
      SplitWord("", "");
      assert "." + "/" + "" == raw;
      assert Split(raw)[1..] == [""];
      assert Kept([""]) == [];
    } else {
      SplitWord(raw, "");
    }
  }

  /** Without parent segments, stripping drops components and nothing else. */
  lemma StripDrops(p: string, n: nat)
    requires ".." !in Split(Slashed(p))
    ensures Strip(p, n) == if n < |Parts(p)| then Some(Join(Parts(p)[n..])) else None
  {
    if Trivial(Slashed(p)) {
      TrivialHasNoParts(p);
    } else if n < |Parts(p)| {
      NormalizeOfNormal(Parts(p)[n..]);
      JoinOfWords(Parts(p)[n..]);
    }
  }

  lemma {:induction false} KeptOfWords(parts: seq<string>)
    requires forall i :: 0 <= i < |parts| ==> Word(parts[i])
    ensures Kept(parts) == parts
  {
    if parts != [] { KeptOfWords(parts[1..]); }
  }

  /** A path made of words has those words as its parts. */
  lemma PartsOfJoin(parts: seq<string>)
    requires |parts| > 0 && forall i :: 0 <= i < |parts| ==> Word(parts[i]) && '\\' !in parts[i]
    ensures Slashed(Join(parts)) == Join(parts) && Split(Join(parts)) == parts && Parts(Join(parts)) == parts
  {
    SlashedJoin(parts);
    SplitOfJoin(parts);
    KeptOfWords(parts);
  }

  lemma ValidatedHasNoParent(p: string, on: Platform)
    requires Validates(p, on)
    ensures ".." !in Split(Slashed(p))
  {
    if Trivial(p) {
      assert Slashed(p) == p;
      if p == "./" { SplitWord(".", ""); assert "." + "/" + "" == p; } else { SplitWord(p, ""); }
    }
  }

  /** Stripping twice is stripping once by the sum. */
  lemma StripAdds(p: string, a: nat, b: nat, on: Platform)
    requires Validates(p, on)
    ensures StripOption(Strip(p, a), b) == Strip(p, a + b)
  {
    ValidatedHasNoParent(p, on);
    StripDrops(p, a);
    StripDrops(p, a + b);
    var parts := Parts(p);
    if a < |parts| {
      PartsOfJoin(parts[a..]);
      StripDrops(Join(parts[a..]), b);
      if a + b < |parts| { assert parts[a..][b..] == parts[a + b..]; }
    }
  }

  /** Zero stripping is a canonical form, for any path at all. */
  lemma ZeroStripIsIdempotent(p: string)
    ensures StripOption(Strip(p, 0), 0) == Strip(p, 0)
  {
    var parts := Parts(p);
    if Strip(p, 0).Some? && parts != [] {
      assert parts[0..] == parts;
      var normal := Fold(parts, false, []);
      NormalizeOfWords(parts);
      FoldIsNormal(parts, []);
      if normal != [] {
        JoinOfWords(normal);
        assert Strip(p, 0) == Some(Join(normal));
        PartsOfJoin(normal);
        NormalizeOfNormal(normal);
        assert normal[0..] == normal;
      }
    }
  }

  /** The canonical paths, which zero stripping leaves alone, are exactly those without backslashes,
      empty or "." components, and with parent segments only at the front. */
  lemma CanonicalExactly(p: string)
    ensures Strip(p, 0) == Some(p) <==> '\\' !in p && Normal(Split(p))
  {
    var parts := Parts(p);
    assert parts[0..] == parts;
    if '\\' !in p && Normal(Split(p)) {
      JoinOfSplit(p);
      PartsOfJoin(Split(p));
      JoinOfWords(Split(p));
      NormalizeOfNormal(Split(p));
    }
    if Strip(p, 0) == Some(p) && parts != [] {
      NormalizeOfWords(parts);
      FoldIsNormal(parts, []);
      PartsOfJoin(Fold(parts, false, []));
      SlashedJoin(Fold(parts, false, []));
    }
  }

  // ---------------------------------------------------------------- stripped paths validate

  lemma {:induction false} FoldOfKept(segments: seq<string>, stack: seq<string>)
    requires ".." !in segments
    ensures Fold(segments, false, stack) == stack + Kept(segments)
    decreases |segments|
  {
    if segments == [] {
      assert stack + [] == stack;
    } else {
      var s := segments[0];
      assert s in segments && ".." !in segments[1..];
      if s == "" || s == "." {
        FoldOfKept(segments[1..], stack);
      } else {
        FoldOfKept(segments[1..], stack + [s]);
        assert stack + [s] + Kept(segments[1..]) == stack + ([s] + Kept(segments[1..]));
      }
    }
  }

  /** What normalize makes of a validated path: its parts, perhaps with a final slash. */
  lemma NormalSegments(p: string, on: Platform, i: nat)
    requires Validates(p, on) && !Trivial(p) && i < |Parts(p)|
    ensures on.width(Parts(p)[i]) <= 255
  {
    var raw := Slashed(p);
    var parts := Parts(p);
    FoldOfKept(Split(raw), []);
    assert [] + parts == parts;
    JoinOfWords(parts);
    NormalizeKeepsAbsolute(raw);
    SplitOfJoin(parts);
    if raw[|raw| - 1] == '/' {
      assert Normalize(raw) == Join(parts) + "/";
      SplitTrailing(parts);
      assert Split(Normalize(raw))[i] == parts[i];
    } else {
      assert Normalize(raw) == Join(parts);
    }
  }

  lemma SplitTrailing(parts: seq<string>)
    requires |parts| > 0 && forall i :: 0 <= i < |parts| ==> '/' !in parts[i]
    ensures Split(Join(parts) + "/") == parts + [""]
  {
    hide Split;
    hide Join;
    SplitPrefix(parts, "");
    SplitWord("", "");
    assert Join(parts) + "/" + "" == Join(parts) + "/";
  }

  lemma {:induction false} JoinHasNo(parts: seq<string>, c: char)
    requires c != '/' && forall i :: 0 <= i < |parts| ==> c !in parts[i]
    ensures c !in Join(parts)
  {
    if |parts| > 1 { JoinHasNo(parts[1..], c); }
  }

  lemma {:induction false} SplitHasNo(s: string, c: char)
    requires c !in s
    ensures forall i :: 0 <= i < |Split(s)| ==> c !in Split(s)[i]
  {
    if s != [] { SplitHasNo(s[1..], c); }
  }

  /** A path of words climbs only if its first word does. */
  lemma NoClimb(rest: seq<string>)
    requires |rest| > 0 && forall i :: 0 <= i < |rest| ==> Word(rest[i])
    ensures Join(rest) == ".." || StartsWith(Join(rest), "../") ==> rest[0] == ".."
  {
    hide Split;
    hide Join;
    SplitOfJoin(rest);
    if Join(rest) == ".." {
      SplitWord("..", "");
    } else if StartsWith(Join(rest), "../") {
      ClimbSplits(Join(rest));
    }
  }

  lemma ClimbSplits(s: string)
    requires StartsWith(s, "../")
    ensures Split(s)[0] == ".."
  {
    hide Split;
    assert s == ".." + "/" + s[3..];
    SplitWord("..", s[3..]);
  }

  /** What a validated path's remaining parts inherit from it. */
  lemma PartsInherit(p: string, n: nat, on: Platform)
    requires Validates(p, on) && n < |Parts(p)|
    ensures !Trivial(p) && Clean(Parts(p)[n..]) && '\0' !in Join(Parts(p)[n..])
    ensures forall i :: n <= i < |Parts(p)| ==> on.width(Parts(p)[i]) <= 255 && Parts(p)[i] in Split(Slashed(p))
  {
    ValidatedHasNoParent(p, on);
    if Trivial(p) {
      assert Slashed(p) == p;
      TrivialHasNoParts(p);
      assert false;
    }
    assert '\0' !in Slashed(p);
    SplitHasNo(Slashed(p), '\0');
    JoinHasNo(Parts(p)[n..], '\0');
    forall i | n <= i < |Parts(p)| ensures on.width(Parts(p)[i]) <= 255 {
      NormalSegments(p, on, i);
    }
  }

  /** Whatever is stripped, the rest of a validated path is valid again. */
  lemma StrippedValidates(p: string, n: nat, on: Platform)
    requires Validates(p, on) && Strip(p, n).Some?
    ensures Validates(Strip(p, n).value, on)
  {
    ValidatedHasNoParent(p, on);
    StripDrops(p, n);
    PartsInherit(p, n, on);
    WordsValidate(Split(Slashed(p)), Parts(p)[n..], on);
  }

  lemma WordsValidate(segments: seq<string>, rest: seq<string>, on: Platform)
    requires |rest| > 0 && Clean(rest) && '\0' !in Join(rest)
    requires forall i :: 0 <= i < |rest| ==> '\\' !in rest[i] && on.width(rest[i]) <= 255 && rest[i] in segments
    requires forall i :: 0 <= i < |segments| ==> !Drive(segments[i])
    requires on.windows ==> forall i :: 0 <= i < |segments| ==> ':' !in segments[i] && !on.device(segments[i])
    ensures Validates(Join(rest), on)
  {
    PartsOfJoin(rest);
    NormalizeOfNormal(rest);
    JoinOfWords(rest);
    NoClimb(rest);
  }

  // ---------------------------------------------------------------- what is refused, character by character

  predicate Separator(c: char) { c == '/' || c == '\\' }

  /** A component starts here. */
  predicate StartsAt(p: string, k: nat) { k == 0 || (k <= |p| && Separator(p[k - 1])) }

  /** A drive: an ASCII letter and a colon at the start of a component. */
  predicate DriveAt(p: string, k: nat) {
    k + 1 < |p| && StartsAt(p, k) && ('a' <= p[k] <= 'z' || 'A' <= p[k] <= 'Z') && p[k + 1] == ':'
  }

  /** A component that is "..". */
  predicate ParentAt(p: string, k: nat) {
    k + 2 <= |p| && StartsAt(p, k) && p[k] == '.' && p[k + 1] == '.' && (k + 2 == |p| || Separator(p[k + 2]))
  }

  lemma {:induction false} SplitHead(s: string)
    ensures var n := |Split(s)[0]|;
            && n <= |s| && Split(s)[0] == s[..n] && (n < |s| ==> s[n] == '/')
            && Split(s) == if n == |s| then [s] else [s[..n]] + Split(s[n + 1..])
  {
    if s != [] && s[0] != '/' {
      SplitHead(s[1..]);
      var rest := Split(s[1..]);
      var n := |Split(s)[0]|;
      assert s == [s[0]] + s[1..];
      assert s[..n] == [s[0]] + s[1..][..n - 1];
      if n < |s| { assert s[1..][n..] == s[n + 1..] && rest[1..] == Split(s[n + 1..]); }
    }
  }

  /** The component `segment` stands at `k`. */
  predicate StandsAt(s: string, k: nat, segment: string) {
    && k + |segment| <= |s| && (k == 0 || s[k - 1] == '/') && s[k..k + |segment|] == segment
    && (k + |segment| == |s| || s[k + |segment|] == '/')
  }

  lemma StandsFurtherOn(s: string, n: nat, k: nat, segment: string)
    requires n < |s| && s[n] == '/' && StandsAt(s[n + 1..], k, segment)
    ensures StandsAt(s, n + 1 + k, segment)
  {
    var rest := s[n + 1..];
    assert s[n + 1 + k..n + 1 + k + |segment|] == rest[k..k + |segment|];
  }

  lemma {:induction false} SegmentStands(s: string, i: nat) returns (k: nat)
    requires i < |Split(s)|
    ensures StandsAt(s, k, Split(s)[i])
    decreases i
  {
    hide Split;
    SplitHead(s);
    var n := |Split(s)[0]|;
    if i == 0 { return 0; }
    hide StandsAt;
    k := SegmentStands(s[n + 1..], i - 1);
    StandsFurtherOn(s, n, k, Split(s[n + 1..])[i - 1]);
    return n + 1 + k;
  }

  lemma {:induction false} StartIsSegment(s: string, k: nat) returns (i: nat)
    requires k <= |s| && (k == 0 || s[k - 1] == '/')
    ensures i < |Split(s)| && StandsAt(s, k, Split(s)[i])
    decreases k
  {
    hide Split;
    SplitHead(s);
    var n := |Split(s)[0]|;
    if k == 0 { return 0; }
    assert k > n;
    hide StandsAt;
    i := StartIsSegment(s[n + 1..], k - n - 1);
    StandsFurtherOn(s, n, k - n - 1, Split(s[n + 1..])[i]);
    return i + 1;
  }

  /** Whether a component is a drive or a parent can be seen where it stands. */
  lemma StandingSegment(s: string, k: nat, segment: string)
    requires '\\' !in s && '/' !in segment && StandsAt(s, k, segment)
    ensures DriveAt(s, k) <==> Drive(segment)
    ensures ParentAt(s, k) <==> segment == ".."
  {
    forall j | 0 <= j < |segment| ensures segment[j] == s[k + j] {
      assert s[k..k + |segment|][j] == s[k + j];
    }
  }

  lemma DrivesExactly(s: string)
    requires '\\' !in s
    ensures (exists i :: 0 <= i < |Split(s)| && Drive(Split(s)[i])) <==> exists k: nat :: DriveAt(s, k)
  {
    hide Split;
    hide Drive;
    if i: nat :| i < |Split(s)| && Drive(Split(s)[i]) {
      var k := SegmentStands(s, i);
      StandingSegment(s, k, Split(s)[i]);
    }
    if k: nat :| DriveAt(s, k) {
      var i := StartIsSegment(s, k);
      StandingSegment(s, k, Split(s)[i]);
      assert Drive(Split(s)[i]);
    }
  }

  lemma ParentsExactly(s: string)
    requires '\\' !in s
    ensures ".." in Split(s) <==> exists k: nat :: ParentAt(s, k)
  {
    hide Split;
    if i: nat :| i < |Split(s)| && Split(s)[i] == ".." {
      var k := SegmentStands(s, i);
      StandingSegment(s, k, Split(s)[i]);
    }
    if k: nat :| ParentAt(s, k) {
      var i := StartIsSegment(s, k);
      StandingSegment(s, k, Split(s)[i]);
    }
  }

  lemma ColonsExactly(s: string)
    ensures ':' in s <==> exists i :: 0 <= i < |Split(s)| && ':' in Split(s)[i]
  {
    if ':' in s {
      JoinOfSplit(s);
      if forall i :: 0 <= i < |Split(s)| ==> ':' !in Split(s)[i] { JoinHasNo(Split(s), ':'); }
    } else {
      SplitHasNo(s, ':');
    }
  }

  /** Without parents and a leading slash, normalization leaves the parts and perhaps a final slash. */
  lemma NormalWithoutParents(s: string)
    requires s != "" && !IsAbsolute(s) && ".." !in Split(s)
    ensures var parts := Kept(Split(s));
            if parts == [] then Normalize(s) in {".", "./"} else Normalize(s) in {Join(parts), Join(parts) + "/"}
  {
    hide Split;
    FoldOfKept(Split(s), []);
    assert [] + Kept(Split(s)) == Kept(Split(s));
    if Kept(Split(s)) != [] {
      KeptAreWords(Split(s));
      JoinOfWords(Kept(Split(s)));
      var body := Join(Kept(Split(s)));
      assert "" + body + "" == body && "" + body + "/" == body + "/";
    }
  }

  lemma KeptAreWords(segments: seq<string>)
    requires forall i :: 0 <= i < |segments| ==> '/' !in segments[i]
    ensures forall i :: 0 <= i < |Kept(segments)| ==> Word(Kept(segments)[i])
  {
  }

  /** What normalization leaves has the parts for components, and does not climb. */
  ghost predicate Inside(parts: seq<string>, normal: string) {
    && normal != ".." && !StartsWith(normal, "../") && !IsAbsolute(normal)
    && (forall i :: 0 <= i < |parts| ==> parts[i] in Split(normal))
    && (forall i :: 0 <= i < |Split(normal)| ==> Split(normal)[i] in parts || Split(normal)[i] in {"", "."})
  }

  lemma PartsStayInside(parts: seq<string>, normal: string)
    requires |parts| > 0 && ".." !in parts && Word(parts[0])
    requires Split(normal) == parts || Split(normal) == parts + [""]
    ensures Inside(parts, normal)
  {
    hide Split;
    var segments := Split(normal);
    assert segments[0] == parts[0] && parts[0] in parts;
    if StartsWith(normal, "../") { ClimbSplits(normal); }
    if normal == ".." { SplitWord("..", ""); }
    if IsAbsolute(normal) {
      assert normal == "" + "/" + normal[1..];
      SplitWord("", normal[1..]);
    }
    forall i | 0 <= i < |parts| ensures parts[i] in segments { assert segments[i] == parts[i]; }
  }

  lemma NormalStaysInside(parts: seq<string>, normal: string)
    requires (forall i :: 0 <= i < |parts| ==> Word(parts[i])) && ".." !in parts
    requires if parts == [] then normal in {".", "./"} else normal in {Join(parts), Join(parts) + "/"}
    ensures Inside(parts, normal)
  {
    hide Split;
    hide Join;
    if parts == [] {
      SplitWord(".", "");
      SplitWord("", "");
      assert "." + "/" + "" == "./";
    } else {
      SplitOfJoin(parts);
      SplitTrailing(parts);
      PartsStayInside(parts, normal);
    }
  }

  /** The separators of `Slashed` stand where the path has either of them. */
  lemma SlashedKeepsPositions(p: string, k: nat)
    ensures DriveAt(Slashed(p), k) <==> DriveAt(p, k)
    ensures ParentAt(Slashed(p), k) <==> ParentAt(p, k)
  {
  }

  lemma WidthsFit(parts: seq<string>, segments: seq<string>, on: Platform)
    requires on.width("") <= 255 && on.width(".") <= 255
    requires forall i :: 0 <= i < |parts| ==> parts[i] in segments
    requires forall i :: 0 <= i < |segments| ==> segments[i] in parts || segments[i] in {"", "."}
    ensures (forall i :: 0 <= i < |parts| ==> on.width(parts[i]) <= 255)
       <==> (forall i :: 0 <= i < |segments| ==> on.width(segments[i]) <= 255)
  {
  }

  /** The last tests of validation, on a slashed path. */
  ghost predicate StaysInside(raw: string, on: Platform) {
    && (forall i :: 0 <= i < |Split(Normalize(raw))| ==> on.width(Split(Normalize(raw))[i]) <= 255)
    && Normalize(raw) != ".." && !StartsWith(Normalize(raw), "../") && !IsAbsolute(Normalize(raw))
    && ".." !in Split(raw)
  }

  lemma NormalIsRefusedExactly(raw: string, on: Platform)
    requires raw != "" && on.width("") <= 255 && on.width(".") <= 255
    ensures StaysInside(raw, on) <==>
            && !IsAbsolute(raw) && ".." !in Split(raw)
            && forall i :: 0 <= i < |Kept(Split(raw))| ==> on.width(Kept(Split(raw))[i]) <= 255
  {
    hide Split;
    if IsAbsolute(raw) {
      NormalizeKeepsAbsolute(raw);
    } else if ".." !in Split(raw) {
      NormalWithoutParents(raw);
      hide Normalize;
      KeptAreWords(Split(raw));
      NormalStaysInside(Kept(Split(raw)), Normalize(raw));
      WidthsFit(Kept(Split(raw)), Split(Normalize(raw)), on);
    }
  }

  ghost predicate Driveless(segments: seq<string>) {
    forall i :: 0 <= i < |segments| ==> !Drive(segments[i])
  }

  lemma NoDriveExactly(p: string)
    ensures Driveless(Split(Slashed(p))) <==> forall k: nat :: !DriveAt(p, k)
  {
    hide Split;
    hide Drive;
    DrivesExactly(Slashed(p));
    if k: nat :| DriveAt(p, k) {
      SlashedKeepsPositions(p, k);
    } else if k: nat :| DriveAt(Slashed(p), k) {
      SlashedKeepsPositions(p, k);
    }
  }

  lemma NoParentExactly(p: string)
    ensures ".." !in Split(Slashed(p)) <==> forall k: nat :: !ParentAt(p, k)
  {
    hide Split;
    ParentsExactly(Slashed(p));
    if k: nat :| ParentAt(p, k) {
      SlashedKeepsPositions(p, k);
    } else if k: nat :| ParentAt(Slashed(p), k) {
      SlashedKeepsPositions(p, k);
    }
  }

  ghost predicate WindowsAdmits(segments: seq<string>, on: Platform) {
    on.windows ==> forall i :: 0 <= i < |segments| ==> ':' !in segments[i] && !on.device(segments[i])
  }

  lemma WindowsExactly(p: string, on: Platform)
    ensures WindowsAdmits(Split(Slashed(p)), on) <==>
              (on.windows ==>
                ':' !in p && forall i :: 0 <= i < |Split(Slashed(p))| ==> !on.device(Split(Slashed(p))[i]))
  {
    hide Split;
    ColonsExactly(Slashed(p));
    if ':' in p {
      var k :| 0 <= k < |p| && p[k] == ':';
      assert Slashed(p)[k] == ':';
    }
  }

  /** Validation, told without splitting and normalizing: besides "", "." and "./" it admits exactly
      the paths without a drive, a NUL, a leading separator, a ".." component and an overlong
      component, and on Windows without a colon and a device name. */
  lemma ValidatesExactly(p: string, on: Platform)
    requires on.width("") <= 255 && on.width(".") <= 255
    ensures Validates(p, on) <==>
              || p in {"", ".", "./"}
              || (&& (forall k: nat :: !DriveAt(p, k) && !ParentAt(p, k))
                  && '\0' !in p && !Separator(p[0])
                  && (forall i :: 0 <= i < |Parts(p)| ==> on.width(Parts(p)[i]) <= 255)
                  && (on.windows ==> ':' !in p && forall i :: 0 <= i < |Split(Slashed(p))| ==>
                        !on.device(Split(Slashed(p))[i])))
  {
    if p !in {"", ".", "./"} {
      ValidationTests(p, on);
      hide *;
      NoDriveExactly(p);
      NoParentExactly(p);
      WindowsExactly(p, on);
      NormalIsRefusedExactly(Slashed(p), on);
      PartsAreKept(p);
    }
  }

  lemma ValidationTests(p: string, on: Platform)
    requires p !in {"", ".", "./"}
    ensures Validates(p, on) <==>
              && Driveless(Split(Slashed(p))) && '\0' !in p && WindowsAdmits(Split(Slashed(p)), on)
              && StaysInside(Slashed(p), on)
  {
    hide Split;
    hide Normalize;
    hide Drive;
    hide StartsWith;
  }

  lemma PartsAreKept(p: string)
    requires p != ""
    ensures Parts(p) == Kept(Split(Slashed(p))) && Slashed(p) != ""
    ensures IsAbsolute(Slashed(p)) <==> Separator(p[0])
  {
  }

  // ---------------------------------------------------------------- resolveArchiveOutputPath

  /** path.resolve on POSIX, one argument at a time: the segments of the absolute path. */
  function Resolve(from: seq<string>, path: string): seq<string> {
    Fold(Split(path), true, if IsAbsolute(path) then [] else from)
  }

  function Absolute(segments: seq<string>): string { "/" + Join(segments) }

  /** resolveSafeBaseDir: the root with exactly one final separator. */
  function SafeBase(root: seq<string>): string {
    if root == [] then "/" else Absolute(root) + "/"
  }

  /** What resolveArchiveOutputPath returns; it raises otherwise. */
  function Output(cwd: seq<string>, rootDir: string, relPath: string): Option<string> {
    var root := Resolve(cwd, rootDir);
    var out := Absolute(Resolve(root, relPath));
    if StartsWith(out, SafeBase(root)) then Some(out) else None
  }

  predicate Under(root: seq<string>, out: seq<string>) {
    |root| < |out| && out[..|root|] == root
  }

  lemma {:induction false} JoinAppends(a: seq<string>, b: seq<string>)
    requires |a| > 0 && |b| > 0
    ensures Join(a + b) == Join(a) + "/" + Join(b)
  {
    if |a| == 1 {
      assert (a + b)[1..] == b;
    } else {
      assert (a + b)[1..] == a[1..] + b;
      JoinAppends(a[1..], b);
      assert a[0] + "/" + (Join(a[1..]) + "/" + Join(b)) == (a[0] + "/" + Join(a[1..])) + "/" + Join(b);
    }
  }

  lemma {:induction false} SplitPrefix(root: seq<string>, tail: string)
    requires |root| > 0 && forall i :: 0 <= i < |root| ==> '/' !in root[i]
    ensures Split(Join(root) + "/" + tail) == root + Split(tail)
  {
    hide Split;
    if |root| == 1 {
      SplitWord(root[0], tail);
    } else {
      SplitPrefix(root[1..], tail);
      SplitWord(root[0], Join(root[1..]) + "/" + tail);
      assert root[0] + "/" + (Join(root[1..]) + "/" + tail) == Join(root) + "/" + tail;
      assert [root[0]] + (root[1..] + Split(tail)) == root + Split(tail);
    }
  }

  lemma UnderIsPrefixed(root: seq<string>, out: seq<string>)
    requires root != [] && Under(root, out)
    ensures StartsWith(Absolute(out), SafeBase(root))
  {
    hide Join;
    assert root + out[|root|..] == out;
    JoinAppends(root, out[|root|..]);
    assert Absolute(out) == SafeBase(root) + Join(out[|root|..]);
  }

  lemma PrefixedTail(root: seq<string>, out: seq<string>) returns (tail: string)
    requires root != [] && StartsWith(Absolute(out), SafeBase(root))
    ensures Join(out) == Join(root) + "/" + tail && out != []
  {
    tail := Absolute(out)[|SafeBase(root)|..];
    assert Absolute(out) == SafeBase(root) + tail;
    assert Absolute(out)[1..] == Join(out);
    assert (SafeBase(root) + tail)[1..] == Join(root) + "/" + tail;
  }

  lemma PrefixedIsUnder(root: seq<string>, out: seq<string>)
    requires root != [] && Clean(root) && Clean(out) && StartsWith(Absolute(out), SafeBase(root))
    ensures Under(root, out)
  {
    hide Split;
    hide Join;
    var tail := PrefixedTail(root, out);
    SplitOfJoin(out);
    SplitPrefix(root, tail);
    assert out == root + Split(tail);
  }

  /** The textual prefix test means containment, component by component; only for the root "/" does
      it admit the root itself. */
  lemma PrefixMeansUnder(root: seq<string>, out: seq<string>)
    requires Clean(root) && Clean(out)
    ensures StartsWith(Absolute(out), SafeBase(root)) <==> Under(root, out) || (root == [] && out == [])
  {
    hide Join;
    if root == [] {
      assert Absolute(out)[..1] == "/";
    } else if Under(root, out) {
      UnderIsPrefixed(root, out);
    } else if StartsWith(Absolute(out), SafeBase(root)) {
      PrefixedIsUnder(root, out);
    }
  }

  lemma {:induction false} FoldAbsoluteIsClean(segments: seq<string>, stack: seq<string>)
    requires Clean(stack) && forall i :: 0 <= i < |segments| ==> '/' !in segments[i]
    ensures Clean(Fold(segments, true, stack))
    decreases |segments|
  {
    if segments != [] {
      var s, rest := segments[0], segments[1..];
      if s == "" || s == "." {
        FoldAbsoluteIsClean(rest, stack);
      } else if s != ".." {
        FoldAbsoluteIsClean(rest, stack + [s]);
      } else if |stack| > 0 {
        FoldAbsoluteIsClean(rest, stack[..|stack| - 1]);
      } else {
        FoldAbsoluteIsClean(rest, stack);
      }
    }
  }

  /** A stripped path of a validated entry lands strictly under the root, at root + its parts. */
  lemma OutputIsUnderRoot(p: string, n: nat, cwd: seq<string>, rootDir: string, on: Platform)
    requires Validates(p, on) && Strip(p, n).Some? && Clean(cwd)
    ensures var root := Resolve(cwd, rootDir);
            && n < |Parts(p)| && Under(root, root + Parts(p)[n..])
            && Output(cwd, rootDir, Strip(p, n).value) == Some(Absolute(root + Parts(p)[n..]))
  {
    var root, rest := Resolve(cwd, rootDir), Parts(p)[n..];
    FoldAbsoluteIsClean(Split(rootDir), if IsAbsolute(rootDir) then [] else cwd);
    ValidatedHasNoParent(p, on);
    StripDrops(p, n);
    PartsInherit(p, n, on);
    JoinOfWords(rest);
    SplitOfJoin(rest);
    FoldOfNormal(rest, true, root);
    PrefixMeansUnder(root, root + rest);
  }

  /** Every path that resolution accepts, validated or not, is under the root; a root of "/" also
      accepts itself. */
  lemma AcceptedIsUnderRoot(cwd: seq<string>, rootDir: string, relPath: string)
    requires Clean(cwd)
    ensures var root := Resolve(cwd, rootDir);
            var out := Resolve(root, relPath);
            Output(cwd, rootDir, relPath).Some? <==> Under(root, out) || (root == [] && out == [])
  {
    var root := Resolve(cwd, rootDir);
    FoldAbsoluteIsClean(Split(rootDir), if IsAbsolute(rootDir) then [] else cwd);
    FoldAbsoluteIsClean(Split(relPath), if IsAbsolute(relPath) then [] else root);
    PrefixMeansUnder(root, Resolve(root, relPath));
  }

  /** A root of "/" and an empty relative path: the root itself is accepted. */
  lemma RootAcceptsItself()
    ensures Output([], "/", "") == Some("/")
  {
    SplitWord("", "");
    assert "" + "/" + "" == "/";
    assert Split("/") == ["", ""];
    assert Fold([""], true, []) == [];
    assert ["", ""][1..] == [""];
    assert Resolve([], "/") == [] && Resolve([], "") == [];
    assert Absolute([]) == "/" && "/"[..1] == "/";
  }
}
