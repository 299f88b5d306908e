/** The guest's cross-device move: copy the tree, publish the copy, remove the source by its
    manifest.  Directories are values passed in and out; any system call may fail. */
module GuestMove {
  import opened Basics
  import opened GuestTree

  /** What surrounds one run. */
  datatype World = World(
    faults: bool,                  // system calls may fail for reasons outside the model
    disturbed: bool,               // others may change the source after it was copied
    racing: bool,                  // .. even between an identity check and its unlink
    privileged: bool,              // permission bits do not bind this process; else it owns the trees
    how: Making,                   // what mkdir does to a mode
    truth: Id -> (Mode, Body))

  const OWNER_READ: Bit := 8
  const OWNER_WRITE: Bit := 7
  const OWNER_SEARCH: Bit := 6

  predicate CanRead(mode: Mode, w: World) { w.privileged || OWNER_READ in mode }

  predicate CanSearch(mode: Mode, w: World) { w.privileged || OWNER_SEARCH in mode }

  /** Names may be added to and taken from a directory. */
  predicate CanChange(mode: Mode, w: World) { w.privileged || (OWNER_WRITE in mode && OWNER_SEARCH in mode) }

  /** The creation mask leaves the owner the right to read what mkdir made. */
  predicate MaskKeepsRead(w: World) { w.privileged || OWNER_READ !in w.how.masked }

  predicate Sound(e: Entries, w: World) {
    forall n :: n in e ==> Truthful(e[n], w.truth)
  }

  method Fault(w: World) returns (failed: bool)
    ensures !w.faults ==> !failed
  {
    failed := *;
    failed := failed && w.faults;
  }

  /** What others may make of a directory: anything whose identities tell the truth. */
  method Disturb(e: Entries, w: World) returns (after: Entries)
    requires Sound(e, w)
    ensures Sound(after, w)
    ensures !w.disturbed ==> after == e
  {
    after := e;
    if w.disturbed {
      var other: Entries := *;
      if Sound(other, w) { after := other; }
    }
  }

  /** os.listdir: every name once, in any order. */
  method ListDir(e: Entries) returns (names: seq<Name>)
    ensures Distinct(names)
    ensures forall n :: n in names <==> n in e
  {
    names := [];
    var left := e.Keys;
    while left != {}
      invariant Distinct(names)
      invariant forall n :: n in names <==> n in e && n !in left
      decreases left
    {
      var n :| n in left;
      names := names + [n];
      left := left - {n};
    }
  }

  // ---------------------------------------------------------------- remove_tree

  /** What is left of a tree after an interrupted removal. */
  ghost predicate Remainder(rest: Tree, t: Tree)
    decreases t
  {
    || rest == t
    || (rest.Dir? && t.Dir? && rest.id == t.id && rest.mode == t.mode && rest.entries.Keys <= t.entries.Keys
        && forall n :: n in rest.entries ==> Remainder(rest.entries[n], t.entries[n]))
  }

  /** The permission bits let the whole tree be emptied. */
  predicate Removable(t: Tree, w: World) {
    t.Dir? ==>
      && CanRead(t.mode, w) && (t.entries != map[] ==> CanChange(t.mode, w))
      && forall n :: n in t.entries ==> Removable(t.entries[n], w)
  }

  /** Some of the entries are gone, the others untouched. */
  ghost predicate PartOf(entries: Entries, t: Tree)
    requires t.Dir?
  {
    forall n :: n in entries ==> n in t.entries && entries[n] == t.entries[n]
  }

  lemma PartIsRemainder(t: Tree, entries: Entries)
    requires t.Dir? && PartOf(entries, t)
    ensures Remainder(t, t) && Remainder(Dir(t.id, t.mode, entries), t)
  {
    assert forall n :: n in entries ==> Remainder(entries[n], t.entries[n]);
  }

  lemma InterruptedIsRemainder(t: Tree, entries: Entries, name: Name, child: Tree)
    requires t.Dir? && PartOf(entries, t) && name in entries && Remainder(child, t.entries[name])
    ensures Remainder(Dir(t.id, t.mode, entries[name := child]), t)
  {
    var rest := entries[name := child];
    forall n | n in rest ensures Remainder(rest[n], t.entries[n]) {
      if n != name { assert rest[n] == t.entries[n]; }
    }
    assert rest.Keys <= t.entries.Keys;
  }

  /** remove_tree below a directory of mode `parent`. */
  method RemoveTree(t: Tree, parent: Mode, w: World) returns (rest: Option<Tree>)
    ensures rest.Some? ==> Remainder(rest.value, t)
    ensures !w.faults ==> (rest.None? <==> CanChange(parent, w) && Removable(t, w))
    decreases t
  {
    var failed := Fault(w);
    if failed || !CanSearch(parent, w) { return Some(t); }
    if !t.Dir? {
      return if CanChange(parent, w) then None else Some(t);
    }
    if !CanRead(t.mode, w) { return Some(t); }
    hide Removable;
    hide Remainder;
    hide CanChange;
    var names := ListDir(t.entries);
    var entries := t.entries;
    for i := 0 to |names|
      invariant PartOf(entries, t) && forall n :: n in entries <==> n in t.entries && n !in names[..i]
      invariant !w.faults ==> NamedRemovable(t, names, i, w)
    {
      assert names[i] in names && names[i] !in names[..i];
      var child := RemoveTree(t.entries[names[i]], t.mode, w);
      if child.Some? {
        InterruptedIsRemainder(t, entries, names[i], child.value);
        if !w.faults { RemovableNamed(t, names[i], w); }
        return Some(Dir(t.id, t.mode, entries[names[i] := child.value]));
      }
      entries := entries - {names[i]};
      assert names[..i + 1] == names[..i] + [names[i]];
    }
    assert names[..|names|] == names;
    if !w.faults { AllNamed(t, names, w); }
    PartIsRemainder(t, entries);
    failed := Fault(w);
    if failed || !CanChange(parent, w) { return Some(Dir(t.id, t.mode, entries)); }
    return None;
  }

  lemma RemovableNamed(t: Tree, name: Name, w: World)
    requires t.Dir? && name in t.entries
    ensures Removable(t, w) ==> Removable(t.entries[name], w) && CanChange(t.mode, w)
  {
  }

  predicate NamedRemovable(t: Tree, names: seq<Name>, i: nat, w: World)
    requires t.Dir? && i <= |names| && forall n :: n in names ==> n in t.entries
  {
    forall k :: 0 <= k < i ==> Removable(t.entries[names[k]], w) && CanChange(t.mode, w)
  }

  lemma AllNamed(t: Tree, names: seq<Name>, w: World)
    requires t.Dir? && CanRead(t.mode, w) && forall n :: n in names <==> n in t.entries
    requires NamedRemovable(t, names, |names|, w)
    ensures Removable(t, w)
  {
    if n :| n in t.entries {
      assert n in names;
    }
  }

  // ---------------------------------------------------------------- copy_entry

  datatype CopyResult = Copied(manifest: Manifest) | CopyFailed | CleanupFailed

  /** What copy_entry can copy into a directory of mode `parent`: readable regular files with one
      link, links, and directories. */
  predicate Copyable(t: Tree, parent: Mode, w: World)
    decreases t, 1
  {
    match t
    case Special(_) => false
    case Leaf(_, mode, body, links) => body.FileBody? ==> links <= 1 && CanRead(mode, w)
    case Dir(_, mode, _) => CopyableInto(t, Made(mode, parent, w.how), w)
  }

  /** A readable directory, the copies of whose entries can be made in a directory of mode `made`. */
  predicate CopyableInto(t: Tree, made: Mode, w: World)
    requires t.Dir?
    decreases t, 0
  {
    && CanRead(t.mode, w) && CanRead(made, w)
    && (t.entries != map[] ==> CanSearch(t.mode, w) && CanChange(made, w))
    && forall n :: n in t.entries ==> Copyable(t.entries[n], made, w)
  }

  /** What a move admits: a readable regular file with one name, a link, a directory whose entries
      can be listed and reached. */
  predicate Admitted(e: Tree, w: World) {
    && !e.Special?
    && (e.Leaf? && e.body.FileBody? ==> e.links <= 1 && CanRead(e.mode, w))
    && (e.Dir? ==> CanRead(e.mode, w) && (e.entries != map[] ==> CanSearch(e.mode, w)))
  }

  ghost predicate AllAdmitted(t: Tree, w: World) {
    forall p :: At(t, p).Some? ==> Admitted(At(t, p).value, w)
  }

  lemma {:induction false} CopyableIsAdmitted(t: Tree, parent: Mode, w: World, p: Path)
    requires Copyable(t, parent, w) && At(t, p).Some?
    ensures Admitted(At(t, p).value, w)
    decreases |p|
  {
    if p != [] {
      CopyableIsAdmitted(t.entries[p[0]], Made(t.mode, parent, w.how), w, p[1..]);
    }
  }

  lemma ChildrenAreAdmitted(t: Tree, made: Mode, w: World)
    requires t.Dir? && CopyableInto(t, made, w)
    ensures AllAdmitted(t, w)
  {
    forall p | At(t, p).Some? ensures Admitted(At(t, p).value, w) {
      if p != [] { CopyableIsAdmitted(t.entries[p[0]], made, w, p[1..]); }
    }
  }

  const OWNER: Mode := {OWNER_READ, OWNER_WRITE, OWNER_SEARCH}

  /** The owner has every right on the tree's directories, and the mask leaves them. */
  ghost predicate OwnerKeepsRights(t: Tree, w: World) {
    w.privileged
    || (&& OWNER * w.how.masked == {}
        && forall p :: At(t, p).Some? && At(t, p).value.Dir? ==> OWNER <= At(t, p).value.mode)
  }

  /** Then what can be copied is exactly what is admitted at every path. */
  lemma {:induction false} CopyableExactly(t: Tree, parent: Mode, w: World)
    requires OwnerKeepsRights(t, w)
    ensures Copyable(t, parent, w) <==> AllAdmitted(t, w)
  {
    if Copyable(t, parent, w) {
      forall p | At(t, p).Some? ensures Admitted(At(t, p).value, w) { CopyableIsAdmitted(t, parent, w, p); }
    }
    assert At(t, []) == Some(t);
    if AllAdmitted(t, w) && t.Dir? {
      var made := Made(t.mode, parent, w.how);
      if !w.privileged {
        forall b | b in OWNER ensures b in made {
          assert b in t.mode && b !in OWNER * w.how.masked;
        }
      }
      forall n | n in t.entries ensures Copyable(t.entries[n], made, w) {
        forall p ensures At(t.entries[n], p) == At(t, [n] + p) { assert ([n] + p)[1..] == p; }
        assert AllAdmitted(t.entries[n], w) && OwnerKeepsRights(t.entries[n], w);
        CopyableExactly(t.entries[n], made, w);
      }
    }
  }

  /** What one copy leaves of the directory it copies into. */
  ghost predicate CopyOutcome(t: Tree, name: Name, before: Entries, to: Mode, after: Entries, r: CopyResult, w: World) {
    match r
    case Copied(m) =>
      && name !in before && name in after && after == before[name := after[name]]
      && IsCopy(t, after[name], to, w.how) && ManifestOf(t, m) && Removable(after[name], w)
    case CopyFailed => after == before
    case CleanupFailed =>
      && (w.faults || !MaskKeepsRead(w))
      && name !in before && name in after && after == before[name := after[name]]
  }

  /** copy_regular_file and the symbolic link branch, from a directory of mode `from` into one of
      mode `to`.  Only the unlink of a partial file can leave anything behind. */
  method CopyLeaf(t: Tree, name: Name, from: Mode, into: Entries, to: Mode, w: World)
    returns (r: CopyResult, after: Entries)
    requires !t.Dir?
    ensures CopyOutcome(t, name, into, to, after, r, w)
    ensures r.Copied? ==> Copyable(t, to, w) && CanSearch(from, w) && CanChange(to, w)
    ensures r.CleanupFailed? ==> w.faults && after[name].Leaf? && t.Leaf? && t.body.FileBody?
    ensures !w.faults ==> (r.Copied? <==> Copyable(t, to, w) && name !in into && CanSearch(from, w) && CanChange(to, w))
  {
    after := into;
    if !CanSearch(from, w) || t.Special? { return CopyFailed, into; }
    if t.body.FileBody? {
      if !CanRead(t.mode, w) { return CopyFailed, into; }
      if t.links > 1 { return CopyFailed, into; }
    }
    if !CanChange(to, w) || name in into { return CopyFailed, into; }
    var failed := Fault(w);
    if failed { return CopyFailed, into; }
    var inode: Id := *;
    var copy := Leaf(inode, t.mode, t.body, 1);
    failed := Fault(w);
    if t.body.FileBody? && failed {              // after the destination was created
      var cleanup := Fault(w);
      var written: Bytes := *;
      return if cleanup then CleanupFailed else CopyFailed,
             if cleanup then into[name := Leaf(inode, t.mode - w.how.masked, FileBody(written), 1)] else into;
    }
    return Copied(LeafCopied(t.id)), into[name := copy];
  }

  /** The children of a directory, copied in listing order. */
  ghost predicate ChildrenCopied(t: Tree, names: seq<Name>, i: nat, made: Entries, children: seq<(Name, Manifest)>,
                                 to: Mode, how: Making)
    requires t.Dir? && i <= |names|
  {
    && |children| == i
    && (forall k :: 0 <= k < i ==>
          && names[k] in t.entries && names[k] in made
          && children[k].0 == names[k]
          && IsCopy(t.entries[names[k]], made[names[k]], to, how)
          && ManifestOf(t.entries[names[k]], children[k].1))
    && (forall n :: n in made <==> n in names[..i])
  }

  lemma AllChildrenCopied(t: Tree, names: seq<Name>, made: Entries, children: seq<(Name, Manifest)>,
                          to: Mode, how: Making)
    requires t.Dir? && Distinct(names) && (forall n :: n in names <==> n in t.entries)
    requires ChildrenCopied(t, names, |names|, made, children, to, how)
    ensures CopiesAll(t.entries, made, to, how)
    ensures ManifestOf(t, DirCopied(t.id, children))
  {
  }

  lemma OneMoreChild(t: Tree, names: seq<Name>, i: nat, made: Entries, children: seq<(Name, Manifest)>, after: Entries,
                     m: Manifest, to: Mode, how: Making)
    requires t.Dir? && i < |names| && names[i] in t.entries && names[i] !in made
    requires ChildrenCopied(t, names, i, made, children, to, how)
    requires names[i] in after && after == made[names[i] := after[names[i]]]
    requires IsCopy(t.entries[names[i]], after[names[i]], to, how) && ManifestOf(t.entries[names[i]], m)
    ensures ChildrenCopied(t, names, i + 1, after, children + [(names[i], m)], to, how)
  {
    hide IsCopy;
    hide ManifestOf;
    assert names[..i + 1] == names[..i] + [names[i]];
    forall k | 0 <= k < i ensures names[k] in after && after[names[k]] == made[names[k]] {
      assert names[k] != names[i];
    }
  }

  predicate NamedCopyable(t: Tree, names: seq<Name>, i: nat, to: Mode, w: World)
    requires t.Dir? && i <= |names| && forall n :: n in names ==> n in t.entries
  {
    forall k :: 0 <= k < i ==> Copyable(t.entries[names[k]], to, w) && CanSearch(t.mode, w) && CanChange(to, w)
  }

  lemma AllNamedCopyable(t: Tree, names: seq<Name>, to: Mode, w: World)
    requires t.Dir? && (forall n :: n in names <==> n in t.entries) && NamedCopyable(t, names, |names|, to, w)
    ensures forall n :: n in t.entries ==> Copyable(t.entries[n], to, w)
    ensures t.entries != map[] ==> CanSearch(t.mode, w) && CanChange(to, w)
  {
    hide Copyable;
    if n :| n in t.entries {
      assert n in names;
    }
  }

  predicate AllRemovable(e: Entries, w: World) {
    forall n :: n in e ==> Removable(e[n], w)
  }

  /** The loop over os.listdir, into a directory of mode `to`: either all children are copied, or
      the first failure stops it. */
  method CopyChildren(t: Tree, to: Mode, w: World) returns (done: bool, made: Entries, children: seq<(Name, Manifest)>)
    requires t.Dir?
    ensures done ==> CopiesAll(t.entries, made, to, w.how)
    ensures done ==> ManifestOf(t, DirCopied(t.id, children))
    ensures done || (!w.faults && MaskKeepsRead(w)) ==> AllRemovable(made, w) && (made != map[] ==> CanChange(to, w))
    ensures done || !w.faults ==> (done <==>
              && (t.entries != map[] ==> CanSearch(t.mode, w) && CanChange(to, w))
              && forall n :: n in t.entries ==> Copyable(t.entries[n], to, w))
    decreases t, 0
  {
    hide IsCopy;
    hide ManifestOf;
    hide Removable;
    hide Copyable;
    hide CanChange;
    hide CanSearch;
    var names := ListDir(t.entries);
    made, children := map[], [];
    for i := 0 to |names|
      invariant ChildrenCopied(t, names, i, made, children, to, w.how)
      invariant AllRemovable(made, w) && (made != map[] ==> i > 0) && (i > 0 ==> CanChange(to, w))
      invariant NamedCopyable(t, names, i, to, w)
    {
      assert names[i] in names && names[i] !in names[..i];
      var r, after := CopyEntry(t.entries[names[i]], names[i], t.mode, made, to, w);
      if !r.Copied? { return false, after, children; }
      OneMoreChild(t, names, i, made, children, after, r.manifest, to, w.how);
      children := children + [(names[i], r.manifest)];
      made := after;
    }
    AllChildrenCopied(t, names, made, children, to, w.how);
    AllNamedCopyable(t, names, to, w);
    return true, made, children;
  }

  method CopyEntry(t: Tree, name: Name, from: Mode, into: Entries, to: Mode, w: World)
    returns (r: CopyResult, after: Entries)
    ensures CopyOutcome(t, name, into, to, after, r, w)
    ensures r.Copied? ==> Copyable(t, to, w) && CanSearch(from, w) && CanChange(to, w)
    ensures !w.faults ==> (r.Copied? <==> Copyable(t, to, w) && name !in into && CanSearch(from, w) && CanChange(to, w))
    decreases t, 2
  {
    if !t.Dir? {
      r, after := CopyLeaf(t, name, from, into, to, w);
      return;
    }
    after := into;
    var failed := Fault(w);
    if failed || !CanSearch(from, w) || !CanRead(t.mode, w) { return CopyFailed, into; }
    if name in into || !CanChange(to, w) { return CopyFailed, into; }
    var inode: Id := *;
    r, after := FillCopy(t, name, inode, into, to, w);
  }

  /** From the mkdir on: a failure removes what was made. */
  method FillCopy(t: Tree, name: Name, inode: Id, into: Entries, to: Mode, w: World)
    returns (r: CopyResult, after: Entries)
    requires t.Dir? && name !in into && CanRead(t.mode, w) && CanChange(to, w)
    ensures CopyOutcome(t, name, into, to, after, r, w)
    ensures r.Copied? ==> Copyable(t, to, w)
    ensures !w.faults ==> (r.Copied? <==> Copyable(t, to, w))
    decreases t, 1
  {
    var mode := Made(t.mode, to, w.how);
    var done, made, children := false, map[], [];
    if CanRead(mode, w) { done, made, children := CopyChildren(t, mode, w); }
    var copy := Dir(inode, mode, made);
    if done { return Copied(DirCopied(t.id, children)), into[name := copy]; }
    var rest := RemoveTree(copy, to, w);
    return if rest.None? then CopyFailed else CleanupFailed, if rest.None? then into else into[name := rest.value];
  }

  // ---------------------------------------------------------------- remove_copied_entry

  /** Every removed leaf was recorded by the manifest under its present identity. */
  ghost predicate OnlyRecorded(log: seq<Deletion>, m: Manifest, w: World) {
    forall d :: d in log ==> d.leaf.Leaf? && Truthful(d.leaf, w.truth) && Recorded(m, d.path, d.leaf.id)
  }

  function Below(name: Name, log: seq<Deletion>): seq<Deletion> {
    if log == [] then [] else [Deletion([name] + log[0].path, log[0].leaf)] + Below(name, log[1..])
  }

  lemma {:induction false} BelowIsRecorded(m: Manifest, i: nat, log: seq<Deletion>, w: World)
    requires m.DirCopied? && i < |m.children| && OnlyRecorded(log, m.children[i].1, w)
    ensures OnlyRecorded(Below(m.children[i].0, log), m, w)
  {
    if log != [] {
      BelowIsRecorded(m, i, log[1..], w);
      assert log[0] in log;
      var d := Deletion([m.children[i].0] + log[0].path, log[0].leaf);
      assert d.path[1..] == log[0].path;
    }
  }

  /** The leaf found at this path below a directory. */
  predicate HasLeaf(e: Entries, p: Path, leaf: Tree) {
    |p| > 0 && p[0] in e && leaf.Leaf? && At(e[p[0]], p[1..]) == Some(leaf)
  }

  /** Every leaf is still in its place or was removed under the log's eyes. */
  ghost predicate Accounted(before: Entries, after: Entries, log: seq<Deletion>) {
    forall p, leaf :: HasLeaf(before, p, leaf) ==> HasLeaf(after, p, leaf) || Deletion(p, leaf) in log
  }

  lemma {:induction false} BelowHolds(name: Name, log: seq<Deletion>, d: Deletion)
    requires d in log
    ensures Deletion([name] + d.path, d.leaf) in Below(name, log)
  {
    if d != log[0] { BelowHolds(name, log[1..], d); }
  }

  lemma LeafAccounted(e: Entries, name: Name)
    requires name in e && e[name].Leaf?
    ensures Accounted(e, e - {name}, Below(name, [Deletion([], e[name])]))
  {
    assert [name] + [] == [name];
    forall p, leaf | HasLeaf(e, p, leaf) && p[0] == name ensures p == [name] && leaf == e[name] {
      assert p == [name] + p[1..];
    }
    assert Below(name, [Deletion([], e[name])]) == [Deletion([name], e[name])];
  }

  lemma AccountedBelow(e: Entries, name: Name, left: Entries, log: seq<Deletion>)
    requires name in e && e[name].Dir? && Accounted(e[name].entries, left, log)
    ensures Accounted(e, e[name := e[name].(entries := left)], Below(name, log))
    ensures left == map[] ==> Accounted(e, e - {name}, Below(name, log))
  {
    forall p, leaf | HasLeaf(e, p, leaf) && p[0] == name
      ensures HasLeaf(left, p[1..], leaf) || Deletion(p, leaf) in Below(name, log)
    {
      assert HasLeaf(e[name].entries, p[1..], leaf);
      if !HasLeaf(left, p[1..], leaf) {
        BelowHolds(name, log, Deletion(p[1..], leaf));
        assert [name] + p[1..] == p;
      }
    }
  }

  /** same_identity; the type of an entry is part of its identity. */
  predicate SameIdentity(e: Entries, name: Name, m: Manifest) {
    name in e && e[name].id == m.id && if m.DirCopied? then e[name].Dir? else e[name].Leaf?
  }

  /** After its check, the unlink of a leaf below a directory of mode `parent`, which by now looks
      as `meanwhile` says. */
  method RemoveLeaf(e: Entries, name: Name, parent: Mode, m: Manifest, meanwhile: Entries, w: World)
    returns (removed: bool, after: Entries, ghost log: seq<Deletion>)
    requires Sound(e, w) && Sound(meanwhile, w) && m.LeafCopied? && SameIdentity(e, name, m)
    requires !w.racing || !w.disturbed ==> meanwhile == e
    ensures Sound(after, w)
    ensures !w.racing ==> OnlyRecorded(log, m, w)
    ensures removed ==> name in meanwhile && after == meanwhile - {name} && log == [Deletion([], meanwhile[name])]
    ensures !removed ==> after == meanwhile && log == []
    ensures !w.faults ==> (removed <==> name in meanwhile && !meanwhile[name].Dir? && CanChange(parent, w))
  {
    after, log := meanwhile, [];
    var failed := Fault(w);
    if failed || name !in after || after[name].Dir? || !CanChange(parent, w) { return false, after, []; }
    log := [Deletion([], after[name])];
    after := after - {name};
    return true, after, log;
  }

  /** The check and the unlink are two system calls: a leaf edited between them is deleted, and the
      deletion is preserved by the copy exactly when the edit changed neither body nor file mode.
      This is why what follows asks for `!racing`. */
  method EditAfterTheCheckIsLost(before: Tree, edited: Tree, c: Tree, name: Name, parent: Mode, w: World)
    returns (removed: bool, after: Entries, ghost log: seq<Deletion>)
    requires before.Leaf? && edited.Leaf? && IsCopy(before, c, parent, w.how)
    requires Truthful(before, w.truth) && Truthful(edited, w.truth)
    requires w.racing && w.disturbed && !w.faults && CanChange(parent, w)
    ensures removed && after == map[] && log == [Deletion([], edited)]
    ensures Preserved(log[0], c) <==>
              edited.body == before.body && (edited.body.FileBody? ==> edited.mode == before.mode)
  {
    removed, after, log := RemoveLeaf(map[name := before], name, parent, LeafCopied(before.id), map[name := edited], w);
  }

  /** The entries whose names the manifest does not list. */
  ghost function Unlisted(e: Entries, m: Manifest, k: nat): Entries
    requires m.DirCopied? && k <= |m.children|
  {
    map n | n in e && !(exists i :: 0 <= i < k && m.children[i].0 == n) :: e[n]
  }

  lemma ListedChildren(dir: Entries, m: Manifest, k: nat)
    requires m.DirCopied? && k < |m.children| && exists id, before :: ManifestOf(Dir(id, before, dir), m)
    ensures m.children[k].0 in dir && ManifestOf(dir[m.children[k].0], m.children[k].1)
    ensures m.children[k].0 in Unlisted(dir, m, k)
  {
    var id, before :| ManifestOf(Dir(id, before, dir), m);
  }

  predicate ListedRemovable(dir: Entries, mode: Mode, m: Manifest, i: nat, w: World)
    requires m.DirCopied? && i <= |m.children|
  {
    forall k :: 0 <= k < i ==> m.children[k].0 in dir && Removable(dir[m.children[k].0], w) && CanChange(mode, w)
  }

  lemma AllListedRemovable(dir: Entries, mode: Mode, m: Manifest, w: World)
    requires m.DirCopied? && exists id, before :: ManifestOf(Dir(id, before, dir), m)
    requires ListedRemovable(dir, mode, m, |m.children|, w)
    ensures AllRemovable(dir, w) && (dir != map[] ==> CanChange(mode, w))
  {
    hide Removable;
    hide CanChange;
    var id, before :| ManifestOf(Dir(id, before, dir), m);
    forall n | n in dir ensures Removable(dir[n], w) && CanChange(mode, w) {
      var k :| 0 <= k < |m.children| && m.children[k].0 == n;
    }
    if n :| n in dir { assert CanChange(mode, w); }
  }

  /** The loop over the recorded children of a directory; the first refusal ends it. */
  method RemoveChildren(dir: Entries, mode: Mode, m: Manifest, w: World)
    returns (done: bool, left: Entries, ghost log: seq<Deletion>)
    requires Sound(dir, w) && m.DirCopied?
    ensures Sound(left, w)
    ensures !w.racing ==> OnlyRecorded(log, m, w)
    ensures !w.disturbed ==> Accounted(dir, left, log)
    ensures done && !w.disturbed ==> left == Unlisted(dir, m, |m.children|)
    ensures !w.disturbed && !w.racing && !w.faults && (exists id, before :: ManifestOf(Dir(id, before, dir), m)) ==>
              (done <==> AllRemovable(dir, w) && (dir != map[] ==> CanChange(mode, w)))
    decreases m, 0
  {
    hide Below;
    hide At;
    hide Recorded;
    hide Removable;
    hide ManifestOf;
    hide CanChange;
    hide Truthful;
    log, left := [], dir;
    ghost var calm :=
      !w.disturbed && !w.racing && !w.faults && exists id, before :: ManifestOf(Dir(id, before, dir), m);
    for i := 0 to |m.children|
      invariant Sound(left, w)
      invariant !w.racing ==> OnlyRecorded(log, m, w)
      invariant !w.disturbed ==> Accounted(dir, left, log)
      invariant !w.disturbed ==> left == Unlisted(dir, m, i)
      invariant calm ==> ListedRemovable(dir, mode, m, i, w)
    {
      if calm { ListedChildren(dir, m, i); }
      ghost var removedHere: seq<Deletion>;
      var ok;
      ok, left, removedHere := RemoveCopied(left, m.children[i].0, mode, m.children[i].1, w);
      if !w.racing { BelowIsRecorded(m, i, removedHere, w); }
      log := log + Below(m.children[i].0, removedHere);
      if !ok { return false, left, log; }
    }
    if calm { AllListedRemovable(dir, mode, m, w); }
    return true, left, log;
  }

  /** remove_copied_entry below a directory of mode `parent`. */
  method RemoveCopied(e: Entries, name: Name, parent: Mode, m: Manifest, w: World)
    returns (removed: bool, after: Entries, ghost log: seq<Deletion>)
    requires Sound(e, w)
    ensures Sound(after, w)
    ensures !w.racing ==> OnlyRecorded(log, m, w)
    ensures removed ==> name !in after
    ensures removed && !w.disturbed ==> after == e - {name}
    ensures !w.disturbed ==> Accounted(e, after, Below(name, log))
    ensures !w.disturbed && !w.racing && !w.faults && name in e && ManifestOf(e[name], m) ==>
              (removed <==> Removable(e[name], w) && CanChange(parent, w))
    decreases m, 1
  {
    hide Below;
    hide At;
    hide Recorded;
    log := [];
    after := Disturb(e, w);
    if !CanSearch(parent, w) || !SameIdentity(after, name, m) { return false, after, []; }
    if m.LeafCopied? {
      var meanwhile := after;
      if w.racing { meanwhile := Disturb(after, w); }
      removed, after, log := RemoveLeaf(after, name, parent, m, meanwhile, w);
      if !w.disturbed && removed { LeafAccounted(e, name); }
      return;
    }
    after := Disturb(after, w);
    if name !in after || !after[name].Dir? || !CanRead(after[name].mode, w) { return false, after, []; }
    var dir := after[name];
    var done, left;
    done, left, log := RemoveChildren(dir.entries, dir.mode, m, w);
    if !w.disturbed { AccountedBelow(e, name, left, log); }
    after := after[name := dir.(entries := left)];
    if !done { return false, after, log; }
    after := Disturb(after, w);
    var failed := Fault(w);
    if failed || !CanChange(parent, w) || name !in after || !after[name].Dir? || after[name].entries != map[] {
      return false, after, log;
    }
    return true, after - {name}, log;
  }

  // ---------------------------------------------------------------- move_entry, for a directory

  datatype MoveResult =
    | Moved              // the source is gone
    | NothingDone        // raised before anything lasting happened
    | TempLeft           // raised, and the temporary directory could not be removed
    | ModeLeft           // raised by the final fchmod: published, but with the owner's mode
    | CopyKept           // raised while removing the source: the copy is complete

  predicate AllTaken(dst: Entries, candidates: seq<Name>, n: nat)
    requires n <= |candidates|
  {
    forall k :: 0 <= k < n ==> candidates[k] in dst
  }

  /** create_temp_dir: the first free one of 128 random names. */
  method CreateTempDir(dst: Entries, mode: Mode, candidates: seq<Name>, w: World) returns (temp: Option<Name>)
    requires |candidates| == 128
    ensures temp.Some? ==>
              temp.value !in dst
              && exists i :: 0 <= i < 128 && candidates[i] == temp.value && AllTaken(dst, candidates, i)
    ensures !w.faults ==> (temp.Some? <==> CanChange(mode, w) && !AllTaken(dst, candidates, 128))
  {
    for i := 0 to 128
      invariant AllTaken(dst, candidates, i)
    {
      if !CanChange(mode, w) { return None; }
      if candidates[i] !in dst {
        var failed := Fault(w);
        return if failed then None else Some(candidates[i]);
      }
    }
    return None;
  }

  /** Where rename(2) can put a directory. */
  predicate Replaceable(dst: Entries, name: Name) {
    name in dst ==> dst[name].Dir? && dst[name].entries == map[]
  }

  /** Nothing but one of the temporary names was added. */
  ghost predicate LeftBehind(dst: Entries, candidates: seq<Name>, after: Entries) {
    exists temp :: temp in candidates && temp !in dst && temp in after && after - {temp} == dst
  }

  /** The temporary directory of a source that nobody may enter is the owner's. */
  function StagedMode(mode: Mode): Mode {
    if mode == {} then {OWNER_READ, OWNER_WRITE, OWNER_SEARCH} else mode
  }

  /** The mode of the temporary directory while it is filled. */
  function Staged(t: Tree, dstMode: Mode, w: World): Mode
    requires t.Dir?
  {
    Made(StagedMode(t.mode), dstMode, w.how)
  }

  /** Its mode once the move is through. */
  function Final(t: Tree, dstMode: Mode, w: World): Mode
    requires t.Dir?
  {
    if t.mode == {} then {} else Made(t.mode, dstMode, w.how)
  }

  /** The destination holds all copies, made in a directory of mode `filled`, in a directory of mode
      `mode`, and is otherwise as it was. */
  ghost predicate PublishedAs(t: Tree, mode: Mode, filled: Mode, dst: Entries, name: Name, after: Entries, w: World)
    requires t.Dir?
  {
    && name in after && after == dst[name := after[name]]
    && after[name].Dir? && after[name].mode == mode && CopiesAll(t.entries, after[name].entries, filled, w.how)
  }

  /** When a move keeps every mode. */
  predicate MoveKeepsModes(t: Tree, dstMode: Mode, w: World)
    requires t.Dir?
  {
    && (t.mode != {} ==> Survives(t.mode, dstMode, w.how))
    && forall n :: n in t.entries ==> ModesSurvive(t.entries[n], Staged(t, dstMode, w), w.how)
  }

  /** The copying half: the temporary directory is filled and renamed over the destination. */
  method PublishCopy(t: Tree, dst: Entries, dstMode: Mode, dstName: Name, candidates: seq<Name>, w: World)
    returns (r: MoveResult, after: Entries, m: Manifest)
    requires t.Dir? && |candidates| == 128
    ensures r.Moved? || r.NothingDone? || r.TempLeft?
    ensures r.NothingDone? ==> after == dst
    ensures r.TempLeft? ==> (w.faults || !MaskKeepsRead(w)) && LeftBehind(dst, candidates, after)
    ensures r.Moved? ==> PublishedAs(t, Staged(t, dstMode, w), Staged(t, dstMode, w), dst, dstName, after, w)
    ensures r.Moved? ==> ManifestOf(t, m) && m.DirCopied? && CopyableInto(t, Staged(t, dstMode, w), w)
    ensures r.Moved? ==> Replaceable(dst, dstName)
    ensures !w.faults ==> (r.Moved? <==>
              && CopyableInto(t, Staged(t, dstMode, w), w) && Replaceable(dst, dstName)
              && CanChange(dstMode, w) && !AllTaken(dst, candidates, 128))
  {
    after, m := dst, LeafCopied(0);
    if !CanRead(t.mode, w) { return NothingDone, after, m; }
    var temp := CreateTempDir(dst, dstMode, candidates, w);
    if temp.None? { return NothingDone, after, m; }
    var mode := Staged(t, dstMode, w);
    var inode: Id := *;
    var done, made, children := false, map[], [];
    if CanRead(mode, w) { done, made, children := CopyChildren(t, mode, w); }
    var copy := Dir(inode, mode, made);
    var failed := Fault(w);
    if !done || failed || !CanChange(dstMode, w) || !Replaceable(dst, dstName) {
      var rest := RemoveTree(copy, dstMode, w);
      if rest.None? { return NothingDone, dst, m; }
      after := dst[temp.value := rest.value];
      assert after - {temp.value} == dst;
      return TempLeft, after, m;
    }
    var staged := dst[temp.value := copy];
    after := (staged - {temp.value})[dstName := copy];
    assert after == dst[dstName := copy];
    return Moved, after, DirCopied(t.id, children);
  }

  lemma PublishedIsCopy(t: Tree, dst: Entries, dstMode: Mode, name: Name, after: Entries, w: World)
    requires t.Dir? && PublishedAs(t, Final(t, dstMode, w), Staged(t, dstMode, w), dst, name, after, w)
    ensures t.mode != {} ==> IsCopy(t, after[name], dstMode, w.how)
    ensures SameTree(t, after[name]) <==> MoveKeepsModes(t, dstMode, w)
  {
    hide Made;
    hide Survives;
    SurvivesExactly(t.mode, dstMode, w.how);
    ChildrenSameExactly(t, after[name].entries, Staged(t, dstMode, w), w.how);
  }

  function WithMode(t: Tree, mode: Mode): Tree
    requires t.Dir?
  {
    Dir(t.id, mode, t.entries)
  }

  /** fchmod of the published directory to mode 0. */
  lemma ModeIsSet(t: Tree, dst: Entries, dstMode: Mode, name: Name, after: Entries, w: World)
    requires t.Dir? && t.mode == {} && PublishedAs(t, Staged(t, dstMode, w), Staged(t, dstMode, w), dst, name, after, w)
    ensures PublishedAs(t, {}, Staged(t, dstMode, w), dst, name, after[name := WithMode(after[name], {})], w)
  {
  }

  lemma NothingRemoved(e: Entries, name: Name)
    ensures Accounted(e, e, Below(name, []))
  {
  }

  lemma LogIsPreserved(t: Tree, c: Tree, filled: Mode, m: Manifest, log: seq<Deletion>, w: World)
    requires t.Dir? && c.Dir? && CopiesAll(t.entries, c.entries, filled, w.how)
    requires ManifestOf(t, m) && Truthful(t, w.truth) && OnlyRecorded(log, m, w)
    ensures forall d :: d in log ==> Preserved(d, c)
  {
    forall d | d in log ensures Preserved(d, c) {
      RecordedIsPreserved(t, c, filled, w.how, m, d, w.truth);
    }
  }

  /** The directory fallback of move_entry, between directories of modes `srcMode` and `dstMode`. */
  method MoveDirectory(src: Entries, srcMode: Mode, srcName: Name, dst: Entries, dstMode: Mode, dstName: Name,
                       candidates: seq<Name>, w: World)
    returns (r: MoveResult, srcAfter: Entries, dstAfter: Entries, ghost log: seq<Deletion>)
    requires Sound(src, w) && srcName in src && src[srcName].Dir? && |candidates| == 128
    ensures r.NothingDone? ==> srcAfter == src && dstAfter == dst
    ensures r.TempLeft? ==> (w.faults || !MaskKeepsRead(w)) && srcAfter == src && LeftBehind(dst, candidates, dstAfter)
    ensures r.ModeLeft? ==> w.faults && src[srcName].mode == {} && srcAfter == src
    ensures r.ModeLeft? ==>
              var staged := Staged(src[srcName], dstMode, w);
              PublishedAs(src[srcName], staged, staged, dst, dstName, dstAfter, w)
    ensures r.Moved? || r.CopyKept? ==>
              var t := src[srcName];
              && PublishedAs(t, Final(t, dstMode, w), Staged(t, dstMode, w), dst, dstName, dstAfter, w)
              && (t.mode != {} ==> IsCopy(t, dstAfter[dstName], dstMode, w.how))
              && (SameTree(t, dstAfter[dstName]) <==> MoveKeepsModes(t, dstMode, w))
    // What is published or removed is admitted at every path; anything else stops the move before.
    ensures r.Moved? || r.CopyKept? || r.ModeLeft? ==> AllAdmitted(src[srcName], w)
    ensures !AllAdmitted(src[srcName], w) && !w.faults && MaskKeepsRead(w) ==> r.NothingDone?
    ensures r.Moved? || r.CopyKept? ==>
              dstAfter[dstName].mode
              == var mode := src[srcName].mode;
                 if mode == {} then {} else (mode - w.how.masked) + dstMode * w.how.inherited
    ensures r.ModeLeft? ==> dstAfter[dstName].mode == (OWNER - w.how.masked) + dstMode * w.how.inherited
    // Nothing but an empty directory gives way to the copy.
    ensures dstName in dst && (r.Moved? || r.CopyKept? || r.ModeLeft?) ==>
              dst[dstName].Dir? && |dst[dstName].entries| == 0
    ensures !r.Moved? && !r.CopyKept? ==> log == []
    ensures !w.racing ==> forall d :: d in log ==> Preserved(d, dstAfter[dstName])
    ensures !w.disturbed ==> Accounted(src, srcAfter, Below(srcName, log))
    ensures r.Moved? ==> srcName !in srcAfter
    ensures r.Moved? && !w.disturbed ==> srcAfter == src - {srcName}
    ensures !w.faults && !w.disturbed && !w.racing ==>
              (r.Moved? <==>
                && CopyableInto(src[srcName], Staged(src[srcName], dstMode, w), w) && Replaceable(dst, dstName)
                && CanChange(dstMode, w) && !AllTaken(dst, candidates, 128)
                && Removable(src[srcName], w) && CanChange(srcMode, w))
  {
    hide IsCopy;
    hide ManifestOf;
    hide Accounted;
    hide OnlyRecorded;
    hide CopyableInto;
    hide Removable;
    hide Below;
    hide Preserved;
    hide CopiesAll;
    hide MoveKeepsModes;
    hide SameTree;
    hide AllAdmitted;
    var t := src[srcName];
    srcAfter, dstAfter, log := src, dst, [];
    NothingRemoved(src, srcName);
    if !CanSearch(srcMode, w) { return NothingDone, src, dst, []; }
    var m;
    r, dstAfter, m := PublishCopy(t, dst, dstMode, dstName, candidates, w);
    if !r.Moved? { return; }
    ChildrenAreAdmitted(t, Staged(t, dstMode, w), w);
    if t.mode == {} {
      var failed := Fault(w);
      if failed { return ModeLeft, src, dstAfter, []; }
      ModeIsSet(t, dst, dstMode, dstName, dstAfter, w);
      dstAfter := dstAfter[dstName := WithMode(dstAfter[dstName], {})];
    }
    PublishedIsCopy(t, dst, dstMode, dstName, dstAfter, w);
    var removed;
    removed, srcAfter, log := RemoveCopied(src, srcName, srcMode, m, w);
    if !w.racing { LogIsPreserved(t, dstAfter[dstName], Staged(t, dstMode, w), m, log, w); }
    return if removed then Moved else CopyKept, srcAfter, dstAfter, log;
  }

  // ---------------------------------------------------------------- modes that a move changes

  /** A quiet world with this mkdir. */
  function Quiet(how: Making, truth: Id -> (Mode, Body)): World {
    World(false, false, false, false, how, truth)
  }

  const SET_GROUP_ID: Bit := 10

  /** Moves an empty directory into an empty one. */
  method MoveEmpty(mode: Mode, dstMode: Mode, w: World) returns (r: MoveResult, copy: Tree)
    requires !w.faults && !w.disturbed && !w.racing && mode != {}
    requires OWNER <= mode && OWNER <= dstMode && OWNER <= Made(mode, dstMode, w.how)
    ensures r.Moved? && copy.Dir? && copy.mode == Made(mode, dstMode, w.how) && copy.entries == map[]
    ensures SameTree(Dir(0, mode, map[]), copy) <==> Survives(mode, dstMode, w.how)
  {
    var t := Dir(0, mode, map[]);
    var src := map["d" := t];
    var candidates := seq(128, i => "t");
    var empty: Entries := map[];
    assert candidates[0] !in empty;
    var srcAfter, dstAfter;
    ghost var log;
    r, srcAfter, dstAfter, log := MoveDirectory(src, OWNER, "d", empty, dstMode, "d", candidates, w);
    copy := dstAfter["d"];
  }

  /** A directory 0720 arrives as 0700 under the mask 0020. */
  method MaskedBitIsLost(truth: Id -> (Mode, Body)) returns (copy: Tree)
    ensures copy.Dir? && copy.mode == OWNER && !SameTree(Dir(0, OWNER + {4}, map[]), copy)
  {
    var r;
    var w := Quiet(Making({4}, {}), truth);
    assert Made(OWNER + {4}, OWNER, w.how) == OWNER;
    assert 4 in (OWNER + {4}) * w.how.masked;
    r, copy := MoveEmpty(OWNER + {4}, OWNER, w);
  }

  /** A directory 0700 arrives as 02700 in a directory that has the set-group-ID bit, under no mask. */
  method InheritedBitIsGained(truth: Id -> (Mode, Body)) returns (copy: Tree)
    ensures copy.Dir? && copy.mode == OWNER + {SET_GROUP_ID} && !SameTree(Dir(0, OWNER, map[]), copy)
  {
    var r;
    var w := Quiet(Making({}, {SET_GROUP_ID}), truth);
    assert Made(OWNER, OWNER + {SET_GROUP_ID}, w.how) == OWNER + {SET_GROUP_ID};
    assert SET_GROUP_ID in (OWNER + {SET_GROUP_ID}) * w.how.inherited;
    r, copy := MoveEmpty(OWNER, OWNER + {SET_GROUP_ID}, w);
  }
}
