/** Directory trees as the guest program sees them, and what a copy of one is. */
module GuestTree {
  import opened Basics

  type Id = nat
  type Name = string

  /** A permission mode is the set of its twelve bits that are on. */
  type Bit = b: nat | b < 12
  type Mode = set<Bit>

  type Path = seq<Name>

  datatype Body = FileBody(content: Bytes) | LinkBody(target: string)

  /** `id` is what entry_identity reports: device, inode, mode, size and both times.  Any change
      to an entry gives it another one, so an identity determines the entry's body and mode. */
  datatype Tree =
    | Leaf(id: Id, mode: Mode, body: Body, links: nat)
    | Special(id: Id)
    | Dir(id: Id, mode: Mode, entries: map<Name, Tree>)

  type Entries = map<Name, Tree>

  /** What copy_entry returns. */
  datatype Manifest = LeafCopied(id: Id) | DirCopied(id: Id, children: seq<(Name, Manifest)>)

  function At(t: Tree, p: Path): Option<Tree> {
    if p == [] then Some(t)
    else if t.Dir? && p[0] in t.entries then At(t.entries[p[0]], p[1..])
    else None
  }

  /** How mkdir comes to a mode: it drops `masked`, the creation mask together with whatever bits
      mkdir ignores (on Linux the set-ID bits), and hands down the `inherited` bits of the parent
      (on Linux set-group-ID). */
  datatype Making = Making(masked: Mode, inherited: Mode)

  function Made(mode: Mode, parent: Mode, how: Making): Mode {
    (mode - how.masked) + parent * how.inherited
  }

  /** `c` is what copying `t` into a directory of mode `parent` makes.  A directory keeps the mode
      that mkdir gave it; a file's mode is set by fchmod and a link has none of its own. */
  predicate IsCopy(t: Tree, c: Tree, parent: Mode, how: Making) {
    match t
    case Special(_) => false
    case Leaf(_, mode, body, _) => c.Leaf? && c.body == body && (body.FileBody? ==> c.mode == mode)
    case Dir(_, mode, entries) =>
      c.Dir? && c.mode == Made(mode, parent, how) && c.entries.Keys == entries.Keys
      && forall n :: n in entries ==> IsCopy(entries[n], c.entries[n], Made(mode, parent, how), how)
  }

  /** `made` holds the copies of all entries of `e`, made in a directory of mode `parent`. */
  predicate CopiesAll(e: Entries, made: Entries, parent: Mode, how: Making) {
    made.Keys == e.Keys && forall n :: n in e ==> IsCopy(e[n], made[n], parent, how)
  }

  /** Equal in names, kinds, contents, link targets and modes. */
  predicate SameTree(t: Tree, c: Tree) {
    match t
    case Special(_) => false
    case Leaf(_, mode, body, _) => c.Leaf? && c.body == body && (body.FileBody? ==> c.mode == mode)
    case Dir(_, mode, entries) =>
      c.Dir? && c.mode == mode && c.entries.Keys == entries.Keys
      && forall n :: n in entries ==> SameTree(entries[n], c.entries[n])
  }

  /** A directory's dropped bits are handed down to it, and only its own bits are. */
  predicate Survives(mode: Mode, parent: Mode, how: Making) {
    mode * how.masked <= parent * how.inherited <= mode
  }

  /** So it is for every directory of the tree, the destination being the first parent. */
  predicate ModesSurvive(t: Tree, parent: Mode, how: Making) {
    t.Dir? ==> Survives(t.mode, parent, how) && forall n :: n in t.entries ==> ModesSurvive(t.entries[n], t.mode, how)
  }

  lemma SurvivesExactly(mode: Mode, parent: Mode, how: Making)
    ensures Made(mode, parent, how) == mode <==> Survives(mode, parent, how)
  {
    var made := Made(mode, parent, how);
    if Survives(mode, parent, how) {
      forall b ensures b in made <==> b in mode {
        assert b in mode * how.masked ==> b in parent * how.inherited;
      }
    }
    if made == mode {
      forall b | b in mode * how.masked ensures b in parent * how.inherited { assert b in made; }
      forall b | b in parent * how.inherited ensures b in mode { assert b in made; }
    }
  }

  lemma {:induction false} ChildrenSameExactly(t: Tree, made: Entries, parent: Mode, how: Making)
    requires t.Dir? && CopiesAll(t.entries, made, parent, how)
    ensures (forall n :: n in t.entries ==> SameTree(t.entries[n], made[n]))
       <==> (forall n :: n in t.entries ==> ModesSurvive(t.entries[n], parent, how))
    decreases t, 0
  {
    forall n | n in t.entries ensures SameTree(t.entries[n], made[n]) <==> ModesSurvive(t.entries[n], parent, how) {
      CopyIsSameExactly(t.entries[n], made[n], parent, how);
    }
  }

  /** The copy preserves the whole tree, modes included, exactly when every directory's mode
      survives its mkdir. */
  lemma {:induction false} CopyIsSameExactly(t: Tree, c: Tree, parent: Mode, how: Making)
    requires IsCopy(t, c, parent, how)
    ensures SameTree(t, c) <==> ModesSurvive(t, parent, how)
    decreases t, 1
  {
    hide Made;
    hide Survives;
    if t.Dir? {
      SurvivesExactly(t.mode, parent, how);
      ChildrenSameExactly(t, c.entries, Made(t.mode, parent, how), how);
    }
  }

  /** Every leaf of the source has its copy at the same path. */
  lemma {:induction false} CopyHasEveryLeaf(t: Tree, c: Tree, parent: Mode, how: Making, p: Path)
    requires IsCopy(t, c, parent, how) && At(t, p).Some? && At(t, p).value.Leaf?
    ensures At(c, p).Some? && At(c, p).value.Leaf? && At(c, p).value.body == At(t, p).value.body
    ensures At(t, p).value.body.FileBody? ==> At(c, p).value.mode == At(t, p).value.mode
    decreases |p|
  {
    if p != [] {
      CopyHasEveryLeaf(t.entries[p[0]], c.entries[p[0]], Made(t.mode, parent, how), how, p[1..]);
    }
  }

  ghost predicate Distinct(names: seq<Name>) {
    forall i, j :: 0 <= i < j < |names| ==> names[i] != names[j]
  }

  /** The manifest of a tree: its identities, entry by entry. */
  ghost predicate ManifestOf(t: Tree, m: Manifest)
    decreases m
  {
    match m
    case LeafCopied(id) => t.Leaf? && t.id == id
    case DirCopied(id, children) =>
      && t.Dir? && t.id == id
      && (forall i, j :: 0 <= i < j < |children| ==> children[i].0 != children[j].0)
      && (forall n :: n in t.entries <==> exists i :: 0 <= i < |children| && children[i].0 == n)
      && (forall i :: 0 <= i < |children| ==>
            children[i].0 in t.entries && ManifestOf(t.entries[children[i].0], children[i].1))
  }

  /** The manifest records a leaf with this identity at this path. */
  ghost predicate Recorded(m: Manifest, p: Path, id: Id)
    decreases m
  {
    match m
    case LeafCopied(leaf) => p == [] && leaf == id
    case DirCopied(_, children) =>
      p != [] && exists i :: 0 <= i < |children| && children[i].0 == p[0] && Recorded(children[i].1, p[1..], id)
  }

  lemma {:induction false} RecordedIsInTree(t: Tree, m: Manifest, p: Path, id: Id)
    requires ManifestOf(t, m) && Recorded(m, p, id)
    ensures At(t, p).Some? && At(t, p).value.Leaf? && At(t, p).value.id == id
    decreases m
  {
    if m.DirCopied? {
      var i :| 0 <= i < |m.children| && m.children[i].0 == p[0] && Recorded(m.children[i].1, p[1..], id);
      RecordedIsInTree(t.entries[p[0]], m.children[i].1, p[1..], id);
    }
  }

  /** Identities tell the truth: they determine mode and body of a leaf. */
  predicate Truthful(t: Tree, truth: Id -> (Mode, Body)) {
    match t
    case Special(_) => true
    case Leaf(id, mode, body, _) => truth(id) == (mode, body)
    case Dir(_, _, entries) => forall n :: n in entries ==> Truthful(entries[n], truth)
  }

  lemma {:induction false} TruthfulAt(t: Tree, truth: Id -> (Mode, Body), p: Path)
    requires Truthful(t, truth) && At(t, p).Some?
    ensures Truthful(At(t, p).value, truth)
    decreases |p|
  {
    if p != [] {
      TruthfulAt(t.entries[p[0]], truth, p[1..]);
    }
  }

  /** A leaf that was removed from the source. */
  datatype Deletion = Deletion(path: Path, leaf: Tree)

  /** The removed leaf has its content in the copy, at the same path. */
  ghost predicate Preserved(d: Deletion, c: Tree) {
    && d.leaf.Leaf?
    && At(c, d.path).Some? && At(c, d.path).value.Leaf?
    && At(c, d.path).value.body == d.leaf.body
    && (d.leaf.body.FileBody? ==> At(c, d.path).value.mode == d.leaf.mode)
  }

  /** A removed leaf that the manifest recorded has its copy, whatever happened to the source
      between copying and removal, and whatever the mode of the copy's root. */
  lemma RecordedIsPreserved(t: Tree, c: Tree, parent: Mode, how: Making, m: Manifest, d: Deletion,
                            truth: Id -> (Mode, Body))
    requires t.Dir? && c.Dir? && CopiesAll(t.entries, c.entries, parent, how)
    requires ManifestOf(t, m) && Truthful(t, truth)
    requires d.leaf.Leaf? && Truthful(d.leaf, truth) && Recorded(m, d.path, d.leaf.id)
    ensures Preserved(d, c)
  {
    RecordedIsInTree(t, m, d.path, d.leaf.id);
    TruthfulAt(t, truth, d.path);
    var p := d.path;
    CopyHasEveryLeaf(t.entries[p[0]], c.entries[p[0]], parent, how, p[1..]);
  }
}
