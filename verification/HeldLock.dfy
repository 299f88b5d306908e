/** The reference-counted record of a held Root sidecar lock, and its re-entrant release.

    Closing the descriptor and removing the sidecar run user code.  That code may acquire the
    same lock again, release or dispose any handle, run exit cleanup, or take the record out
    of the shared registry, to any nesting depth: `Callback` does any number of these.  The
    contracts therefore hold across every nesting. */
module HeldLock {
  const MAX_CONTINUITY_CLEANUP_ATTEMPTS := 2

  datatype ReleaseState = Active | Releasing | ExitCleaning | Released

  /** What releasing through one handle did: true, false, or an exception. */
  datatype Verdict = Consumed | Kept | Thrown

  datatype Removal = Removed | Declined | RemovalThrew

  /** What one operation meets: how deep its callbacks act (at 0 they do nothing), whether the
      sidecar is still the one this record wrote, whether the descriptor closes, and what the
      filesystem answers to each attempt to remove the sidecar. */
  datatype World = World(depth: nat, current: bool, closes: bool, removal: nat -> Removal) {
    ghost predicate Works() {
      closes && forall k :: 1 <= k <= MAX_CONTINUITY_CLEANUP_ATTEMPTS ==> removal(k) == Removed
    }
  }

  /** One unlink of the sidecar: by exit cleanup or by a release, the references at that
      moment, the re-entrant acquisitions since the current attempt began, and whether it worked. */
  datatype Unlink = Unlink(byExit: bool, refCount: int, acquisitions: int, gone: bool)

  /** What a record knows, without its handles. */
  datatype Books = Books(
    registered: bool, state: ReleaseState, refCount: int, deferred: set<nat>, revision: nat, cleanupActive: bool,
    issued: nat, owner: nat, acquisitions: nat, unlinks: seq<Unlink>)

  /** What every operation guarantees to the frames below it on the stack. */
  ghost predicate Frames(was: Books, now: Books) {
    && Accumulates(was, now)
    && (now.registered ==> now.state == was.state && (now.state == Releasing ==> now.owner == was.owner))
    && (was.state != Active ==> now.state == was.state && now.unlinks == was.unlinks)
    && now.cleanupActive == was.cleanupActive
    && (now.registered && now.revision == was.revision ==> now.refCount == was.refCount)
  }

  /** The monotone part of `Frames`. */
  ghost predicate Accumulates(was: Books, now: Books) {
    && (now.registered ==> was.registered)
    && was.revision <= now.revision
    && was.acquisitions <= now.acquisitions
    && now.acquisitions - was.acquisitions <= now.revision - was.revision
    && was.issued <= now.issued
  }

  /** Handles are issued once. */
  ghost predicate NoneRevived(was: set<nat>, issued: nat, now: set<nat>) {
    forall h :: h in now && h < issued ==> h in was
  }

  ghost predicate Logged(was: seq<Unlink>, now: seq<Unlink>, u: Unlink) {
    now == was + [u]
  }

  /** A release inside a callback: a deferred handle stays deferred; a changed sidecar is refused;
      exit cleanup defers the last counted handle; every other release gives up its reference. */
  ghost predicate NestedEnds(was: Books, now: Books, h: nat, current: bool, v: Verdict) {
    var counted := was.(refCount := was.refCount - 1, revision := was.revision + 1);
    if h in was.deferred then v == Kept && now == was
    else if !current then v == Thrown && now == was
    else if was.state == ExitCleaning && was.refCount == 1 then
      v == Kept && now == counted.(deferred := was.deferred + {h})
    else v == Consumed && now == counted
  }

  lemma NestedRefusal(was: Books, h: nat, current: bool)
    requires h in was.deferred || !current
    ensures NestedEnds(was, was, h, current, if h in was.deferred then Kept else Thrown)
  {
  }

  lemma NestedIsFramed(was: Books, now: Books, h: nat, current: bool, v: Verdict)
    requires NestedEnds(was, now, h, current, v) && was.state != Active
    ensures Frames(was, now)
  {
  }

  /** A release beside other references: a changed sidecar is refused, else one reference goes. */
  ghost predicate SharedEnds(was: Books, now: Books, current: bool, v: Verdict) {
    && v == (if current then Consumed else Thrown)
    && now == if current then was.(refCount := was.refCount - 1, revision := was.revision + 1) else was
  }

  /** How the release of the last reference ends.  The record is dropped exactly when a removal
      worked, which is never thrown back; a failure gives the reference back. */
  ghost predicate LastEnds(was: Books, now: Books, w: World, threw: bool, attempts: nat) {
    && attempts <= 2
    && (now.registered ==> now.state == Active && was.revision < now.revision)
    && (now.state == Released ==>
          !threw && !now.registered && Logged(was.unlinks, now.unlinks, Unlink(false, 0, 0, true)))
    && (now.state != Released && !threw ==> now.unlinks == was.unlinks)
    && (threw ==> now.unlinks == was.unlinks || Logged(was.unlinks, now.unlinks, Unlink(false, 0, 0, false)))
    && (!w.closes ==> threw && now.unlinks == was.unlinks)
    // With a filesystem that works, only a record that is left without references after changing
    // in every attempt is refused.
    && (w.Works() && threw ==>
          && now.registered && now.refCount == 1 && attempts == 2
          && now.unlinks == was.unlinks)
    // Undisturbed, the release succeeds if and only if the two system calls do.
    && (w.depth == 0 ==>
          && (threw <==> !w.closes || w.removal(1) != Removed)
          && (if threw then now.registered && now.refCount == was.refCount && now.deferred == was.deferred
              else now.state == Released))
  }

  lemma SubsetSize<T>(a: set<T>, b: set<T>)
    requires a <= b
    ensures |a| <= |b|
  {
    assert |b - a| == |b| - |a|;
  }

  ghost function Another<T>(s: set<T>, x: T): (y: T)
    requires x in s && s != {x}
    ensures y in s && y != x
  {
    assert s - {x} != {};
    var y :| y in s - {x}; y
  }

  class Record {
    var refCount: int
    var state: ReleaseState
    var revision: nat
    /** The shared registry still maps the lock target to this record. */
    var registered: bool
    var descriptor: bool
    var timer: bool
    var deferred: set<nat>
    var cleanupActive: bool
    /** Handles are numbered in order of creation; `live` are those not released yet. */
    var issued: nat
    var live: set<nat>
    /** Handles whose release is in progress. */
    var busy: set<nat>

    ghost var owner: nat
    ghost var acquisitions: nat
    ghost var unlinks: seq<Unlink>

    /** The accounting: every unreleased handle is a counted reference, or was deferred by
        exit cleanup, or is the one whose final release is running. */
    ghost predicate Balanced(alive: set<nat>)
      reads `refCount, `deferred, `state
    {
      |alive| == refCount + |deferred| + (if state == Releasing then 1 else 0)
    }

    ghost predicate Sound(frames: set<nat>, alive: set<nat>)
      reads `live, `issued, `registered, `state, `deferred, `refCount, `owner, `unlinks
    {
      && frames <= alive
      && (forall h :: h in live ==> h < issued)
      && alive <= live
      && (registered ==>
            && state != Released
            && deferred <= alive && deferred !! frames
            && refCount >= 0
            && Balanced(alive)
            && (state == Active ==> refCount >= 1)
            && (deferred != {} ==> state == ExitCleaning)
            && (state == Releasing ==> frames == {owner})
            && (state != Releasing ==> frames == {}))
      && (forall u :: u in unlinks && !u.byExit ==> u.refCount == 0 && u.acquisitions == 0)
    }

    ghost function View(): Books
      reads `registered, `state, `refCount, `deferred, `revision, `cleanupActive
      reads `issued, `owner, `acquisitions, `unlinks
    {
      Books(registered, state, refCount, deferred, revision, cleanupActive, issued, owner, acquisitions, unlinks)
    }

    ghost predicate Valid()
      reads this
    {
      Sound(busy, live)
    }

    twostate predicate Framed()
      reads this
    {
      Frames(old(View()), View()) && NoneRevived(old(live), old(issued), live)
    }

    /** Nothing but the revision, the log of unlinks and the descriptor's bookkeeping differs. */
    twostate predicate Untouched()
      reads this
    {
      && refCount == old(refCount) && state == old(state) && registered == old(registered)
      && deferred == old(deferred) && live == old(live) && issued == old(issued)
    }

    twostate predicate Accumulated()
      reads this
    {
      Accumulates(old(View()), View()) && NoneRevived(old(live), old(issued), live)
    }

    constructor ()
      ensures Valid() && registered && state == Active && refCount == 1 && live == {0} && unlinks == []
    {
      refCount, state, revision, registered := 1, Active, 0, true;
      descriptor, timer, deferred, cleanupActive := true, true, {}, false;
      issued, live, busy := 1, {0}, {};
      owner, acquisitions, unlinks := 0, 0, [];
    }

    /** The registry forgets the record. */
    method Evict()
      requires Valid()
      modifies this`registered
      ensures Valid() && Framed() && !registered
    {
      registered := false;
    }

    /** User code running inside an operation. */
    method Callback(depth: nat)
      requires Valid()
      modifies this
      ensures Valid() && Framed() && busy == old(busy)
      ensures depth == 0 ==> unchanged(this)
      decreases depth, 0
    {
      var steps: nat := *;
      if depth == 0 { return; }
      hide Sound;
      while steps > 0
        invariant Valid() && Framed() && busy == old(busy)
        decreases steps
      {
        steps := steps - 1;
        var choice: nat, h: nat, current: bool, closes: bool := *, *, *, *;
        var removal: nat -> Removal := *;
        var w := World(depth - 1, current, closes, removal);
        match choice % 5
        case 0 => var _ := Acquire(w);
        case 1 => var _, _ := ReleaseHandle(h, w);
        case 2 => var _ := ScopedUse(h, w);
        case 3 => ExitCleanup(w);
        case _ => Evict();
      }
    }

    /** tryReuseCurrentHeld: None is any refusal or exception. */
    method Acquire(w: World) returns (handle: int)
      requires Valid()
      modifies this
      ensures Valid() && Framed() && busy == old(busy)
      ensures handle >= 0 <==> w.current && registered
      ensures handle >= 0 ==> handle in live && old(issued) <= handle
      ensures handle < 0 && w.depth == 0 ==> unchanged(this)
      ensures handle >= 0 && w.depth == 0 ==>
                && handle == old(issued) && live == old(live) + {handle} && refCount == old(refCount) + 1
                && deferred == old(deferred) && unlinks == old(unlinks)
      decreases w.depth, 3
    {
      if !registered || state == Released { return -1; }
      hide Sound;
      Callback(w.depth);                     // the payload parser
      if !w.current { return -1; }
      if !registered || state == Released { return -1; }
      handle := AddReference();
    }

    /** One more reference, and the handle that holds it. */
    method AddReference() returns (handle: nat)
      requires Valid() && registered
      modifies this`refCount, this`revision, this`acquisitions, this`issued, this`live
      ensures Valid() && Framed()
      ensures handle == old(issued) && live == old(live) + {handle}
      ensures refCount == old(refCount) + 1 && revision == old(revision) + 1
      ensures issued == old(issued) + 1 && acquisitions == old(acquisitions) + 1
    {
      refCount := refCount + 1;
      revision := revision + 1;
      acquisitions := acquisitions + 1;
      handle := issued;
      issued := issued + 1;
      live := live + {handle};
    }

    predicate Continuous(byExit: bool, since: nat)
      reads this
    {
      registered && revision == since
      && (if byExit then state == ExitCleaning else state == Releasing && refCount == 0)
    }

    /** reactivateExactHeldLock. */
    method Reactivate(restoreConsumedReference: bool)
      modifies this`refCount, this`state, this`revision
      ensures registered && old(state) != Released ==>
                state == Active && revision == old(revision) + 1
                && refCount == old(refCount) + (if restoreConsumedReference then 1 else 0)
      ensures !registered || old(state) == Released ==>
                state == old(state) && revision == old(revision) && refCount == old(refCount)
    {
      if !registered || state == Released { return; }
      if restoreConsumedReference { refCount := refCount + 1; }
      state := Active;
      revision := revision + 1;
    }

    /** removeFileLockSyncRootFile with the continuity check as its last gate. */
    method RemoveSidecar(byExit: bool, since: nat, answer: Removal, depth: nat) returns (r: Removal, interrupted: bool)
      requires Valid() && Continuous(byExit, since)
      modifies this
      ensures Valid() && busy == old(busy)
      ensures registered && state == Releasing ==> owner == old(owner)
      ensures state == old(state) && cleanupActive == old(cleanupActive)
      ensures Accumulated()
      ensures r == (if interrupted then Declined else answer)
      ensures interrupted ==> !Continuous(byExit, since)
      ensures r == Removed ==>
                Continuous(byExit, since) && Logged(old(unlinks), unlinks, Unlink(byExit, refCount, 0, true))
      ensures r == Declined ==> unlinks == old(unlinks)
      ensures Continuous(byExit, since) ==> refCount == old(refCount)
      ensures unlinks != old(unlinks) ==> Continuous(byExit, since)
      ensures r == RemovalThrew ==>
                unlinks == old(unlinks) || Logged(old(unlinks), unlinks, Unlink(byExit, refCount, 0, false))
      ensures depth == 0 ==> !interrupted && Untouched() && revision == old(revision)
      decreases depth, 1
    {
      interrupted := false;
      ghost var acquired := acquisitions;
      var early: bool := *;
      if early && answer != Removed { return answer, false; }   // before the callback
      Callback(depth);                       // the mutation authority
      if answer == Declined { return Declined, false; }
      early := *;
      if early && answer == RemovalThrew { return RemovalThrew, false; }
      if !Continuous(byExit, since) { return Declined, true; }
      early := *;
      if early && answer == RemovalThrew { return RemovalThrew, false; }
      unlinks := unlinks + [Unlink(byExit, refCount, acquisitions - acquired, answer == Removed)];
      return answer, false;
    }

    /** A handle released in a callback still has a counted reference: every other unreleased handle is
        deferred, or is the one whose release is running. */
    lemma ReferencesAreLeft(h: nat)
      requires h in busy && h in live && Sound(busy - {h}, live)
      requires registered && state != Active && h !in deferred
      ensures refCount > 0
    {
      SubsetSize(if state == ExitCleaning then deferred + {h} else {h, owner}, live);
    }

    lemma BusyIsLive()
      requires Valid()
      ensures busy <= live && (registered ==> refCount >= 0) && (registered && state == Releasing ==> busy == {owner})
    {
    }

    /** A release that runs inside a callback of an ordinary release or of exit cleanup. */
    method ReleaseNested(h: nat, current: bool) returns (v: Verdict)
      requires h in busy && h in live && Sound(busy - {h}, live)
      requires registered && state != Active
      modifies this`refCount, this`revision, this`deferred
      ensures Sound(busy - {h}, if v == Consumed then live - {h} else live)
      ensures NestedEnds(old(View()), View(), h, current, v)
    {
      if h in deferred || !current { NestedRefusal(View(), h, current); }
      hide NestedEnds;
      hide Sound;
      hide Balanced;
      if h in deferred { return Kept; }
      ReferencesAreLeft(h);
      if refCount <= 0 { assert false; }     // counted, as it is neither deferred nor the running one
      if !current { return Thrown; }
      v := GiveUp(h);
    }

    /** The counted reference of a handle goes, or is deferred. */
    method GiveUp(h: nat) returns (v: Verdict)
      requires h in busy && h in live && h !in deferred && Sound(busy - {h}, live)
      requires registered && state != Active && refCount > 0
      modifies this`refCount, this`revision, this`deferred
      ensures Sound(busy - {h}, if v == Consumed then live - {h} else live)
      ensures NestedEnds(old(View()), View(), h, true, v)
    {
      refCount := refCount - 1;
      revision := revision + 1;
      if state != ExitCleaning || refCount > 0 {
        assert busy - {h} <= live - {h} && deferred <= live - {h};
        return Consumed;
      }
      assert busy - {h} == {};
      deferred := deferred + {h};
      return Kept;
    }

    /** The last reference is consumed and the descriptor taken before any callback runs. */
    method BeginRelease(h: nat)
      requires h in busy && h in live && Sound(busy - {h}, live)
      requires registered && state == Active && refCount == 1
      modifies this`refCount, this`state, this`owner, this`revision, this`descriptor
      ensures Valid() && busy == {h} && owner == h
      ensures Continuous(false, revision) && revision == old(revision) + 1
    {
      assert busy == {h};
      refCount := 0;
      state := Releasing;
      owner := h;
      revision := revision + 1;
      descriptor := false;
    }

    /** The first half of the last release: it is over if the descriptor does not close, or if the
        record changed and cannot be removed any more. */
    method CloseDescriptor(h: nat, w: World) returns (over: bool, v: Verdict, since: nat)
      requires h in busy && h in live && Sound(busy - {h}, live)
      requires registered && state == Active && refCount == 1
      modifies this
      ensures h in live && busy == old(busy) && cleanupActive == old(cleanupActive) && Accumulated()
      ensures old(revision) < revision && unlinks == old(unlinks)
      ensures !over ==> Valid() && Continuous(false, since) && owner == h && w.closes
      ensures over ==> v != Kept && Sound(busy - {h}, if v == Consumed then live - {h} else live)
      ensures over ==> state != Released && (registered ==> state == Active && h !in deferred)
      ensures over ==> (v == Thrown <==> !w.closes)
      ensures w.depth == 0 ==> live == old(live) && (over <==> !w.closes)
      ensures w.depth == 0 ==> deferred == old(deferred) && registered && (over ==> refCount == old(refCount))
      decreases w.depth, 1
    {
      hide Sound;
      hide Balanced;
      hide NoneRevived;
      BeginRelease(h);
      since := revision;
      Callback(w.depth);
      BusyIsLive();
      if !w.closes {
        v := Settled(h, true, false);
        return true, v, since;
      }
      if !Continuous(false, since) {
        if !registered || state == Released || refCount > 0 {
          v := Settled(h, false, false);
          return true, v, since;
        }
        revision := revision + 1;
        since := revision;
      }
      return false, Kept, since;
    }

    /** The release of the last reference. */
    method ReleaseLast(h: nat, w: World) returns (v: Verdict, attempts: nat)
      requires h in busy && h in live && Sound(busy - {h}, live)
      requires registered && state == Active && refCount == 1
      modifies this
      ensures h in live && busy == old(busy) && (registered ==> h !in deferred)
      ensures Sound(busy - {h}, if v == Consumed then live - {h} else live)
      ensures Framed()
      ensures v != Kept && LastEnds(old(View()), View(), w, v == Thrown, attempts)
      ensures state == Released ==> live == {h}
      ensures w.depth == 0 ==> live == old(live)
      decreases w.depth, 4
    {
      hide Sound;
      hide Balanced;
      hide Logged;
      attempts := 0;
      var over, since;
      over, v, since := CloseDescriptor(h, w);
      if over { return; }
      v, attempts := FinalRelease(h, since, w);
    }

    /** An active record counts exactly the unreleased handles. */
    lemma ReferencesAreLive(h: nat)
      requires h in live && Sound(busy - {h}, live) && registered && state == Active
      ensures refCount >= 1 && (refCount == 1 <==> live == {h})
    {
      if live != {h} { SubsetSize({h} + {Another(live, h)}, live); }
    }

    /** The release closure will act on this handle: it is unreleased and not already at it. */
    predicate Begins(h: nat)
      reads `live, `busy
    {
      h in live && h !in busy
    }

    /** Whether releasing `h` throws when no callback acts. */
    predicate Refused(h: nat, w: World)
      reads `live, `registered, `state, `deferred
    {
      registered && (if state == Active && live == {h} then !w.closes || w.removal(1) != Removed
                     else !w.current && h !in deferred)
    }

    /** A release beside other references of an active record. */
    method ReleaseShared(h: nat, current: bool) returns (v: Verdict)
      requires h in busy && h in live && Sound(busy - {h}, live)
      requires registered && state == Active && refCount > 1
      modifies this`refCount, this`revision
      ensures Sound(busy - {h}, if v == Consumed then live - {h} else live)
      ensures Framed() && SharedEnds(old(View()), View(), current, v)
      ensures h !in deferred
    {
      if !current { return Thrown; }
      refCount := refCount - 1;
      revision := revision + 1;
      return Consumed;
    }

    /** releaseRootSyncHeldLock, entered with the handle already marked busy. */
    method ReleaseRecord(h: nat, w: World) returns (v: Verdict, attempts: nat)
      requires h in busy && h in live && Sound(busy - {h}, live)
      modifies this
      ensures h in live && busy == old(busy) && Framed()
      ensures Sound(busy - {h}, if v == Consumed then live - {h} else live)
      ensures v == Kept ==> h in deferred && state == old(state)
      ensures v == Thrown && registered ==> h !in deferred
      ensures old(registered && state == Active && live == {h}) ==>
                && v != Kept && LastEnds(old(View()), View(), w, v == Thrown, attempts)
                && (state == Released ==> live == {h}) && (w.depth == 0 ==> live == old(live))
      ensures !old(registered && state == Active && live == {h}) ==> live == old(live)
      ensures old(registered && state == Active && live != {h}) ==> SharedEnds(old(View()), View(), w.current, v)
      ensures old(registered && state != Active) ==> NestedEnds(old(View()), View(), h, w.current, v)
      ensures !old(registered) ==> v == Consumed && View() == old(View())
      ensures w.depth == 0 ==> (v == Thrown <==> old(Refused(h, w)))
      decreases w.depth, 5
    {
      attempts := 0;
      if !registered || state == Released { return Consumed, 0; }
      hide Sound;
      hide Balanced;
      hide Frames;
      hide NestedEnds;
      if state != Active {
        v := ReleaseNested(h, w.current);
        NestedIsFramed(old(View()), View(), h, w.current, v);
        return v, 0;
      }
      ReferencesAreLive(h);
      if refCount > 1 {
        v := ReleaseShared(h, w.current);
        return v, 0;
      }
      if refCount != 1 { assert false; }     // an active record has a reference
      v, attempts := ReleaseLast(h, w);
    }

    /** Ending an attempt of the release through `h`, with the record as the attempt left it. */
    method Settled(h: nat, restore: bool, done: bool) returns (v: Verdict)
      requires Valid() && state == Releasing && (registered ==> owner == h) && h in busy
      requires done ==> registered && refCount == 0
      requires !done && !restore && registered ==> refCount > 0
      modifies this`refCount, this`state, this`revision, this`timer, this`registered
      ensures Sound(busy - {h}, if v == Consumed then live - {h} else live)
      ensures v == (if restore && !done then Thrown else Consumed)
      ensures registered ==> old(registered) && state == Active && revision > old(revision)
      ensures registered ==> h !in deferred
      ensures old(revision) <= revision
      ensures state == Released <==> done
      ensures done ==> !registered && live == {h}
      ensures !done ==>
                registered == old(registered) && refCount == old(refCount) + if restore && registered then 1 else 0
    {
      assert registered ==> busy == {h} && deferred == {};
      assert busy - {h} <= live - {h};
      if done && live != {h} { SubsetSize({h} + {Another(live, h)}, live); }
      if done {
        timer := false;
        state := Released;
        revision := revision + 1;
        registered := false;
        return Consumed;
      }
      Reactivate(restore);
      return if restore then Thrown else Consumed;
    }

    /** One attempt to remove the sidecar, over unless the record changed and has no reference. */
    method Attempt(h: nat, since: nat, answer: Removal, last: bool, depth: nat) returns (over: bool, v: Verdict)
      requires Valid() && Continuous(false, since) && owner == h
      modifies this
      ensures h in live && busy == old(busy) && cleanupActive == old(cleanupActive) && Accumulated()
      ensures !over ==> Valid() && registered && state == Releasing && refCount == 0 && owner == h
      ensures !over ==> unlinks == old(unlinks) && !last && depth > 0
      ensures over ==> v != Kept && Sound(busy - {h}, if v == Consumed then live - {h} else live)
      ensures over && registered ==> state == Active && old(revision) < revision && h !in deferred
      ensures over && state == Released ==>
                v == Consumed && !registered && live == {h} && Logged(old(unlinks), unlinks, Unlink(false, 0, 0, true))
      ensures over && v == Consumed && state != Released ==> unlinks == old(unlinks)
      ensures over && v == Thrown ==>
                unlinks == old(unlinks) || Logged(old(unlinks), unlinks, Unlink(false, 0, 0, false))
      ensures over && v == Thrown && answer == Removed ==>
                registered && refCount == 1 && last && unlinks == old(unlinks)
      ensures depth == 0 ==> live == old(live) && (if answer == Removed then state == Released else v == Thrown)
      ensures depth == 0 && answer != Removed ==> registered && refCount == 1 && deferred == old(deferred)
      decreases depth, 2
    {
      hide Sound;
      hide Balanced;
      hide Logged;
      hide NoneRevived;
      BusyIsLive();
      var removal, interrupted := RemoveSidecar(false, since, answer, depth);
      BusyIsLive();
      var continuous := !interrupted && Continuous(false, since);
      if removal == RemovalThrew || (continuous && removal != Removed) {
        v := Settled(h, true, false);
        return true, v;
      }
      if continuous {
        v := Settled(h, false, true);
        return true, v;
      }
      if !registered || state == Released || refCount > 0 {
        v := Settled(h, false, false);
        return true, v;
      }
      if last {
        v := Settled(h, true, false);
        return true, v;
      }
      return false, Kept;
    }

    /** The bounded attempts to remove the sidecar of a record without references. */
    method FinalRelease(h: nat, since: nat, w: World) returns (v: Verdict, attempts: nat)
      requires Valid() && Continuous(false, since) && owner == h && w.closes
      modifies this
      ensures h in live && busy == old(busy) && cleanupActive == old(cleanupActive) && Accumulated()
      ensures Sound(busy - {h}, if v == Consumed then live - {h} else live)
      ensures registered ==> state == Active && old(revision) < revision && h !in deferred
      ensures v != Kept && 0 < attempts <= MAX_CONTINUITY_CLEANUP_ATTEMPTS
      ensures state == Released ==>
                v == Consumed && !registered && live == {h} && Logged(old(unlinks), unlinks, Unlink(false, 0, 0, true))
      ensures v == Consumed && state != Released ==> unlinks == old(unlinks)
      ensures v == Thrown ==> unlinks == old(unlinks) || Logged(old(unlinks), unlinks, Unlink(false, 0, 0, false))
      ensures w.Works() && v == Thrown ==>
                registered && refCount == 1 && attempts == MAX_CONTINUITY_CLEANUP_ATTEMPTS && unlinks == old(unlinks)
      ensures w.depth == 0 ==> live == old(live) && (if w.removal(1) == Removed then state == Released else v == Thrown)
      ensures w.depth == 0 && w.removal(1) != Removed ==> registered && refCount == 1 && deferred == old(deferred)
      decreases w.depth, 3
    {
      hide Sound;
      hide Balanced;
      hide Logged;
      BusyIsLive();
      var began := since;
      attempts := 0;
      while true
        invariant Valid() && busy == old(busy) && Continuous(false, began) && owner == h
        invariant cleanupActive == old(cleanupActive) && Accumulated()
        invariant attempts < MAX_CONTINUITY_CLEANUP_ATTEMPTS && unlinks == old(unlinks)
        invariant w.depth == 0 ==> attempts == 0 && live == old(live) && deferred == old(deferred)
        decreases MAX_CONTINUITY_CLEANUP_ATTEMPTS - attempts
      {
        attempts := attempts + 1;
        var over;
        over, v := Attempt(h, began, w.removal(attempts), attempts == MAX_CONTINUITY_CLEANUP_ATTEMPTS, w.depth);
        if over { return; }
        revision := revision + 1;
        began := revision;
      }
    }

    /** A handle whose release begins is marked, so that its own callbacks cannot release it again. */
    method Enter(h: nat)
      requires Valid() && h in live && h !in busy
      modifies this`busy
      ensures h in busy && busy - {h} == old(busy) && Sound(busy - {h}, live)
    {
      busy := busy + {h};
      assert busy - {h} == old(busy);
    }

    method Leave(h: nat, consumed: bool)
      requires h in busy && h in live && Sound(busy - {h}, if consumed then live - {h} else live)
      modifies this`busy, this`live
      ensures Valid() && busy == old(busy) - {h}
      ensures live == if consumed then old(live) - {h} else old(live)
      ensures consumed && old(live) == {h} ==> live == {}
    {
      if consumed { live := live - {h}; }
      busy := busy - {h};
    }

    /** The release closure of one handle. */
    method ReleaseHandle(h: nat, w: World) returns (threw: bool, ghost attempts: nat)
      requires Valid()
      modifies this
      ensures Valid() && Framed() && busy == old(busy)
      // Nothing is left to do for a released handle, or is done by the release that is running.
      ensures !old(Begins(h)) ==> !threw && unchanged(this)
      ensures threw ==> h in live && h !in busy && (registered ==> h !in deferred)
      ensures !threw && h !in busy ==> h !in live || h in deferred
      ensures old(Begins(h) && registered && state == Active && live == {h}) ==>
                LastEnds(old(View()), View(), w, threw, attempts) && (state == Released ==> live == {})
      ensures old(Begins(h) && registered && state == Active && live != {h}) ==>
                SharedEnds(old(View()), View(), w.current, if threw then Thrown else Consumed)
      ensures old(Begins(h) && registered && state != Active) ==>
                NestedEnds(old(View()), View(), h, w.current,
                           if threw then Thrown else if h in live then Kept else Consumed)
      ensures old(Begins(h) && !registered) ==> !threw && View() == old(View())
      ensures old(Begins(h)) && (w.depth == 0 || !old(registered && state == Active && live == {h})) ==>
                live == if threw || h in live then old(live) else old(live) - {h}
      ensures w.depth == 0 ==> (threw <==> old(Begins(h) && Refused(h, w)))
      decreases w.depth, 6
    {
      attempts := 0;
      if !Begins(h) { return false, 0; }
      hide Sound;
      hide Balanced;
      hide Frames;
      hide LastEnds;
      hide NestedEnds;
      hide SharedEnds;
      hide Refused;
      Enter(h);
      var v;
      v, attempts := ReleaseRecord(h, w);
      Leave(h, v == Consumed);
      return v == Thrown, attempts;
    }

    /** settleDeferredExitRelease. */
    method Settle(h: nat)
      requires Valid() && h !in busy
      modifies this
      ensures Valid() && Framed() && busy == old(busy) && unlinks == old(unlinks)
      ensures h !in deferred || h !in live
      ensures h in old(deferred) ==> h !in live
      ensures h !in old(deferred) ==> live == old(live)
    {
      if h !in live || h !in deferred { return; }
      deferred := deferred - {h};
      live := live - {h};
    }

    /** withSyncHeldLockHandle: the scope's callback, then release and settlement.  Unless the
        release throws, the scope gives up its reference whatever ran in between. */
    method ScopedUse(h: nat, w: World) returns (threw: bool)
      requires Valid()
      modifies this
      ensures Valid() && Framed() && busy == old(busy)
      ensures !threw && h !in busy ==> h !in live || old(issued) <= h
      ensures threw ==> h in live
      ensures w.depth == 0 ==> (threw <==> old(Begins(h) && Refused(h, w)))
      decreases w.depth, 7
    {
      Callback(w.depth);
      ghost var attempts;
      threw, attempts := ReleaseHandle(h, w);
      if !threw && h !in busy { Settle(h); }
    }

    /** restoreExactHeldLockAfterExitCleanup. */
    method RestoreAfterExitCleanup() returns (ghost given: nat)
      requires Valid() && state == ExitCleaning
      modifies this`refCount, this`deferred, this`revision, this`state, this`registered
      ensures Valid() && Accumulated()
      ensures given == |old(deferred)|
      ensures registered <==> old(registered && refCount + |deferred| > 0)
      ensures registered ==>
                && state == Active && revision > old(revision)
                && refCount == old(refCount + |deferred|) && deferred == {}
      ensures !registered ==> state == if old(registered) then Released else ExitCleaning
    {
      given := |deferred|;
      if !registered || state == Released { return; }
      refCount := refCount + |deferred|;
      deferred := {};
      revision := revision + 1;
      if refCount <= 0 {
        state := Released;
        registered := false;
        return;
      }
      state := Active;
    }

    /** The sidecar was unlinked under `references`, or its removal failed. */
    twostate predicate Unlinked(w: World, references: int)
      reads this
    {
      if w.removal(1) == Removed then Logged(old(unlinks), unlinks, Unlink(true, references, 0, true))
      else unlinks == old(unlinks) || Logged(old(unlinks), unlinks, Unlink(true, references, 0, false))
    }

    /** The bounded attempts of exit cleanup: true once the record may be discarded.  The first
        attempt removes the sidecar under the remaining references, or leaves it to policy if it
        cannot; a further one is made only without references, and must remove it. */
    method CleanupAttempts(since: nat, w: World) returns (cleaned: bool, attempts: nat, ghost given: nat)
      requires Valid() && Continuous(true, since)
      modifies this
      ensures Valid() && Accumulated() && busy == old(busy) && cleanupActive == old(cleanupActive)
      ensures 1 <= attempts <= MAX_CONTINUITY_CLEANUP_ATTEMPTS
      ensures cleaned ==> registered && state == ExitCleaning
      ensures !cleaned && registered ==> state == Active && revision > old(revision)
      ensures cleaned ==>
                || Logged(old(unlinks), unlinks, Unlink(true, refCount, 0, true))
                || (refCount > 0 && !w.Works() && attempts == 1
                    && (unlinks == old(unlinks) || Logged(old(unlinks), unlinks, Unlink(true, refCount, 0, false))))
      ensures !cleaned ==> unlinks == old(unlinks) || Logged(old(unlinks), unlinks, Unlink(true, 0, 0, false))
      ensures attempts > 1 && cleaned ==> refCount == 0
      // With a filesystem that works, the record comes back only with a reference that was not
      // deferred, or after changing in every attempt.
      ensures w.Works() && !cleaned && attempts < MAX_CONTINUITY_CLEANUP_ATTEMPTS ==>
                state != Released && (registered ==> refCount > given)
      ensures w.depth == 0 ==> attempts == 1 && (cleaned <==> w.removal(1) == Removed || old(refCount) > 0)
      ensures w.depth == 0 && cleaned ==> Untouched() && Unlinked(w, refCount)
      decreases w.depth, 2
    {
      hide Sound;
      hide Balanced;
      hide Logged;
      var began := since;
      attempts := 0;
      while true
        invariant Valid() && Accumulated() && busy == old(busy) && cleanupActive == old(cleanupActive)
        invariant Continuous(true, began) && 0 <= attempts < MAX_CONTINUITY_CLEANUP_ATTEMPTS
        invariant unlinks == old(unlinks) && (attempts > 0 ==> refCount == 0)
        invariant w.depth == 0 ==> attempts == 0 && Untouched()
        decreases MAX_CONTINUITY_CLEANUP_ATTEMPTS - attempts
      {
        attempts := attempts + 1;
        var removal, interrupted := RemoveSidecar(true, began, w.removal(attempts), w.depth);
        BusyIsLive();
        var continuous, exact := Continuous(true, began), registered && state != Released;
        if removal == Removed && !interrupted && continuous { return true, attempts, 0; }
        if exact && (interrupted || !continuous) && refCount == 0 && attempts < MAX_CONTINUITY_CLEANUP_ATTEMPTS {
          revision := revision + 1;
          began := revision;
          continue;
        }
        if continuous && refCount > 0 { return true, attempts, 0; }
        given := RestoreAfterExitCleanup();
        return false, attempts, given;
      }
    }

    /** finishDeferredExitReleases, and the end of a cleaned record. */
    method Discard()
      requires Valid() && registered && state == ExitCleaning
      modifies this`live, this`deferred, this`state, this`revision, this`registered
      ensures Valid() && Accumulated()
      ensures !registered && state == Released
      ensures live == old(live) - old(deferred)
    {
      live := live - deferred;
      deferred := {};
      state := Released;
      revision := revision + 1;
      registered := false;
    }

    /** Cleanup takes the descriptor and the timer before any callback runs.  It goes no further with
        a record that changed and has references. */
    method BeginCleanup(depth: nat) returns (over: bool, since: nat, ghost given: nat)
      requires Valid() && registered && state == Active
      modifies this
      ensures Valid() && Accumulated() && busy == old(busy) && cleanupActive == old(cleanupActive)
      ensures over ==> registered ==> state == Active && revision > old(revision) && refCount > given
      ensures over ==> state != Released
      ensures !over ==> Continuous(true, since) && since > old(revision) && unlinks == old(unlinks)
      ensures !over ==> since == old(revision) + 1 || refCount == 0
      ensures depth == 0 ==>
                !over && live == old(live) && refCount == old(refCount) && deferred == {} && refCount > 0
      decreases depth, 1
    {
      state := ExitCleaning;
      revision := revision + 1;
      since := revision;
      timer, descriptor := false, false;
      assert Valid();
      hide Sound;
      hide Balanced;
      hide NoneRevived;
      Callback(depth);                       // clearing the timer, closing the descriptor
      if Continuous(true, since) { return false, since, 0; }
      if registered && state != Released && refCount == 0 {
        revision := revision + 1;
        return false, revision, 0;
      }
      given := RestoreAfterExitCleanup();
      return true, since, given;
    }

    /** The body of releaseAllRootSyncHeldLocks for this record. */
    method CleanRecord(w: World)
      requires Valid() && registered && state == Active
      modifies this
      ensures Valid() && Accumulated() && busy == old(busy)
      ensures registered ==> state == Active && revision > old(revision)
      ensures cleanupActive == old(cleanupActive)
      ensures w.depth == 0 ==> !registered && state == Released && live == old(live)
      ensures w.depth == 0 ==> Unlinked(w, old(refCount))
      decreases w.depth, 3
    {
      hide Sound;
      hide Balanced;
      ghost var given;
      var over, since, cleaned, attempts;
      over, since, given := BeginCleanup(w.depth);
      if over { return; }
      cleaned, attempts, given := CleanupAttempts(since, w);
      if cleaned { Discard(); }
    }

    /** releaseAllRootSyncHeldLocks.  Undisturbed, it always drops an active record: with its sidecar
        if that can be removed, and otherwise leaving the file to policy. */
    method ExitCleanup(w: World)
      requires Valid()
      modifies this
      ensures Valid() && Framed() && busy == old(busy)
      ensures old(cleanupActive || !registered || state != Active) ==> unchanged(this)
      ensures w.depth == 0 && old(!cleanupActive && registered && state == Active) ==>
                !registered && state == Released && live == old(live) && Unlinked(w, old(refCount))
      decreases w.depth, 7
    {
      if cleanupActive { return; }
      cleanupActive := true;
      if registered && state == Active { CleanRecord(w); }
      cleanupActive := false;
    }
  }
}
