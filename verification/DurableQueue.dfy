/** The durable queue operations as sequences of system calls on one entry's names.

    Before every system call the environment may act any number of times, and every system
    call may fail, which is also where the process may die: callers then stop.  `log` records
    every step, so the contracts speak about every intermediate state, not only the last. */
module DurableQueue {
  import opened DurableQueueSpec

  datatype Code = Done | Exists | Missing | Failed

  datatype Outcome = Fine | Refused | Stopped

  datatype ClaimResult = Claimed | Nothing | ClaimRefused | ClaimStopped

  /** What a system call answers when nothing goes wrong with the device. */
  function OsAnswer(f: Files, a: Action): Code {
    match a
    case Claim => if !f.processing.Absent? then Exists else if f.pending.Absent? then Missing else Done
    case MakeRoot => if f.root.NoRoot? then Done else Exists
    case MakeRecord => if !f.root.Root? then Missing else if f.root.record.NoRecord? then Done else Exists
    case RemoveRecord => if RecordAbsent(f) then Missing else if f.root.record.Empty? then Done else Failed
    case Retire => if f.pending.Absent? then Missing else Done
    case Restore => if !f.pending.Absent? then Exists else Done
    case DropEntry => if Entry(f).Absent? then Missing else Done
    case Deliver => if f.processing.Absent? then Missing else Done
    case DropDelivered => if f.delivered.Absent? then Missing else Done
    case Quarantine => if !f.failed.Absent? then Exists else if f.processing.Absent? then Missing else Done
    case DropProcessing => if f.processing.Absent? then Missing else Done
    case _ => Done
  }

  /** What the lock holder must have established before the call; interference keeps it. */
  ghost predicate Ready(s: State, a: Action) {
    var f := s.files;
    match a
    case Claim =>
      && RecordClear(f) && !f.pending.Irregular? && s.look.Saw? && s.look.newest <= s.past.newest
      && (f.pending.Regular? ==> f.pending.gen == s.look.gen || f.pending.gen > s.look.newest)
    case MakeRoot => true
    case MakeRecord => true
    case RemoveRecord => true
    case Retire => f.processing.Regular? && f.root == Root(Empty) && !f.pending.Irregular?
    case Restore => Entry(f).Regular? && f.processing.Regular? && Entry(f) != f.processing
    case DropEntry => f.processing.Regular? && DropSafe(s, Entry(f))
    case Deliver => f.processing.Regular? && f.delivered.Absent?
    case DropDelivered => f.delivered.Regular?
    case Quarantine => f.processing.Regular?
    case DropProcessing => f.processing.Regular? && f.failed == f.processing
    case _ => false
  }

  /** What any number of environment steps leaves of a state. */
  ghost predicate Disturbed(s: State, t: State) {
    && t.files.processing == s.files.processing
    && t.files.delivered == s.files.delivered
    && t.files.root == s.files.root
    && (!s.files.failed.Absent? ==> t.files.failed == s.files.failed)
    && t.past.claimed == s.past.claimed && t.past.settled == s.past.settled
    && t.look == s.look
    && s.past.newest <= t.past.newest && s.past.withdrawn <= t.past.withdrawn
    && (t.files.pending != s.files.pending ==>
          && (s.files.pending.Regular? ==>
            s.files.pending.gen < t.past.newest || s.files.pending.gen in t.past.withdrawn)
          && (t.files.pending.Absent? || (t.files.pending.Regular? && t.files.pending.gen > s.past.newest)))
  }

  lemma ReadyIsStable(s: State, t: State, a: Action)
    requires Disturbed(s, t) && Ready(s, a)
    ensures Ready(t, a)
    ensures OsAnswer(t.files, a).Done? ==> Enabled(t, a)
  {
  }

  /** Processing and pending never name one generation. */
  predicate Apart(f: Files) {
    f.processing.Regular? ==> f.pending != f.processing
  }

  /** The files after an undisturbed recovery of the retirement record. */
  function Recovered(f: Files): Files {
    var back := if Holds(f) && Entry(f) != f.processing && f.pending.Absent? then Entry(f) else f.pending;
    f.(pending := back, root := if f.root.Root? then Root(NoRecord) else f.root)
  }

  /** The names after an undisturbed successful claim: a retirement is recovered, the pending file is
      taken unless a processing file exists, and pending no longer names what was claimed. */
  function AfterClaim(f: Files): Files {
    var r := Recovered(f);
    if f.processing.Regular? && r.pending != f.processing then r
    else r.(processing := if f.processing.Regular? then f.processing else r.pending,
            pending := Absent, root := Root(NoRecord))
  }

  /** What recovery of a retirement, complete or interrupted anywhere, leaves of a state. */
  ghost predicate Recovering(s: State, t: State) {
    && t.files.processing == s.files.processing && t.files.delivered == s.files.delivered
    && (!s.files.failed.Absent? ==> t.files.failed == s.files.failed)
    && (Apart(s.files) ==> Apart(t.files))
    && (Clean(s.files) ==> Clean(t.files))
    && (Wedged(s.files) ==> Wedged(t.files))
    && (Steady(s.files) ==> Steady(t.files))
    && (!s.files.pending.Irregular? ==> !t.files.pending.Irregular?)
    && s.past.newest <= t.past.newest
    && t.look == s.look
  }

  /** Exactly when an undisturbed move to failed succeeds. */
  predicate Movable(f: Files, foreign: set<Gen>) {
    && !f.processing.Irregular? && !f.failed.Irregular?
    && if f.processing.Regular? then f.failed.Absent? || f.failed == f.processing
       else if f.failed.Regular? then f.pending.Absent?
       else f.pending.Regular? && ClaimReadable(f, foreign, false)
  }

  /** The names after an undisturbed successful move to failed; a pending file is claimed first. */
  function AfterMove(f: Files): Files {
    if f.processing.Absent? && f.failed.Regular? then f
    else
      var c := if f.processing.Absent? then AfterClaim(f) else f;
      c.(failed := c.processing, processing := Absent)
  }

  class Queue {
    /** The entry's names, outside links, and the bookkeeping that no operation reads. */
    var now: State
    ghost const start: State
    ghost var log: seq<Action>
    /** No system call fails. */
    const works: bool
    /** Nor does the environment act. */
    const quiet: bool

    ghost predicate Valid()
      reads this
    {
      Inv(start) && Lawful(start, log) && Replay(start, log) == now && Inv(now) && (quiet ==> works)
    }

    constructor (start: State, works: bool, quiet: bool)
      requires Inv(start) && (quiet ==> works)
      ensures Valid() && now == start && log == [] && this.start == start && this.works == works && this.quiet == quiet
    {
      this.start, this.now := start, start;
      this.works, this.quiet := works, quiet;
      log := [];
    }

    method Do(a: Action)
      requires Valid() && Enabled(now, a)
      modifies this
      ensures Valid() && log == old(log) + [a] && now == Apply(old(now), a)
    {
      ReplayAppend(start, log, [a]);
      ReplayOne(now, a);
      InvStep(now, a);
      now := Apply(now, a);
      log := log + [a];
    }

    method Interfere()
      requires Valid()
      modifies this
      ensures Valid() && old(log) <= log
      ensures Disturbed(old(now), now)
      ensures quiet ==> now == old(now)
    {
      var steps: nat := *;
      if quiet { steps := 0; }
      while steps > 0
        invariant Valid() && old(log) <= log
        invariant Disturbed(old(now), now)
        invariant quiet ==> steps == 0 && now == old(now)
      {
        steps := steps - 1;
        var a: Action := *;
        match a
        case Publish => Do(a);
        case Withdraw => if now.files.pending.Regular? { Do(a); }
        case LinkOutside(_) => Do(a);
        case CollideFailed(g) => if now.files.failed.Absent? && g <= 0 { Do(a); }
        case _ =>
      }
    }

    /** Reading a name: what the environment does first, then what is there. */
    method Look() returns (files: Files)
      requires Valid()
      modifies this
      ensures Valid() && old(log) <= log
      ensures Disturbed(old(now), now) && files == now.files
      ensures quiet ==> now == old(now)
    {
      Interfere();
      files := now.files;
    }

    /** One system call of the lock holder. */
    method Call(a: Action) returns (c: Code, ghost at: State)
      requires Valid() && Ready(now, a)
      modifies this
      ensures Valid() && old(log) <= log
      ensures Disturbed(old(now), at)
      ensures c.Done? ==> Enabled(at, a) && now == Apply(at, a)
      ensures !c.Done? ==> now == at
      ensures c.Missing? || c.Exists? ==> c == OsAnswer(at.files, a)
      ensures works ==> c == OsAnswer(at.files, a)
      ensures quiet ==> at == old(now)
    {
      Interfere();
      at := now;
      ReadyIsStable(old(now), at, a);
      var dies: bool := *;
      if dies && !works { return Failed, at; }
      c := OsAnswer(now.files, a);
      if c.Done? { Do(a); }
    }

    /** removeRetirementRecord: rmdir, where a missing directory is fine. */
    method RemoveRetirementRecord() returns (r: Outcome)
      requires Valid() && (now.files.root.Root? ==> now.files.root.record.NoRecord? || now.files.root.record.Empty?)
      modifies this
      ensures Valid() && old(log) <= log
      ensures !r.Refused? && (works ==> r.Fine?)
      ensures Disturbed(old(now), now.(files := now.files.(root := old(now).files.root)))
      ensures now.files.root == old(now).files.root || now.files.root == Root(NoRecord)
      ensures r.Fine? ==> RecordAbsent(now.files)
      ensures quiet ==> now == old(now).(files := now.files) && now.files == Recovered(old(now).files)
    {
      var c, at := Call(RemoveRecord);
      r := if c.Done? || c.Missing? then Fine else Stopped;
    }

    /** The part of recovery that gives a retired generation its pending name back, unless it
        is the claimed one or a publication took the name. */
    method GiveBack(entry: Node) returns (r: Outcome)
      requires Valid() && Entry(now.files) == entry && entry.Regular? && now.files.processing.Regular?
      modifies this
      ensures Valid() && old(log) <= log
      ensures Recovering(old(now), now) && now.files.root == old(now).files.root
      ensures r.Fine? ==> DropSafe(now, entry)
      ensures works ==> !r.Stopped?
      ensures quiet ==> (r.Fine? <==> RecordReadable(old(now).files, old(now).foreign))
      ensures quiet && r.Fine? ==>
                now == old(now).(files := old(now).files.(pending := Recovered(old(now).files).pending))
    {
      var files := Look();
      if entry == files.processing { return Fine; }
      var pending := files.pending;
      if pending.Irregular? { return Refused; }
      if pending.Absent? {
        var c, at := Call(Restore);
        return if c.Done? then Fine else if c.Exists? then Refused else Stopped;
      }
      if pending == entry { return Fine; }
      return if NLink(now.files, now.foreign, pending.gen) > 1 then Refused else Fine;
    }

    /** The end of recovery: the retirement entry is unlinked and its record removed. */
    method CloseRecord(entry: Node) returns (r: Outcome)
      requires Valid() && Entry(now.files) == entry && now.files.processing.Regular? && DropSafe(now, entry)
      modifies this
      ensures Valid() && old(log) <= log
      ensures Disturbed(old(now), now.(files := now.files.(root := old(now).files.root)))
      ensures now.files.root in {old(now).files.root, Root(Empty), Root(NoRecord)}
      ensures !r.Refused? && (works ==> r.Fine?)
      ensures r.Fine? ==> now.files.root == Root(NoRecord)
      ensures quiet ==> now == old(now).(files := old(now).files.(root := Root(NoRecord)))
    {
      var c, at := Call(DropEntry);
      if !c.Done? { return Stopped; }
      r := RemoveRetirementRecord();
    }

    /** Recovery of a record that holds exactly the retired entry. */
    method RecoverEntry() returns (r: Outcome)
      requires Valid() && Holds(now.files)
      modifies this
      ensures Valid() && old(log) <= log
      ensures Recovering(old(now), now)
      ensures r.Fine? ==> now.files.root == Root(NoRecord)
      ensures Wedged(old(now).files) ==> !r.Fine?
      ensures works ==> !r.Stopped?
      ensures quiet ==> (r.Fine? <==> RecordReadable(old(now).files, old(now).foreign))
      ensures quiet && r.Fine? ==> now == old(now).(files := Recovered(old(now).files))
    {
      var files := Look();
      var entry := Entry(files);
      if !entry.Regular? || !files.processing.Regular? { return Refused; }
      r := GiveBack(entry);
      if r.Fine? { r := CloseRecord(entry); }
    }

    /** recoverDurableQueueRetirement. */
    method Recover() returns (r: Outcome)
      requires Valid()
      modifies this
      ensures Valid() && old(log) <= log
      ensures Recovering(old(now), now)
      ensures r.Fine? ==> RecordAbsent(now.files) && !now.files.root.RootNotADirectory?
      ensures Wedged(old(now).files) ==> !r.Fine?
      ensures works ==> !r.Stopped?
      ensures quiet ==> (r.Fine? <==> RecordReadable(old(now).files, old(now).foreign))
      ensures quiet && r.Fine? ==> now == old(now).(files := Recovered(old(now).files))
    {
      var files := Look();
      if files.root.NoRoot? { return Fine; }
      if files.root.RootNotADirectory? { return Refused; }
      if files.root.record.NoRecord? { return Fine; }
      if files.root.record.NotADirectory? { return Refused; }
      if files.root.record.Empty? {
        r := RemoveRetirementRecord();
        return;
      }
      if files.root.record.Cluttered? { return Refused; }
      r := RecoverEntry();
    }

    /** ensureRetirementRoot, then mkdir of the entry's own record. */
    method OpenRecord() returns (r: Outcome)
      requires Valid() && RecordAbsent(now.files) && !now.files.root.RootNotADirectory?
      modifies this
      ensures Valid() && old(log) <= log
      ensures Disturbed(old(now), now.(files := now.files.(root := old(now).files.root)))
      ensures now.files.root in {old(now).files.root, Root(NoRecord), Root(Empty)}
      ensures !r.Refused? && (works ==> r.Fine?)
      ensures r.Fine? ==> now.files.root == Root(Empty)
      ensures quiet ==> now == old(now).(files := old(now).files.(root := Root(Empty)))
    {
      var c, at := Call(MakeRoot);
      if c.Failed? { return Stopped; }
      c, at := Call(MakeRecord);
      r := if c.Done? then Fine else Stopped;
    }

    /** retireDurableQueueSource. */
    method RetireSource() returns (r: Outcome)
      requires Valid() && now.files.processing.Regular? && !now.files.pending.Irregular?
      modifies this
      ensures Valid() && old(log) <= log
      ensures now.files.processing == old(now).files.processing && now.files.delivered == old(now).files.delivered
      ensures now.look == old(now).look
      ensures !old(now).files.failed.Absent? ==> now.files.failed == old(now).files.failed
      ensures r.Fine? ==> Clean(now.files) && RecordAbsent(now.files)
      ensures works ==> !r.Stopped?
      ensures Steady(old(now).files) ==> Steady(now.files)
      ensures quiet && RecordAbsent(old(now).files) && !old(now).files.root.RootNotADirectory?
              && old(now).files.pending == old(now).files.processing ==>
                r.Fine? && now == old(now).(files := old(now).files.(pending := Absent, root := Root(NoRecord)))
    {
      hide Lawful;
      hide Replay;
      hide NLink;
      r := Recover();
      if !r.Fine? { return; }
      r := OpenRecord();
      if !r.Fine? { return; }
      var c, at := Call(Retire);
      if c.Missing? {
        r := RemoveRetirementRecord();
        return;
      }
      if !c.Done? { return Stopped; }
      r := Recover();
    }

    /** The branch of a claim that finds an existing processing file. */
    method ResumeClaim() returns (r: ClaimResult)
      requires Valid() && now.files.processing.Regular? && RecordAbsent(now.files)
      modifies this
      ensures Valid() && old(log) <= log
      ensures r.Claimed? ==> Clean(now.files) && RecordAbsent(now.files)
      ensures !r.Nothing? && (works ==> !r.ClaimStopped?)
      ensures now.files.processing == old(now).files.processing && now.files.delivered == old(now).files.delivered
      ensures now.look == old(now).look
      ensures !old(now).files.failed.Absent? ==> now.files.failed == old(now).files.failed
      ensures Steady(old(now).files) ==> Steady(now.files)
      ensures quiet && !old(now).files.root.RootNotADirectory? ==>
                && r.Claimed? && now.foreign == old(now).foreign
                && now.files == (if old(now).files.pending != old(now).files.processing then old(now).files
                                 else old(now).files.(pending := Absent, root := Root(NoRecord)))
    {
      var files := Look();
      if files.pending == files.processing {
        var o := RetireSource();
        if !o.Fine? { return if o.Refused? then ClaimRefused else ClaimStopped; }
      }
      return Claimed;
    }

    /** From the link on: the pending file was found exclusive. */
    method LinkPending() returns (r: ClaimResult)
      requires Valid() && Ready(now, Claim) && now.files.processing.Absent?
      modifies this
      ensures Valid() && old(log) <= log && now.look.NotLooked?
      ensures r.Claimed? ==> now.files.processing.Regular? && Clean(now.files) && RecordAbsent(now.files)
      ensures now.files.delivered == old(now).files.delivered
      ensures !old(now).files.failed.Absent? ==> now.files.failed == old(now).files.failed
      ensures Steady(old(now).files) ==> Steady(now.files)
      // A lost race is no refusal; a link that appears before the second check is.
      ensures r.ClaimRefused? ==> now.files.processing.Regular?
      ensures works ==> !r.ClaimStopped?
      ensures quiet && old(now).files.pending.Regular? ==>
                (r.Claimed? <==> NLink(old(now).files, old(now).foreign, old(now).files.pending.gen) <= 1)
      ensures quiet && r.Claimed? && old(now).files.pending.Regular? ==>
                && now.foreign == old(now).foreign
                && now.files == old(now).files.(processing := old(now).files.pending, pending := Absent,
                                                root := Root(NoRecord))
    {
      var c, at := Call(Claim);
      if !c.Done? { Do(Forget); }
      if c.Exists? {
        return if now.files.processing.Regular? then Claimed
               else if now.files.processing.Absent? then Nothing else ClaimRefused;
      }
      if c.Missing? { return Nothing; }
      if !c.Done? { return ClaimStopped; }
      var files := Look();
      if !files.processing.Regular? || NLink(files, now.foreign, files.processing.gen) > 2 { return ClaimRefused; }
      var o := RetireSource();
      if !o.Fine? { return if o.Refused? then ClaimRefused else ClaimStopped; }
      return Claimed;
    }

    /** The branch that links the pending file: no processing file exists. */
    method FreshClaim(skipUnowned: bool) returns (r: ClaimResult)
      requires Valid() && now.files.processing.Absent? && RecordClear(now.files) && now.look.NotLooked?
      modifies this
      ensures Valid() && old(log) <= log
      ensures r.Claimed? ==> now.files.processing.Regular? && Clean(now.files) && RecordAbsent(now.files)
      ensures now.files.delivered == old(now).files.delivered && now.look.NotLooked?
      ensures !old(now).files.failed.Absent? ==> now.files.failed == old(now).files.failed
      ensures Steady(old(now).files) ==> Steady(now.files)
      ensures works ==> !r.ClaimStopped?
      ensures r.ClaimRefused? ==> now.files.processing.Regular? || !skipUnowned
      ensures quiet ==>
                && (r.ClaimRefused? <==> !ClaimReadable(old(now).files, old(now).foreign, skipUnowned))
                && (r.Claimed? <==> (old(now).files.pending.Regular?
                      && NLink(old(now).files, old(now).foreign, old(now).files.pending.gen) <= 1))
                && (r.Claimed? ==>
                      && now.foreign == old(now).foreign
                      && now.files == old(now).files.(processing := old(now).files.pending, pending := Absent,
                                                      root := Root(NoRecord)))
                && (r.Nothing? ==> now == old(now))
    {
      var files := Look();
      if !files.pending.Regular? { return Nothing; }
      if NLink(files, now.foreign, files.pending.gen) > 1 {
        return if skipUnowned then Nothing else ClaimRefused;
      }
      Do(Observe);
      r := LinkPending();
    }

    /** claimDurableQueueEntryUnlocked. */
    method ClaimEntry(skipUnowned: bool) returns (r: ClaimResult)
      requires Valid() && now.look.NotLooked?
      modifies this
      ensures Valid() && old(log) <= log && now.look.NotLooked?
      ensures r.Claimed? ==> now.files.processing.Regular? && Clean(now.files) && RecordAbsent(now.files)
      ensures old(now).files.processing.Regular? ==> now.files.processing == old(now).files.processing
      ensures now.files.delivered == old(now).files.delivered
      ensures !old(now).files.failed.Absent? ==> now.files.failed == old(now).files.failed
      ensures Steady(old(now).files) ==> Steady(now.files)
      ensures Wedged(old(now).files) ==> Wedged(now.files) && (r.ClaimRefused? || r.ClaimStopped?)
      ensures works ==> !r.ClaimStopped?
      ensures quiet ==> (r.ClaimRefused? <==> !ClaimReadable(old(now).files, old(now).foreign, skipUnowned))
      ensures quiet && !r.ClaimRefused? ==>
                && RecordAbsent(now.files)
                && (r.Claimed? <==>
                      old(now).files.processing.Regular?
                      || (old(now).files.pending.Regular?
                          && NLink(old(now).files, old(now).foreign, old(now).files.pending.gen) <= 1))
                && now.files == (if r.Claimed? then AfterClaim(old(now).files) else Recovered(old(now).files))
      ensures quiet && r.Claimed? && now.files.pending.Regular? ==>
                now.files.pending != now.files.processing
                && (NLink(now.files, now.foreign, now.files.pending.gen) == 1 <==> OwnsPending(now.files, now.foreign))
    {
      var o := Recover();
      if !o.Fine? { return if o.Refused? then ClaimRefused else ClaimStopped; }
      var files := Look();
      if files.processing.Irregular? { return ClaimRefused; }
      if files.processing.Regular? {
        r := ResumeClaim();
      } else {
        r := FreshClaim(skipUnowned);
      }
    }

    /** The rename to the delivered name and the removal of the marker. */
    method DeliverClaim() returns (r: Outcome)
      requires Valid() && now.files.processing.Regular? && now.files.delivered.Absent?
      modifies this
      ensures Valid() && old(log) <= log && now.look == old(now).look
      ensures now.files.processing == old(now).files.processing
              || (now.files.processing.Absent? && old(now).files.processing.gen in now.past.settled)
      ensures Clean(old(now).files) ==>
                now.files.processing.Regular? || !InQueue(now.files, old(now).files.processing.gen)
      ensures r.Fine? ==> now.files.processing.Absent? && now.files.delivered.Absent?
      ensures !r.Refused? && (works ==> r.Fine?)
      ensures quiet ==> now.files == old(now).files.(processing := Absent)
    {
      var c, at := Call(Deliver);
      if !c.Done? { return Stopped; }
      c, at := Call(DropDelivered);
      if !c.Done? { return Stopped; }
      return Fine;
    }

    /** acknowledgeDurableQueueEntry. */
    method Acknowledge() returns (r: Outcome)
      requires Valid() && now.look.NotLooked?
      modifies this
      ensures Valid() && old(log) <= log && now.look.NotLooked?
      ensures forall g :: old(now).files.processing == Regular(g) && Clean(old(now).files) ==>
                now.files.processing == Regular(g) || !InQueue(now.files, g)
      ensures forall g :: old(now).files.processing == Regular(g) && r.Fine? ==>
                g in now.past.settled
      ensures r.Fine? ==> now.files.processing.Absent? && now.files.delivered.Absent?
      ensures r.Refused? ==> now.files.processing == old(now).files.processing
      ensures works ==> !r.Stopped?
      ensures quiet ==> (r.Refused? <==>
                || old(now).files.processing.Irregular? || old(now).files.delivered.Irregular?
                || (old(now).files.processing.Absent? && !old(now).files.pending.Absent?))
      ensures quiet && r.Fine? ==> now.files == old(now).files.(processing := Absent, delivered := Absent)
      ensures quiet && r.Refused? ==>
                now.files == (if old(now).files.processing.Irregular? || old(now).files.delivered.Irregular?
                              then old(now).files else old(now).files.(delivered := Absent))
    {
      var files := Look();
      if files.processing.Irregular? || files.delivered.Irregular? { return Refused; }
      if files.delivered.Regular? {
        var c, at := Call(DropDelivered);
        if !c.Done? { return Stopped; }
      }
      if files.processing.Absent? {
        files := Look();
        return if files.pending.Absent? then Fine else Refused;
      }
      r := DeliverClaim();
    }

    /** completeDeliveredQueueEntry: the cleanup of a delivered marker left by a crash. */
    method CompleteDelivered() returns (r: Outcome, complete: bool)
      requires Valid() && now.look.NotLooked?
      modifies this
      ensures Valid() && old(log) <= log && now.look.NotLooked?
      ensures now.files.processing == old(now).files.processing && now.files.root == old(now).files.root
      ensures r.Fine? ==> now.files.delivered.Absent?
      ensures works ==> !r.Stopped?
      ensures quiet ==> (r.Refused? <==>
                || old(now).files.delivered.Irregular?
                || (old(now).files.delivered.Regular? && old(now).files.processing.Irregular?))
      ensures complete <==> r.Fine? && old(now).files.delivered.Regular? && now.files.processing.Absent?
      ensures quiet ==> now.files == if r.Fine? then old(now).files.(delivered := Absent) else old(now).files
      ensures forall g :: 1 <= g <= old(now).past.newest && !InQueue(old(now).files, g) ==> !InQueue(now.files, g)
    {
      complete := false;
      var files := Look();
      if files.delivered.Irregular? { return Refused, false; }
      if files.delivered.Absent? { return Fine, false; }
      if files.processing.Irregular? { return Refused, false; }
      var c, at := Call(DropDelivered);
      if !c.Done? { return Stopped, false; }
      return Fine, files.processing.Absent?;
    }

    /** The publication of quarantine evidence and the removal of the processing name. */
    method PublishFailed() returns (r: Outcome)
      requires Valid() && now.files.processing.Regular?
      modifies this
      ensures Valid() && old(log) <= log
      ensures !old(now).files.failed.Absent? ==> now.files.failed == old(now).files.failed
      ensures now.files.processing == old(now).files.processing
              || (now.files.processing.Absent? && now.files.failed == old(now).files.processing
                  && old(now).files.processing.gen in now.past.settled)
      ensures now.look == old(now).look
      ensures r.Fine? ==> now.files.failed == old(now).files.processing
      ensures works ==> !r.Stopped?
      ensures quiet ==> (r.Fine? <==>
                old(now).files.failed.Absent? || old(now).files.failed == old(now).files.processing)
      ensures r.Fine? <==> now.files.processing.Absent?
      ensures quiet ==> now.files == if r.Fine? then old(now).files.(
                          failed := old(now).files.processing, processing := Absent) else old(now).files
      ensures Clean(old(now).files) ==>
                now.files.processing.Regular? || !InQueue(now.files, old(now).files.processing.gen)
    {
      var files := Look();
      if files.failed.Irregular? { return Refused; }
      if files.failed.Regular? && files.failed != files.processing { return Refused; }
      if files.failed.Absent? {
        var c, at := Call(Quarantine);
        if c.Exists? { return Refused; }
        if !c.Done? { return Stopped; }
      }
      var c, at := Call(DropProcessing);
      if !c.Done? { return Stopped; }
      return Fine;
    }

    /** moveDurableQueueEntryToFailed. */
    method MoveToFailed() returns (r: Outcome)
      requires Valid() && now.look.NotLooked?
      modifies this
      ensures Valid() && old(log) <= log && now.look.NotLooked?
      ensures !old(now).files.failed.Absent? ==> now.files.failed == old(now).files.failed
      ensures r.Fine? ==> now.files.processing.Absent? && now.files.failed.Regular?
      ensures works ==> !r.Stopped?
      ensures quiet ==> (r.Fine? <==> Movable(old(now).files, old(now).foreign))
      ensures quiet && r.Fine? ==> now.files == AfterMove(old(now).files)
      ensures forall g :: old(now).files.processing == Regular(g) ==>
                now.files.processing == Regular(g) || now.files.failed == Regular(g)
      ensures forall g :: old(now).files.processing == Regular(g) && r.Fine? ==>
                now.files.failed == Regular(g) && now.files.processing.Absent? && g in now.past.settled
      ensures forall g :: old(now).files.processing == Regular(g) && Clean(old(now).files) ==>
                now.files.processing == Regular(g) || !InQueue(now.files, g)
      ensures old(now).files.failed.Regular? && old(now).files.processing.Regular?
              && old(now).files.failed != old(now).files.processing ==>
                !r.Fine? && now.files.processing == old(now).files.processing
    {
      var files := Look();
      if files.processing.Irregular? || files.failed.Irregular? { return Refused; }
      if files.processing.Absent? && files.failed.Regular? {
        files := Look();
        return if files.pending.Absent? then Fine else Refused;
      }
      if files.processing.Absent? {
        var claim := ClaimEntry(false);
        if !claim.Claimed? { return if claim.ClaimStopped? then Stopped else Refused; }
      }
      r := PublishFailed();
    }

    /** Any sequence of complete or interrupted operations, in any order. */
    method AnyHistory(calls: nat)
      requires Valid() && now.look.NotLooked?
      modifies this
      ensures Valid() && old(log) <= log && now.look.NotLooked?
      ensures NoLoss(now) && ClaimsKept(now)
    {
      for i := 0 to calls
        invariant Valid() && old(log) <= log && now.look.NotLooked?
      {
        var choice: nat, skip: bool := *, *;
        match choice % 4
        case 0 => var _ := ClaimEntry(skip);
        case 1 => var _ := Acknowledge();
        case 2 => var _, _ := CompleteDelivered();
        case _ => var _ := MoveToFailed();
      }
    }
  }

  /** Recovery converges: after any number of claims interrupted anywhere among any producers, one
      claim that runs undisturbed is not refused unless the pending file has a foreign, delivered or
      failed name.  It ends without a retirement record, keeps an existing processing generation, and
      leaves the pending name absent or a single-link file distinct from processing. */
  method CrashedClaimsConverge(start: State, crashes: nat, skipUnowned: bool)
    returns (r: ClaimResult, before: State, after: State)
    requires Inv(start) && start.look.NotLooked? && Steady(start.files)
    ensures Inv(before) && Steady(before.files)
    ensures start.files.processing.Regular? ==> before.files.processing == start.files.processing
    ensures !r.ClaimStopped? && (r.ClaimRefused? <==> !ClaimReadable(before.files, before.foreign, skipUnowned))
    ensures OwnsPending(before.files, before.foreign) ==> !r.ClaimRefused?
    ensures Steady(after.files) && !after.files.pending.Irregular?
    ensures !r.ClaimRefused? ==> RecordAbsent(after.files)
    ensures before.files.processing.Regular? ==> after.files.processing == before.files.processing
    ensures OwnsPending(before.files, before.foreign) ==>
              (r.Claimed? <==> before.files.processing.Regular? || before.files.pending.Regular?)
    ensures r.Claimed? && after.files.pending.Regular? ==>
              && after.files.pending != after.files.processing
              && (NLink(after.files, after.foreign, after.files.pending.gen) == 1 <==>
                OwnsPending(after.files, after.foreign))
  {
    var crashing := new Queue(start, false, false);
    for i := 0 to crashes
      invariant crashing.Valid() && crashing.now.look.NotLooked? && Steady(crashing.now.files)
      invariant start.files.processing.Regular? ==> crashing.now.files.processing == start.files.processing
    {
      var skips: bool := *;
      var _ := crashing.ClaimEntry(skips);
    }
    before := crashing.now;
    var rerun := new Queue(before, true, true);
    r := rerun.ClaimEntry(skipUnowned);
    after := rerun.now;
    if OwnsPending(before.files, before.foreign) { CrashedClaimIsReadable(before, skipUnowned); }
  }
}
