/** The durable queue protocol as a transition system.

    One queue entry owns four names (pending, processing, delivered, failed) and a
    retirement record below a shared retirement root.  A name holds a generation: the inode
    that one publication of the entry created.  Every system call of the protocol, and every
    step its environment can take, is an `Action`; `Lawful` logs are the runs.  The theorems
    at the end speak about all of them. */
module DurableQueueSpec {

  /** Generations of this queue are numbered 1, 2, .. in publication order.  Numbers up to 0
      are files that another queue left in a shared failed directory. */
  type Gen = int

  datatype Node = Absent | Irregular | Regular(gen: Gen)

  datatype Record = NoRecord | NotADirectory | Empty | Cluttered | Holding(entry: Node)

  datatype Root = NoRoot | RootNotADirectory | Root(record: Record)

  datatype Files = Files(pending: Node, processing: Node, delivered: Node, failed: Node, root: Root)

  /** Bookkeeping that no program can read: what was published, claimed, settled, withdrawn. */
  datatype Past = Past(newest: Gen, claimed: set<Gen>, settled: set<Gen>, withdrawn: set<Gen>)

  /** A claim between its link-count check and its link: the generation it found exclusive, and
      the newest publication at that moment. */
  datatype Look = NotLooked | Saw(gen: Gen, newest: Gen)

  /** `foreign` are the generations that also have a hard link outside the queue. */
  datatype State = State(files: Files, foreign: set<Gen>, past: Past, look: Look)

  datatype Action =
      // the environment: producers never take the transfer lock
    | Publish
    | Withdraw
    | LinkOutside(gen: Gen)
    | CollideFailed(gen: Gen)
      // the lock holder
    | Observe
    | Forget
    | Claim
    | MakeRoot
    | MakeRecord
    | RemoveRecord
    | Retire
    | Restore
    | DropEntry
    | Deliver
    | DropDelivered
    | Quarantine
    | DropProcessing

  function Entry(f: Files): Node {
    if f.root.Root? && f.root.record.Holding? then f.root.record.entry else Absent
  }

  predicate Holds(f: Files) {
    f.root.Root? && f.root.record.Holding?
  }

  predicate RecordAbsent(f: Files) {
    f.root.Root? ==> f.root.record.NoRecord?
  }

  /** What recovery of the retirement leaves behind when it succeeds. */
  predicate RecordClear(f: Files) {
    RecordAbsent(f) && !f.root.RootNotADirectory?
  }

  /** A record that recovery can clear without a processing file. */
  predicate Readable(f: Files) {
    f.root.NoRoot? || (f.root.Root? && (f.root.record.NoRecord? || f.root.record.Empty?))
  }

  /** The link count `lstat` reports for a generation. */
  function NLink(f: Files, foreign: set<Gen>, g: Gen): nat {
    (if f.pending == Regular(g) then 1 else 0) + (if f.processing == Regular(g) then 1 else 0) +
    (if f.delivered == Regular(g) then 1 else 0) + (if f.failed == Regular(g) then 1 else 0) +
    (if Entry(f) == Regular(g) then 1 else 0) + (if g in foreign then 1 else 0)
  }

  /** Still named by a name from which the protocol can deliver it. */
  predicate InQueue(f: Files, g: Gen) {
    f.pending == Regular(g) || Entry(f) == Regular(g) || f.processing == Regular(g)
  }

  /** When the retirement entry may be unlinked: its generation is the claimed one, is named
      by the pending name again, has a later publication, or was withdrawn. */
  ghost predicate DropSafe(s: State, e: Node) {
    && e.Regular?
    && (s.files.processing == e || s.files.pending == e
        || e.gen < s.past.newest || e.gen in s.past.withdrawn)
  }

  ghost predicate Enabled(s: State, a: Action) {
    var f := s.files;
    match a
    case Publish => true
    case Withdraw => f.pending.Regular?
    case LinkOutside(g) => true
    case CollideFailed(g) => f.failed.Absent? && g <= 0
    case Observe =>
      f.pending.Regular? && f.processing.Absent? && RecordClear(f) && NLink(f, s.foreign, f.pending.gen) <= 1
    case Forget => true
    case Claim =>
      && f.pending.Regular? && f.processing.Absent? && RecordClear(f)
      && s.look.Saw? && (f.pending.gen == s.look.gen || f.pending.gen > s.look.newest)
    case MakeRoot => f.root.NoRoot?
    case MakeRecord => f.root.Root? && f.root.record.NoRecord?
    case RemoveRecord => f.root.Root? && f.root.record.Empty?
    case Retire => f.pending.Regular? && f.processing.Regular? && f.root == Root(Empty)
    case Restore => f.pending.Absent? && Entry(f).Regular? && f.processing.Regular? && Entry(f) != f.processing
    case DropEntry => f.processing.Regular? && DropSafe(s, Entry(f))
    case Deliver => f.processing.Regular? && f.delivered.Absent?
    case DropDelivered => f.delivered.Regular?
    case Quarantine => f.processing.Regular? && f.failed.Absent?
    case DropProcessing => f.processing.Regular? && f.failed == f.processing
  }

  function Apply(s: State, a: Action): State {
    var f, p := s.files, s.past;
    match a
    case Publish => s.(files := f.(pending := Regular(p.newest + 1)), past := p.(newest := p.newest + 1))
    case Withdraw =>
      if f.pending.Regular?
      then s.(files := f.(pending := Absent), past := p.(withdrawn := p.withdrawn + {f.pending.gen})) else s
    case LinkOutside(g) => s.(foreign := s.foreign + {g})
    case CollideFailed(g) => s.(files := f.(failed := Regular(g)))
    case Observe => if f.pending.Regular? then s.(look := Saw(f.pending.gen, p.newest)) else s
    case Forget => s.(look := NotLooked)
    case Claim =>
      if f.pending.Regular?
      then s.(files := f.(processing := f.pending), past := p.(claimed := p.claimed + {f.pending.gen}),
        look := NotLooked)
      else s
    case MakeRoot => s.(files := f.(root := Root(NoRecord)))
    case MakeRecord => s.(files := f.(root := Root(Empty)))
    case RemoveRecord => s.(files := f.(root := Root(NoRecord)))
    case Retire => s.(files := f.(pending := Absent, root := Root(Holding(f.pending))))
    case Restore => s.(files := f.(pending := Entry(f)))
    case DropEntry => s.(files := f.(root := Root(Empty)))
    case Deliver =>
      if f.processing.Regular?
      then s.(files := f.(processing := Absent, delivered := f.processing),
        past := p.(settled := p.settled + {f.processing.gen}))
      else s
    case DropDelivered => s.(files := f.(delivered := Absent))
    case Quarantine => s.(files := f.(failed := f.processing))
    case DropProcessing =>
      if f.processing.Regular?
      then s.(files := f.(processing := Absent), past := p.(settled := p.settled + {f.processing.gen})) else s
  }

  ghost function Replay(s: State, log: seq<Action>): State
    decreases |log|
  {
    if log == [] then s else Replay(Apply(s, log[0]), log[1..])
  }

  ghost predicate Lawful(s: State, log: seq<Action>)
    decreases |log|
  {
    log == [] || (Enabled(s, log[0]) && Lawful(Apply(s, log[0]), log[1..]))
  }

  lemma {:induction false} ReplayAppend(s: State, log: seq<Action>, more: seq<Action>)
    ensures Replay(s, log + more) == Replay(Replay(s, log), more)
    ensures Lawful(s, log + more) <==> Lawful(s, log) && Lawful(Replay(s, log), more)
    decreases |log|
  {
    if log == [] {
      assert log + more == more;
    } else {
      assert (log + more)[1..] == log[1..] + more;
      ReplayAppend(Apply(s, log[0]), log[1..], more);
    }
  }

  lemma ReplayOne(s: State, a: Action)
    ensures Replay(s, [a]) == Apply(s, a)
    ensures Lawful(s, [a]) <==> Enabled(s, a)
  {
  }

  // ---------------------------------------------------------------- no message is lost

  /** Every published generation is still in the queue, or settled, or withdrawn, or it was
      superseded by a later publication before anyone claimed it. */
  ghost predicate NoLoss(s: State) {
    forall g :: 1 <= g <= s.past.newest ==>
      || InQueue(s.files, g)
      || g in s.past.settled
      || g in s.past.withdrawn
      || (g < s.past.newest && g !in s.past.claimed)
  }

  /** A claimed generation keeps its processing name until it is settled. */
  ghost predicate ClaimsKept(s: State) {
    forall g :: g in s.past.claimed ==> g in s.past.settled || s.files.processing == Regular(g)
  }

  predicate InRange(n: Node, newest: Gen) {
    n.Regular? ==> 1 <= n.gen <= newest
  }

  ghost predicate Inv(s: State) {
    var f := s.files;
    && s.past.newest >= 0
    && InRange(f.pending, s.past.newest) && InRange(f.processing, s.past.newest) && InRange(Entry(f), s.past.newest)
    && (f.processing.Regular? ==> f.processing.gen in s.past.claimed)
    && (f.pending.Regular? && Entry(f).Regular? ==> Entry(f).gen <= f.pending.gen)
    && (f.pending.Regular? && Entry(f).Regular? && f.pending != Entry(f) ==> f.pending != f.processing)
    && (s.look.Saw? ==> s.look.gen <= s.look.newest <= s.past.newest)
    && NoLoss(s)
    && ClaimsKept(s)
  }

  lemma InvStep(s: State, a: Action)
    requires Inv(s) && Enabled(s, a)
    ensures Inv(Apply(s, a))
  {
  }

  /** Main result: whatever the interleaving of lock holder, producers and crashes (a crash
      is the end of a log at any point), no message is lost. */
  lemma {:induction false} NoMessageIsLost(s: State, log: seq<Action>)
    requires Inv(s) && Lawful(s, log)
    ensures Inv(Replay(s, log))
    ensures NoLoss(Replay(s, log)) && ClaimsKept(Replay(s, log))
    decreases |log|
  {
    if log != [] {
      InvStep(s, log[0]);
      NoMessageIsLost(Apply(s, log[0]), log[1..]);
    }
  }

  /** The two readings a user of the queue needs: the newest publication is found under one
      of the three live names unless it was settled or withdrawn, and an unsettled claim is
      found under the processing name. */
  lemma NewestAndClaimedAreNamed(s: State, log: seq<Action>)
    requires Inv(s) && Lawful(s, log)
    ensures var t := Replay(s, log);
      && (t.past.newest >= 1 ==>
            InQueue(t.files, t.past.newest) || t.past.newest in t.past.settled || t.past.newest in t.past.withdrawn)
      && (forall g :: g in t.past.claimed && g !in t.past.settled ==> t.files.processing == Regular(g))
  {
    NoMessageIsLost(s, log);
  }

  // ---------------------------------------------------------------- settling is final

  lemma {:induction false} NeverReturns(s: State, log: seq<Action>, g: Gen)
    requires Inv(s) && Lawful(s, log)
    requires g <= s.past.newest && !InQueue(s.files, g)
    ensures !InQueue(Replay(s, log).files, g)
    decreases |log|
  {
    if log != [] {
      InvStep(s, log[0]);
      NeverReturns(Apply(s, log[0]), log[1..], g);
    }
  }

  /** A claim that returned: the retirement is over and the pending name holds something else. */
  predicate Clean(f: Files) {
    !Holds(f) && (f.processing.Regular? ==> f.pending != f.processing)
  }

  /** Settling a clean claim is final: no continuation names that generation again. */
  lemma SettledIsFinal(s: State, settle: Action, log: seq<Action>)
    requires Inv(s) && Clean(s.files) && s.files.processing.Regular?
    requires settle == Deliver || settle == DropProcessing
    requires Lawful(s, [settle] + log)
    ensures !InQueue(Replay(s, [settle] + log).files, s.files.processing.gen)
  {
    assert ([settle] + log)[1..] == log;
    InvStep(s, settle);
    NeverReturns(Apply(s, settle), log, s.files.processing.gen);
  }

  /** A retirement entry without a processing claim: nothing but the environment can move. */
  predicate Wedged(f: Files) {
    Holds(f) && f.processing.Absent?
  }

  lemma {:induction false} WedgedForever(s: State, log: seq<Action>)
    requires Wedged(s.files) && Lawful(s, log)
    ensures Wedged(Replay(s, log).files) && Entry(Replay(s, log).files) == Entry(s.files)
    decreases |log|
  {
    if log != [] {
      WedgedForever(Apply(s, log[0]), log[1..]);
    }
  }

  // ---------------------------------------------------------------- exactly what settling leaves

  /** Some run claims this generation. */
  ghost predicate CanClaim(s: State, g: Gen) {
    exists log :: Lawful(s, log) && Replay(s, log).files.processing == Regular(g)
  }

  /** What rules a claim of `g` out for good: it has left the queue, the record refuses every
      claim, or its pending file has a second name that nothing removes. */
  ghost predicate Barred(s: State, g: Gen) {
    var f := s.files;
    && Inv(s) && g <= s.past.newest && f.processing != Regular(g)
    && (|| !InQueue(f, g)
        || (f.processing.Absent? && !Readable(f))
        || (f.processing.Absent? && f.pending == Regular(g) && (f.failed == Regular(g) || g in s.foreign)
            && (s.look.Saw? ==> s.look.gen != g && g <= s.look.newest)))
  }

  lemma BarredStep(s: State, a: Action, g: Gen)
    requires Barred(s, g) && Enabled(s, a)
    ensures Barred(Apply(s, a), g)
  {
    hide NoLoss;
    hide ClaimsKept;
    InvStep(s, a);
  }

  lemma {:induction false} BarredForever(s: State, log: seq<Action>, g: Gen)
    requires Barred(s, g) && Lawful(s, log)
    ensures Replay(s, log).files.processing != Regular(g)
    decreases |log|
  {
    hide Inv;
    if log != [] {
      BarredStep(s, log[0], g);
      BarredForever(Apply(s, log[0]), log[1..], g);
    }
  }

  lemma ClaimLater(s: State, a: Action, g: Gen)
    requires Enabled(s, a) && CanClaim(Apply(s, a), g)
    ensures CanClaim(s, g)
  {
    var log :| Lawful(Apply(s, a), log) && Replay(Apply(s, a), log).files.processing == Regular(g);
    assert ([a] + log)[1..] == log;
    assert Lawful(s, [a] + log) && Replay(s, [a] + log).files.processing == Regular(g);
  }

  lemma ClaimNow(s: State, g: Gen)
    requires s.files.processing == Regular(g)
    ensures CanClaim(s, g)
  {
    assert Lawful(s, []) && Replay(s, []) == s;
  }

  /** The pending file, alone but for a delivered name, below a record that lets a claim through. */
  predicate Claimable(s: State, g: Gen) {
    var f := s.files;
    f.pending == Regular(g) && Readable(f) && g !in s.foreign && f.failed != Regular(g)
  }

  lemma ClaimableIsClaimed(s: State, g: Gen)
    requires Claimable(s, g) && s.files.processing.Absent?
    ensures CanClaim(s, g)
    decreases s.files.delivered == Regular(g), s.files.root == Root(Empty)
  {
    if s.files.delivered == Regular(g) {
      ClaimableIsClaimed(Apply(s, DropDelivered), g);
      ClaimLater(s, DropDelivered, g);
    } else if s.files.root == Root(Empty) {
      ClaimableIsClaimed(Apply(s, RemoveRecord), g);
      ClaimLater(s, RemoveRecord, g);
    } else {
      var seen := Apply(s, Observe);
      ClaimNow(Apply(seen, Claim), g);
      ClaimLater(seen, Claim, g);
      ClaimLater(s, Observe, g);
    }
  }

  /** Exactly when a generation without a processing name can be claimed (again), no claim being
      under way. */
  lemma ClaimableExactly(s: State, g: Gen)
    requires Inv(s) && s.files.processing.Absent? && s.look.NotLooked? && 1 <= g <= s.past.newest
    ensures CanClaim(s, g) <==> Claimable(s, g)
  {
    if Claimable(s, g) {
      ClaimableIsClaimed(s, g);
    } else {
      forall log | Lawful(s, log) ensures Replay(s, log).files.processing != Regular(g) {
        BarredForever(s, log, g);
      }
    }
  }

  predicate Settles(a: Action) { a.Deliver? || a.DropProcessing? }

  /** Exactly what acknowledging (Deliver) or quarantining (DropProcessing) a claimed generation
      leaves, read off the names before: a second delivery, a wedged record, a pending file that no
      claim will ever take.  It leaves none of them if and only if the claim was clean. */
  lemma SettlingExactly(s: State, settle: Action, g: Gen)
    requires Inv(s) && s.look.NotLooked? && s.files.processing == Regular(g)
    requires Settles(settle) && Enabled(s, settle)
    ensures var f, t := s.files, Apply(s, settle);
      && (CanClaim(t, g) <==> Claimable(s, g))
      && (Wedged(t.files) <==> Holds(f))
      && (t.files.pending == Regular(g) && !CanClaim(t, g) <==> f.pending == f.processing && !Claimable(s, g))
      && (!CanClaim(t, g) && !Wedged(t.files) && t.files.pending != Regular(g) <==> Clean(f))
      && (settle.DropProcessing? ==> !CanClaim(t, g))
  {
    InvStep(s, settle);
    ClaimableExactly(Apply(s, settle), g);
  }

  const FRESH_QUEUE: State :=
    State(Files(Absent, Absent, Absent, Absent, NoRoot), {}, Past(0, {}, {}, {}), NotLooked)

  function Names(pending: Node, processing: Node, delivered: Node, root: Root, past: Past): State {
    State(Files(pending, processing, delivered, Absent, root), {}, past, NotLooked)
  }

  /** A claim that crashed between its link and its retirement. */
  const LINK_CRASH: State := Names(Regular(1), Regular(1), Absent, NoRoot, Past(1, {1}, {}, {}))

  lemma LinkCrashIsReachable()
    ensures var log := [Publish, Observe, Claim];
      Lawful(FRESH_QUEUE, log) && Replay(FRESH_QUEUE, log) == LINK_CRASH
  {
  }

  /** Acknowledging it does not settle it: generation 1 is delivered, its delivered name is gone,
      and it is claimed again. */
  lemma AcknowledgedCrashedClaimIsRedelivered()
    ensures var log := [Deliver, DropDelivered, Observe, Claim];
      && Inv(LINK_CRASH) && Lawful(LINK_CRASH, log)
      && var t := Replay(LINK_CRASH, log);
         1 in t.past.settled && t.files.processing == Regular(1)
  {
  }

  /** Quarantining it leaves a pending file that no claim ever takes. */
  lemma QuarantinedCrashedClaimIsLittered()
    ensures Lawful(LINK_CRASH, [Quarantine, DropProcessing])
    ensures var t := Replay(LINK_CRASH, [Quarantine, DropProcessing]);
      t.files.pending == t.files.failed == Regular(1) && !CanClaim(t, 1)
  {
    var s := Apply(LINK_CRASH, Quarantine);
    SettlingExactly(s, DropProcessing, 1);
    assert [Quarantine, DropProcessing][1..] == [DropProcessing];
    ReplayOne(s, DropProcessing);
  }

  /** A claim that crashed right after its retirement rename moved generation 2 away. */
  const RETIREMENT_CRASH: State :=
    Names(Absent, Regular(1), Absent, Root(Holding(Regular(2))), Past(2, {1}, {}, {}))

  lemma RetirementCrashIsReachable()
    ensures var log := [MakeRoot, MakeRecord, Publish, Retire];
      Lawful(LINK_CRASH, log) && Replay(LINK_CRASH, log) == RETIREMENT_CRASH
  {
  }

  /** The newest message sits in the record, where by `WedgedForever` no operation reaches it. */
  predicate NewestIsStranded(t: State) {
    Wedged(t.files) && Entry(t.files) == Regular(t.past.newest) && t.past.newest !in t.past.settled
  }

  /** Acknowledging or quarantining that claim wedges the queue. */
  lemma SettledCrashedRetirementWedges()
    ensures Lawful(RETIREMENT_CRASH, [Deliver, DropDelivered])
    ensures NewestIsStranded(Replay(RETIREMENT_CRASH, [Deliver, DropDelivered]))
    ensures Lawful(RETIREMENT_CRASH, [Quarantine, DropProcessing])
    ensures NewestIsStranded(Replay(RETIREMENT_CRASH, [Quarantine, DropProcessing]))
  {
  }

  // ---------------------------------------------------------------- quarantine

  /** Failed evidence is create-only: once a failed file exists no run replaces it. */
  lemma {:induction false} FailedEvidenceIsKept(s: State, log: seq<Action>)
    requires Lawful(s, log) && s.files.failed.Regular?
    ensures Replay(s, log).files.failed == s.files.failed
    decreases |log|
  {
    if log != [] {
      FailedEvidenceIsKept(Apply(s, log[0]), log[1..]);
    }
  }

  /** While a claim is moved to failed, by however many interrupted attempts, its generation
      keeps its processing or its failed name. */
  lemma {:induction false} QuarantineKeepsAName(s: State, log: seq<Action>, g: Gen)
    requires Lawful(s, log) && Deliver !in log
    requires s.files.processing == Regular(g) || s.files.failed == Regular(g)
    ensures Replay(s, log).files.processing == Regular(g) || Replay(s, log).files.failed == Regular(g)
    decreases |log|
  {
    if log != [] {
      QuarantineKeepsAName(Apply(s, log[0]), log[1..], g);
    }
  }

  // ---------------------------------------------------------------- recovery

  /** What the file names look like after any number of crashed claims. */
  predicate Steady(f: Files) {
    && !f.pending.Irregular? && !f.processing.Irregular?
    && !f.root.RootNotADirectory?
    && (f.root.Root? ==> f.root.record.NoRecord? || f.root.record.Empty? || f.root.record.Holding?)
    && (Holds(f) ==> Entry(f).Regular? && f.processing.Regular?)
  }

  /** Exactly when recovering a retirement does not refuse. */
  predicate RecordReadable(f: Files, foreign: set<Gen>) {
    && !f.root.RootNotADirectory?
    && (f.root.Root? ==> !f.root.record.NotADirectory? && !f.root.record.Cluttered?)
    && (Holds(f) ==>
          && Entry(f).Regular? && f.processing.Regular?
          && (Entry(f) != f.processing ==>
                && !f.pending.Irregular?
                && (f.pending.Regular? && f.pending != Entry(f) ==> NLink(f, foreign, f.pending.gen) <= 1)))
  }

  /** Exactly when a claim that runs undisturbed does not refuse. */
  predicate ClaimReadable(f: Files, foreign: set<Gen>, skipUnowned: bool) {
    && RecordReadable(f, foreign)
    && !f.processing.Irregular?
    && (f.processing.Absent? && f.pending.Regular? ==> NLink(f, foreign, f.pending.gen) <= 1 || skipUnowned)
  }

  predicate OwnsPending(f: Files, foreign: set<Gen>) {
    f.pending.Regular? ==> f.pending.gen !in foreign && f.delivered != f.pending && f.failed != f.pending
  }

  /** A crashed claim is always recoverable, provided nobody outside linked the pending file. */
  lemma CrashedClaimIsReadable(s: State, skipUnowned: bool)
    requires Inv(s) && Steady(s.files) && OwnsPending(s.files, s.foreign)
    ensures ClaimReadable(s.files, s.foreign, skipUnowned)
  {
  }
}
