/** Replaying the admitted members of a decoded TAR stream, which arrives in chunks of any size. */
module TarReplay {
  import opened Basics

  function Joined(chunks: seq<Bytes>): Bytes {
    if chunks == [] then [] else chunks[0] + Joined(chunks[1..])
  }

  datatype Member = Member(offset: nat, size: nat) {
    function End(): nat { offset + size }
  }

  /** What one consumer does with its payload: it pulls everything, or at most `pulls` pieces, and
      then raises, or leaves the generator closed (a `for await` left by break) or merely unread. */
  datatype Visit = Visit(everything: bool, pulls: nat, closes: bool, raises: bool)

  datatype Outcome =
    | Replayed
    | OutOfOrder(at: nat)
    | Truncated(at: nat)
    | Raised(at: nat)
    | Incomplete(at: nat)

  // ---------------------------------------------------------------- what it should do

  function StartOf(members: seq<Member>, i: nat): nat
    requires i <= |members|
  {
    if i == 0 then 0 else members[i - 1].End()
  }

  predicate Fits(members: seq<Member>, total: nat, i: nat)
    requires i < |members|
  {
    StartOf(members, i) <= members[i].offset && members[i].End() <= total
  }

  /** The first member that is out of order or does not fit decides. */
  function Verdict(members: seq<Member>, total: nat, i: nat): (r: Outcome)
    requires i <= |members|
    ensures r.Replayed? <==> forall k :: i <= k < |members| ==> Fits(members, total, k)
    ensures !r.Replayed? ==> (r.OutOfOrder? || r.Truncated?) && i <= r.at < |members|
                             && !Fits(members, total, r.at) && forall k :: i <= k < r.at ==> Fits(members, total, k)
    decreases |members| - i
  {
    if i == |members| then Replayed
    else if !Fits(members, total, i) then
      if members[i].offset < StartOf(members, i) then OutOfOrder(i) else Truncated(i)
    else Verdict(members, total, i + 1)
  }

  lemma {:induction false} VerdictSkips(members: seq<Member>, total: nat, i: nat, j: nat)
    requires i <= j <= |members| && forall k :: i <= k < j ==> Fits(members, total, k)
    ensures Verdict(members, total, i) == Verdict(members, total, j)
    decreases j - i
  {
    if i < j { VerdictSkips(members, total, i + 1, j); }
  }

  /** The consumer saw the beginning of its member's bytes and nothing else. */
  predicate Served(stream: Bytes, m: Member, got: Bytes) {
    |got| <= m.size && (m.End() <= |stream| ==> got == stream[m.offset..m.offset + |got|])
  }

  /** It saw all of them if it asked for all, or closed its payload. */
  predicate Satisfied(m: Member, v: Visit, got: Bytes) {
    !v.raises && (v.closes || v.everything ==> |got| == m.size)
  }

  /** What becomes of one member, the replay standing at `start`. */
  predicate Fate(stream: Bytes, start: nat, m: Member, v: Visit, i: nat, r: Outcome, got: Bytes) {
    && Served(stream, m, got)
    && match r
       case Replayed => start <= m.offset && m.End() <= |stream| && Satisfied(m, v, got)
       case OutOfOrder(at) => at == i && m.offset < start
       case Truncated(at) => at == i && start <= m.offset && m.End() > |stream|
       case Raised(at) => at == i && start <= m.offset && v.raises
       case Incomplete(at) => at == i && start <= m.offset && v.closes && |got| < m.size && !v.raises
  }

  /** The members before `|offered|` were all replayed. */
  predicate Through(stream: Bytes, members: seq<Member>, visits: seq<Visit>, offered: seq<Bytes>) {
    && |offered| <= |members| == |visits|
    && forall k :: 0 <= k < |offered| ==>
         Fate(stream, StartOf(members, k), members[k], visits[k], k, Replayed, offered[k]) && Fits(members, |stream|, k)
  }

  lemma FateIsAt(stream: Bytes, start: nat, m: Member, v: Visit, i: nat, r: Outcome, got: Bytes)
    requires Fate(stream, start, m, v, i, r, got)
    ensures r.Replayed? || r.at == i
  {
  }

  lemma ThroughMore(stream: Bytes, members: seq<Member>, visits: seq<Visit>, offered: seq<Bytes>, got: Bytes)
    requires Through(stream, members, visits, offered) && |offered| < |members|
    requires Fate(stream, StartOf(members, |offered|), members[|offered|], visits[|offered|], |offered|, Replayed, got)
    ensures Through(stream, members, visits, offered + [got])
  {
    hide Served;
    hide Satisfied;
  }

  /** Without closing or raising consumers the verdict is all there is. */
  lemma FateIsVerdict(stream: Bytes, members: seq<Member>, visits: seq<Visit>, offered: seq<Bytes>, r: Outcome,
                      got: Bytes)
    requires Through(stream, members, visits, offered) && forall i :: 0 <= i < |visits| ==> Patient(visits[i])
    requires if |offered| == |members| then r.Replayed? else
             && !r.Replayed?
             && Fate(stream, StartOf(members, |offered|), members[|offered|], visits[|offered|], |offered|, r, got)
    ensures r == Verdict(members, |stream|, 0)
  {
    hide Served;
    hide Satisfied;
    VerdictSkips(members, |stream|, 0, |offered|);
  }

  predicate Patient(v: Visit) { !v.closes && !v.raises }

  /** How many bytes `pulls` pieces bring: this much depends on the chunks. */
  function Yielded(chunks: seq<Bytes>, length: nat, pulls: nat): nat
    decreases pulls
  {
    if pulls == 0 || length == 0 || chunks == [] then 0
    else if length <= |chunks[0]| then length
    else |chunks[0]| + Yielded(chunks[1..], length - |chunks[0]|, pulls - 1)
  }

  lemma OnePull(chunks: seq<Bytes>, length: nat, pulls: nat)
    ensures pulls == 0 || length == 0 || chunks == [] ==> Yielded(chunks, length, pulls) == 0
    ensures pulls > 0 && length > 0 && chunks != [] ==>
              var n := if length < |chunks[0]| then length else |chunks[0]|;
              Yielded(chunks, length, pulls) == n + Yielded(chunks[1..], length - n, pulls - 1)
  {
  }

  // ---------------------------------------------------------------- what it does

  /** What one step of the generator yields. */
  datatype Step = Piece(bytes: Bytes) | Finished | Ended

  class Replay {
    const chunks: seq<Bytes>
    var next: nat           // the parser's async iterator
    var chunk: Bytes
    var position: nat

    ghost const stream: Bytes

    ghost predicate Valid() reads this {
      && stream == Joined(chunks)
      && next <= |chunks| && position <= |stream|
      && stream[position..] == chunk + Joined(chunks[next..])
    }

    /** The chunks still ahead, the current one first. */
    ghost function Ahead(): seq<Bytes>
      requires next <= |chunks|
      reads this
    {
      if chunk == [] then chunks[next..] else [chunk] + chunks[next..]
    }

    constructor (chunks: seq<Bytes>)
      ensures Valid() && this.chunks == chunks && stream == Joined(chunks) && position == 0 && Ahead() == chunks
    {
      this.chunks, stream := chunks, Joined(chunks);
      next, chunk, position := 0, [], 0;
    }

    /** One resumption of `take` with `length` bytes outstanding. */
    method Pull(length: nat) returns (step: Step, left: nat)
      requires Valid()
      modifies this
      ensures Valid()
      ensures step.Finished? <==> length == 0
      ensures step.Piece? ==> left + |step.bytes| == length && position == old(position) + |step.bytes|
                              && step.bytes == stream[old(position)..position]
                              && (position > old(position) || next > old(next)) && next >= old(next)
      ensures !step.Piece? ==> left == length && position == old(position) && next >= old(next)
      ensures step.Ended? ==> position == |stream|
      ensures step.Ended? <==> length > 0 && old(Ahead()) == []
      ensures step.Piece? ==> |step.bytes| == (if length < |old(Ahead())[0]| then length else |old(Ahead())[0]|)
      ensures step.Piece? && left > 0 ==> Ahead() == old(Ahead())[1..]
    {
      if length == 0 { return Finished, 0; }
      if chunk == [] {
        if next == |chunks| { return Ended, length; }
        assert chunks[next..][1..] == chunks[next + 1..];
        chunk, next := chunks[next], next + 1;
      }
      var count := if length < |chunk| then length else |chunk|;
      var bytes := chunk[..count];
      Advance(stream, position, chunk, Joined(chunks[next..]), count);
      chunk, position := chunk[count..], position + count;
      return Piece(bytes), length - count;
    }

    /** `for await (const _ of take(length))`. */
    method Drain(length: nat) returns (ok: bool)
      requires Valid()
      modifies this
      ensures Valid()
      ensures ok <==> old(position) + length <= |stream|
      ensures ok ==> position == old(position) + length
    {
      var left := length;
      while true
        invariant Valid() && position + left == old(position) + length
        invariant position <= |stream|
        decreases |chunks| - next, left
      {
        var step;
        step, left := Pull(left);
        match step {
          case Finished => return true;
          case Ended => return false;
          case Piece(_) =>
        }
      }
    }

    /** One pull, appended to what the consumer already has. */
    method PullOnto(got: Bytes, ghost start: nat, length: nat, ghost pulls: nat)
      returns (step: Step, all: Bytes, left: nat)
      requires Valid() && start <= position && got == stream[start..position] && pulls > 0
      modifies this
      ensures Valid() && position >= old(position) && all == stream[start..position]
      ensures |all| + left == |got| + length && next >= old(next)
      ensures step.Piece? ==> next > old(next) || left < length
      ensures step.Finished? <==> length == 0
      ensures !step.Piece? ==> left == length && all == got
      ensures step.Ended? ==> position == |stream|
      ensures |got| + Yielded(old(Ahead()), length, pulls)
           == |all| + if step.Piece? then Yielded(Ahead(), left, pulls - 1) else 0
    {
      hide Joined;
      hide Yielded;
      ghost var ahead, before := Ahead(), position;
      OnePull(ahead, length, pulls);
      step, left := Pull(length);
      OnePull(Ahead(), left, pulls - 1);
      if ahead != [] { OnePull(ahead[1..], left, pulls - 1); }
      all := if step.Piece? then got + step.bytes else got;
      Extend(stream, start, before, position);
    }

    /** The consumer's own pulls. */
    method Visiting(length: nat, v: Visit) returns (got: Bytes, left: nat, ended: bool)
      requires Valid()
      modifies this
      ensures Valid() && left + |got| == length
      ensures position == old(position) + |got| && got == stream[old(position)..position]
      ensures ended ==> position == |stream| && left > 0
      ensures v.everything && !ended ==> left == 0
      ensures !v.everything ==> |got| == Yielded(old(Ahead()), length, v.pulls)
    {
      hide Joined;
      hide Yielded;
      got, left, ended := [], length, false;
      var i := 0;
      while v.everything || i < v.pulls
        invariant Valid() && left + |got| == length
        invariant old(position) <= position && got == stream[old(position)..position]
        invariant i <= v.pulls || v.everything
        invariant !v.everything ==>
                  |got| + Yielded(Ahead(), left, v.pulls - i) == Yielded(old(Ahead()), length, v.pulls)
        decreases |chunks| - next, left
      {
        var step;
        step, got, left := PullOnto(got, old(position), left, if v.everything then 1 else v.pulls - i);
        match step {
          case Finished => return;
          case Ended => ended := true; return;
          case Piece(_) =>
        }
        i := i + 1;
      }
      if !v.everything { OnePull(Ahead(), left, 0); }
    }

    /** One member's payload: the consumer reads, and what it left is drained. */
    method Serve(member: Member, v: Visit, i: nat) returns (r: Outcome, got: Bytes)
      requires Valid() && position == member.offset
      modifies this
      ensures Valid()
      ensures Fate(stream, old(position), member, v, i, r, got)
      ensures r.Replayed? ==> position == member.End()
      ensures !v.everything ==> |got| == Yielded(old(Ahead()), member.size, v.pulls)
    {
      var left, ended;
      got, left, ended := Visiting(member.size, v);
      if ended { return Truncated(i), got; }
      if v.raises { return Raised(i), got; }
      if !v.closes {
        var drained := Drain(left);
        if !drained { return Truncated(i), got; }
      }
      if position != member.End() { return Incomplete(i), got; }
      return Replayed, got;
    }

    /** One member, after the gap before it. */
    method One(member: Member, v: Visit, i: nat) returns (r: Outcome, got: Bytes)
      requires Valid()
      modifies this
      ensures Valid()
      ensures Fate(stream, old(position), member, v, i, r, got)
      ensures r.Replayed? ==> position == member.End()
    {
      if member.offset < position { return OutOfOrder(i), []; }
      var skipped := Drain(member.offset - position);
      if !skipped { return Truncated(i), []; }
      r, got := Serve(member, v, i);
    }

    /** replayTar.  With consumers that neither close nor raise, the outcome is that of the member
        list against the length of the stream: the chunks do not matter.  A closing consumer is
        served exactly when the pieces it pulled before closing were its whole payload. */
    method Run(members: seq<Member>, visits: seq<Visit>) returns (r: Outcome, offered: seq<Bytes>)
      requires Valid() && position == 0 && |visits| == |members|
      modifies this
      ensures r.Replayed? ==> next == |chunks| && |offered| == |members| && Through(stream, members, visits, offered)
      ensures !r.Replayed? ==>
                && r.at < |members| && |offered| == r.at + 1 && Through(stream, members, visits, offered[..r.at])
                && Fate(stream, StartOf(members, r.at), members[r.at], visits[r.at], r.at, r, offered[r.at])
      ensures (forall i :: 0 <= i < |visits| ==> Patient(visits[i])) ==> r == Verdict(members, |stream|, 0)
    {
      hide Joined;
      hide Fate;
      hide Fits;
      hide Verdict;
      offered := [];
      ghost var patient := forall i :: 0 <= i < |visits| ==> Patient(visits[i]);
      for i := 0 to |members|
        invariant Valid() && |offered| == i && position == StartOf(members, i)
        invariant Through(stream, members, visits, offered)
      {
        var got;
        r, got := One(members[i], visits[i], i);
        if !r.Replayed? {
          FateIsAt(stream, StartOf(members, i), members[i], visits[i], i, r, got);
          if patient { FateIsVerdict(stream, members, visits, offered, r, got); }
          offered := offered + [got];
          assert offered[..i] + [got] == offered;
          return;
        }
        ThroughMore(stream, members, visits, offered, got);
        offered := offered + [got];
      }
      if patient { FateIsVerdict(stream, members, visits, offered, Replayed, []); }
      while next < |chunks|
        invariant next <= |chunks|
      {
        next := next + 1;
      }
      return Replayed, offered;
    }
  }

  lemma Extend(stream: Bytes, i: nat, j: nat, k: nat)
    requires i <= j <= k <= |stream|
    ensures stream[i..j] + stream[j..k] == stream[i..k]
  {
  }

  lemma Advance(stream: Bytes, position: nat, chunk: Bytes, rest: Bytes, count: nat)
    requires position <= |stream| && stream[position..] == chunk + rest && count <= |chunk|
    ensures position + count <= |stream|
    ensures stream[position..position + count] == chunk[..count]
    ensures stream[position + count..] == chunk[count..] + rest
  {
  }

  /** Two ways to cut one stream into chunks. */
  method SameUnderAnyChunking(a: seq<Bytes>, b: seq<Bytes>, members: seq<Member>, visits: seq<Visit>)
    returns (r: Outcome, q: Outcome)
    requires Joined(a) == Joined(b) && |visits| == |members|
    requires forall i :: 0 <= i < |visits| ==> Patient(visits[i])
    ensures r == q
    ensures r.Replayed? <==> forall i :: 0 <= i < |members| ==> Fits(members, |Joined(a)|, i)
  {
    var first := new Replay(a);
    var second := new Replay(b);
    var offered;
    r, offered := first.Run(members, visits);
    q, offered := second.Run(members, visits);
  }

  lemma SameStream()
    ensures Joined([[7, 8]]) == Joined([[7], [8]])
  {
  }

  lemma FirstPieces()
    ensures Yielded([[7, 8]], 2, 1) == 2 && Yielded([[7], [8]], 2, 1) == 1
  {
  }

  /** One stream, one member and one consumer, which takes a piece and leaves its loop: it succeeds
      or fails with the chunks. */
  method ClosingDependsOnChunks() returns (whole: Outcome, split: Outcome)
    ensures Joined([[7, 8]]) == Joined([[7], [8]])
    ensures whole == Replayed && split == Incomplete(0)
  {
    hide Yielded;
    SameStream();
    FirstPieces();
    var leaver := Visit(false, 1, true, false);
    var one := new Replay([[7, 8]]);
    var two := new Replay([[7], [8]]);
    var got;
    assert |Joined([[7, 8]])| == 2;
    hide Joined;
    whole, got := one.Serve(Member(0, 2), leaver, 0);
    split, got := two.Serve(Member(0, 2), leaver, 0);
  }
}
