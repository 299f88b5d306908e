/** Reading what is left of a stream within a byte budget, into a buffer that grows on demand. */
module BoundedRead {
  import opened Basics

  const READ_CHUNK_BYTES := 64 * 1024
  const MAX_INITIAL_READ_BYTES := 16 * 1024 * 1024

  datatype Hint = Size(n: nat) | NoSize
  datatype Outcome = Content(storage: array<Byte>, length: nat) | TooLarge

  function PlusOne(max: Limit): Limit { if max.Finite? then Finite(max.n + 1) else Unlimited }

  /** An open descriptor: what it will yield, and how much of that it has. */
  class Source {
    const data: Bytes
    var at: nat

    constructor (data: Bytes)
      ensures this.data == data && at == 0
    {
      this.data, at := data, 0;
    }

    ghost predicate Valid() reads this { at <= |data| }

    /** read(2): some of what is left, nothing only at the end. */
    method Read(buffer: array<Byte>, from: nat) returns (n: nat)
      requires Valid() && from < buffer.Length
      modifies this, buffer
      ensures Valid() && at == old(at) + n && n <= buffer.Length - from
      ensures n == 0 <==> old(at) == |data|
      ensures buffer[..from] == old(buffer[..from])
      ensures buffer[from..from + n] == data[old(at)..at]
    {
      n := ReadAt(data, buffer, from, buffer.Length - from, at);
      at := at + n;
    }
  }

  // ---------------------------------------------------------------- buffers

  /** allocUnsafe: any content. */
  method Allocate(n: nat) returns (buffer: array<Byte>)
    ensures fresh(buffer) && buffer.Length == n
  {
    buffer := new Byte[n];
  }

  function InitialCapacity(max: Limit, size: Hint): (n: nat)
    ensures 0 < n <= 16 * 1024 * 1024 + 1 && Within(n, PlusOne(max))
  {
    if size.Size? then
      Capped(if size.n < MAX_INITIAL_READ_BYTES then size.n else MAX_INITIAL_READ_BYTES, max) + 1
    else Capped(READ_CHUNK_BYTES, PlusOne(max))
  }

  function GrownCapacity(length: nat, max: Limit): (n: nat)
    ensures Within(n, PlusOne(max)) && (Within(length, max) ==> length < n)
    ensures n <= 64 * 1024 || n <= 2 * length
    ensures n >= 64 * 1024 || (max.Finite? && n == max.n + 1)
  {
    Capped(if 2 * length < READ_CHUNK_BYTES then READ_CHUNK_BYTES else 2 * length, PlusOne(max))
  }

  method Grow(buffer: array<Byte>, max: Limit) returns (grown: array<Byte>)
    requires Within(buffer.Length, max)
    ensures fresh(grown) && grown.Length == GrownCapacity(buffer.Length, max)
    ensures grown[..buffer.Length] == buffer[..]
  {
    grown := Allocate(GrownCapacity(buffer.Length, max));
    forall i | 0 <= i < buffer.Length { grown[i] := buffer[i]; }
  }

  /** A result keeps at most twice its own length alive. */
  method Finish(buffer: array<Byte>, total: nat) returns (r: Outcome)
    requires total <= buffer.Length
    ensures r.Content? && r.length == total <= r.storage.Length <= 2 * total
    ensures r.storage[..total] == buffer[..total]
  {
    if total > 0 && 2 * total >= buffer.Length { return Content(buffer, total); }
    var compact := Allocate(total);
    forall i | 0 <= i < total { compact[i] := buffer[i]; }
    return Content(compact, total);
  }

  // ---------------------------------------------------------------- readBoundedSync

  /** Capacities only grow, each within the budget, and beyond the first never to more than twice
      what had been read by then. */
  predicate Growing(capacities: seq<nat>, max: Limit) {
    && |capacities| > 0 && capacities[0] <= MAX_INITIAL_READ_BYTES + 1
    && (forall i :: 0 <= i < |capacities| ==> Within(capacities[i], PlusOne(max)))
    && (forall i :: 0 < i < |capacities| ==>
          capacities[i - 1] < capacities[i]
            && (capacities[i] <= READ_CHUNK_BYTES || capacities[i] <= 2 * capacities[i - 1]))
  }

  lemma GrowsOn(capacities: seq<nat>, max: Limit)
    requires Growing(capacities, max) && Within(capacities[|capacities| - 1], max)
    ensures Growing(capacities + [GrownCapacity(capacities[|capacities| - 1], max)], max)
  {
  }

  /** The later size would end the read early: it is positive and already reached, though bytes
      are left. */
  predicate Shortcut(later: Hint, read: nat, capacity: nat, left: nat) {
    0 < read < capacity && later.Size? && 0 < later.n <= read && read < left
  }

  /** What a read that began with `left` ahead of it returned: everything, if that is in budget. */
  ghost predicate Exact(left: Bytes, max: Limit, r: Outcome)
    reads if r.Content? then {r.storage} else {}
  {
    if Within(|left|, max)
    then r.Content? && r.length == |left| <= r.storage.Length && r.storage[..r.length] == left
    else r.TooLarge?
  }

  /** Grows only once the whole buffer has been filled. */
  method MakeRoom(buffer: array<Byte>, total: nat, max: Limit, ghost log: seq<nat>)
    returns (roomy: array<Byte>, ghost capacities: seq<nat>)
    requires total <= buffer.Length && Within(total, max)
    requires Growing(log, max) && log[|log| - 1] == buffer.Length
    ensures total < roomy.Length && roomy[..total] == buffer[..total]
    ensures roomy == buffer || fresh(roomy)
    ensures Growing(capacities, max) && capacities[|capacities| - 1] == roomy.Length && log <= capacities
  {
    roomy, capacities := buffer, log;
    if total == buffer.Length {
      GrowsOn(log, max);
      roomy := Grow(buffer, max);
      capacities := log + [roomy.Length];
    }
  }

  /** Reads behind the `total` bytes that the buffer holds of the stream since `start`. */
  method ReadMore(source: Source, buffer: array<Byte>, total: nat, ghost start: nat) returns (n: nat)
    requires source.Valid() && start + total == source.at && total < buffer.Length
    requires buffer[..total] == source.data[start..source.at]
    modifies source, buffer
    ensures source.Valid() && source.at == old(source.at) + n && total + n <= buffer.Length
    ensures n == 0 <==> old(source.at) == |source.data|
    ensures buffer[..total + n] == source.data[start..source.at]
  {
    n := source.Read(buffer, total);
    WindowGrows(buffer, total, n, source.data, start);
  }

  method ReadRest(source: Source, first: array<Byte>, read: nat, max: Limit, ghost start: nat, ghost log: seq<nat>)
    returns (r: Outcome, ghost capacities: seq<nat>)
    requires source.Valid() && start + read == source.at && read <= first.Length
    requires Within(read, max)
    requires first[..read] == source.data[start..source.at]
    requires Growing(log, max) && log[|log| - 1] == first.Length
    modifies source, first
    ensures source.Valid()
    ensures r.Content? ==> r.length <= r.storage.Length <= 2 * r.length
    ensures Exact(source.data[start..], max, r)
    ensures source.at >= old(source.at) && Within(source.at - start, PlusOne(max))
    ensures Growing(capacities, max) && log <= capacities
  {
    var buffer, total := first, read;
    capacities := log;
    assert |log| > 0;
    hide Growing;
    while true
      invariant source.Valid() && start + total == source.at && total <= buffer.Length
      invariant Within(total, max) && old(source.at) <= source.at
      invariant buffer[..total] == source.data[start..source.at]
      invariant buffer == first || fresh(buffer)
      invariant log <= capacities && Growing(capacities, max) && capacities[|capacities| - 1] == buffer.Length
      decreases |source.data| - source.at
    {
      buffer, capacities := MakeRoom(buffer, total, max, capacities);
      var n := ReadMore(source, buffer, total, start);
      if n == 0 {
        r := Finish(buffer, total);
        return;
      }
      total := total + n;
      if !Within(total, max) {
        return TooLarge, capacities;
      }
    }
  }

  /** `size` is the first size hint and `later` what the descriptor says after the first read. */
  method ReadBounded(source: Source, max: Limit, size: Hint, later: Hint)
    returns (r: Outcome, ghost capacities: seq<nat>, ghost first: nat)
    requires source.Valid()
    modifies source
    ensures source.Valid() && source.at >= old(source.at)
    ensures first <= |source.data[old(source.at)..]|
    ensures Growing(capacities, max)
    ensures Within(source.at - old(source.at), PlusOne(max))
    ensures r.Content? ==> r.length <= r.storage.Length <= 2 * r.length && Within(r.length, max)
    // The size shortcut is the only way to lose bytes, and taking it loses the rest.
    ensures size.Size? && Shortcut(later, first, InitialCapacity(max, size), |source.data| - old(source.at))
              && Within(first, max) ==>
              r.Content? && r.length == first < |source.data| - old(source.at)
              && r.storage[..first] == source.data[old(source.at)..][..first]
    ensures !(size.Size? && Shortcut(later, first, InitialCapacity(max, size), |source.data| - old(source.at))) ==>
              Exact(source.data[old(source.at)..], max, r)
    // A size that covers what is left never shortens the result.
    ensures (later.Size? && later.n > 0 ==> later.n >= |source.data| - old(source.at)) ==>
              Exact(source.data[old(source.at)..], max, r)
  {
    ghost var start := source.at;
    first := 0;
    var buffer := Allocate(InitialCapacity(max, size));
    capacities := [buffer.Length];
    var read := 0;
    if size.Size? {
      var n := source.Read(buffer, 0);
      first := n;
      if n == 0 {
        r := Finish(buffer, 0);
        return;
      }
      if !Within(n, max) { return TooLarge, capacities, first; }
      if n < buffer.Length && later.Size? && later.n > 0 && n >= later.n {
        r := Finish(buffer, n);
        return;
      }
      read := n;
    }
    r, capacities := ReadRest(source, buffer, read, max, start, capacities);
  }

  /** Two bytes are left, and the descriptor said two and now says one: if the first read is short,
      the second byte is lost. */
  method ShortcutLosesAByte() returns (r: Outcome, ghost first: nat)
    ensures Shortcut(Size(1), 1, InitialCapacity(Finite(10), Size(2)), 2)
    ensures r.Content? && 1 <= r.length <= 2 && r.length <= r.storage.Length
    ensures r.storage[..r.length] == [7, 8][..r.length] && (r.length == 1 <==> first == 1)
  {
    var source := new Source([7, 8]);
    ghost var capacities;
    r, capacities, first := ReadBounded(source, Finite(10), Size(2), Size(1));
    assert source.data[0..] == [7, 8];
  }
}
