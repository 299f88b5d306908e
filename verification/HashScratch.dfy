/** The pool of scratch buffers that file hashing borrows from, and the hashing loop over it. */
module HashScratch {
  import opened Basics

  type Buffer = array<Byte>

  ghost predicate ZeroFrom(b: Buffer, from: nat) reads b {
    forall i :: from <= i < b.Length ==> b[i] == 0
  }

  predicate Sorted(s: seq<Buffer>) {
    forall i, j :: 0 <= i < j < |s| ==> s[i].Length <= s[j].Length
  }

  predicate Distinct(s: seq<Buffer>) {
    forall i, j :: 0 <= i < j < |s| ==> s[i] != s[j]
  }

  /** Pushing onto a list sorted by length and sorting it again, stably. */
  function Inserted(s: seq<Buffer>, b: Buffer): (r: seq<Buffer>)
    ensures |r| == |s| + 1
  {
    if s == [] || b.Length < s[0].Length then [b] + s else [s[0]] + Inserted(s[1..], b)
  }

  lemma {:induction false} InsertedHolds(s: seq<Buffer>, b: Buffer, x: Buffer)
    ensures x in Inserted(s, b) <==> x in s || x == b
  {
    if s != [] && b.Length >= s[0].Length {
      InsertedHolds(s[1..], b, x);
      assert x in s <==> x == s[0] || x in s[1..];
    }
  }

  lemma {:induction false} InsertedStaysSorted(s: seq<Buffer>, b: Buffer)
    requires Sorted(s)
    ensures Sorted(Inserted(s, b))
  {
    if s != [] && b.Length >= s[0].Length {
      InsertedStaysSorted(s[1..], b);
      forall j | 0 <= j <= |s[1..]| ensures s[0].Length <= Inserted(s[1..], b)[j].Length {
        InsertedHolds(s[1..], b, Inserted(s[1..], b)[j]);
      }
    }
  }

  lemma {:induction false} InsertedStaysDistinct(s: seq<Buffer>, b: Buffer)
    requires Distinct(s) && b !in s
    ensures Distinct(Inserted(s, b))
  {
    if s != [] && b.Length >= s[0].Length {
      InsertedStaysDistinct(s[1..], b);
      InsertedHolds(s[1..], b, s[0]);
    }
  }

  /** Taking one element out keeps the order and loses only that one. */
  lemma WithoutOne(s: seq<Buffer>, i: nat)
    requires i < |s| && Sorted(s) && Distinct(s)
    ensures var t := s[..i] + s[i + 1..];
            Sorted(t) && Distinct(t) && |t| == |s| - 1 && forall c :: c in t <==> c in s && c != s[i]
  {
  }

  /** Over four, the shortest buffer is dropped. */
  function Trimmed(all: seq<Buffer>): seq<Buffer> {
    if |all| > 4 then all[1..] else all
  }

  lemma TrimmedKeepsTheLongest(all: seq<Buffer>)
    requires Sorted(all) && Distinct(all) && |all| <= 5
    ensures Sorted(Trimmed(all)) && Distinct(Trimmed(all)) && |Trimmed(all)| == Min(4, |all|)
    ensures forall c :: c in Trimmed(all) ==> c in all
    ensures forall c :: c in all ==> c in Trimmed(all) || forall d :: d in Trimmed(all) ==> c.Length <= d.Length
  {
  }

  lemma InsertedElements(s: seq<Buffer>, b: Buffer)
    ensures forall c :: c in Inserted(s, b) <==> c in s || c == b
  {
  }

  class Pool {
    var idle: seq<Buffer>
    ghost var borrowed: set<Buffer>

    ghost predicate Valid() reads this, idle {
      && |idle| <= 4 && Sorted(idle) && Distinct(idle)
      && forall b :: b in idle ==> ZeroFrom(b, 0) && b !in borrowed
    }

    constructor ()
      ensures Valid() && idle == [] && borrowed == {}
    {
      idle, borrowed := [], {};
    }

    /** takeHashScratch: the first pooled buffer that is long enough is the shortest such one. */
    method Take(size: nat) returns (b: Buffer)
      requires Valid()
      modifies this
      ensures Valid() && b !in old(borrowed) && borrowed == old(borrowed) + {b}
      ensures b.Length >= size && ZeroFrom(b, size) && (b in old(idle) || fresh(b))
      ensures b in old(idle) ==> forall c :: c in old(idle) && c.Length >= size ==> b.Length <= c.Length
      ensures b !in old(idle) ==> b.Length == size && forall c :: c in old(idle) ==> c.Length < size
      ensures forall c :: c in idle <==> c in old(idle) && c != b
    {
      var i := 0;
      while i < |idle| && idle[i].Length < size
        invariant i <= |idle|
        invariant forall k :: 0 <= k < i ==> idle[k].Length < size
      {
        i := i + 1;
      }
      if i == |idle| {
        b := new Byte[size];
      } else {
        WithoutOne(idle, i);
        b := idle[i];
        idle := idle[..i] + idle[i + 1..];
      }
      borrowed := borrowed + {b};
    }

    /** The pooling half of dispose; over four, the shortest buffer is dropped. */
    method Return(b: Buffer)
      requires Valid() && b in borrowed && ZeroFrom(b, 0)
      modifies this
      ensures Valid() && borrowed == old(borrowed) - {b}
      ensures forall c :: c in idle ==> c in old(idle) || c == b
      ensures |idle| == Min(4, |old(idle)| + 1)
      ensures forall c :: c in old(idle) || c == b ==> c in idle || forall d :: d in idle ==> c.Length <= d.Length
    {
      InsertedStaysSorted(idle, b);
      InsertedStaysDistinct(idle, b);
      InsertedElements(idle, b);
      borrowed := borrowed - {b};
      idle := Inserted(idle, b);
      TrimmedKeepsTheLongest(idle);
      idle := Trimmed(idle);
    }
  }

  class Scratch {
    const pool: Pool
    var storage: Buffer
    var used: nat            // `buffer` is the view storage[..used]

    ghost predicate Valid() reads this, pool, pool.idle, storage {
      && pool.Valid() && storage in pool.borrowed && used <= storage.Length && ZeroFrom(storage, used)
    }

    constructor (pool: Pool, size: nat)
      requires pool.Valid()
      modifies pool
      ensures Valid() && this.pool == pool && used == size
      ensures storage !in old(pool.borrowed) && pool.borrowed == old(pool.borrowed) + {storage}
      ensures storage in old(pool.idle) || fresh(storage)
      ensures forall c :: c in pool.idle ==> c in old(pool.idle)
    {
      var b := pool.Take(size);
      this.pool, storage, used := pool, b, size;
    }

    /** Clears what was used, so that all of the buffer is clear. */
    method Dispose()
      requires Valid()
      modifies pool, storage
      ensures pool.Valid() && pool.borrowed == old(pool.borrowed) - {storage}
      ensures forall c :: c in pool.idle ==> c in old(pool.idle) || c == storage
    {
      forall i | 0 <= i < used { storage[i] := 0; }
      assert ZeroFrom(storage, 0);
      pool.Return(storage);
    }

    /** Takes the larger buffer before giving the smaller back. */
    method Grow(size: nat)
      requires Valid()
      modifies this, pool, storage
      ensures Valid() && used == size
      ensures storage !in old(pool.borrowed) && pool.borrowed == old(pool.borrowed) - {old(storage)} + {storage}
      ensures storage in old(pool.idle) || fresh(storage)
      ensures forall c :: c in pool.idle ==> c in old(pool.idle) || c == old(storage)
    {
      var larger := pool.Take(size);
      Dispose();
      storage, used := larger, size;
    }
  }

  // ---------------------------------------------------------------- hashDescriptorSync

  /** The digest is the sequence of bytes fed to it. */
  datatype Outcome = Hashed(bytes: nat, digest: Bytes) | TooLarge | NotFile | Aborted

  function InitialSize(size: nat, max: Limit): (n: nat)
    ensures 0 < n <= 256 * 1024 && (max.Finite? ==> n <= max.n + 1)
  {
    Min(256 * 1024, if max.Finite? then Min(size + 1, max.n + 1) else size + 1)
  }

  function GrownSize(max: Limit): nat {
    if max.Finite? then Min(64 * 1024, max.n + 1) else 64 * 1024
  }

  /** Whatever stat said and however short the reads, the digest is fed the file's bytes in order,
      and every buffer is back in the pool. */
  method HashDescriptor(pool: Pool, data: Bytes, stat: Stat, max: Limit, quiet: bool) returns (r: Outcome)
    requires pool.Valid()
    modifies pool, pool.idle
    ensures pool.Valid() && pool.borrowed == old(pool.borrowed)
    ensures r.Hashed? ==> r.digest == data && r.bytes == |data| && Within(|data|, max)
    ensures r.TooLarge? ==> stat.isFile && (!Within(stat.size, max) || !Within(|data|, max))
    ensures r.NotFile? <==> !stat.isFile
    ensures r.Aborted? ==> !quiet
    ensures quiet && stat.isFile ==> (r.Hashed? <==> Within(stat.size, max) && Within(|data|, max))
  {
    if !stat.isFile { return NotFile; }
    if !Within(stat.size, max) { return TooLarge; }
    var scratch := new Scratch(pool, InitialSize(stat.size, max));
    assert scratch.pool == pool;
    assert scratch.storage in old(pool.idle) || fresh(scratch.storage);
    assert forall i :: 0 <= i < |pool.idle| ==> pool.idle[i] in old(pool.idle);
    r := HashLoop(scratch, data, max, quiet);
    scratch.Dispose();
  }

  method HashLoop(scratch: Scratch, data: Bytes, max: Limit, quiet: bool) returns (r: Outcome)
    requires scratch.Valid() && 0 < scratch.used && (max.Finite? ==> scratch.used <= max.n + 1)
    modifies scratch, scratch.pool, scratch.pool.idle, scratch.storage
    ensures scratch.Valid()
    ensures scratch.pool.borrowed == old(scratch.pool.borrowed) - {old(scratch.storage)} + {scratch.storage}
    ensures scratch.storage == old(scratch.storage) || scratch.storage !in old(scratch.pool.borrowed)
    ensures scratch.storage in old(scratch.pool.idle) || scratch.storage == old(scratch.storage)
              || fresh(scratch.storage)
    ensures forall c :: c in scratch.pool.idle ==> c in old(scratch.pool.idle) || c == old(scratch.storage) || fresh(c)
    ensures r.Hashed? ==> r.digest == data && r.bytes == |data| && Within(|data|, max)
    ensures r.TooLarge? ==> !Within(|data|, max)
    ensures !r.NotFile? && (r.Aborted? ==> !quiet)
  {
    var pool := scratch.pool;
    var position, fed := 0, [];
    while true
      invariant scratch.Valid() && position <= |data| && fed == data[..position] && Within(position, max)
      invariant 0 < scratch.used && (max.Finite? ==> scratch.used <= max.n + 1)
      invariant pool.borrowed == old(pool.borrowed) - {old(scratch.storage)} + {scratch.storage}
      invariant scratch.storage == old(scratch.storage) || scratch.storage !in old(pool.borrowed)
      invariant scratch.storage in old(pool.idle) || scratch.storage == old(scratch.storage) || fresh(scratch.storage)
      invariant forall c :: c in pool.idle ==> c in old(pool.idle) || c == old(scratch.storage) || fresh(c)
      decreases |data| - position
    {
      var stops: bool := *;
      if stops && !quiet { return Aborted; }
      var length := if max.Finite? then Min(scratch.used, max.n - position + 1) else scratch.used;
      var n := ReadAt(data, scratch.storage, 0, length, position);
      if max.Finite? && n > max.n - position { return TooLarge; }
      if n == 0 {
        assert data[..position] == data;
        return Hashed(position, fed);
      }
      assert data[..position + n] == data[..position] + data[position..position + n];
      fed := fed + scratch.storage[..n];
      position := position + n;
      if n == scratch.used && scratch.used < 64 * 1024 {
        scratch.Grow(GrownSize(max));
      }
    }
  }

  // ---------------------------------------------------------------- any borrowers

  /** All borrowers hold valid scratches of one pool, no two of them the same buffer. */
  ghost predicate Separate(pool: Pool, live: seq<Scratch>)
    reads pool, pool.idle, live, set s | s in live :: s.storage
  {
    && pool.Valid()
    && (forall i :: 0 <= i < |live| ==> live[i].pool == pool && live[i].Valid())
    && (forall i, j :: 0 <= i < j < |live| ==> live[i] != live[j] && live[i].storage != live[j].storage)
  }

  method Borrow(pool: Pool, live: seq<Scratch>, size: nat) returns (s: Scratch)
    requires Separate(pool, live)
    modifies pool
    ensures fresh(s) && Separate(pool, live + [s])
    ensures s.storage in old(pool.idle) || fresh(s.storage)
    ensures forall c :: c in pool.idle ==> c in old(pool.idle)
  {
    s := new Scratch(pool, size);
  }

  /** A read may leave anything in the used view. */
  method Dirty(pool: Pool, live: seq<Scratch>, i: nat, bytes: Bytes)
    requires Separate(pool, live) && i < |live|
    modifies live[i].storage
    ensures Separate(pool, live)
  {
    var s := live[i];
    var n := Min(|bytes|, s.used);
    forall k | 0 <= k < n { s.storage[k] := bytes[k]; }
  }

  method Enlarge(pool: Pool, live: seq<Scratch>, i: nat, size: nat)
    requires Separate(pool, live) && i < |live|
    modifies live[i], pool, live[i].storage
    ensures Separate(pool, live)
    ensures live[i].storage in old(pool.idle) || fresh(live[i].storage)
    ensures forall k :: 0 <= k < |live| && k != i ==> live[k].storage == old(live[k].storage)
    ensures forall c :: c in pool.idle ==> c in old(pool.idle) || c == old(live[i].storage)
  {
    live[i].Grow(size);
  }

  method GiveBack(pool: Pool, live: seq<Scratch>, i: nat)
    requires Separate(pool, live) && i < |live|
    modifies pool, live[i].storage
    ensures Separate(pool, live[..i] + live[i + 1..])
    ensures forall c :: c in pool.idle ==> c in old(pool.idle) || c == live[i].storage
  {
    live[i].Dispose();
  }

  /** However any number of borrowers take, fill, enlarge and return buffers, the pool stays sound
      and no buffer is shared. */
  method AnyBorrowers(steps: seq<(nat, nat, nat, Bytes)>) returns (pool: Pool, live: seq<Scratch>)
    ensures Separate(pool, live)
  {
    pool := new Pool();
    live := [];
    for k := 0 to |steps|
      invariant fresh(pool) && Separate(pool, live)
      invariant forall c :: c in pool.idle ==> fresh(c)
      invariant forall s :: s in live ==> fresh(s) && fresh(s.storage)
    {
      var (kind, which, size, bytes) := steps[k];
      if kind == 0 || live == [] {
        var s := Borrow(pool, live, size);
        live := live + [s];
      } else {
        var i := which % |live|;
        if kind == 1 {
          Dirty(pool, live, i, bytes);
        } else if kind == 2 {
          Enlarge(pool, live, i, size);
        } else {
          GiveBack(pool, live, i);
          live := live[..i] + live[i + 1..];
        }
      }
    }
  }
}
