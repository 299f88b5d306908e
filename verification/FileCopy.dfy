/** Copying one regular file onto another, and comparing two, under short reads and writes. */
module FileCopy {
  import opened Basics

  const MAX_READ_BYTES := 0x7fff_ffff

  // ---------------------------------------------------------------- copyFileDescriptorSync

  /** `source` written over the beginning of `target`. */
  function Overlay(target: Bytes, source: Bytes): Bytes {
    source + if |target| > |source| then target[|source|..] else []
  }

  lemma OverlayMore(target: Bytes, source: Bytes, i: nat, j: nat)
    requires i <= j <= |source|
    ensures |Overlay(target, source[..i])| >= i
    ensures Overlay(Overlay(target, source[..i]), source[..j]) == Overlay(target, source[..j])
    ensures Overlay(target, source[..i])[..i] + source[i..j]
            + (if |Overlay(target, source[..i])| > j then Overlay(target, source[..i])[j..] else [])
              == Overlay(target, source[..j])
  {
  }

  /** The destination descriptor. */
  class Target {
    var content: Bytes
    /** Whether a write may come to nothing. */
    const stalls: bool

    constructor (content: Bytes, stalls: bool)
      ensures this.content == content && this.stalls == stalls
    {
      this.content, this.stalls := content, stalls;
    }

    /** pwrite(2): a prefix of the bytes.  It is never asked to leave a hole. */
    method WriteAt(bytes: Bytes, position: nat) returns (written: nat)
      requires position <= |content|
      modifies this
      ensures written <= |bytes| && (bytes != [] && !stalls ==> written > 0)
      ensures content == old(content[..position]) + bytes[..written]
                         + (if |old(content)| > position + written then old(content[position + written..]) else [])
    {
      written :| 0 <= written <= |bytes| && (bytes != [] && !stalls ==> written > 0);
      content := content[..position] + bytes[..written]
                 + (if |content| > position + written then content[position + written..] else []);
    }
  }

  /** Refused is everything decided from the two stats alone; Stopped is an aborted signal or a
      callback that raised. */
  datatype CopyResult = Copied(bytes: nat) | TooLarge | Refused | NoProgress | Stopped

  function TransferSize(hint: nat, max: Limit): (n: nat)
    ensures 0 < n <= 512 * 1024 && (max.Finite? ==> n <= max.n + 1)
    // never less than 64 KiB or a hint up to 512 KiB asks for, unless the budget is smaller
    ensures (n >= 64 * 1024 && (n >= hint || n == 512 * 1024)) || (max.Finite? && n == max.n + 1)
    ensures n <= 64 * 1024 || n <= hint
  {
    var wanted := Min(512 * 1024, Max(64 * 1024, hint));
    if max.Finite? then Min(wanted, max.n + 1) else wanted
  }

  /** The inner loop: one chunk reaches the target, in as many writes as it takes. */
  method WriteChunk(source: Bytes, target: Target, position: nat, n: nat, ghost before: Bytes, quiet: bool)
    returns (r: CopyResult, done: nat)
    requires position + n <= |source|
    requires target.content == Overlay(before, source[..position])
    modifies target
    ensures position <= done <= position + n && target.content == Overlay(before, source[..done])
    ensures r.Copied? ==> done == position + n
    ensures r.Copied? || r.NoProgress? || r.Stopped?
    ensures (quiet ==> !r.Stopped?) && (r.NoProgress? ==> target.stalls)
  {
    var chunk := source[position..position + n];
    var offset := 0;
    done := position;
    while offset < n
      invariant 0 <= offset <= n && done == position + offset
      invariant target.content == Overlay(before, source[..done])
    {
      var stops: bool := *;
      if stops && !quiet { return Stopped, done; }
      OverlayMore(before, source, done, done);
      var written := target.WriteAt(chunk[offset..], done);
      OverlayMore(before, source, done, done + written);
      assert chunk[offset..][..written] == source[done..done + written];
      done := done + written;
      if written == 0 { return NoProgress, done; }
      offset := offset + written;
    }
    return Copied(n), done;
  }

  /** copyFileDescriptorSync.  `seen` is what onChunk was given; `k` is how far the target was
      overwritten.  The sizes come from stat and may be anything. */
  method CopyDescriptor(source: Bytes, target: Target, sourceStat: Stat, targetStat: Stat, aliased: bool, max: Limit,
                        quiet: bool)
    returns (r: CopyResult, k: nat, seen: Bytes)
    modifies target
    ensures k <= |source| && Within(k, max) && target.content == Overlay(old(target.content), source[..k])
    ensures k <= |seen| <= |source| && Within(|seen|, max) && seen == source[..|seen|]
    ensures r.Copied? ==> k == r.bytes == |source| && seen == source
    ensures r.Copied? ==> target.content == Overlay(old(target.content), source)
    ensures r.TooLarge? ==> !Within(|source|, max) || !Within(sourceStat.size, max)
    ensures r.Refused? <==> (!sourceStat.isFile || (Within(sourceStat.size, max) && (!targetStat.isFile || aliased)))
    ensures r.Refused? || !Within(sourceStat.size, max) ==>
              k == 0 && seen == [] && target.content == old(target.content)
    ensures (r.Stopped? ==> !quiet) && (r.NoProgress? ==> target.stalls)
    // Unless a write stalls or the caller stops it, the budget alone decides.
    ensures !r.Refused? && !r.NoProgress? && !r.Stopped? ==>
              (r.Copied? <==> Within(|source|, max) && Within(sourceStat.size, max))
  {
    k, seen := 0, [];
    assert source[..0] == [];
    assert target.content == Overlay(target.content, source[..0]);
    if !sourceStat.isFile { return Refused, 0, []; }
    if !Within(sourceStat.size, max) { return TooLarge, 0, []; }
    if !targetStat.isFile || aliased { return Refused, 0, []; }
    ghost var before := target.content;
    var buffer := new Byte[TransferSize(sourceStat.size, max)];
    while true
      invariant k == |seen| <= |source| && Within(k, max) && seen == source[..k]
      invariant target.content == Overlay(before, source[..k])
      decreases |source| - k
    {
      var stops: bool := *;
      if stops && !quiet { return Stopped, k, seen; }
      var length := if max.Finite? then Min(buffer.Length, max.n - k + 1) else buffer.Length;
      var n := ReadAt(source, buffer, 0, length, k);
      if max.Finite? && n > max.n - k { return TooLarge, k, seen; }
      if n == 0 {
        assert source[..k] == source;
        return Copied(k), k, seen;
      }
      seen := seen + buffer[..n];
      assert source[..k + n] == source[..k] + source[k..k + n];
      var done;
      r, done := WriteChunk(source, target, k, n, before, quiet);
      if !r.Copied? { return r, done, seen; }
      k := done;
    }
  }

  // ---------------------------------------------------------------- readFileWindowFullySync

  /** Fills the first `length` bytes of the buffer, or as many as the file has from `position`. */
  method ReadWindow(data: Bytes, buffer: array<Byte>, length: nat, position: nat) returns (total: nat)
    requires length <= buffer.Length
    modifies buffer
    ensures total == (if position >= |data| then 0 else Min(length, |data| - position))
    ensures total > 0 ==> buffer[..total] == data[position..position + total]
  {
    total := 0;
    while total < length
      invariant total <= length
                && (total > 0 ==> position + total <= |data| && buffer[..total] == data[position..position + total])
    {
      var n := ReadAt(data, buffer, total, Min(length - total, MAX_READ_BYTES), position + total);
      if n == 0 { break; }
      WindowGrows(buffer, total, n, data, position);
      total := total + n;
    }
  }

  // ---------------------------------------------------------------- sameFileContentsSync

  datatype CompareResult = Same | Different | ExceedsLimit | NotFile

  function Prefix(s: Bytes, n: nat): Bytes { s[..Min(n, |s|)] }

  /** What comparing under a budget means. */
  function Compared(left: Bytes, right: Bytes, leftStat: Stat, rightStat: Stat, limit: nat): CompareResult {
    if !leftStat.isFile then NotFile
    else if leftStat.size > limit then ExceedsLimit
    else if !rightStat.isFile then NotFile
    else if rightStat.size > limit then ExceedsLimit
    else if Prefix(left, limit) != Prefix(right, limit) then Different
    else if |left| > limit || |right| > limit then ExceedsLimit
    else Same
  }

  /** With truthful sizes that is: refuse what exceeds the limit, else compare. */
  lemma ComparedMeans(left: Bytes, right: Bytes, limit: nat)
    ensures var r := Compared(left, right, Stat(true, |left|), Stat(true, |right|), limit);
            if |left| > limit || |right| > limit then r == ExceedsLimit
            else r == if left == right then Same else Different
  {
  }

  /** Whatever the sizes claimed, "same" means equal and "different" means unequal. */
  lemma ComparedIsSound(left: Bytes, right: Bytes, leftStat: Stat, rightStat: Stat, limit: nat)
    ensures Compared(left, right, leftStat, rightStat, limit) == Same ==> left == right && |left| <= limit
    ensures Compared(left, right, leftStat, rightStat, limit) == Different ==> left != right
  {
  }

  lemma PrefixSplits(s: Bytes, p: nat, q: nat)
    requires p <= |s| && p <= q
    ensures Prefix(s, q) == s[..p] + Prefix(s[p..], q - p)
  {
    if q <= |s| {
      assert s[..q] == s[..p] + s[p..q];
      assert s[p..][..q - p] == s[p..q];
    } else {
      assert s == s[..p] + s[p..];
      assert s[p..][..|s| - p] == s[p..];
    }
  }

  lemma SameFront(front: Bytes, x: Bytes, y: Bytes)
    ensures front + x == front + y <==> x == y
  {
    assert (front + x)[|front|..] == x;
    assert (front + y)[|front|..] == y;
  }

  lemma PrefixesAgree(left: Bytes, right: Bytes, p: nat, q: nat)
    requires p <= |left| && p <= |right| && left[..p] == right[..p] && p <= q
    ensures Prefix(left, q) == Prefix(right, q) <==> Prefix(left[p..], q - p) == Prefix(right[p..], q - p)
  {
    hide Prefix;
    PrefixSplits(left, p, q);
    PrefixSplits(right, p, q);
    SameFront(left[..p], Prefix(left[p..], q - p), Prefix(right[p..], q - p));
  }

  lemma UnequalWindows(left: Bytes, right: Bytes, w: nat, q: nat)
    requires w <= q && Prefix(left, w) != Prefix(right, w)
    ensures Prefix(left, q) != Prefix(right, q)
  {
  }

  /** One round: both files' next window, and whether the windows agree. */
  method CompareWindow(left: Bytes, right: Bytes, a: array<Byte>, b: array<Byte>, length: nat, position: nat)
    returns (equal: bool, read: nat)
    requires a != b && length <= a.Length == b.Length
    requires position <= |left| && position <= |right| && left[..position] == right[..position]
    modifies a, b
    ensures equal <==> Prefix(left, position + length) == Prefix(right, position + length)
    ensures equal ==> read == Min(length, |left| - position) == Min(length, |right| - position)
  {
    read := ReadWindow(left, a, length, position);
    var rightRead := ReadWindow(right, b, length, position);
    assert a[..read] == Prefix(left[position..], length);
    assert b[..rightRead] == Prefix(right[position..], length);
    PrefixesAgree(left, right, position, position + length);
    equal := read == rightRead && a[..read] == b[..rightRead];
  }

  method SameContents(left: Bytes, right: Bytes, leftStat: Stat, rightStat: Stat, max: Limit) returns (r: CompareResult)
    ensures r == Compared(left, right, leftStat, rightStat, Capped(MAX_SAFE_INTEGER, max))
  {
    var limit := Capped(MAX_SAFE_INTEGER, max);
    if !leftStat.isFile { return NotFile; }
    if leftStat.size > limit { return ExceedsLimit; }
    if !rightStat.isFile { return NotFile; }
    if rightStat.size > limit { return ExceedsLimit; }
    var a := new Byte[Min(1024 * 1024, Max(1, limit))];
    var b := new Byte[a.Length];
    var position := 0;
    while true
      invariant position <= limit && position <= |left| && position <= |right| && left[..position] == right[..position]
      decreases limit - position
    {
      var length := Min(a.Length, limit - position);
      if length == 0 {
        var leftExtra := ReadAt(left, a, 0, 1, position);
        var rightExtra := ReadAt(right, b, 0, 1, position);
        assert Prefix(left, limit) == left[..position] && Prefix(right, limit) == right[..position];
        return if leftExtra != 0 || rightExtra != 0 then ExceedsLimit else Same;
      }
      var equal, read := CompareWindow(left, right, a, b, length, position);
      if !equal {
        UnequalWindows(left, right, position + length, limit);
        return Different;
      }
      if read < length {
        assert Prefix(left, limit) == Prefix(left, position + length) == left;
        assert Prefix(right, limit) == Prefix(right, position + length) == right;
        return Same;
      }
      assert Prefix(left, position + length) == left[..position + length];
      assert Prefix(right, position + length) == right[..position + length];
      position := position + read;
    }
  }

  /** Copying into an empty file makes a file that compares equal to its source. */
  method CopyThenCompare(source: Bytes, target: Target, max: Limit) returns (copied: CopyResult, same: CompareResult)
    requires target.content == [] && |source| <= MAX_SAFE_INTEGER
    modifies target
    ensures copied.Copied? ==> same == Same && target.content == source
    ensures !target.stalls ==> (copied.Copied? <==> Within(|source|, max))
  {
    var stat := Stat(true, |source|);
    var k, seen;
    copied, k, seen := CopyDescriptor(source, target, stat, Stat(true, 0), false, max, true);
    same := SameContents(source, target.content, stat, Stat(true, |target.content|), max);
    ComparedMeans(source, target.content, Capped(MAX_SAFE_INTEGER, max));
  }
}
