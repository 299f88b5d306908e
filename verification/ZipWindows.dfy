/** The two-window read cache of a staged ZIP file. */
module ZipWindows {
  import opened Basics
  import opened ZipBytes

  const METADATA_WINDOW_BYTES := 4096
  const CACHED_READS_PER_YIELD := 32

  datatype Window = Window(offset: nat, bytes: Bytes)

  predicate Covers(w: Window, offset: nat, length: nat) {
    offset >= w.offset && length <= |w.bytes| - (offset - w.offset)
  }

  /** An immutable file whose reads may be short, and the windows cached from it. */
  class WindowedFile {
    const file: Bytes
    var windows: seq<Window>
    var cachedReads: nat
    ghost var fileReads: nat

    /** Every window holds file bytes, whatever was evicted. */
    ghost predicate Valid()
      reads this
    {
      && |windows| <= 2
      && (forall w :: w in windows ==>
            |w.bytes| <= METADATA_WINDOW_BYTES && w.offset + |w.bytes| <= |file|
            && w.bytes == file[w.offset..w.offset + |w.bytes|])
      && cachedReads < CACHED_READS_PER_YIELD
    }

    constructor (file: Bytes)
      ensures Valid() && this.file == file && windows == []
    {
      this.file, windows, cachedReads, fileReads := file, [], 0, 0;
    }

    /** One positional read: at least one byte unless the window is full or the file ended. */
    method ReadFile(offset: nat, wanted: nat) returns (bytes: Bytes)
      requires offset <= |file|
      modifies this`fileReads
      ensures |bytes| <= wanted && offset + |bytes| <= |file| && bytes == file[offset..offset + |bytes|]
      ensures bytes == [] ==> wanted == 0 || offset == |file|
      ensures fileReads == old(fileReads) + 1
    {
      var available := if wanted <= |file| - offset then wanted else |file| - offset;
      var count: nat :| count <= available && (count == 0 ==> available == 0);
      fileReads := fileReads + 1;
      return file[offset..offset + count];
    }

    /** windows.findIndex. */
    method FindWindow(offset: nat, length: nat) returns (i: int)
      ensures -1 <= i < |windows|
      ensures i >= 0 ==> Covers(windows[i], offset, length)
      ensures i < 0 ==> forall w :: w in windows ==> !Covers(w, offset, length)
    {
      i := 0;
      while i < |windows|
        invariant 0 <= i <= |windows|
        invariant forall j :: 0 <= j < i ==> !Covers(windows[j], offset, length)
      {
        if Covers(windows[i], offset, length) { return; }
        i := i + 1;
      }
      i := -1;
    }

    /** Filling a fresh buffer from the file, by as many reads as it takes. */
    method Fill(offset: nat, length: nat, capacity: nat) returns (r: Option<Bytes>)
      requires Valid() && length <= capacity && offset + capacity <= |file|
      modifies this`fileReads, this`cachedReads
      ensures Valid() && r == Some(file[offset..offset + capacity])
    {
      var buffer: Bytes := [];
      while |buffer| < capacity
        invariant Valid() && |buffer| <= capacity
        invariant buffer == file[offset..offset + |buffer|]
        decreases capacity - |buffer|
      {
        var more := ReadFile(offset + |buffer|, capacity - |buffer|);
        cachedReads := 0;
        if more == [] {
          if |buffer| < length { return None; }
          break;
        }
        buffer := buffer + more;
      }
      return Some(buffer);
    }

    /** Answering one request of the scan. */
    method Serve(offset: nat, length: nat) returns (r: Option<Bytes>)
      requires Valid() && offset + length <= |file|
      modifies this
      ensures Valid() && r == Some(file[offset..offset + length])
      ensures (exists w :: w in old(windows) && Covers(w, offset, length)) ==>
                fileReads == old(fileReads) && (forall w :: w in windows <==> w in old(windows))
    {
      var cached := FindWindow(offset, length);
      if cached != -1 {
        cachedReads := cachedReads + 1;
        if cachedReads >= CACHED_READS_PER_YIELD { cachedReads := 0; }
        var window := windows[cached];
        if cached == 1 { windows := [windows[1], windows[0]]; }
        SliceOfSlice(file, window.offset, window.offset + |window.bytes|, offset, offset + length);
        return Some(window.bytes[offset - window.offset..offset - window.offset + length]);
      }
      var cacheable := 0 < length <= METADATA_WINDOW_BYTES;
      var capacity := if !cacheable then length
                      else if METADATA_WINDOW_BYTES <= |file| - offset then METADATA_WINDOW_BYTES else |file| - offset;
      var buffer := Fill(offset, length, capacity);
      if buffer.None? { return None; }
      if cacheable {
        windows := [Window(offset, buffer.value)] + windows;
        if |windows| > 2 { windows := windows[..2]; }
      }
      SliceOfSlice(file, offset, offset + capacity, offset, offset + length);
      return Some(buffer.value[..length]);
    }
  }

  lemma SliceOfSlice<T>(s: seq<T>, a: nat, b: nat, c: nat, d: nat)
    requires a <= c <= d <= b <= |s|
    ensures s[a..b][c - a..d - a] == s[c..d]
  {
    var inner := s[a..b][c - a..d - a];
    assert |inner| == |s[c..d]|;
    forall i | 0 <= i < d - c
      ensures inner[i] == s[c..d][i]
    {
      assert inner[i] == s[a..b][c - a + i];
    }
  }
}
