/** Little-endian integers in byte sequences. */
module ZipBytes {
  import opened Basics

  /** The value of a little-endian byte string. */
  function Value(b: Bytes): nat {
    if b == [] then 0 else b[0] + 256 * Value(b[1..])
  }

  /** The `width`-byte little-endian form of a number. */
  function LE(n: nat, width: nat): (b: Bytes)
    ensures |b| == width
  {
    if width == 0 then [] else [n % 256] + LE(n / 256, width - 1)
  }

  function Pow256(width: nat): nat {
    if width == 0 then 1 else 256 * Pow256(width - 1)
  }

  lemma {:induction false} ValueOfLE(n: nat, width: nat)
    requires n < Pow256(width)
    ensures Value(LE(n, width)) == n
  {
    if width > 0 {
      ValueOfLE(n / 256, width - 1);
      assert LE(n, width)[1..] == LE(n / 256, width - 1);
    }
  }

  lemma {:induction false} LEOfValue(b: Bytes)
    ensures Value(b) < Pow256(|b|)
    ensures LE(Value(b), |b|) == b
  {
    if b != [] {
      LEOfValue(b[1..]);
      assert Value(b) / 256 == Value(b[1..]) && Value(b) % 256 == b[0];
    }
  }

  function Digit(b: Bytes, i: int): int
    requires 0 <= i < |b|
  {
    b[i]
  }

  function U16(b: Bytes, at: int): nat
    requires 0 <= at && at + 2 <= |b|
  {
    Digit(b, at) + 256 * Digit(b, at + 1)
  }

  function U32(b: Bytes, at: int): nat
    requires 0 <= at && at + 4 <= |b|
  {
    Digit(b, at) + 256 * Digit(b, at + 1) + 65536 * Digit(b, at + 2) + 16777216 * Digit(b, at + 3)
  }

  function U64(b: Bytes, at: int): nat
    requires 0 <= at && at + 8 <= |b|
  {
    U32(b, at) + 0x1_0000_0000 * U32(b, at + 4)
  }

  lemma ReadsAreValues(b: Bytes, at: int)
    requires 0 <= at
    ensures at + 2 <= |b| ==> U16(b, at) == Value(b[at..at + 2]) < 0x1_0000
    ensures at + 4 <= |b| ==> U32(b, at) == Value(b[at..at + 4]) < 0x1_0000_0000
    ensures at + 8 <= |b| ==> U64(b, at) == Value(b[at..at + 8])
  {
    if at + 2 <= |b| {
      Unfold(b[at..at + 2]);
    }
    if at + 4 <= |b| {
      Unfold(b[at..at + 4]);
    }
    if at + 8 <= |b| {
      Unfold(b[at..at + 8]);
    }
  }

  lemma Unfold(s: Bytes)
    ensures |s| == 2 ==> Value(s) == Digit(s, 0) + 256 * Digit(s, 1)
    ensures |s| == 4 ==> Value(s) == Digit(s, 0) + 256 * (Digit(s, 1) + 256 * (Digit(s, 2) + 256 * Digit(s, 3)))
    ensures |s| == 8 ==>
              Value(s) == Digit(s, 0) + 256 * (Digit(s, 1) + 256 * (Digit(s, 2) + 256 * (Digit(s, 3)
                + 256 * (Digit(s, 4) + 256 * (Digit(s, 5) + 256 * (Digit(s, 6) + 256 * Digit(s, 7)))))))
  {
    if |s| == 2 {
      ValueTail(s);
      ValueTail(s[1..]);
    } else if |s| == 4 {
      ValueTail(s);
      ValueTail(s[1..]);
      Unfold(s[1..][1..]);
    } else if |s| == 8 {
      ValueTail(s);
      ValueTail(s[1..]);
      var t := s[1..][1..];
      ValueTail(t);
      ValueTail(t[1..]);
      Unfold(t[1..][1..]);
    }
  }

  lemma ValueTail(s: Bytes)
    requires s != []
    ensures Value(s) == s[0] + 256 * Value(s[1..])
  {
  }

  /** zipUInt64: only safe integers inside the buffer. */
  function SafeU64(b: Bytes, at: int): (r: Option<nat>)
    requires 0 <= at
    ensures r.Some? ==> r.value <= MAX_SAFE_INTEGER && at + 8 <= |b|
  {
    if at + 8 > |b| || U64(b, at) > MAX_SAFE_INTEGER then None else Some(U64(b, at))
  }

  /** What zipUInt64 returns is the field's little-endian value; it refuses exactly cut-off fields and
      values that are not safe integers. */
  lemma SafeReadIsValue(b: Bytes, at: int)
    requires 0 <= at
    ensures SafeU64(b, at) ==
            if at + 8 <= |b| && Value(b[at..at + 8]) <= MAX_SAFE_INTEGER then Some(Value(b[at..at + 8])) else None
  {
    ReadsAreValues(b, at);
  }

  /** Reading back a written number, wherever it stands. */
  lemma WrittenIsRead(b: Bytes, at: int, n: nat, width: nat)
    requires 0 <= at && at + width <= |b| && b[at..at + width] == LE(n, width)
    requires width == 2 || width == 4 || width == 8
    requires n < (if width == 2 then 0x1_0000 else if width == 4 then 0x1_0000_0000 else 0x1_0000_0000_0000_0000)
    ensures width == 2 ==> U16(b, at) == n
    ensures width == 4 ==> U32(b, at) == n
    ensures width == 8 ==> U64(b, at) == n
  {
    ReadsAreValues(b, at);
    assert Pow256(2) == 0x1_0000 && Pow256(4) == 0x1_0000_0000 && Pow256(8) == 0x1_0000_0000_0000_0000 by {
      assert Pow256(4) == 0x1_0000_0000;
      assert Pow256(6) == 0x1_0000_0000_0000;
    }
    ValueOfLE(n, width);
  }

  /** A number read is the number written there. */
  lemma ReadIsWritten(b: Bytes, at: int, width: nat)
    requires 0 <= at && at + width <= |b|
    requires width == 2 || width == 4 || width == 8
    ensures width == 2 ==> b[at..at + 2] == LE(U16(b, at), 2)
    ensures width == 4 ==> b[at..at + 4] == LE(U32(b, at), 4)
    ensures width == 8 ==> b[at..at + 8] == LE(U64(b, at), 8)
  {
    ReadsAreValues(b, at);
    LEOfValue(b[at..at + width]);
  }
}
