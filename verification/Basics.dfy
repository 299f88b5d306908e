/** What several parts of the model share. */
module Basics {
  datatype Option<+T> = None | Some(value: T) {
    predicate IsFailure() { None? }
    function PropagateFailure<U>(): Option<U> requires None? { None }
    function Extract(): T requires Some? { value }
  }

  type Byte = x: int | 0 <= x < 256
  type Bytes = seq<Byte>

  /** What a descriptor's stat says of it. */
  datatype Stat = Stat(isFile: bool, size: nat)

  /** pread(2) of an immutable file: some of what is there, nothing only past the end. */
  method ReadAt(data: Bytes, buffer: array<Byte>, from: nat, length: nat, position: nat) returns (n: nat)
    requires from + length <= buffer.Length && 0 < length
    modifies buffer
    ensures n <= length && (n == 0 <==> position >= |data|)
    ensures n > 0 ==> position + n <= |data| && buffer[from..from + n] == data[position..position + n]
    ensures forall i :: 0 <= i < buffer.Length && !(from <= i < from + length) ==> buffer[i] == old(buffer[i])
  {
    var most := if position >= |data| then 0 else Min(|data| - position, length);
    n :| 0 <= n <= most && (n == 0 <==> most == 0);
    forall i | 0 <= i < n { buffer[from + i] := data[position + i]; }
  }

  /** A window of the data that has been read so far, and the next piece. */
  lemma WindowGrows(buffer: array<Byte>, total: nat, n: nat, data: Bytes, start: nat)
    requires total + n <= buffer.Length && start + total + n <= |data|
    requires buffer[..total] == data[start..start + total]
    requires buffer[total..total + n] == data[start + total..start + total + n]
    ensures buffer[..total + n] == data[start..start + total + n]
  {
    assert buffer[..total + n] == buffer[..total] + buffer[total..total + n];
    assert data[start..start + total + n] == data[start..start + total] + data[start + total..start + total + n];
  }

  /** Number.MAX_SAFE_INTEGER. */
  const MAX_SAFE_INTEGER := 0x1f_ffff_ffff_ffff

  function Min(a: int, b: int): int { if a <= b then a else b }

  function Max(a: int, b: int): int { if a <= b then b else a }

  /** A byte budget, which may be Infinity. */
  datatype Limit = Finite(n: nat) | Unlimited

  predicate Within(n: nat, max: Limit) { max.Finite? ==> n <= max.n }

  /** Math.min(n, budget). */
  function Capped(n: nat, max: Limit): (r: nat)
    ensures r <= n && Within(r, max) && (r == n || (max.Finite? && r == max.n))
  {
    if max.Finite? && max.n < n then max.n else n
  }
}
