/** Table-driven CRC-32 against a shift register fed one message bit at a time. */
module Crc32 {
  type Word = bv32
  type Octet = bv8

  /** The polynomial of section 8 of RFC 1952, least significant bit first. */
  const POLYNOMIAL: Word := 0xedb88320

  function Xor(a: Word, b: Word): Word { a ^ b }

  /** c ^ -1. */
  function Not(c: Word): Word { !c }

  function Half(c: Word): Word { c >> 1 }

  predicate Odd(c: Word) { c & 1 != 0 }

  function Step(c: Word): Word {
    if Odd(c) then Xor(POLYNOMIAL, Half(c)) else Half(c)
  }

  function Steps(c: Word, n: nat): Word
    decreases n
  {
    if n == 0 then c else Steps(Step(c), n - 1)
  }

  // ---------------------------------------------------------------- the reference

  /** One message bit enters the register. */
  function Feed(c: Word, bit: bool): Word { Step(Xor(c, if bit then 1 else 0)) }

  /** The low `n` bits of `b`, lowest first. */
  function FeedBits(c: Word, b: Word, n: nat): Word
    decreases n
  {
    if n == 0 then c else FeedBits(Feed(c, Odd(b)), Half(b), n - 1)
  }

  function Register(c: Word, message: seq<Octet>): Word
    decreases |message|
  {
    if message == [] then c else Register(FeedBits(c, message[0] as Word, 8), message[1..])
  }

  /** The CRC of `message`, continued from `previous`. */
  function Crc(previous: Word, message: seq<Octet>): Word {
    Not(Register(Not(previous), message))
  }

  lemma {:induction false} RegisterContinues(c: Word, a: seq<Octet>, b: seq<Octet>)
    ensures Register(c, a + b) == Register(Register(c, a), b)
    decreases |a|
  {
    hide FeedBits;
    if a == [] {
      assert a + b == b;
    } else {
      assert (a + b)[1..] == a[1..] + b;
      RegisterContinues(FeedBits(c, a[0] as Word, 8), a[1..], b);
    }
  }

  lemma NotNot(c: Word)
    ensures Not(Not(c)) == c
  {
  }

  /** A checksum may be computed in pieces. */
  lemma CrcContinues(previous: Word, a: seq<Octet>, b: seq<Octet>)
    ensures Crc(Crc(previous, a), b) == Crc(previous, a + b)
  {
    hide Not;
    hide FeedBits;
    NotNot(Register(Not(previous), a));
    RegisterContinues(Not(previous), a, b);
  }

  /** The published check value: the checksum of the digits "123456789". */
  lemma CheckValue()
    ensures Crc(0, [0x31, 0x32, 0x33, 0x34, 0x35, 0x36, 0x37, 0x38, 0x39]) == 0xcbf43926
  {
    assert FeedBits(0xffffffff, 0x31, 8) == 0x7c231048;
    assert FeedBits(0x7c231048, 0x32, 8) == 0xb0acbb32;
    assert FeedBits(0xb0acbb32, 0x33, 8) == 0x77b79c2d;
    assert FeedBits(0x77b79c2d, 0x34, 8) == 0x641c1f5c;
    assert FeedBits(0x641c1f5c, 0x35, 8) == 0x340ac5e3;
    assert FeedBits(0x340ac5e3, 0x36, 8) == 0xf68d2c9e;
    assert FeedBits(0xf68d2c9e, 0x37, 8) == 0xaffc9660;
    assert FeedBits(0xaffc9660, 0x38, 8) == 0x651f2550;
    assert FeedBits(0x651f2550, 0x39, 8) == 0x340bc6d9;
    assert Register(0x340bc6d9, []) == 0x340bc6d9;
    assert Not(0) == 0xffffffff && Not(0x340bc6d9) == 0xcbf43926;
  }

  // ---------------------------------------------------------------- bit facts

  lemma XorIs(a: Word, b: Word)
    ensures Xor(a, b) == a ^ b && Xor(a, 0) == a
  {
  }

  lemma HalfXor(a: Word, b: Word)
    ensures Half(Xor(a, b)) == Xor(Half(a), Half(b))
  {
  }

  lemma OddXor(a: Word, b: Word)
    ensures Odd(Xor(a, b)) <==> Odd(a) != Odd(b)
  {
  }

  lemma XorAssociates(a: Word, b: Word, c: Word)
    ensures Xor(Xor(a, b), c) == Xor(a, Xor(b, c))
  {
  }

  lemma XorCommutes(a: Word, b: Word)
    ensures Xor(a, b) == Xor(b, a)
  {
  }

  lemma XorCancels(a: Word, b: Word)
    ensures Xor(a, Xor(a, b)) == b
  {
  }

  lemma XorMoves(p: Word, b: Word, c: Word)
    ensures Xor(Xor(p, b), Xor(p, c)) == Xor(b, c)
    ensures Xor(b, Xor(p, c)) == Xor(p, Xor(b, c)) && Xor(Xor(p, b), c) == Xor(p, Xor(b, c))
  {
    hide Xor;
    XorAssociates(p, b, c);
    XorAssociates(b, p, c);
    XorCommutes(b, p);
    XorAssociates(p, b, Xor(p, c));
    XorCancels(p, Xor(b, c));
  }

  // ---------------------------------------------------------------- linearity

  lemma StepIsLinear(a: Word, b: Word)
    ensures Step(Xor(a, b)) == Xor(Step(a), Step(b))
  {
    hide Xor;
    hide Half;
    hide Odd;
    HalfXor(a, b);
    OddXor(a, b);
    XorMoves(POLYNOMIAL, Half(a), Half(b));
  }

  lemma {:induction false} StepsAreLinear(a: Word, b: Word, n: nat)
    ensures Steps(Xor(a, b), n) == Xor(Steps(a, n), Steps(b, n))
    decreases n
  {
    hide Step;
    hide Xor;
    if n > 0 {
      StepIsLinear(a, b);
      StepsAreLinear(Step(a), Step(b), n - 1);
    }
  }

  // ---------------------------------------------------------------- a byte, bit by bit or at once

  /** Only the low `n` bits may be on. */
  predicate Small(b: Word, n: nat)
    decreases n
  {
    if n == 0 then b == 0 else Small(Half(b), n - 1)
  }

  lemma ClearLowBit(b: Word)
    ensures b == Xor(if Odd(b) then 1 else 0, b & 0xfffffffe) && !Odd(b & 0xfffffffe) && Half(b & 0xfffffffe) == Half(b)
  {
  }

  /** After one step the next bit is in place. */
  lemma FeedSplits(c: Word, b: Word)
    ensures Step(Xor(c, b)) == Xor(Feed(c, Odd(b)), Half(b))
  {
    hide Xor;
    hide Half;
    hide Odd;
    var bit: Word := if Odd(b) then 1 else 0;
    var rest := b & 0xfffffffe;
    ClearLowBit(b);
    XorMoves(c, bit, rest);
    StepIsLinear(Xor(c, bit), rest);
  }

  lemma {:induction false} FeedBitsIsSteps(c: Word, b: Word, n: nat)
    requires Small(b, n)
    ensures FeedBits(c, b, n) == Steps(Xor(c, b), n)
    decreases n
  {
    hide Step;
    hide Feed;
    hide Xor;
    hide Half;
    hide Odd;
    if n == 0 {
      XorIs(c, b);
    } else {
      FeedSplits(c, b);
      FeedBitsIsSteps(Feed(c, Odd(b)), Half(b), n - 1);
    }
  }

  lemma ByteIsSmall(b: Word)
    requires b & 0xff == b
    ensures Small(b, 8)
  {
  }

  /** High bits only move down: no step over them meets an odd word. */
  lemma HighBitsSteps(c: Word)
    ensures Steps(c & 0xffffff00, 8) == c >> 8
  {
  }

  lemma SplitByte(c: Word)
    ensures c == Xor(c & 0xffffff00, c & 0xff)
  {
  }

  /** What the table is for: eight steps are one shift and one lookup. */
  lemma EightSteps(c: Word)
    ensures Steps(c, 8) == Xor(c >> 8, Steps(c & 0xff, 8))
  {
    hide Step;
    hide Xor;
    SplitByte(c);
    StepsAreLinear(c & 0xffffff00, c & 0xff, 8);
    HighBitsSteps(c);
  }

  lemma ByteFits(c: Word, byte: Octet)
    ensures (byte as Word) & 0xff == byte as Word
    ensures Xor(c, byte as Word) >> 8 == c >> 8
  {
  }

  /** Feeding a byte's bits is one lookup. */
  lemma OneByte(c: Word, byte: Octet)
    ensures FeedBits(c, byte as Word, 8) == Xor(c >> 8, Steps(Xor(c, byte as Word) & 0xff, 8))
  {
    hide Step;
    hide Xor;
    hide Feed;
    ByteFits(c, byte);
    ByteIsSmall(byte as Word);
    FeedBitsIsSteps(c, byte as Word, 8);
    EightSteps(Xor(c, byte as Word));
  }

  // ---------------------------------------------------------------- the table and the update

  lemma Index(x: Word)
    ensures (x & 0xff) as nat < 256 && (x as nat) as Word == x
  {
  }

  /** The 256 entries, each eight steps of its index. */
  method MakeTable() returns (table: array<Word>)
    ensures fresh(table) && table.Length == 256
    ensures forall i: nat :: i < 256 ==> table[i] == Steps(i as Word, 8)
  {
    hide Step;
    table := new Word[256];
    for index := 0 to 256
      invariant forall i: nat :: i < index ==> table[i] == Steps(i as Word, 8)
    {
      var value, bit := index as Word, 0;
      while bit < 8
        invariant bit <= 8 && Steps(value, 8 - bit) == Steps(index as Word, 8)
      {
        value := Step(value);
        bit := bit + 1;
      }
      table[index] := value;
    }
  }

  method UpdateCrc32(table: array<Word>, previous: Word, buffer: seq<Octet>) returns (r: Word)
    requires table.Length == 256 && forall i: nat :: i < 256 ==> table[i] == Steps(i as Word, 8)
    ensures r == Crc(previous, buffer)
  {
    hide Step;
    hide FeedBits;
    hide Xor;
    hide Steps;
    hide Not;
    var crc := Not(previous);
    for i := 0 to |buffer|
      invariant crc == Register(Not(previous), buffer[..i])
    {
      var x := Xor(crc, buffer[i] as Word);
      Index(x);
      Index(x & 0xff);
      OneByte(crc, buffer[i]);
      ghost var before := crc;
      crc := Xor(crc >> 8, table[(x & 0xff) as nat]);
      assert buffer[..i + 1] == buffer[..i] + [buffer[i]];
      RegisterContinues(Not(previous), buffer[..i], [buffer[i]]);
      assert crc == FeedBits(before, buffer[i] as Word, 8);
      assert [buffer[i]][1..] == [];
    }
    assert buffer[..|buffer|] == buffer;
    return Not(crc);
  }
}
