/**
 * The cyclic redundancy check of PNG files: the table-driven computation, what it computes as
 * a division of polynomials, and which errors it always detects.
 *
 * A 32-bit word is the sequence of its bits, lowest first, so that shifting right drops the
 * head and bitwise operations work place by place.
 */
module Crc {
  import opened Binary

  type Word = w: seq<bool> | |w| == 32 witness Zeros(32)

  // ----- bit sequences -----

  function Zeros(n: nat): (r: seq<bool>)
    ensures |r| == n && forall i | 0 <= i < n :: !r[i]
  {
    seq(n, _ => false)
  }

  function Ones(n: nat): (r: seq<bool>)
    ensures |r| == n && forall i | 0 <= i < n :: r[i]
  {
    seq(n, _ => true)
  }

  function Xor(a: seq<bool>, b: seq<bool>): (r: seq<bool>)
    requires |a| == |b|
    ensures |r| == |a| && forall i | 0 <= i < |a| :: r[i] == (a[i] != b[i])
  {
    seq(|a|, i requires 0 <= i < |a| && |a| == |b| => a[i] != b[i])
  }

  /** The low `n` bits of a number, lowest first. */
  function NatBits(x: nat, n: nat): (r: seq<bool>)
    ensures |r| == n
  {
    if n == 0 then [] else [x % 2 == 1] + NatBits(x / 2, n - 1)
  }

  function BitsNat(s: seq<bool>): nat {
    if s == [] then 0 else (if s[0] then 1 else 0) + 2 * BitsNat(s[1..])
  }

  lemma {:induction false} NatBitsInverse(s: seq<bool>)
    ensures NatBits(BitsNat(s), |s|) == s
  {
    if s != [] {
      NatBitsInverse(s[1..]);
    }
  }

  lemma {:induction false} BitsNatBound(s: seq<bool>)
    ensures BitsNat(s) < Pow2(|s|)
  {
    if s != [] {
      BitsNatBound(s[1..]);
    }
  }

  lemma {:induction false} BitsNatInverse(x: nat, n: nat)
    requires x < Pow2(n)
    ensures BitsNat(NatBits(x, n)) == x
    decreases n
  {
    if n > 0 {
      BitsNatInverse(x / 2, n - 1);
      assert NatBits(x, n)[1..] == NatBits(x / 2, n - 1);
    }
  }

  /** Place `k` of the bits is the bit of weight 2^k of the number. */
  lemma {:induction false} NatBitsAt(x: nat, n: nat, k: nat)
    requires k < n
    ensures NatBits(x, n)[k] == Bit(x, k)
    decreases k
  {
    if k == 0 {
      LowestBit(x);
    } else {
      BitOfHalf(x, k);
      NatBitsAt(x / 2, n - 1, k - 1);
    }
  }

  lemma {:induction false} BitsNatAt(s: seq<bool>, k: nat)
    requires k < |s|
    ensures Bit(BitsNat(s), k) == s[k]
    decreases k
  {
    var x := BitsNat(s);
    if k == 0 {
      LowestBit(x);
    } else {
      BitOfHalf(x, k);
      assert x / 2 == BitsNat(s[1..]);
      BitsNatAt(s[1..], k - 1);
    }
  }

  // ----- the register -----

  /** 0xEDB88320: bit i is the coefficient of x^(31-i) of the generator polynomial. */
  const POLYNOMIAL: Word :=
    Nibble(0) + (Nibble(2) + (Nibble(3) + (Nibble(8) + (Nibble(8) + (Nibble(11) + (Nibble(13) + (Nibble(14) + [])))))))

  function Nibble(x: nat): (r: seq<bool>)
    ensures |r| == 4
  {
    [x % 2 == 1, x / 2 % 2 == 1, x / 4 % 2 == 1, x / 8 % 2 == 1]
  }

  function ShiftRight(c: Word): Word {
    c[1..] + [false]
  }

  /** One turn of the inner loop of makeCrcTable. */
  function Step(c: Word): Word {
    if c[0] then Xor(POLYNOMIAL, ShiftRight(c)) else ShiftRight(c)
  }

  function Steps(c: Word, n: nat): Word
    decreases n
  {
    if n == 0 then c else Steps(Step(c), n - 1)
  }

  lemma StepLinear(a: Word, b: Word)
    ensures Step(Xor(a, b)) == Xor(Step(a), Step(b))
  {
  }

  lemma {:induction false} StepsLinear(a: Word, b: Word, n: nat)
    ensures Steps(Xor(a, b), n) == Xor(Steps(a, n), Steps(b, n))
    decreases n
  {
    if n > 0 {
      StepLinear(a, b);
      StepsLinear(Step(a), Step(b), n - 1);
    }
  }

  /** The generator's constant coefficient is 1, so a step can be undone. */
  lemma StepInjective(a: Word, b: Word)
    requires Step(a) == Step(b)
    ensures a == b
  {
    assert POLYNOMIAL[31];
    assert Step(a)[31] == a[0] && Step(b)[31] == b[0];
    forall i | 0 < i < 32 ensures a[i] == b[i] {
      assert Step(a)[i - 1] == (if a[0] then POLYNOMIAL[i - 1] != a[i] else a[i]);
      assert Step(b)[i - 1] == (if b[0] then POLYNOMIAL[i - 1] != b[i] else b[i]);
    }
  }

  lemma {:induction false} StepsInjective(a: Word, b: Word, n: nat)
    requires Steps(a, n) == Steps(b, n)
    ensures a == b
    decreases n
  {
    if n > 0 {
      StepsInjective(Step(a), Step(b), n - 1);
      StepInjective(a, b);
    }
  }

  lemma {:induction false} StepsOfZero(n: nat)
    ensures Steps(Zeros(32), n) == Zeros(32)
  {
    if n > 0 {
      assert Step(Zeros(32)) == Zeros(32);
      StepsOfZero(n - 1);
    }
  }

  lemma {:induction false} StepsSum(a: Word, m: nat, n: nat)
    ensures Steps(a, m + n) == Steps(Steps(a, m), n)
    decreases m
  {
    if m > 0 { StepsSum(Step(a), m - 1, n); }
  }

  // ----- feeding bits -----

  function XorLow(c: Word, bit: bool): Word {
    [c[0] != bit] + c[1..]
  }

  /** The bit-at-a-time computation: each message bit is combined with the low bit, then one step. */
  function Feed(c: Word, bits: seq<bool>): Word
    decreases |bits|
  {
    if bits == [] then c else Feed(Step(XorLow(c, bits[0])), bits[1..])
  }

  lemma {:induction false} FeedAppend(c: Word, a: seq<bool>, b: seq<bool>)
    ensures Feed(c, a + b) == Feed(Feed(c, a), b)
    decreases |a|
  {
    if a == [] {
      assert a + b == b;
    } else {
      assert (a + b)[1..] == a[1..] + b;
      FeedAppend(Step(XorLow(c, a[0])), a[1..], b);
    }
  }

  lemma {:induction false} FeedLinear(c: Word, d: Word, a: seq<bool>, b: seq<bool>)
    requires |a| == |b|
    ensures Feed(Xor(c, d), Xor(a, b)) == Xor(Feed(c, a), Feed(d, b))
    decreases |a|
  {
    if a != [] {
      assert XorLow(Xor(c, d), Xor(a, b)[0]) == Xor(XorLow(c, a[0]), XorLow(d, b[0]));
      StepLinear(XorLow(c, a[0]), XorLow(d, b[0]));
      assert Xor(a, b)[1..] == Xor(a[1..], b[1..]);
      FeedLinear(Step(XorLow(c, a[0])), Step(XorLow(d, b[0])), a[1..], b[1..]);
    }
  }

  lemma {:induction false} FeedZeros(c: Word, n: nat)
    ensures Feed(c, Zeros(n)) == Steps(c, n)
    decreases n
  {
    if n > 0 {
      assert XorLow(c, false) == c;
      assert Zeros(n)[1..] == Zeros(n - 1);
      FeedZeros(Step(c), n - 1);
    }
  }

  function Padded(bits: seq<bool>): Word
    requires |bits| <= 32
  {
    bits + Zeros(32 - |bits|)
  }

  /** Up to 32 bits can be combined with the register all at once. */
  lemma {:induction false} FeedAtOnce(c: Word, bits: seq<bool>)
    requires |bits| <= 32
    ensures Feed(c, bits) == Steps(Xor(c, Padded(bits)), |bits|)
    decreases |bits|
  {
    if bits == [] {
      assert Xor(c, Padded(bits)) == c;
    } else {
      var low, high := XorLow(c, bits[0]), [false] + Padded(bits)[1..];
      SplitLowBit(c, bits);
      StepLinear(low, high);
      assert Step(high) == ShiftRight(high) == Padded(bits[1..]);
      FeedAtOnce(Step(low), bits[1..]);
    }
  }

  lemma SplitLowBit(c: Word, bits: seq<bool>)
    requires 0 < |bits| <= 32
    ensures Xor(c, Padded(bits)) == Xor(XorLow(c, bits[0]), [false] + Padded(bits)[1..])
  {
    var low, high := XorLow(c, bits[0]), [false] + Padded(bits)[1..];
    assert forall i | 0 < i < 32 :: high[i] == Padded(bits)[i] && low[i] == c[i];
  }

  // ----- the check of a buffer, bit by bit -----

  function ByteBits(b: Byte): (r: seq<bool>)
    ensures |r| == 8
  {
    NatBits(b, 8)
  }

  /** The bits of a buffer, each byte from its least to its most significant bit. */
  function MessageBits(buffer: seq<Byte>): (r: seq<bool>)
    ensures |r| == 8 * |buffer|
  {
    if buffer == [] then [] else MessageBits(buffer[..|buffer| - 1]) + ByteBits(buffer[|buffer| - 1])
  }

  lemma {:induction false} MessageBitAt(buffer: seq<Byte>, i: nat, j: nat)
    requires i < |buffer| && j < 8
    ensures MessageBits(buffer)[8 * i + j] == ByteBits(buffer[i])[j]
    decreases |buffer|
  {
    var last := |buffer| - 1;
    if i < last { MessageBitAt(buffer[..last], i, j); }
  }

  /** The message is sent byte by byte, each from its bit of weight 1 to its bit of weight 128. */
  lemma MessageIsBytesLowestBitFirst(buffer: seq<Byte>, i: nat, j: nat)
    requires i < |buffer| && j < 8
    ensures MessageBits(buffer)[8 * i + j] == Bit(buffer[i], j)
  {
    MessageBitAt(buffer, i, j);
    NatBitsAt(buffer[i], 8, j);
  }

  /** The index looked up for a byte: the exclusive or of the byte with the register's low byte, bit by bit. */
  function TableIndex(crc: Word, b: Byte): (n: nat)
    ensures n < 256
    ensures forall k | 0 <= k < 8 :: Bit(n, k) == (Bit(BitsNat(crc), k) != Bit(b, k))
  {
    var low := Xor(crc[..8], ByteBits(b));
    BitsNatBound(low);
    PowEight();
    assert forall k | 0 <= k < 8 :: Bit(BitsNat(low), k) == (Bit(BitsNat(crc), k) != Bit(b, k)) by {
      forall k | 0 <= k < 8 ensures Bit(BitsNat(low), k) == (Bit(BitsNat(crc), k) != Bit(b, k)) {
        BitsNatAt(low, k);
        BitsNatAt(crc, k);
        NatBitsAt(b, 8, k);
      }
    }
    BitsNat(low)
  }

  /** All-ones preset, one step per message bit, final complement. */
  function BitSerialCrc(buffer: seq<Byte>): Word {
    Xor(Feed(Ones(32), MessageBits(buffer)), Ones(32))
  }

  // ----- the table-driven computation -----

  /** The table entry for a byte, and the register after a byte, combine to eight bit steps. */
  lemma ByteStep(c: Word, b: Byte)
    ensures Feed(c, ByteBits(b))
            == Xor(Steps(Padded(Xor(c[..8], ByteBits(b))), 8), c[8..] + Zeros(8))
  {
    FeedAtOnce(c, ByteBits(b));
    var low := Padded(Xor(c[..8], ByteBits(b)));
    var high := Zeros(8) + c[8..];
    SplitLowByte(c, ByteBits(b));
    StepsLinear(low, high, 8);
    ShiftSteps(c[8..], 8);
    assert high + Zeros(0) == high;
  }

  lemma SplitLowByte(c: Word, b: seq<bool>)
    requires |b| == 8
    ensures Xor(c, Padded(b)) == Xor(Padded(Xor(c[..8], b)), Zeros(8) + c[8..])
  {
  }

  lemma {:induction false} ShiftSteps(top: seq<bool>, n: nat)
    requires n + |top| <= 32
    ensures Steps(Zeros(n) + top + Zeros(32 - n - |top|), n) == top + Zeros(32 - |top|)
    decreases n
  {
    var w := Zeros(n) + top + Zeros(32 - n - |top|);
    if n == 0 {
      assert w == top + Zeros(32 - |top|);
    } else {
      assert Step(w) == ShiftRight(w) == Zeros(n - 1) + top + Zeros(32 - (n - 1) - |top|);
      ShiftSteps(top, n - 1);
    }
  }

  method EightSteps(start: Word) returns (c: Word)
    ensures c == Steps(start, 8)
  {
    c := start;
    for k := 0 to 8
      invariant c == Steps(start, k)
    {
      StepsSum(start, k, 1);
      c := if c[0] then Xor(POLYNOMIAL, ShiftRight(c)) else ShiftRight(c);
    }
  }

  /** The function-local statics of computeCrc. */
  class CrcTable {
    const table: array<Word>
    var computed: bool

    ghost predicate Valid()
      reads this, table
    {
      table.Length == 256 && (computed ==> forall i | 0 <= i < 256 :: table[i] == Steps(Padded(NatBits(i, 8)), 8))
    }

    constructor ()
      ensures Valid() && fresh(table) && !computed
    {
      table := new Word[256](_ => Zeros(32));
      computed := false;
    }

    method MakeCrcTable()
      requires table.Length == 256
      modifies table
      ensures forall i | 0 <= i < 256 :: table[i] == Steps(Padded(NatBits(i, 8)), 8)
    {
      for i := 0 to 256
        invariant forall j | 0 <= j < i :: table[j] == Steps(Padded(NatBits(j, 8)), 8)
      {
        var c := EightSteps(Padded(NatBits(i, 8)));
        table[i] := c;
      }
    }

    /** The loop body of computeCrc: one table lookup per byte. */
    method NextCrc(crc: Word, b: Byte) returns (next: Word)
      requires Valid() && computed
      ensures next == Feed(crc, ByteBits(b))
    {
      var low := Xor(crc[..8], ByteBits(b));
      NatBitsInverse(low);
      ByteStep(crc, b);
      next := Xor(table[TableIndex(crc, b)], crc[8..] + Zeros(8));
    }

    /** The check of a buffer, whether or not the table has been filled by an earlier call. */
    method ComputeCrc(buffer: seq<Byte>) returns (crc: Word)
      requires Valid()
      modifies this, table
      ensures Valid() && computed
      ensures crc == BitSerialCrc(buffer)
    {
      if !computed {
        MakeCrcTable();
        computed := true;
      }
      crc := Ones(32);
      for i := 0 to |buffer|
        invariant Valid() && computed
        invariant crc == Feed(Ones(32), MessageBits(buffer[..i]))
      {
        FeedNextByte(buffer, i);
        crc := NextCrc(crc, buffer[i]);
      }
      assert buffer[..|buffer|] == buffer;
      crc := Xor(crc, Ones(32));
    }
  }

  lemma FeedNextByte(buffer: seq<Byte>, i: nat)
    requires i < |buffer|
    ensures Feed(Ones(32), MessageBits(buffer[..i + 1]))
            == Feed(Feed(Ones(32), MessageBits(buffer[..i])), ByteBits(buffer[i]))
  {
    assert buffer[..i + 1][..i] == buffer[..i];
    FeedAppend(Ones(32), MessageBits(buffer[..i]), ByteBits(buffer[i]));
  }

  lemma PowEight()
    ensures Pow2(8) == 256
  {
    assert Pow2(4) == 16;
    assert Pow2(8) == 2 * Pow2(7) == 4 * Pow2(6) == 8 * Pow2(5) == 16 * Pow2(4);
  }

  /** The constant of the program: the 32-bit pattern of -306674912. */
  lemma PolynomialValue()
    ensures BitsNat(POLYNOMIAL) == 0x1_0000_0000 - 306674912
  {
    FourNibbles(8, 11, 13, 14, []);
    FourNibbles(0, 2, 3, 8, Nibble(8) + (Nibble(11) + (Nibble(13) + (Nibble(14) + []))));
  }

  lemma FourNibbles(a: nat, b: nat, c: nat, d: nat, rest: seq<bool>)
    requires a < 16 && b < 16 && c < 16 && d < 16
    ensures BitsNat(Nibble(a) + (Nibble(b) + (Nibble(c) + (Nibble(d) + rest))))
            == a + 16 * b + 256 * c + 4096 * d + 65536 * BitsNat(rest)
  {
    NibbleValue(a, Nibble(b) + (Nibble(c) + (Nibble(d) + rest)));
    NibbleValue(b, Nibble(c) + (Nibble(d) + rest));
    NibbleValue(c, Nibble(d) + rest);
    NibbleValue(d, rest);
  }

  lemma NibbleValue(x: nat, rest: seq<bool>)
    requires x < 16
    ensures BitsNat(Nibble(x) + rest) == x + 16 * BitsNat(rest)
  {
    FourBits(x % 2 == 1, x / 2 % 2 == 1, x / 4 % 2 == 1, x / 8 % 2 == 1, rest);
    NibbleDigits(x);
  }

  function BitValue(b: bool): nat {
    if b then 1 else 0
  }

  lemma NibbleDigits(x: nat)
    requires x < 16
    ensures x == BitValue(x % 2 == 1) + 2 * BitValue(x / 2 % 2 == 1) + 4 * BitValue(x / 4 % 2 == 1)
                 + 8 * BitValue(x / 8 % 2 == 1)
  {
  }

  lemma FourBits(a: bool, b: bool, c: bool, d: bool, rest: seq<bool>)
    ensures BitsNat([a, b, c, d] + rest)
            == BitValue(a) + 2 * BitValue(b) + 4 * BitValue(c) + 8 * BitValue(d) + 16 * BitsNat(rest)
  {
    var one := [d] + rest;
    var two := [c] + one;
    var three := [b] + two;
    assert [a, b, c, d] + rest == [a] + three;
    BitFirst(d, rest);
    BitFirst(c, one);
    BitFirst(b, two);
    BitFirst(a, three);
  }

  lemma BitFirst(b: bool, rest: seq<bool>)
    ensures BitsNat([b] + rest) == BitValue(b) + 2 * BitsNat(rest)
  {
    assert ([b] + rest)[1..] == rest;
  }

  // ----- the check as a division of polynomials -----

  /** The exponents of the generator polynomial of section 3.4 of RFC 2083. */
  const EXPONENTS: set<nat> := {32, 26, 23, 22, 16, 12, 11, 10, 8, 7, 5, 4, 2, 1, 0}

  /** The generator's coefficients, highest power first. */
  function Generator(): (g: seq<bool>)
    ensures |g| == 33
  {
    seq(33, i requires 0 <= i < 33 => (32 - i) as nat in EXPONENTS)
  }

  /** Schoolbook long division: the remainder of a polynomial, highest power first, by the generator. */
  function Remainder(p: seq<bool>): (r: seq<bool>)
    requires |p| >= 32
    ensures |r| == 32
    decreases |p|
  {
    if |p| == 32 then p
    else if p[0] then Remainder(Xor(p[..33], Generator())[1..] + p[33..])
    else Remainder(p[1..])
  }

  /** The message followed by 32 zeros, with its first 32 bits complemented. */
  function Dividend(buffer: seq<Byte>): (p: seq<bool>)
    ensures |p| == 8 * |buffer| + 32
  {
    Xor(MessageBits(buffer) + Zeros(32), Ones(32) + Zeros(8 * |buffer|))
  }

  /** Long division one message bit at a time, with the window of 32 coefficients as the register. */
  function Shift(c: Word, bits: seq<bool>): Word
    decreases |bits|
  {
    if bits == [] then c else Shift(Xor(Step(c), Zeros(31) + [bits[0]]), bits[1..])
  }

  lemma PolynomialIsGenerator()
    ensures POLYNOMIAL == Generator()[1..] && Generator()[0]
  {
  }

  lemma {:induction false} RemainderByShift(c: Word, bits: seq<bool>)
    ensures Remainder(c + bits) == Shift(c, bits)
    decreases |bits|
  {
    if bits == [] {
      assert c + bits == c;
    } else {
      PolynomialIsGenerator();
      var p := c + bits;
      var next: Word := Xor(Step(c), Zeros(31) + [bits[0]]);
      assert p[1..] == c[1..] + [bits[0]] + bits[1..];
      if p[0] {
        assert Xor(p[..33], Generator())[1..] == next;
        assert p[33..] == bits[1..];
      } else {
        assert p[1..] == next + bits[1..];
      }
      RemainderByShift(next, bits[1..]);
    }
  }

  lemma {:induction false} ShiftAppend(c: Word, a: seq<bool>, b: seq<bool>)
    ensures Shift(c, a + b) == Shift(Shift(c, a), b)
    decreases |a|
  {
    if a == [] {
      assert a + b == b;
    } else {
      assert (a + b)[1..] == a[1..] + b;
      ShiftAppend(Xor(Step(c), Zeros(31) + [a[0]]), a[1..], b);
    }
  }

  lemma {:induction false} ShiftLinear(c: Word, d: Word, a: seq<bool>, b: seq<bool>)
    requires |a| == |b|
    ensures Shift(Xor(c, d), Xor(a, b)) == Xor(Shift(c, a), Shift(d, b))
    decreases |a|
  {
    if a != [] {
      StepLinear(c, d);
      var c', d': Word := Xor(Step(c), Zeros(31) + [a[0]]), Xor(Step(d), Zeros(31) + [b[0]]);
      assert Xor(Step(Xor(c, d)), Zeros(31) + [Xor(a, b)[0]]) == Xor(c', d');
      assert Xor(a, b)[1..] == Xor(a[1..], b[1..]);
      ShiftLinear(c', d', a[1..], b[1..]);
    }
  }

  lemma {:induction false} ShiftZeros(c: Word, n: nat)
    ensures Shift(c, Zeros(n)) == Steps(c, n)
    decreases n
  {
    if n > 0 {
      assert Xor(Step(c), Zeros(31) + [false]) == Step(c);
      assert Zeros(n)[1..] == Zeros(n - 1);
      ShiftZeros(Step(c), n - 1);
    }
  }

  /** Bits shifted into a register whose low end is still empty are just stored. */
  lemma {:induction false} ShiftStores(c: Word, bits: seq<bool>)
    requires |bits| <= 32 && forall i | 0 <= i < |bits| :: !c[i]
    ensures Shift(c, bits) == c[|bits|..] + bits
    decreases |bits|
  {
    if bits == [] {
      assert c[0..] + bits == c;
    } else {
      var next: Word := c[1..] + [bits[0]];
      assert Xor(Step(c), Zeros(31) + [bits[0]]) == next;
      ShiftStores(next, bits[1..]);
      assert next[|bits| - 1..] + bits[1..] == c[|bits|..] + bits;
    }
  }

  /** A bit fed in at the low end meets a bit shifted in at the high end 32 steps later. */
  lemma {:induction false} FeedIsShift(c: Word, bits: seq<bool>)
    ensures Feed(Steps(c, 32), bits) == Steps(Shift(c, bits), 32)
    decreases |bits|
  {
    if bits != [] {
      FeedOneIsShiftOne(c, bits[0]);
      FeedIsShift(Xor(Step(c), Zeros(31) + [bits[0]]), bits[1..]);
    }
  }

  lemma FeedOneIsShiftOne(c: Word, bit: bool)
    ensures Step(XorLow(Steps(c, 32), bit)) == Steps(Xor(Step(c), Zeros(31) + [bit]), 32)
  {
    var d := Steps(c, 32);
    XorLowIsXor(d, bit);
    StepLinear(d, [bit] + Zeros(31));
    StepsLinear(Step(c), Zeros(31) + [bit], 32);
    TopBitReturns(bit);
    assert Step(d) == Steps(Step(c), 32) by {
      StepsSum(c, 1, 32);
      StepsSum(c, 32, 1);
      assert Steps(d, 1) == Step(d) && Steps(c, 1) == Step(c);
    }
  }

  lemma XorLowIsXor(d: Word, bit: bool)
    ensures XorLow(d, bit) == Xor(d, [bit] + Zeros(31))
  {
  }

  lemma TopBitReturns(bit: bool)
    ensures Steps(Zeros(31) + [bit], 32) == Step([bit] + Zeros(31))
  {
    var top: Word := Zeros(31) + [bit];
    StepsSum(top, 31, 1);
    ShiftSteps([bit], 31);
    assert top == Zeros(31) + [bit] + Zeros(0);
  }

  /**
   * The check is the complement of the remainder of the message polynomial: message bits in
   * order, times x^32, first 32 coefficients complemented, divided by the generator.
   */
  lemma CrcIsPolynomialRemainder(buffer: seq<Byte>)
    ensures BitSerialCrc(buffer) == Xor(Remainder(Dividend(buffer)), Ones(32))
  {
    var m := MessageBits(buffer);
    RemainderDropsZeros(Dividend(buffer), 32);
    RemainderByShift(Zeros(32), Dividend(buffer));
    ShiftOfDividend(m);
    PresetIsComplement(m);
  }

  /** The preset contributes the same as complementing the first 32 coefficients. */
  lemma PresetIsComplement(m: seq<bool>)
    ensures Feed(Ones(32), m) == Xor(Feed(Zeros(32), m), Steps(Ones(32), |m|))
  {
    assert Xor(Zeros(32), Ones(32)) == Ones(32) && Xor(m, Zeros(|m|)) == m;
    FeedLinear(Zeros(32), Ones(32), m, Zeros(|m|));
    FeedZeros(Ones(32), |m|);
  }

  lemma ShiftOfMessage(m: seq<bool>)
    ensures Shift(Zeros(32), m + Zeros(32)) == Feed(Zeros(32), m)
  {
    ShiftAppend(Zeros(32), m, Zeros(32));
    ShiftZeros(Shift(Zeros(32), m), 32);
    StepsOfZero(32);
    FeedIsShift(Zeros(32), m);
  }

  lemma ShiftOfOnes(n: nat)
    ensures Shift(Zeros(32), Ones(32) + Zeros(n)) == Steps(Ones(32), n)
  {
    ShiftAppend(Zeros(32), Ones(32), Zeros(n));
    ShiftStores(Zeros(32), Ones(32));
    assert Zeros(32)[32..] + Ones(32) == Ones(32);
    ShiftZeros(Ones(32), n);
  }

  lemma ShiftOfDividend(m: seq<bool>)
    ensures Shift(Zeros(32), Xor(m + Zeros(32), Ones(32) + Zeros(|m|)))
            == Xor(Feed(Zeros(32), m), Steps(Ones(32), |m|))
  {
    assert Xor(Zeros(32), Zeros(32)) == Zeros(32);
    ShiftLinear(Zeros(32), Zeros(32), m + Zeros(32), Ones(32) + Zeros(|m|));
    ShiftOfMessage(m);
    ShiftOfOnes(|m|);
  }

  lemma {:induction false} RemainderDropsZeros(p: seq<bool>, n: nat)
    requires |p| >= 32
    ensures Remainder(Zeros(n) + p) == Remainder(p)
    decreases n
  {
    if n == 0 {
      assert Zeros(0) + p == p;
    } else {
      assert (Zeros(n) + p)[1..] == Zeros(n - 1) + p;
      RemainderDropsZeros(p, n - 1);
    }
  }

  // ----- error detection -----

  /** Two bit sequences that agree outside the `n` places after the first `s`. */
  ghost predicate DifferWithin(a: seq<bool>, b: seq<bool>, s: nat, n: nat) {
    && |a| == |b|
    && forall i | 0 <= i < |a| && !(s <= i < s + n) :: a[i] == b[i]
  }

  lemma FeedLeadingZeros(s: nat, rest: seq<bool>)
    ensures Feed(Zeros(32), Zeros(s) + rest) == Feed(Zeros(32), rest)
  {
    FeedAppend(Zeros(32), Zeros(s), rest);
    FeedZeros(Zeros(32), s);
    StepsOfZero(s);
  }

  lemma ZerosAfter(w: Word, fed: Word, n: nat, t: nat)
    requires fed == Steps(w, n)
    ensures Feed(fed, Zeros(t)) == Steps(w, n + t)
  {
    FeedZeros(fed, t);
    StepsSum(w, n, t);
  }

  lemma FeedFromZero(burst: seq<bool>)
    requires |burst| <= 32
    ensures Feed(Zeros(32), burst) == Steps(Padded(burst), |burst|)
  {
    FeedAtOnce(Zeros(32), burst);
    assert Xor(Zeros(32), Padded(burst)) == Padded(burst);
  }

  lemma NonZeroStays(w: Word, k: nat, n: nat)
    requires k < 32 && w[k]
    ensures Steps(w, n) != Zeros(32)
  {
    StepsOfZero(n);
    if Steps(w, n) == Steps(Zeros(32), n) {
      StepsInjective(w, Zeros(32), n);
    }
  }

  lemma BurstShape(e: seq<bool>, s: nat, n: nat)
    requires s + n <= |e| && forall k | 0 <= k < |e| && !(s <= k < s + n) :: !e[k]
    ensures e == Zeros(s) + (e[s..s + n] + Zeros(|e| - s - n))
  {
  }

  /** A register that is not zero is not zero after more zeros have been fed. */
  lemma NotZeroAfter(w: Word, n: nat, t: nat, k: nat, fed: Word, end: Word)
    requires fed == Steps(w, n) && end == Feed(fed, Zeros(t)) && k < 32 && w[k]
    ensures end != Zeros(32)
  {
    ZerosAfter(w, fed, n, t);
    NonZeroStays(w, k, n + t);
  }

  lemma FeedInTwo(c: Word, a: seq<bool>, b: seq<bool>) returns (mid: Word, end: Word)
    ensures mid == Feed(c, a) && end == Feed(c, a + b) && end == Feed(mid, b)
  {
    FeedAppend(c, a, b);
    mid, end := Feed(c, a), Feed(c, a + b);
  }

  lemma BurstReachesRegister(burst: seq<bool>, t: nat, k: nat)
    requires |burst| <= 32 && k < |burst| && burst[k]
    ensures Feed(Zeros(32), burst + Zeros(t)) != Zeros(32)
  {
    FeedFromZero(burst);
    var mid, end := FeedInTwo(Zeros(32), burst, Zeros(t));
    NotZeroAfter(Padded(burst), |burst|, t, k, mid, end);
  }

  lemma DifferentChecks(p: Word, q: Word)
    requires Xor(p, q) != Zeros(32)
    ensures Xor(p, Ones(32)) != Xor(q, Ones(32))
  {
    var k :| 0 <= k < 32 && Xor(p, q)[k];
    assert Xor(p, Ones(32))[k] != Xor(q, Ones(32))[k];
  }

  lemma ErrorShows(x: seq<bool>, y: seq<bool>, s: nat, n: nat, i: nat)
    requires n <= 32 && s + n <= |x| && DifferWithin(x, y, s, n) && s <= i < s + n && x[i] != y[i]
    ensures Feed(Zeros(32), Xor(x, y)) != Zeros(32)
  {
    var e := Xor(x, y);
    BurstShape(e, s, n);
    FeedLeadingZeros(s, e[s..s + n] + Zeros(|e| - s - n));
    BurstReachesRegister(e[s..s + n], |e| - s - n, i - s);
  }

  lemma FeedDifference(x: seq<bool>, y: seq<bool>)
    requires |x| == |y|
    ensures Feed(Zeros(32), Xor(x, y)) == Xor(Feed(Ones(32), x), Feed(Ones(32), y))
  {
    FeedLinear(Ones(32), Ones(32), x, y);
    assert Xor(Ones(32), Ones(32)) == Zeros(32);
  }

  /** Messages of one length whose bits differ only inside 32 consecutive places have different checks. */
  lemma BurstDetected(a: seq<Byte>, b: seq<Byte>, s: nat)
    requires |a| == |b| && MessageBits(a) != MessageBits(b)
    requires DifferWithin(MessageBits(a), MessageBits(b), s, 32)
    ensures BitSerialCrc(a) != BitSerialCrc(b)
  {
    var x, y := MessageBits(a), MessageBits(b);
    var i :| 0 <= i < |x| && x[i] != y[i];
    ErrorShows(x, y, s, if s + 32 <= |x| then 32 else |x| - s, i);
    FeedDifference(x, y);
    DifferentChecks(Feed(Ones(32), x), Feed(Ones(32), y));
  }

  /** Buffers of one length that differ only in at most four consecutive bytes have different checks. */
  lemma FourByteBurstDetected(a: seq<Byte>, b: seq<Byte>, s: nat)
    requires |a| == |b| && a != b
    requires forall i | 0 <= i < |a| && !(s <= i < s + 4) :: a[i] == b[i]
    ensures BitSerialCrc(a) != BitSerialCrc(b)
  {
    var x, y := MessageBits(a), MessageBits(b);
    forall k | 0 <= k < |x| && !(8 * s <= k < 8 * s + 32) ensures x[k] == y[k] {
      MessageBitAt(a, k / 8, k % 8);
      MessageBitAt(b, k / 8, k % 8);
    }
    var i :| 0 <= i < |a| && a[i] != b[i];
    assert x != y by {
      if x == y {
        forall j | 0 <= j < 8 ensures ByteBits(a[i])[j] == ByteBits(b[i])[j] {
          MessageBitAt(a, i, j);
          MessageBitAt(b, i, j);
        }
        assert ByteBits(a[i]) == ByteBits(b[i]);
        PowEight();
        BitsNatInverse(a[i], 8);
        BitsNatInverse(b[i], 8);
      }
    }
    BurstDetected(a, b, 8 * s);
  }
}
