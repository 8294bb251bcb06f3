/**
 * The comparison macros that the keyword generator prints, executed over the bytes of the
 * lexer's input: single-unit tests, packed loads of two and four code units, the overlapping
 * seven-unit test, and the configurations that choose between them.
 */
module WideCompare {
  import opened Wrappers
  import opened Binary
  import opened KeywordTrie

  /** The three CPU() switches the macro text branches on. */
  datatype Cpu = Cpu(needsAlignedAccess: bool, bigEndian: bool, x86_64: bool)

  /** x86-64 is little-endian; no other combination is excluded. */
  predicate RealCpu(cpu: Cpu) {
    cpu.x86_64 ==> !cpu.bigEndian
  }

  /** The bytes from m_code up to m_codeEnd, holding LChar (one byte) or UChar (two bytes) units. */
  datatype Buffer = Buffer(cpu: Cpu, wide: bool, bytes: seq<Byte>) {
    /** The bytes that `n` code units take. */
    function Size(n: nat): nat {
      if wide then 2 * n else n
    }

    /** The number of whole code units. */
    function Length(): nat {
      if wide then |bytes| / 2 else |bytes|
    }
  }

  // ----- loads -----

  predicate LoadSize(n: nat) {
    n == 1 || n == 2 || n == 4 || n == 8
  }

  function Base(n: nat): nat {
    if n == 1 then 0x100 else if n == 2 then 0x1_0000 else 0x1_0000_0000
  }

  /** A value times the base of an `n`-byte digit. */
  function Shifted(n: nat, v: nat): nat {
    if n == 1 then 0x100 * v else if n == 2 then 0x1_0000 * v else 0x1_0000_0000 * v
  }

  /** The unsigned integer stored in the `n` bytes from `at` on. */
  function WordValue(bytes: seq<Byte>, at: nat, n: nat, bigEndian: bool): nat
    requires LoadSize(n) && at + n <= |bytes|
    decreases n
  {
    if n == 1 then bytes[at]
    else
      var half := n / 2;
      var first, second := WordValue(bytes, at, half, bigEndian), WordValue(bytes, at + half, half, bigEndian);
      if bigEndian then Shifted(half, first) + second else first + Shifted(half, second)
  }

  /** A load of `n` units at unit index `i`; None when it leaves the buffer. */
  function Load(buf: Buffer, i: nat, n: nat): Option<nat>
    requires n == 1 || n == 2 || n == 4
  {
    if buf.Size(i) + buf.Size(n) <= |buf.bytes| then
      Some(WordValue(buf.bytes, buf.Size(i), buf.Size(n), buf.cpu.bigEndian))
    else None
  }

  /** The code unit at index `i`. */
  function UnitAt(buf: Buffer, i: nat): nat
    requires i < buf.Length()
  {
    Load(buf, i, 1).value
  }

  // ----- the macros -----

  /** C's short-circuit conjunction, where None is a fault. */
  function And(p: Option<bool>, q: Option<bool>): Option<bool> {
    if p == Some(true) then q else p
  }

  function LoadEquals(buf: Buffer, i: nat, n: nat, expected: nat): Option<bool>
    requires n == 1 || n == 2 || n == 4
  {
    match Load(buf, i, n)
    case None => None
    case Some(v) => Some(v == expected)
  }

  function Code(c: char): nat {
    c as int
  }

  /** CHARPAIR_TOUINT16: both characters go through uint16_t. */
  function CharPair(cpu: Cpu, a: char, b: char): nat {
    var a16, b16 := Code(a) % 0x1_0000, Code(b) % 0x1_0000;
    if cpu.bigEndian then a16 * 0x100 + b16 else b16 * 0x100 + a16
  }

  /** CHARQUAD_TOUINT32, in uint32_t. */
  function CharQuad(cpu: Cpu, a: char, b: char, c: char, d: char): nat {
    (if cpu.bigEndian then CharPair(cpu, a, b) * 0x1_0000 + CharPair(cpu, c, d)
     else CharPair(cpu, c, d) * 0x1_0000 + CharPair(cpu, a, b)) % 0x1_0000_0000
  }

  /** UCHARPAIR_TOUINT32, in uint32_t. */
  function UCharPair(cpu: Cpu, a: char, b: char): nat {
    (if cpu.bigEndian then Code(a) * 0x1_0000 + Code(b) else Code(b) * 0x1_0000 + Code(a)) % 0x1_0000_0000
  }

  /** The little-endian UCHARQUAD_TOUINT64, in uint64_t; the big-endian one is never expanded. */
  function UCharQuad(cpu: Cpu, a: char, b: char, c: char, d: char): nat
    requires !cpu.bigEndian
  {
    (UCharPair(cpu, c, d) * 0x1_0000_0000 + UCharPair(cpu, a, b)) % 0x1_0000_0000_0000_0000
  }

  function Compare1(buf: Buffer, i: nat, a: char): Option<bool> {
    LoadEquals(buf, i, 1, Code(a))
  }

  function Compare2(buf: Buffer, i: nat, a: char, b: char): Option<bool> {
    if buf.cpu.needsAlignedAccess then And(Compare1(buf, i, a), Compare1(buf, i + 1, b))
    else LoadEquals(buf, i, 2, if buf.wide then UCharPair(buf.cpu, a, b) else CharPair(buf.cpu, a, b))
  }

  function Compare4(buf: Buffer, i: nat, a: char, b: char, c: char, d: char): Option<bool>
    requires RealCpu(buf.cpu)
  {
    if buf.cpu.needsAlignedAccess || !buf.cpu.x86_64 then
      And(Compare2(buf, i, a, b), Compare2(buf, i + 2, c, d))
    else
      LoadEquals(buf, i, 4, if buf.wide then UCharQuad(buf.cpu, a, b, c, d) else CharQuad(buf.cpu, a, b, c, d))
  }

  /** COMPARE_n for the n the macro text defines; None for any other n. */
  function Compare(buf: Buffer, i: nat, s: string): Option<bool>
    requires RealCpu(buf.cpu)
  {
    match |s|
    case 2 => Compare2(buf, i, s[0], s[1])
    case 3 => And(Compare2(buf, i, s[0], s[1]), Compare1(buf, i + 2, s[2]))
    case 4 => Compare4(buf, i, s[0], s[1], s[2], s[3])
    case 5 => And(Compare4(buf, i, s[0], s[1], s[2], s[3]), Compare1(buf, i + 4, s[4]))
    case 6 => And(Compare4(buf, i, s[0], s[1], s[2], s[3]), Compare2(buf, i + 4, s[4], s[5]))
    case 7 => And(Compare4(buf, i, s[0], s[1], s[2], s[3]), Compare4(buf, i + 3, s[3], s[4], s[5], s[6]))
    case 8 => And(Compare4(buf, i, s[0], s[1], s[2], s[3]), Compare4(buf, i + 4, s[4], s[5], s[6], s[7]))
    case _ => None
  }

  // ----- the reference: one unit at a time -----

  predicate Ascii(s: string) {
    forall i | 0 <= i < |s| :: Code(s[i]) < 128
  }

  /** The buffer's code units. */
  function Units(buf: Buffer): (units: seq<nat>)
    ensures |units| == buf.Length()
  {
    seq(buf.Length(), i requires 0 <= i < buf.Length() => UnitAt(buf, i))
  }

  /** The input holds `s` at unit index `i`. */
  predicate HoldsAt(units: seq<nat>, i: nat, s: string) {
    i + |s| <= |units| && forall j | 0 <= j < |s| :: units[i + j] == Code(s[j])
  }

  // ----- refinement -----

  /** A load of twice as many units combines the two half loads. */
  lemma LoadSplits(buf: Buffer, i: nat, n: nat)
    requires n == 1 || n == 2
    requires i + 2 * n <= buf.Length()
    ensures Load(buf, i, 2 * n).Some? && Load(buf, i, n).Some? && Load(buf, i + n, n).Some?
    ensures var lo, hi := Load(buf, i, n).value, Load(buf, i + n, n).value;
            Load(buf, i, 2 * n).value
            == if buf.cpu.bigEndian then Shifted(buf.Size(n), lo) + hi else lo + Shifted(buf.Size(n), hi)
  {
    assert buf.Size(2 * n) / 2 == buf.Size(n) && buf.Size(i + n) == buf.Size(i) + buf.Size(n);
  }

  lemma UnitBound(buf: Buffer, i: nat)
    requires i < buf.Length()
    ensures UnitAt(buf, i) < Base(buf.Size(1))
  {
  }

  lemma Compare1Refines(buf: Buffer, i: nat, a: char)
    requires i < buf.Length()
    ensures Compare1(buf, i, a) == Some(UnitAt(buf, i) == Code(a))
  {
  }

  /** Two digits below the base are recovered from their packed value. */
  lemma PackInjective(n: nat, a: nat, b: nat, c: nat, d: nat)
    requires a < Base(n) && c < Base(n)
    ensures a + Shifted(n, b) == c + Shifted(n, d) <==> a == c && b == d
  {
  }

  /** The constant a pair is compared with, for the buffer's unit width. */
  function PairConstant(buf: Buffer, a: char, b: char): nat {
    if buf.wide then UCharPair(buf.cpu, a, b) else CharPair(buf.cpu, a, b)
  }

  lemma PairConstantValue(buf: Buffer, a: char, b: char)
    requires Code(a) < 128 && Code(b) < 128
    ensures PairConstant(buf, a, b)
            == if buf.cpu.bigEndian then Shifted(buf.Size(1), Code(a)) + Code(b)
               else Code(a) + Shifted(buf.Size(1), Code(b))
    ensures PairConstant(buf, a, b) < Base(buf.Size(2))
  {
  }

  lemma PairLoad(buf: Buffer, i: nat, a: char, b: char)
    requires i + 2 <= buf.Length() && Code(a) < 128 && Code(b) < 128
    ensures Load(buf, i, 2).Some? && Load(buf, i, 2).value < Base(buf.Size(2))
    ensures Load(buf, i, 2).value == PairConstant(buf, a, b)
            <==> UnitAt(buf, i) == Code(a) && UnitAt(buf, i + 1) == Code(b)
  {
    var u, v := UnitAt(buf, i), UnitAt(buf, i + 1);
    LoadSplits(buf, i, 1);
    UnitBound(buf, i);
    UnitBound(buf, i + 1);
    PairConstantValue(buf, a, b);
    var n := buf.Size(1);
    if buf.cpu.bigEndian {
      PackInjective(n, v, u, Code(b), Code(a));
    } else {
      PackInjective(n, u, v, Code(a), Code(b));
    }
  }

  lemma Compare2Refines(buf: Buffer, i: nat, a: char, b: char)
    requires i + 2 <= buf.Length() && Code(a) < 128 && Code(b) < 128
    ensures Compare2(buf, i, a, b) == Some(UnitAt(buf, i) == Code(a) && UnitAt(buf, i + 1) == Code(b))
  {
    if buf.cpu.needsAlignedAccess {
      Compare1Refines(buf, i, a);
      Compare1Refines(buf, i + 1, b);
    } else {
      PairLoad(buf, i, a, b);
    }
  }

  lemma QuadConstantValue(buf: Buffer, a: char, b: char, c: char, d: char)
    requires Code(a) < 128 && Code(b) < 128 && Code(c) < 128 && Code(d) < 128 && !buf.cpu.bigEndian
    ensures (if buf.wide then UCharQuad(buf.cpu, a, b, c, d) else CharQuad(buf.cpu, a, b, c, d))
            == PairConstant(buf, a, b) + Shifted(buf.Size(2), PairConstant(buf, c, d))
  {
    PairConstantValue(buf, a, b);
    PairConstantValue(buf, c, d);
  }

  lemma Compare4Refines(buf: Buffer, i: nat, a: char, b: char, c: char, d: char)
    requires RealCpu(buf.cpu) && i + 4 <= buf.Length()
    requires Code(a) < 128 && Code(b) < 128 && Code(c) < 128 && Code(d) < 128
    ensures Compare4(buf, i, a, b, c, d)
            == Some(&& UnitAt(buf, i) == Code(a) && UnitAt(buf, i + 1) == Code(b)
                    && UnitAt(buf, i + 2) == Code(c) && UnitAt(buf, i + 3) == Code(d))
  {
    if buf.cpu.needsAlignedAccess || !buf.cpu.x86_64 {
      Compare2Refines(buf, i, a, b);
      Compare2Refines(buf, i + 2, c, d);
    } else {
      LoadSplits(buf, i, 2);
      PairLoad(buf, i, a, b);
      PairLoad(buf, i + 2, c, d);
      QuadConstantValue(buf, a, b, c, d);
      PairConstantValue(buf, a, b);
      PackInjective(buf.Size(2), Load(buf, i, 2).value, Load(buf, i + 2, 2).value,
                    PairConstant(buf, a, b), PairConstant(buf, c, d));
    }
  }

  /** The input holds a string if it holds two parts of it that cover it. */
  lemma HoldsCover(units: seq<nat>, i: nat, s: string, from: nat, to: nat)
    requires from <= to <= |s|
    ensures HoldsAt(units, i, s) <==> HoldsAt(units, i, s[..to]) && HoldsAt(units, i + from, s[from..])
  {
    if HoldsAt(units, i, s[..to]) && HoldsAt(units, i + from, s[from..]) {
      forall j | 0 <= j < |s| ensures units[i + j] == Code(s[j]) {
        if j < to {
          assert s[..to][j] == s[j];
        } else {
          assert s[from..][j - from] == s[j];
          assert units[i + from + (j - from)] == Code(s[j]);
        }
      }
    }
    if HoldsAt(units, i, s) {
      forall j | 0 <= j < |s| - from ensures units[i + from + j] == Code(s[from..][j]) {
        assert units[i + (from + j)] == Code(s[from + j]);
      }
    }
  }

  lemma Compare1Holds(buf: Buffer, i: nat, s: string)
    requires |s| == 1 && i + 1 <= buf.Length()
    ensures Compare1(buf, i, s[0]) == Some(HoldsAt(Units(buf), i, s))
  {
    Compare1Refines(buf, i, s[0]);
    assert Units(buf)[i + 0] == UnitAt(buf, i);
  }

  lemma Compare2Holds(buf: Buffer, i: nat, s: string)
    requires |s| == 2 && Ascii(s) && i + 2 <= buf.Length()
    ensures Compare2(buf, i, s[0], s[1]) == Some(HoldsAt(Units(buf), i, s))
  {
    Compare2Refines(buf, i, s[0], s[1]);
    assert Units(buf)[i + 0] == UnitAt(buf, i) && Units(buf)[i + 1] == UnitAt(buf, i + 1);
  }

  lemma Compare4Holds(buf: Buffer, i: nat, s: string)
    requires RealCpu(buf.cpu) && |s| == 4 && Ascii(s) && i + 4 <= buf.Length()
    ensures Compare4(buf, i, s[0], s[1], s[2], s[3]) == Some(HoldsAt(Units(buf), i, s))
  {
    Compare4Refines(buf, i, s[0], s[1], s[2], s[3]);
    var units := Units(buf);
    assert units[i + 0] == UnitAt(buf, i) && units[i + 1] == UnitAt(buf, i + 1);
    assert units[i + 2] == UnitAt(buf, i + 2) && units[i + 3] == UnitAt(buf, i + 3);
  }

  /** Every macro decides exactly what a unit-by-unit comparison decides, on every CPU. */
  lemma CompareRefines(buf: Buffer, i: nat, s: string)
    requires RealCpu(buf.cpu) && 2 <= |s| <= 8 && Ascii(s) && i + |s| <= buf.Length()
    ensures Compare(buf, i, s) == Some(HoldsAt(Units(buf), i, s))
  {
    var units := Units(buf);
    match |s|
    case 2 => Compare2Holds(buf, i, s);
    case 3 =>
      Compare2Holds(buf, i, s[..2]);
      Compare1Holds(buf, i + 2, s[2..]);
      HoldsCover(units, i, s, 2, 2);
    case 4 => Compare4Holds(buf, i, s);
    case _ => LongRefines(buf, i, s);
  }

  lemma LongRefines(buf: Buffer, i: nat, s: string)
    requires RealCpu(buf.cpu) && 5 <= |s| <= 8 && Ascii(s) && i + |s| <= buf.Length()
    ensures Compare(buf, i, s) == Some(HoldsAt(Units(buf), i, s))
  {
    match |s|
    case 5 => FiveRefines(buf, i, s);
    case 6 => SixRefines(buf, i, s);
    case 7 => SevenRefines(buf, i, s);
    case 8 => EightRefines(buf, i, s);
  }

  lemma FiveRefines(buf: Buffer, i: nat, s: string)
    requires RealCpu(buf.cpu) && |s| == 5 && Ascii(s) && i + 5 <= buf.Length()
    ensures Compare(buf, i, s) == Some(HoldsAt(Units(buf), i, s))
  {
    var first, second := Compare4(buf, i, s[0], s[1], s[2], s[3]), Compare1(buf, i + 4, s[4]);
    Compare4Holds(buf, i, s[..4]);
    Compare1Holds(buf, i + 4, s[4..]);
    BothHold(Units(buf), i, s, 4, first, second);
  }

  lemma SixRefines(buf: Buffer, i: nat, s: string)
    requires RealCpu(buf.cpu) && |s| == 6 && Ascii(s) && i + 6 <= buf.Length()
    ensures Compare(buf, i, s) == Some(HoldsAt(Units(buf), i, s))
  {
    var first, second := Compare4(buf, i, s[0], s[1], s[2], s[3]), Compare2(buf, i + 4, s[4], s[5]);
    Compare4Holds(buf, i, s[..4]);
    Compare2Holds(buf, i + 4, s[4..]);
    BothHold(Units(buf), i, s, 4, first, second);
  }

  lemma SevenRefines(buf: Buffer, i: nat, s: string)
    requires RealCpu(buf.cpu) && |s| == 7 && Ascii(s) && i + 7 <= buf.Length()
    ensures Compare(buf, i, s) == Some(HoldsAt(Units(buf), i, s))
  {
    var first, second := Compare4(buf, i, s[0], s[1], s[2], s[3]), Compare4(buf, i + 3, s[3], s[4], s[5], s[6]);
    Compare4Holds(buf, i, s[..4]);
    Compare4Holds(buf, i + 3, s[3..]);
    BothHold(Units(buf), i, s, 3, first, second);
  }

  lemma EightRefines(buf: Buffer, i: nat, s: string)
    requires RealCpu(buf.cpu) && |s| == 8 && Ascii(s) && i + 8 <= buf.Length()
    ensures Compare(buf, i, s) == Some(HoldsAt(Units(buf), i, s))
  {
    var first, second := Compare4(buf, i, s[0], s[1], s[2], s[3]), Compare4(buf, i + 4, s[4], s[5], s[6], s[7]);
    Compare4Holds(buf, i, s[..4]);
    Compare4Holds(buf, i + 4, s[4..]);
    BothHold(Units(buf), i, s, 4, first, second);
  }

  /** A test of the first four characters and one of the characters from `from` on decide the whole. */
  lemma BothHold(units: seq<nat>, i: nat, s: string, from: nat, first: Option<bool>, second: Option<bool>)
    requires from <= 4 <= |s|
    requires first == Some(HoldsAt(units, i, s[..4])) && second == Some(HoldsAt(units, i + from, s[from..]))
    ensures And(first, second) == Some(HoldsAt(units, i, s))
  {
    HoldsCover(units, i, s, from, 4);
  }
}
