/** Bytes, powers of two, and the bits of a number. */
module Binary {
  type Byte = b: int | 0 <= b < 256

  function Pow2(n: nat): (r: nat)
    ensures r >= 1
  {
    if n == 0 then 1 else 2 * Pow2(n - 1)
  }

  lemma PowFourMore(n: nat)
    ensures Pow2(n + 4) == 16 * Pow2(n)
  {
    assert Pow2(n + 4) == 2 * Pow2(n + 3) == 4 * Pow2(n + 2) == 8 * Pow2(n + 1);
  }

  lemma PowByteMore(n: nat)
    ensures Pow2(n + 8) == 0x100 * Pow2(n)
  {
    PowFourMore(n);
    PowFourMore(n + 4);
  }

  lemma PowBytes()
    ensures Pow2(8) == 0x100 && Pow2(16) == 0x1_0000 && Pow2(24) == 0x100_0000 && Pow2(32) == 0x1_0000_0000
  {
    PowByteMore(0);
    PowByteMore(8);
    PowByteMore(16);
    PowByteMore(24);
  }

  /** The bit of weight 2^k. */
  predicate Bit(n: nat, k: nat) {
    n / Pow2(k) % 2 == 1
  }

  /** A number is `d * q` and a remainder below `d` in one way only. */
  lemma QuotientIs(n: nat, d: nat, q: nat, r: nat)
    requires n == d * q + r && r < d
    ensures n / d == q && n % d == r
  {
    var p := n / d;
    assert d * p <= n < d * p + d;
    StepUp(d, p, q);
    StepUp(d, q, p);
  }

  lemma StepUp(d: nat, a: nat, b: nat)
    ensures a < b ==> d * a + d <= d * b
  {
    if a < b {
      var c: nat := b - a - 1;
      assert b == a + 1 + c;
      Distribute(d, a, 1 + c);
      Distribute(d, 1, c);
    }
  }

  lemma Distribute(d: nat, a: nat, b: nat)
    ensures d * (a + b) == d * a + d * b
  {
  }

  /** Dividing by twice a number is halving first. */
  lemma HalveFirst(n: nat, m: nat)
    requires m >= 1
    ensures n / (2 * m) == n / 2 / m && n % (2 * m) == 2 * (n / 2 % m) + n % 2
  {
    var q, r := n / 2 / m, n / 2 % m;
    assert n / 2 == m * q + r;
    assert (2 * m) * q == 2 * (m * q);
    QuotientIs(n, 2 * m, q, 2 * r + n % 2);
  }

  /** A higher bit of a number is a bit of its half. */
  lemma BitOfHalf(n: nat, k: nat)
    requires k > 0
    ensures Bit(n, k) == Bit(n / 2, k - 1)
  {
    HalveFirst(n, Pow2(k - 1));
  }

  lemma LowestBit(n: nat)
    ensures Bit(n, 0) == (n % 2 == 1)
  {
  }
}
