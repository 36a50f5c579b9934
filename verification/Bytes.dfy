/** Bytes, and fixed-width integers least significant byte first. */
module Bytes {
  type Byte = b: int | 0 <= b < 256 witness 0

  /** `k` bytes of a number. */
  function LittleEndian(n: nat, k: nat): (r: seq<Byte>)
    ensures |r| == k
  {
    if k == 0 then [] else [n % 256] + LittleEndian(n / 256, k - 1)
  }

  function FromLittleEndian(bytes: seq<Byte>): nat {
    if bytes == [] then 0 else bytes[0] + 256 * FromLittleEndian(bytes[1..])
  }

  function Power256(k: nat): (r: nat)
    ensures r >= 1
  {
    if k == 0 then 1 else 256 * Power256(k - 1)
  }

  /** The i-th byte is the i-th digit to base 256, the lowest first. */
  lemma {:induction false} LittleEndianAt(n: nat, k: nat, i: nat)
    requires i < k
    ensures LittleEndian(n, k)[i] == n / Power256(i) % 256
  {
    if i > 0 {
      LittleEndianAt(n / 256, k - 1, i - 1);
      DivideTwice(n, 256, Power256(i - 1));
    }
  }

  lemma DivideTwice(n: nat, a: nat, b: nat)
    requires a > 0 && b > 0
    ensures a * b > 0 && n / a / b == n / (a * b)
  {
    Remainder(n, a);
    Remainder(n / a, b);
    Regroup(n / a / b, n / a % b, n % a, a, b);
    QuotientIs(n, a * b, n / a / b, n / a % b * a + n % a);
  }

  lemma Remainder(n: nat, d: nat)
    requires d > 0
    ensures n == n / d * d + n % d && 0 <= n % d < d
  {
  }

  lemma Regroup(p: nat, s: nat, r: nat, a: nat, b: nat)
    requires s < b && r < a
    ensures a * b > 0 && (p * b + s) * a + r == p * (a * b) + (s * a + r) && 0 <= s * a + r < a * b
  {
    assert (p * b + s) * a == p * b * a + s * a;
    assert s * a <= (b - 1) * a == b * a - a;
  }

  lemma QuotientIs(n: nat, d: nat, q: nat, r: nat)
    requires d > 0 && n == q * d + r && r < d
    ensures n / d == q
  {
    Remainder(n, d);
    var k: int := n / d - q;
    assert k * d == r - n % d;
    assert (k >= 1 ==> k * d >= d) && (k <= -1 ==> k * d + d <= 0);
  }

  /** A number that fits its width survives. */
  lemma {:induction false} LittleEndianRoundTrip(n: nat, k: nat)
    requires n < Power256(k)
    ensures FromLittleEndian(LittleEndian(n, k)) == n
  {
    if k > 0 {
      assert n / 256 < Power256(k - 1);
      LittleEndianRoundTrip(n / 256, k - 1);
      assert LittleEndian(n, k)[1..] == LittleEndian(n / 256, k - 1);
    }
  }
}
