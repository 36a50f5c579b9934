/** Printing and parsing integers in a base, as `format!`, `str::parse` and `from_str_radix` do. */
module Numbers {
  import opened Wrappers

  const I64_MIN: int := -0x8000_0000_0000_0000
  const I64_MAX: int := 0x7FFF_FFFF_FFFF_FFFF

  predicate IsI64(n: int) {
    I64_MIN <= n <= I64_MAX
  }

  function Clamp(n: int, lo: int, hi: int): int {
    if n < lo then lo else if hi < n then hi else n
  }

  /** `saturating_add` on 64 bits. */
  function SaturatingAdd(a: int, b: int): (r: int)
    ensures IsI64(a + b) ==> r == a + b
    ensures a + b > I64_MAX ==> r == I64_MAX
    ensures a + b < I64_MIN ==> r == I64_MIN
  {
    Clamp(a + b, I64_MIN, I64_MAX)
  }

  /** The digit character of a value below sixteen, lower case. */
  function DigitChar(d: nat): char
    requires d < 16
  {
    if d < 10 then '0' + d as char else 'a' + (d - 10) as char
  }

  /** The value of a digit in either case, `None` for any other character. */
  function DigitValue(c: char, base: nat): (r: Option<nat>)
    requires 2 <= base <= 16
    ensures r.Some? ==> r.value < base
  {
    var v := if '0' <= c <= '9' then c as int - '0' as int
             else if 'a' <= c <= 'f' then c as int - 'a' as int + 10
             else if 'A' <= c <= 'F' then c as int - 'A' as int + 10
             else 16;
    if v < base then Some(v) else None
  }

  lemma DigitRoundTrip(d: nat, base: nat)
    requires d < base && 2 <= base <= 16
    ensures DigitValue(DigitChar(d), base) == Some(d)
  {
  }

  lemma DivideByBase(n: nat, base: nat)
    requires base >= 2
    ensures n / base * base + n % base == n && n % base < base
    ensures n >= base ==> n / base < n
  {
  }

  /** Digits of `n`, most significant first. */
  function Digits(n: nat, base: nat): (s: string)
    requires 2 <= base <= 16
    ensures s != ""
  {
    DivideByBase(n, base);
    if n < base then [DigitChar(n)] else Digits(n / base, base) + [DigitChar(n % base)]
  }

  /** The number a digit string stands for. */
  function ParseDigits(s: string, base: nat): Option<nat>
    requires 2 <= base <= 16
  {
    if s == "" then Some(0)
    else
      match (ParseDigits(s[..|s| - 1], base), DigitValue(s[|s| - 1], base))
      case (Some(n), Some(d)) => Some(n * base + d)
      case _ => None
  }

  lemma {:induction false} DigitsParse(n: nat, base: nat)
    requires 2 <= base <= 16
    ensures ParseDigits(Digits(n, base), base) == Some(n)
    ensures forall c :: c in Digits(n, base) ==> DigitValue(c, base).Some?
  {
    hide DigitChar, DigitValue;
    var s := Digits(n, base);
    DivideByBase(n, base);
    if n < base {
      DigitRoundTrip(n, base);
      assert s[..0] == "";
    } else {
      DigitRoundTrip(n % base, base);
      DigitsParse(n / base, base);
      assert s[..|s| - 1] == Digits(n / base, base);
    }
  }

  /** `i64` in decimal with a leading minus where needed. */
  function Decimal(n: int): string {
    if n >= 0 then Digits(n, 10) else "-" + Digits(-n, 10)
  }

  /** `str::parse::<i64>`: an optional sign, at least one digit, and a value that fits. */
  function ParseI64(s: string): Option<int> {
    var signed := s != "" && (s[0] == '-' || s[0] == '+');
    var digits := if signed then s[1..] else s;
    if digits == "" then None
    else
      match ParseDigits(digits, 10)
      case None => None
      case Some(m) =>
        var n: int := if signed && s[0] == '-' then -(m as int) else m;
        if IsI64(n) then Some(n) else None
  }

  lemma DecimalParses(n: int)
    requires IsI64(n)
    ensures ParseI64(Decimal(n)) == Some(n)
    ensures Decimal(n) != "" && ':' !in Decimal(n)
  {
    hide Digits, DigitValue, ParseDigits;
    var m: nat := if n < 0 then -n else n;
    var d := Digits(m, 10);
    DigitsParse(m, 10);
    assert d[0] in d;
    SignsAreNoDigits();
    assert n < 0 ==> Decimal(n)[1..] == d;
  }

  lemma SignsAreNoDigits()
    ensures DigitValue(':', 10).None? && DigitValue('-', 10).None? && DigitValue('+', 10).None?
  {
  }
}
