/** Decimal text of integers: what `to_string` writes and `parse::<i64>` reads. */
module Decimal {
  import opened Wrappers
  import opened Integers

  function Digit(d: int): char
    requires 0 <= d < 10
  {
    ('0' as int + d) as char
  }

  predicate IsDigit(c: char) {
    '0' <= c <= '9'
  }

  function DigitsOf(n: nat): string {
    if n < 10 then [Digit(n)] else DigitsOf(n / 10) + [Digit(n % 10)]
  }

  function Magnitude(n: int): nat {
    if n < 0 then -n else n
  }

  function ToDecimal(n: int): string {
    if n < 0 then "-" + DigitsOf(Magnitude(n)) else DigitsOf(Magnitude(n))
  }

  /** A non-empty run of digits, most significant first. */
  function ParseDigits(s: string): Option<nat> {
    if s == "" || !IsDigit(s[|s| - 1]) then None
    else
      var d := s[|s| - 1] as int - '0' as int;
      if |s| == 1 then Some(d)
      else match ParseDigits(s[..|s| - 1])
        case None => None
        case Some(n) => Some(n * 10 + d)
  }

  function InRange(n: int): Option<i64> {
    if InI64(n) then Some(n) else None
  }

  /** What is left of a text without its sign. */
  function Unsigned(s: string): string
    requires s != ""
  {
    if s[0] == '-' || s[0] == '+' then s[1..] else s
  }

  /** `str::parse::<i64>`: an optional sign, at least one digit, no overflow. */
  function ParseI64(s: string): Option<i64> {
    if s == "" then None
    else
      var magnitude := ParseDigits(Unsigned(s));
      match magnitude
      case None => None
      case Some(n) => InRange(if s[0] == '-' then 0 - n else n)
  }

  lemma {:induction false} DigitsAreDigits(n: nat)
    ensures |DigitsOf(n)| > 0
    ensures forall i :: 0 <= i < |DigitsOf(n)| ==> IsDigit(DigitsOf(n)[i])
  {
    if n >= 10 {
      DigitsAreDigits(n / 10);
    }
  }

  lemma {:induction false} ParseDigitsRoundTrip(n: nat)
    ensures ParseDigits(DigitsOf(n)) == Some(n)
  {
    if n >= 10 {
      ParseDigitsRoundTrip(n / 10);
      DigitsAreDigits(n / 10);
      var s := DigitsOf(n);
      assert s[..|s| - 1] == DigitsOf(n / 10);
    }
  }

  function Zeros(k: nat): string {
    seq(k, i => '0')
  }

  /** The digit texts of a number are its decimal digits with any zeros before them. */
  lemma {:induction false} ParseDigitsIff(s: string, n: nat)
    ensures ParseDigits(s) == Some(n) <==> exists k :: s == Zeros(k) + DigitsOf(n)
  {
    if ParseDigits(s) == Some(n) {
      var k := LeadingZeros(s, n);
    }
    if exists k :: s == Zeros(k) + DigitsOf(n) {
      var k :| s == Zeros(k) + DigitsOf(n);
      ZerosBefore(k, n);
    }
  }

  lemma {:induction false} LeadingZeros(s: string, n: nat) returns (k: nat)
    requires ParseDigits(s) == Some(n)
    ensures s == Zeros(k) + DigitsOf(n)
  {
    var d := s[|s| - 1] as int - '0' as int;
    if |s| == 1 {
      k := 0;
      assert s == [Digit(d)];
    } else {
      var head := s[..|s| - 1];
      var m := ParseDigits(head).value;
      k := LeadingZeros(head, m);
      assert s == head + [Digit(d)];
      if m == 0 {
        assert head == Zeros(k + 1);
        k := k + 1;
      } else {
        assert n / 10 == m && n % 10 == d;
      }
    }
  }

  lemma {:induction false} ZerosBefore(k: nat, n: nat)
    ensures ParseDigits(Zeros(k) + DigitsOf(n)) == Some(n)
    decreases n
  {
    var s := Zeros(k) + DigitsOf(n);
    if n < 10 {
      assert s[..|s| - 1] == Zeros(k);
      AllZeros(k);
    } else {
      ZerosBefore(k, n / 10);
      assert s[..|s| - 1] == Zeros(k) + DigitsOf(n / 10);
      DigitsAreDigits(n / 10);
    }
  }

  lemma {:induction false} AllZeros(k: nat)
    ensures k > 0 ==> ParseDigits(Zeros(k)) == Some(0)
  {
    if k > 1 {
      AllZeros(k - 1);
      assert Zeros(k)[..k - 1] == Zeros(k - 1);
    }
  }

  /** An optional sign, which is "-" for negative numbers only and for zero, then zeros and the number's
      digits. */
  ghost predicate Writes(s: string, n: int, k: nat) {
    var digits := Zeros(k) + DigitsOf(Magnitude(n));
    s != "" &&
    (|| (s == digits && n >= 0)
     || (s[0] == '+' && s[1..] == digits && n >= 0)
     || (s[0] == '-' && s[1..] == digits && n <= 0))
  }

  /** A number's digits, with zeros before them, start with a digit. */
  lemma NoSign(k: nat, n: nat)
    ensures IsDigit((Zeros(k) + DigitsOf(n))[0])
  {
    DigitsAreDigits(n);
  }

  lemma UnsignedWrites(s: string, n: int, k: nat)
    requires s != ""
    ensures Writes(s, n, k) <==>
            Unsigned(s) == Zeros(k) + DigitsOf(Magnitude(n)) && (n > 0 ==> s[0] != '-') && (n < 0 ==> s[0] == '-')
  {
    NoSign(k, Magnitude(n));
  }

  lemma ParseUnsigned(s: string, n: i64)
    requires s != ""
    ensures ParseI64(s) == Some(n) <==>
            ParseDigits(Unsigned(s)) == Some(Magnitude(n)) && (n > 0 ==> s[0] != '-') && (n < 0 ==> s[0] == '-')
  {
  }

  /** Exactly which texts are read as which number. */
  lemma ParseI64Iff(s: string, n: i64)
    ensures ParseI64(s) == Some(n) <==> exists k :: Writes(s, n, k)
  {
    if s != "" {
      ParseUnsigned(s, n);
      ParseDigitsIff(Unsigned(s), Magnitude(n));
      if ParseI64(s) == Some(n) {
        var k :| Unsigned(s) == Zeros(k) + DigitsOf(Magnitude(n));
        UnsignedWrites(s, n, k);
      }
      if k :| Writes(s, n, k) {
        UnsignedWrites(s, n, k);
      }
    }
  }

  /** Reading back what was written gives the number, over the whole of i64. */
  lemma ParseRoundTrip(n: i64)
    ensures ParseI64(ToDecimal(n)) == Some(n)
  {
    var s, digits := ToDecimal(n), DigitsOf(Magnitude(n));
    DigitsAreDigits(Magnitude(n));
    ParseDigitsRoundTrip(Magnitude(n));
    if n < 0 {
      assert s[0] == '-' && s[1..] == digits;
    } else {
      assert s == digits && IsDigit(s[0]);
    }
  }

  /** So two ids never share a hash field. */
  lemma ToDecimalInjective(m: i64, n: i64)
    requires ToDecimal(m) == ToDecimal(n)
    ensures m == n
  {
    ParseRoundTrip(m);
    ParseRoundTrip(n);
  }

  function Pow10(k: nat): nat {
    if k == 0 then 1 else 10 * Pow10(k - 1)
  }

  lemma {:induction false} DigitsLength(n: nat, k: nat)
    requires k > 0 && n < Pow10(k)
    ensures |DigitsOf(n)| <= k
  {
    if n >= 10 {
      DigitsLength(n / 10, k - 1);
    }
  }

  lemma DecimalLength(n: i64)
    ensures |ToDecimal(n)| <= 20
  {
    assert Pow10(9) == 1_000_000_000;
    assert Pow10(14) == 100_000_000_000_000;
    assert Pow10(19) == 10_000_000_000_000_000_000;
    DigitsLength(Magnitude(n), 19);
  }

  lemma DecimalChars(n: int)
    ensures forall i :: 0 <= i < |ToDecimal(n)| ==> IsDigit(ToDecimal(n)[i]) || ToDecimal(n)[i] == '-'
  {
    DigitsAreDigits(Magnitude(n));
  }
}
