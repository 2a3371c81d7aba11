/** The functions of the C and C++ libraries that the repository's parsers and printers call. */
module CLibrary {

  /** isspace of the C locale */
  predicate IsSpace(c: char) { c == ' ' || 9 <= c as int <= 13 }

  predicate IsDigit(c: char) { '0' <= c <= '9' }

  function Digit(c: char): int { c as int - '0' as int }

  /** The number the leading digits of s stand for, after a prefix worth n. */
  function Digits(s: string, n: nat): nat {
    if s == "" || !IsDigit(s[0]) then n else Digits(s[1..], 10 * n + Digit(s[0]))
  }

  /** atoi on a terminated string, before the conversion to int. */
  function Atoi(s: string): int {
    if s == "" then 0
    else if IsSpace(s[0]) then Atoi(s[1..])
    else if s[0] == '-' then 0 - Digits(s[1..], 0)
    else if s[0] == '+' then Digits(s[1..], 0)
    else Digits(s, 0)
  }

  predicate AllDigits(s: string) { s != "" && forall i :: 0 <= i < |s| ==> IsDigit(s[i]) }

  // ----- Printing

  /** memset with spaces */
  function Spaces(n: nat): (s: string)
    ensures |s| == n && forall i :: 0 <= i < n ==> s[i] == ' '
  {
    seq(n, _ => ' ')
  }

  function DigitChar(d: nat): char
    requires d < 10
  {
    ('0' as int + d) as char
  }

  function Decimal(n: nat): (s: string)
    ensures s != ""
  {
    if n < 10 then [DigitChar(n)] else Decimal(n / 10) + [DigitChar(n % 10)]
  }

  /** std::to_string of an int */
  function IntToString(i: int): (s: string)
    ensures s != ""
  {
    if i < 0 then "-" + Decimal(-i) else Decimal(i)
  }

  // ----- Reading what was printed

  lemma {:induction false} DecimalDigits(n: nat)
    ensures AllDigits(Decimal(n)) && Digits(Decimal(n), 0) == n && (n == 0 ==> |Decimal(n)| == 1)
  {
    if n >= 10 {
      DecimalDigits(n / 10);
      DigitsSnoc(Decimal(n / 10), 0, DigitChar(n % 10));
    } else {
      assert Decimal(n)[1..] == "";
    }
  }

  lemma {:induction false} DigitsSnoc(s: string, n: nat, c: char)
    requires (forall i :: 0 <= i < |s| ==> IsDigit(s[i])) && IsDigit(c)
    ensures Digits(s + [c], n) == 10 * Digits(s, n) + Digit(c)
  {
    if s == "" {
      assert (s + [c])[1..] == "";
    } else {
      assert (s + [c])[1..] == s[1..] + [c];
      DigitsSnoc(s[1..], 10 * n + Digit(s[0]), c);
    }
  }
}
