/** Numbers written in decimal, as strconv.Itoa writes and strconv.Atoi reads them. */
module Decimal {
  import opened Values

  /** The range of a Go int on the platforms the program is built for. */
  const MAX_INT := 0x7FFF_FFFF_FFFF_FFFF
  const MIN_INT := -MAX_INT - 1

  predicate IsDigit(c: char) {
    '0' <= c <= '9'
  }

  function DigitValue(c: char): nat
    requires IsDigit(c)
  {
    c as int - '0' as int
  }

  function DigitChar(d: nat): char
    requires d < 10
  {
    ('0' as int + d) as char
  }

  function Digits(n: nat): (s: string)
    ensures |s| >= 1 && forall c <- s :: IsDigit(c)
  {
    if n < 10 then [DigitChar(n)] else Digits(n / 10) + [DigitChar(n % 10)]
  }

  function Itoa(n: int): string {
    if n < 0 then "-" + Digits(-n) else Digits(n)
  }

  function ReadDigits(s: string): nat
    requires forall c <- s :: IsDigit(c)
  {
    if s == "" then 0 else 10 * ReadDigits(s[..|s| - 1]) + DigitValue(s[|s| - 1])
  }

  predicate AllDigits(s: string) {
    s != "" && forall c <- s :: IsDigit(c)
  }

  /** An optional sign and at least one digit. */
  function ReadNumber(s: string): Option<int> {
    if AllDigits(s) then Some(ReadDigits(s))
    else if s != "" && s[0] == '-' && AllDigits(s[1..]) then (var n: int := ReadDigits(s[1..]); Some(-n))
    else if s != "" && s[0] == '+' && AllDigits(s[1..]) then Some(ReadDigits(s[1..]))
    else None
  }

  /** Numbers out of range are an error. */
  function Atoi(s: string): Option<int> {
    match ReadNumber(s)
    case None => None
    case Some(n) => if MIN_INT <= n <= MAX_INT then Some(n) else None
  }

  /** The last digit counts ones and the others ten times as much; leading zeros count nothing. */
  lemma Positional(s: string, c: char)
    requires (forall d <- s :: IsDigit(d)) && IsDigit(c)
    ensures (forall d <- s + [c] :: IsDigit(d)) && ReadDigits(s + [c]) == 10 * ReadDigits(s) + (c as int - '0' as int)
  {
    assert (s + [c])[..|s|] == s;
  }

  lemma OneDigit(c: char)
    requires IsDigit(c)
    ensures AllDigits([c]) && ReadDigits([c]) == c as int - '0' as int
  {
    Positional("", c);
    assert "" + [c] == [c];
  }

  /** Numbers as they are written: the sign first, then the digits, the last one counting ones. */
  lemma Written(n: nat, d: nat)
    requires d < 10
    ensures Itoa(10 * n + d) == (if n == 0 then "" else Itoa(n)) + ["0123456789"[d]]
    ensures n > 0 ==> Itoa(0 - n) == "-" + Itoa(n)
  {
    assert DigitChar(d) == "0123456789"[d];
    if n == 0 {
      assert "" + ["0123456789"[d]] == [DigitChar(d)];
    }
  }

  /** Texts that are read as numbers: digits, with a sign or without. */
  lemma Signed(digits: string)
    requires AllDigits(digits)
    ensures ReadNumber(digits) == ReadNumber("+" + digits) == Some(ReadDigits(digits))
    ensures var n: int := ReadDigits(digits); ReadNumber("-" + digits) == Some(-n)
  {
    var plus, minus := "+" + digits, "-" + digits;
    assert plus[0] == '+' && plus[1..] == digits && plus[0] in plus;
    assert minus[0] == '-' && minus[1..] == digits && minus[0] in minus;
  }

  /** Nothing else is read as a number. */
  lemma Unsigned(text: string)
    ensures ReadNumber(text).Some? <==>
      AllDigits(text) || (text != "" && text[0] in {'+', '-'} && AllDigits(text[1..]))
  {
  }

  lemma {:induction false} ReadDigitsBack(n: nat)
    ensures ReadDigits(Digits(n)) == n
  {
    var s := Digits(n);
    if n < 10 {
      assert s[..|s| - 1] == "";
    } else {
      ReadDigitsBack(n / 10);
      assert s[..|s| - 1] == Digits(n / 10);
    }
  }

  /** Every number that is written is read back, if it is in range. */
  lemma AtoiItoa(n: int)
    ensures ReadNumber(Itoa(n)) == Some(n)
    ensures Atoi(Itoa(n)) == if MIN_INT <= n <= MAX_INT then Some(n) else None
  {
    if n < 0 {
      ReadDigitsBack(-n);
      assert Itoa(n)[0] == '-' && Itoa(n)[0] in Itoa(n) && Itoa(n)[1..] == Digits(-n);
    } else {
      ReadDigitsBack(n);
    }
  }

  lemma ItoaInjective(a: int, b: int)
    requires Itoa(a) == Itoa(b)
    ensures a == b
  {
    AtoiItoa(a);
    AtoiItoa(b);
  }
}
