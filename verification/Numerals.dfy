// Decimal numerals, as printf writes and atoi reads them.
module Numerals {

  // The decimal numeral of a number.
  function Decimal(n: nat): (s: string)
    ensures s != "" && forall c :: c in s ==> '0' <= c <= '9'
  {
    (if n < 10 then "" else Decimal(n / 10)) + [('0' as int + n % 10) as char]
  }

  function NumeralValue(s: string): int {
    if s == "" then 0 else NumeralValue(s[..|s| - 1]) * 10 + (s[|s| - 1] as int - '0' as int)
  }

  lemma {:induction false} NumeralOfDecimal(n: nat)
    ensures NumeralValue(Decimal(n)) == n
  {
    var s := Decimal(n);
    if n >= 10 {
      NumeralOfDecimal(n / 10);
      assert s[..|s| - 1] == Decimal(n / 10);
    } else {
      assert s[..|s| - 1] == "";
    }
  }

  predicate IsDigit(c: char) {
    '0' <= c <= '9'
  }

  predicate IsSpace(c: char) {
    c == ' ' || '\t' <= c <= '\r'
  }

  // Reading digits from the left, up to the first character that is not one.
  function LeadingDigits(s: string, acc: int): int {
    if s == "" || !IsDigit(s[0]) then acc
    else LeadingDigits(s[1..], acc * 10 + (s[0] as int - '0' as int))
  }

  // atoi: leading white space, an optional sign, digits.
  function Atoi(s: string): int {
    if s == "" then 0
    else if IsSpace(s[0]) then Atoi(s[1..])
    else if s[0] == '-' then -LeadingDigits(s[1..], 0)
    else if s[0] == '+' then LeadingDigits(s[1..], 0)
    else LeadingDigits(s, 0)
  }

  // What atoi reads digits from: the text behind white space and at most one sign.
  function Unsigned(s: string): string {
    if s == "" then ""
    else if IsSpace(s[0]) then Unsigned(s[1..])
    else if s[0] == '-' || s[0] == '+' then s[1..]
    else s
  }

  // The digits in front.
  function DigitRun(s: string): string {
    if s == "" || !IsDigit(s[0]) then "" else [s[0]] + DigitRun(s[1..])
  }

  predicate AllZeros(s: string) {
    forall i :: 0 <= i < |s| ==> s[i] == '0'
  }

  lemma {:induction false} LeadingDigitsZeroIff(s: string, acc: nat)
    ensures LeadingDigits(s, acc) >= 0
    ensures LeadingDigits(s, acc) == 0 <==> acc == 0 && AllZeros(DigitRun(s))
    decreases |s|
  {
    if s != "" && IsDigit(s[0]) {
      LeadingDigitsZeroIff(s[1..], acc * 10 + (s[0] as int - '0' as int));
      assert DigitRun(s) == [s[0]] + DigitRun(s[1..]);
      assert DigitRun(s)[0] == s[0] && DigitRun(s)[1..] == DigitRun(s[1..]);
      assert AllZeros(DigitRun(s)) <==> s[0] == '0' && AllZeros(DigitRun(s)[1..]) by {
        ZerosFront(DigitRun(s));
      }
    }
  }

  lemma ZerosFront(s: string)
    requires s != ""
    ensures AllZeros(s) <==> s[0] == '0' && AllZeros(s[1..])
  {
    assert forall i :: 0 < i < |s| ==> s[i] == s[1..][i - 1];
  }

  // atoi gives 0 exactly when there is no digit to read, or zeros alone.
  lemma {:induction false} AtoiZeroIff(s: string)
    ensures Atoi(s) == 0 <==> AllZeros(DigitRun(Unsigned(s)))
    decreases |s|
  {
    if s != "" {
      if IsSpace(s[0]) {
        AtoiZeroIff(s[1..]);
      } else if s[0] == '-' || s[0] == '+' {
        LeadingDigitsZeroIff(s[1..], 0);
      } else {
        LeadingDigitsZeroIff(s, 0);
      }
    }
  }

  lemma {:induction false} LeadingDigitsSplit(a: string, b: string, acc: int)
    requires forall c :: c in a ==> IsDigit(c)
    ensures LeadingDigits(a + b, acc) == LeadingDigits(b, LeadingDigits(a, acc))
  {
    if a == "" {
      assert a + b == b;
    } else {
      assert a[0] in a;
      assert (a + b)[1..] == a[1..] + b;
      LeadingDigitsSplit(a[1..], b, acc * 10 + (a[0] as int - '0' as int));
    }
  }

  lemma {:induction false} LeadingDigitsOfDecimal(n: nat)
    ensures LeadingDigits(Decimal(n), 0) == n
  {
    var last := [('0' as int + n % 10) as char];
    if n >= 10 {
      LeadingDigitsOfDecimal(n / 10);
      LeadingDigitsSplit(Decimal(n / 10), last, 0);
    } else {
      assert Decimal(n) == last;
    }
    assert LeadingDigits(last[1..], n) == n;
  }

  // The newline ends the number whatever stands behind it.
  lemma AtoiOfLine(n: nat, tail: string)
    ensures Atoi(Decimal(n) + "\n" + tail) == n
  {
    var line := Decimal(n) + "\n" + tail;
    assert line == Decimal(n) + ("\n" + tail);
    assert line[0] in Decimal(n);
    LeadingDigitsSplit(Decimal(n), "\n" + tail, 0);
    LeadingDigitsOfDecimal(n);
  }

  function Pow10(k: nat): nat {
    if k == 0 then 1 else 10 * Pow10(k - 1)
  }

  lemma {:induction false} DecimalLength(n: nat, k: nat)
    requires n < Pow10(k) && k > 0
    ensures |Decimal(n)| <= k
  {
    if n >= 10 {
      DecimalLength(n / 10, k - 1);
    }
  }

  // A sign or white space in front, and no zero in front but for the number 0 itself.
  lemma AtoiOfSigned(n: nat, tail: string)
    requires tail == "" || !('0' <= tail[0] <= '9')
    ensures Atoi(Decimal(n) + tail) == Atoi("+" + (Decimal(n) + tail)) == n
    ensures Atoi("-" + (Decimal(n) + tail)) + n == 0
    ensures Decimal(n) == "0" || Decimal(n)[0] != '0'
  {
    var text := Decimal(n) + tail;
    assert text[0] in Decimal(n);
    LeadingDigitsSplit(Decimal(n), tail, 0);
    LeadingDigitsOfDecimal(n);
    assert ("-" + text)[1..] == text && ("+" + text)[1..] == text;
    NoZeroInFront(n);
  }

  lemma {:induction false} NoZeroInFront(n: nat)
    ensures Decimal(n)[0] == '0' <==> n == 0
    ensures n == 0 ==> Decimal(n) == "0"
  {
    if n >= 10 {
      NoZeroInFront(n / 10);
    }
  }

  lemma AtoiSkipsSpace(c: char, s: string)
    ensures c in " \t\n\r\U{000B}\U{000C}" ==> Atoi([c] + s) == Atoi(s)
    ensures Atoi("") == 0
    ensures c !in " \t\n\r\U{000B}\U{000C}+-0123456789" ==> Atoi([c] + s) == 0
  {
    assert " \t\n\r\U{000B}\U{000C}" == [' ', '\t', '\n', '\r', 11 as char, 12 as char];
    assert ([c] + s)[1..] == s;
  }
}
