/** Natural numbers in decimal notation. */
module Numbers {
  import opened Text

  predicate Digits(s: string) { s != "" && forall c | c in s :: IsDigit(c) }

  function DigitValue(c: char): (d: nat)
    requires IsDigit(c)
    ensures d < 10
  {
    c as int - '0' as int
  }

  function DigitChar(d: nat): (c: char)
    requires d < 10
    ensures IsDigit(c) && DigitValue(c) == d
  {
    ['0', '1', '2', '3', '4', '5', '6', '7', '8', '9'][d]
  }

  /** `parseInt` of a string of digits. */
  function ParseInt(s: string): nat
    requires forall c | c in s :: IsDigit(c)
  {
    if s == "" then 0 else 10 * ParseInt(s[..|s| - 1]) + DigitValue(s[|s| - 1])
  }

  /** How a number is written as part of a key. */
  function Decimal(n: nat): (s: string)
    ensures Digits(s)
  {
    if n < 10 then [DigitChar(n)] else Decimal(n / 10) + [DigitChar(n % 10)]
  }

  lemma {:induction false} DecimalParses(n: nat)
    ensures ParseInt(Decimal(n)) == n
  {
    var s := Decimal(n);
    if n < 10 {
      assert s[..0] == "";
    } else {
      DecimalParses(n / 10);
      assert s[..|s| - 1] == Decimal(n / 10);
    }
  }

  /** Digits are the usual ones. */
  lemma DigitsWritten()
    ensures Decimal(0) == "0" && Decimal(1) == "1" && Decimal(2) == "2" && Decimal(3) == "3" && Decimal(4) == "4"
    ensures Decimal(5) == "5" && Decimal(6) == "6" && Decimal(7) == "7" && Decimal(8) == "8" && Decimal(9) == "9"
    ensures Decimal(90) == "90"
  {
    DecimalStep(9, 0);
  }

  predicate NoLeadingZero(s: string) { s == "0" || (s != "" && s[0] != '0') }

  /** The decimal form of the value is the string itself exactly when it has no leading zero. */
  lemma {:induction false} ParsesToSelf(s: string)
    requires Digits(s)
    ensures Decimal(ParseInt(s)) == s <==> NoLeadingZero(s)
    ensures s[0] != '0' ==> ParseInt(s) >= 1
  {
    var front, last := s[..|s| - 1], s[|s| - 1];
    assert s == front + [last];
    CharOfValue(last);
    if front != "" {
      ParsesToSelf(front);
      ParsesLonger(front, ParseInt(front), last);
    }
  }

  lemma CharOfValue(c: char)
    requires IsDigit(c)
    ensures DigitChar(DigitValue(c)) == c
  {
  }

  /** One more digit behind a string of digits whose value is `q`. */
  lemma ParsesLonger(front: string, q: nat, last: char)
    requires Digits(front) && IsDigit(last)
    requires Decimal(q) == front <==> NoLeadingZero(front)
    requires front[0] != '0' ==> q >= 1
    ensures Decimal(10 * q + DigitValue(last)) == front + [last] <==> front[0] != '0'
  {
    var longer := front + [last];
    assert longer[0] == front[0] && |longer| >= 2;
    CharOfValue(last);
    if front[0] != '0' {
      DecimalStep(q, DigitValue(last));
    } else {
      DecimalHasNoLeadingZero(10 * q + DigitValue(last));
      assert !NoLeadingZero(longer);
    }
  }

  lemma TenStep(q: nat, d: nat)
    requires d < 10
    ensures (10 * q + d) / 10 == q && (10 * q + d) % 10 == d
  {
  }

  lemma DecimalStep(q: nat, d: nat)
    requires q >= 1 && d < 10
    ensures Decimal(10 * q + d) == Decimal(q) + [DigitChar(d)]
  {
    TenStep(q, d);
  }

  lemma {:induction false} DecimalHasNoLeadingZero(n: nat)
    ensures NoLeadingZero(Decimal(n))
    ensures n >= 1 ==> Decimal(n)[0] != '0'
  {
    if n >= 10 {
      DecimalHasNoLeadingZero(n / 10);
    }
  }
}
