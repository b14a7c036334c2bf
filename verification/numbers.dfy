/**
 * Decimal rendering of counts (Python `f"{n}"`, Java `StringBuilder.append(int)`)
 * and the partial parser standing for Python's `int(...)`.
 */
module Numbers {
  import opened Wrappers
  import opened Chars

  function DigitChar(d: nat): char
    requires d < 10
  {
    ('0' as int + d) as char
  }

  function DigitValue(c: char): nat
    requires IsDigit(c)
  {
    c as int - '0' as int
  }

  function NatToString(n: nat): string
    decreases n
  {
    if n < 10 then [DigitChar(n)] else NatToString(n / 10) + [DigitChar(n % 10)]
  }

  function IntToString(n: int): string {
    if n < 0 then "-" + NatToString(-n) else NatToString(n)
  }

  predicate AllDigits(s: string) {
    forall i | 0 <= i < |s| :: IsDigit(s[i])
  }

  function DigitsValue(s: string): nat
    requires AllDigits(s)
  {
    if s == [] then 0 else DigitsValue(s[..|s| - 1]) * 10 + DigitValue(s[|s| - 1])
  }

  /**
   * `int(s)` on the strings it accepts without surrounding whitespace or
   * underscores: an optional sign followed by one or more decimal digits.
   * `None` stands for the `ValueError` it raises otherwise.
   */
  function ParseInt(s: string): Option<int> {
    if |s| > 1 && (s[0] == '-' || s[0] == '+') && AllDigits(s[1..]) then
      var v: int := DigitsValue(s[1..]);
      Some(if s[0] == '-' then -v else v)
    else if |s| > 0 && AllDigits(s) then
      Some(DigitsValue(s))
    else
      None
  }

  lemma {:induction false} NatToStringDigits(n: nat)
    ensures |NatToString(n)| > 0 && AllDigits(NatToString(n))
    ensures DigitsValue(NatToString(n)) == n
    decreases n
  {
    if n >= 10 {
      NatToStringDigits(n / 10);
      var s := NatToString(n);
      assert s[..|s| - 1] == NatToString(n / 10);
    }
  }

  /** Rendering a count and parsing it back gives the count. */
  lemma IntToStringRoundTrip(n: int)
    ensures ParseInt(IntToString(n)) == Some(n)
  {
    if n < 0 {
      NatToStringDigits(-n);
      assert IntToString(n)[1..] == NatToString(-n);
    } else {
      NatToStringDigits(n);
    }
  }

  /** A character that can appear in a rendered count. */
  predicate Printable(c: char) {
    c != ':' && !IsSpace(c) && !IsTrimmed(c)
  }

  lemma DigitsPrintable(s: string)
    requires AllDigits(s)
    ensures forall i :: 0 <= i < |s| ==> Printable(s[i])
  {
    forall i | 0 <= i < |s| ensures Printable(s[i]) {
      assert IsDigit(s[i]);
    }
  }

  /** A rendered count holds only digits and possibly a leading minus sign. */
  lemma IntToStringChars(n: int)
    ensures |IntToString(n)| > 0
    ensures forall i :: 0 <= i < |IntToString(n)| ==> Printable(IntToString(n)[i])
  {
    var digits := NatToString(if n < 0 then -n else n);
    NatToStringDigits(if n < 0 then -n else n);
    DigitsPrintable(digits);
    if n < 0 {
      var s := IntToString(n);
      assert s == "-" + digits;
      forall i | 0 <= i < |s| ensures Printable(s[i]) {
        if i > 0 {
          assert s[i] == digits[i - 1];
        }
      }
    }
  }

  /** Rendering is injective. */
  lemma IntToStringInjective(m: int, n: int)
    requires IntToString(m) == IntToString(n)
    ensures m == n
  {
    IntToStringRoundTrip(m);
    IntToStringRoundTrip(n);
  }
}
