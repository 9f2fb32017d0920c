/** Decimal numerals: how node ids travel in query strings and how list
    indices become PHP array keys. */
module Decimal {
  import opened Wrappers

  predicate IsDigit(c: char) {
    '0' <= c <= '9'
  }

  function DigitValue(c: char): (d: nat)
    requires IsDigit(c)
    ensures d < 10
  {
    c as int - '0' as int
  }

  function DigitChar(d: nat): (c: char)
    requires d < 10
    ensures IsDigit(c) && DigitValue(c) == d
  {
    ('0' as int + d) as char
  }

  /** A non-empty string of decimal digits, leading zeros allowed. */
  predicate IsNumeral(s: string) {
    |s| > 0 && forall i :: 0 <= i < |s| ==> IsDigit(s[i])
  }

  /** A numeral without a leading zero, the only form an id is written in. */
  predicate IsCanonical(s: string) {
    IsNumeral(s) && (|s| > 1 ==> s[0] != '0')
  }

  /** The canonical numeral of `n`: no sign, no leading zero. */
  function Show(n: nat): (s: string)
    ensures IsCanonical(s)
  {
    if n < 10 then [DigitChar(n)] else Show(n / 10) + [DigitChar(n % 10)]
  }

  /** The value of a string of digits, most significant first. */
  function Value(s: string): nat
    requires forall i :: 0 <= i < |s| ==> IsDigit(s[i])
  {
    if |s| == 0 then 0 else Value(s[..|s| - 1]) * 10 + DigitValue(s[|s| - 1])
  }

  /** Reads a canonical numeral; anything else names no number. */
  function Parse(s: string): (r: Option<nat>)
    ensures r.Some? <==> IsCanonical(s)
  {
    if IsCanonical(s) then Some(Value(s)) else None
  }

  lemma {:induction false} ValueOfShow(n: nat)
    ensures Value(Show(n)) == n
  {
    var s := Show(n);
    if n >= 10 {
      ValueOfShow(n / 10);
      assert s[..|s| - 1] == Show(n / 10);
    }
  }

  /** Reading back a shown number gives that number. */
  lemma ParseShow(n: nat)
    ensures Parse(Show(n)) == Some(n)
  {
    ValueOfShow(n);
  }

  /** A numeral whose first digit is not zero has a positive value. */
  lemma {:induction false} ValuePositive(s: string)
    requires IsNumeral(s) && s[0] != '0'
    ensures Value(s) >= 1
  {
    if |s| > 1 {
      ValuePositive(s[..|s| - 1]);
    }
  }

  /** Showing the value of a canonical numeral gives back that numeral. */
  lemma {:induction false} ShowValue(s: string)
    requires IsCanonical(s)
    ensures Show(Value(s)) == s
  {
    if |s| > 1 {
      var init := s[..|s| - 1];
      ValuePositive(init);
      ShowValue(init);
      assert s == init + [s[|s| - 1]];
    }
  }

  /** A string parses to `k` exactly when it is the numeral of `k`. */
  lemma ParseExact(s: string)
    ensures forall k: nat :: Parse(s) == Some(k) <==> s == Show(k)
  {
    forall k: nat
      ensures Parse(s) == Some(k) <==> s == Show(k)
    {
      if s == Show(k) {
        ParseShow(k);
      }
      if Parse(s) == Some(k) {
        ShowValue(s);
      }
    }
  }

  /** Different numbers have different canonical numerals. */
  lemma ShowInjective()
    ensures forall i: nat, j: nat :: Show(i) == Show(j) ==> i == j
  {
    forall i: nat, j: nat | Show(i) == Show(j)
      ensures i == j
    {
      ParseShow(i);
      ParseShow(j);
    }
  }

  /** Only zero is shown as "0". */
  lemma ShowIsZero(n: nat)
    ensures Show(n) == "0" <==> n == 0
  {
    ParseShow(n);
    ParseShow(0);
  }
}
