/** How the output streams print an integer: an optional minus sign and
    the decimal digits, most significant first; and the reading back of
    such a text. */
module Decimal {
  import opened Common
  import opened Tokens

  predicate IsDigit(c: char)
  {
    '0' <= c <= '9'
  }

  predicate AllDigits(s: string)
  {
    forall i :: 0 <= i < |s| ==> IsDigit(s[i])
  }

  function DigitChar(d: nat): (c: char)
    requires d < 10
    ensures IsDigit(c) && DigitValue(c) == d
  {
    ('0' as int + d) as char
  }

  function DigitValue(c: char): nat
    requires IsDigit(c)
  {
    c as int - '0' as int
  }

  /** The digits of `n`, most significant first, without leading zeros. */
  function Digits(n: nat): (s: string)
    ensures |s| > 0 && AllDigits(s)
    ensures n > 0 ==> s[0] != '0'
  {
    if n < 10 then [DigitChar(n)] else Digits(n / 10) + [DigitChar(n % 10)]
  }

  /** The number a string of digits denotes. */
  function ValueOf(s: string): nat
    requires AllDigits(s)
  {
    if |s| == 0 then 0 else ValueOf(s[..|s| - 1]) * 10 + DigitValue(s[|s| - 1])
  }

  lemma {:induction false} ValueOfDigits(n: nat)
    ensures ValueOf(Digits(n)) == n
  {
    if n >= 10 {
      var s := Digits(n);
      assert s[..|s| - 1] == Digits(n / 10);
      ValueOfDigits(n / 10);
    }
  }

  /** `out << n` for an `int`. */
  function Dec(n: int): (s: string)
    ensures |s| > 0
    ensures s[0] == '-' <==> n < 0
    ensures AllDigits(if n < 0 then s[1..] else s)
  {
    if n < 0 then "-" + Digits(-n) else Digits(n)
  }

  /** Reads an optional minus sign followed by at least one digit; anything
      else is not a number. */
  function ParseInt(s: string): (r: Option<int>)
    ensures r.Some? ==> |s| > 0
  {
    if |s| > 1 && s[0] == '-' && AllDigits(s[1..]) then Some(-(ValueOf(s[1..]) as int))
    else if |s| > 0 && AllDigits(s) then Some(ValueOf(s))
    else None
  }

  /** Printing then reading gives the number back; so no two numbers print
      the same. */
  lemma DecRoundTrip(n: int)
    ensures ParseInt(Dec(n)) == Some(n)
  {
    if n < 0 {
      assert Dec(n)[1..] == Digits(-n);
      ValueOfDigits(-n);
    } else {
      ValueOfDigits(n);
    }
  }

  /** A printed integer on its own is one word. */
  lemma DecIsWord(n: int)
    ensures IsWord(Dec(n))
  {
    var s := Dec(n);
    forall i | 0 <= i < |s| ensures !IsSep(s[i]) {
      if n < 0 && i > 0 {
        assert s[i] == s[1..][i - 1];
      }
    }
  }

  /** A printed integer followed by a separator reads as that one word. */
  lemma WordsOfDec(n: int, sep: char)
    requires IsSep(sep)
    ensures Words(Dec(n) + [sep]) == [Dec(n)]
  {
    DecIsWord(n);
    WordsOfWord(Dec(n), sep);
  }
}
