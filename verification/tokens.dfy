/** Whitespace-separated words, the way a reader of the plain-text Netpbm
    formats sees a file: blanks and line breaks separate, runs of them
    count as one, and neither end of the text matters. */
module Tokens {

  predicate IsSep(c: char)
  {
    c == ' ' || c == '\n'
  }

  /** Empty, or ending with a separator: nothing written after it can
      join its last word. */
  predicate Closed(s: string)
  {
    |s| == 0 || IsSep(s[|s| - 1])
  }

  /** A non-empty run of characters without separators. */
  predicate IsWord(w: string)
  {
    |w| > 0 && forall i :: 0 <= i < |w| ==> !IsSep(w[i])
  }

  /** Length of the word at the start of `s` (0 when `s` starts with a
      separator or is empty). */
  function WordLen(s: string): (n: nat)
    ensures n <= |s|
    ensures forall i :: 0 <= i < n ==> !IsSep(s[i])
    ensures n < |s| ==> IsSep(s[n])
  {
    if |s| == 0 || IsSep(s[0]) then 0 else 1 + WordLen(s[1..])
  }

  /** The words of `s`, in order. */
  function Words(s: string): (r: seq<string>)
    ensures forall k :: 0 <= k < |r| ==> IsWord(r[k])
    decreases |s|
  {
    if |s| == 0 then []
    else if IsSep(s[0]) then Words(s[1..])
    else
      var n := WordLen(s);
      [s[..n]] + Words(s[n..])
  }

  /** A word at the front of a longer text that contains a separator after
      it keeps its length. */
  lemma {:induction false} WordLenAppend(a: string, b: string)
    requires WordLen(a) < |a|
    ensures WordLen(a + b) == WordLen(a)
  {
    if |a| > 0 && !IsSep(a[0]) {
      assert (a + b)[1..] == a[1..] + b;
      WordLenAppend(a[1..], b);
    }
  }

  /** Text that ends with a separator splits independently of what follows. */
  lemma {:induction false} WordsAppend(a: string, b: string)
    requires Closed(a)
    ensures Words(a + b) == Words(a) + Words(b)
    decreases |a|
  {
    if |a| == 0 {
      assert a + b == b;
    } else if IsSep(a[0]) {
      assert (a + b)[1..] == a[1..] + b;
      WordsAppend(a[1..], b);
    } else {
      var n := WordLen(a);
      WordLenAppend(a, b);
      assert (a + b)[..n] == a[..n];
      assert (a + b)[n..] == a[n..] + b;
      WordsAppend(a[n..], b);
    }
  }

  /** A word followed by one separator reads as that single word. */
  lemma WordsOfWord(w: string, sep: char)
    requires IsWord(w) && IsSep(sep)
    ensures Words(w + [sep]) == [w]
  {
    var s := w + [sep];
    assert WordLen(s) == |w| by { WordLenWord(w, sep); }
    assert s[..|w|] == w;
    assert s[|w|..] == [sep];
    assert Words([sep]) == [];
  }

  lemma {:induction false} WordLenWord(w: string, sep: char)
    requires IsWord(w) && IsSep(sep)
    ensures WordLen(w + [sep]) == |w|
    decreases |w|
  {
    assert (w + [sep])[1..] == if |w| == 1 then [sep] else w[1..] + [sep];
    if |w| > 1 {
      WordLenWord(w[1..], sep);
    }
  }

  /** Four closed fields of one word each read as those four words. */
  lemma WordsOfFour(a: string, b: string, c: string, d: string, wa: string, wb: string, wc: string, wd: string)
    requires Closed(a) && Closed(b) && Closed(c)
    requires Words(a) == [wa] && Words(b) == [wb] && Words(c) == [wc] && Words(d) == [wd]
    ensures Words(a + b + c + d) == [wa, wb, wc, wd]
  {
    WordsAppend(a, b);
    WordsAppend(a + b, c);
    WordsAppend(a + b + c, d);
  }
}
