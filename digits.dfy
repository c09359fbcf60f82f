/**
 * Character classes and the small regular expressions the two login pages
 * test their inputs against. JavaScript's `\d` is the ASCII class `[0-9]`,
 * and `$` without the `m` flag anchors at the very end of the input, so each
 * pattern is a plain predicate on the whole string.
 */
module Digits {

  /** `\d` in a JavaScript regular expression. */
  predicate IsDigit(c: char) {
    '0' <= c <= '9'
  }

  /** Every character of `s` is a digit (the empty string included). */
  predicate AllDigits(s: string) {
    forall i :: 0 <= i < |s| ==> IsDigit(s[i])
  }

  /** `/^\d*$/.test(s)`, matched left to right as the regex engine does. */
  predicate MatchesDigitStar(s: string)
    decreases |s|
  {
    s == [] || (IsDigit(s[0]) && MatchesDigitStar(s[1..]))
  }

  /** `/^\d+$/.test(s)`: one digit, then `\d*`. */
  predicate MatchesDigitPlus(s: string) {
    s != [] && IsDigit(s[0]) && MatchesDigitStar(s[1..])
  }

  /** `/^\d{n}$/.test(s)`: exactly `n` repetitions of `\d`, then the end. */
  predicate MatchesDigitsExactly(s: string, n: nat)
    decreases n
  {
    if n == 0 then s == []
    else s != [] && IsDigit(s[0]) && MatchesDigitsExactly(s[1..], n - 1)
  }

  /** `s.replace(/\D/g, "")`: drop every character that is not a digit. */
  function KeepDigits(s: string): string
    decreases |s|
  {
    if s == [] then []
    else if IsDigit(s[0]) then [s[0]] + KeepDigits(s[1..])
    else KeepDigits(s[1..])
  }

  // ---------------------------------------------------------------------
  // The regular expressions agree with the plain character-class reading.

  /** `^\d*$` accepts exactly the all-digit strings. */
  lemma {:induction false} DigitStarIsAllDigits(s: string)
    ensures MatchesDigitStar(s) <==> AllDigits(s)
    decreases |s|
  {
    if s != [] {
      DigitStarIsAllDigits(s[1..]);
      assert forall i :: 1 <= i < |s| ==> s[i] == s[1..][i - 1];
    }
  }

  /** `^\d+$` accepts exactly the non-empty all-digit strings. */
  lemma DigitPlusIsNonEmptyDigits(s: string)
    ensures MatchesDigitPlus(s) <==> s != [] && AllDigits(s)
  {
    if s != [] {
      DigitStarIsAllDigits(s[1..]);
      assert forall i :: 1 <= i < |s| ==> s[i] == s[1..][i - 1];
    }
  }

  /** `^\d{n}$` accepts exactly the all-digit strings of length `n`. */
  lemma {:induction false} DigitsExactlyIsLengthAndDigits(s: string, n: nat)
    ensures MatchesDigitsExactly(s, n) <==> |s| == n && AllDigits(s)
    decreases n
  {
    if n > 0 && s != [] {
      DigitsExactlyIsLengthAndDigits(s[1..], n - 1);
      assert forall i :: 1 <= i < |s| ==> s[i] == s[1..][i - 1];
    }
  }

  // ---------------------------------------------------------------------
  // The digit filter of the mobile-number field.

  /** Whatever goes in, only digits come out, and never more characters. */
  lemma {:induction false} KeepDigitsIsDigits(s: string)
    ensures AllDigits(KeepDigits(s))
    ensures |KeepDigits(s)| <= |s|
    decreases |s|
  {
    if s != [] {
      KeepDigitsIsDigits(s[1..]);
    }
  }

  /** A string that is already all digits passes through unchanged. */
  lemma {:induction false} KeepDigitsOfDigits(s: string)
    requires AllDigits(s)
    ensures KeepDigits(s) == s
    decreases |s|
  {
    if s != [] {
      assert AllDigits(s[1..]) by {
        assert forall i :: 0 <= i < |s[1..]| ==> s[1..][i] == s[i + 1];
      }
      KeepDigitsOfDigits(s[1..]);
    }
  }

  /** The filter changes nothing exactly when the input is all digits. */
  lemma KeepDigitsFixedPoints(s: string)
    ensures KeepDigits(s) == s <==> AllDigits(s)
  {
    KeepDigitsIsDigits(s);
    if AllDigits(s) {
      KeepDigitsOfDigits(s);
    }
  }

  /** Filtering twice is filtering once. */
  lemma KeepDigitsIdempotent(s: string)
    ensures KeepDigits(KeepDigits(s)) == KeepDigits(s)
  {
    KeepDigitsIsDigits(s);
    KeepDigitsOfDigits(KeepDigits(s));
  }

  /**
   * The filter works character by character and keeps the order: filtering
   * a concatenation is concatenating the filtered parts. With the
   * one-character case given by the definition, this pins the filter down.
   */
  lemma {:induction false} KeepDigitsAppend(a: string, b: string)
    ensures KeepDigits(a + b) == KeepDigits(a) + KeepDigits(b)
    decreases |a|
  {
    if a != [] {
      assert (a + b)[1..] == a[1..] + b;
      KeepDigitsAppend(a[1..], b);
    } else {
      assert a + b == b;
    }
  }

  /** Every character of the input that is a digit survives, in number. */
  lemma {:induction false} KeepDigitsCounts(s: string, c: char)
    ensures multiset(KeepDigits(s))[c] == if IsDigit(c) then multiset(s)[c] else 0
    decreases |s|
  {
    if s != [] {
      assert s == [s[0]] + s[1..];
      KeepDigitsCounts(s[1..], c);
    }
  }
}
