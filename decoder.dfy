/**
 * translateRomanToArabic: one left-to-right pass over the upper-cased
 * string; each letter is compared with the next one (the last letter with
 * itself) and is added when it is at least as large, subtracted otherwise.
 */
module Decoder {
  import opened Tables
  import opened Strings

  /** Every character of s is one of the seven Roman letters. */
  predicate AllLetters(s: string) {
    forall i :: 0 <= i < |s| ==> IsLetter(s[i])
  }

  /** The contribution of letter c when it is followed by next. */
  function SignedValue(c: char, next: char): (v: int)
    requires IsLetter(c) && IsLetter(next)
    ensures v == Value(c) || v == -(Value(c) as int)
    ensures v < 0 <==> Value(c) < Value(next)
  {
    if Value(c) >= Value(next) then Value(c) as int else -(Value(c) as int)
  }

  /** The value the decoding pass computes for a string of upper-case letters. */
  function Decode(u: string): int
    requires AllLetters(u)
    decreases |u|
  {
    if u == [] then 0
    else SignedValue(u[0], if |u| == 1 then u[0] else u[1]) + Decode(u[1..])
  }

  /** The purely additive value of a string: the sum of its letter values. */
  function Sum(s: string): nat
    requires AllLetters(s)
    decreases |s|
  {
    if s == [] then 0 else Value(s[0]) + Sum(s[1..])
  }

  /** Letter values never increase from left to right. */
  predicate NonIncreasing(s: string)
    requires AllLetters(s)
  {
    forall i, j :: 0 <= i < j < |s| ==> Value(s[i]) >= Value(s[j])
  }

  /** Appending a letter adds its value to the additive sum. */
  lemma {:induction false} SumAppend(s: string, c: char)
    requires AllLetters(s) && IsLetter(c)
    ensures AllLetters(s + [c]) && Sum(s + [c]) == Sum(s) + Value(c)
  {
    if s != [] {
      assert (s + [c])[1..] == s[1..] + [c];
      SumAppend(s[1..], c);
    }
  }

  /**
   * The sign rule at a join: decoding x + y adds the two decodings, except
   * that the last letter of x, which alone is compared with itself and
   * added, is subtracted exactly when it is smaller than the first letter of y.
   */
  lemma {:induction false} DecodeConcat(x: string, y: string)
    requires AllLetters(x) && AllLetters(y) && x != [] && y != []
    ensures AllLetters(x + y)
    ensures Decode(x + y) == Decode(x) + Decode(y) -
      (if Value(x[|x| - 1]) < Value(y[0]) then 2 * Value(x[|x| - 1]) else 0)
  {
    var xy := x + y;
    if |x| == 1 {
      assert xy[1..] == y && xy[1] == y[0];
      assert Decode(x) == Value(x[0]);
    } else {
      assert xy[1..] == x[1..] + y && xy[1] == x[1];
      DecodeConcat(x[1..], y);
      assert x[1..][|x| - 2] == x[|x| - 1];
    }
  }

  /**
   * Decoding a concatenation adds the decodings when the last letter of x is
   * not smaller than the first letter of y (or either is empty).
   */
  lemma DecodeJoin(x: string, y: string)
    requires AllLetters(x) && AllLetters(y)
    requires x != [] && y != [] ==> Value(x[|x| - 1]) >= Value(y[0])
    ensures AllLetters(x + y) && Decode(x + y) == Decode(x) + Decode(y)
  {
    if x == [] {
      assert x + y == y;
    } else if y == [] {
      assert x + y == x;
    } else {
      DecodeConcat(x, y);
    }
  }

  /** A run of one letter decodes to the letter's value times the length of the run. */
  lemma {:induction false} DecodeRep(c: char, k: nat)
    requires IsLetter(c)
    ensures AllLetters(Rep(c, k)) && Decode(Rep(c, k)) == k * Value(c)
  {
    if k > 0 {
      DecodeRep(c, k - 1);
      assert Rep(c, k)[1..] == Rep(c, k - 1);
    }
  }

  /** A string whose letter values never increase decodes to its additive sum. */
  lemma {:induction false} DecodeNonIncreasing(s: string)
    requires AllLetters(s) && NonIncreasing(s)
    ensures Decode(s) == Sum(s)
  {
    if s != [] {
      DecodeNonIncreasing(s[1..]);
    }
  }

  /** The seven letters are upper case, so upper-casing a string of letters changes nothing. */
  lemma UpperOfLetters(s: string)
    requires AllLetters(s)
    ensures Upper(s) == s
  {
    forall i | 0 <= i < |s| ensures UpperChar(s[i]) == s[i] {
      assert IsLetter(s[i]);
    }
  }

  /** translateRomanToArabic as a value: decode the upper-cased input. */
  function RomanToArabic(s: string): (r: int)
    requires AllLetters(Upper(s))
    ensures s == [] ==> r == 0
  {
    Decode(Upper(s))
  }

  /** Decoding ignores case: the upper-cased input decodes to the same number. */
  lemma RomanToArabicIgnoresCase(s: string)
    requires AllLetters(Upper(s))
    ensures AllLetters(Upper(Upper(s)))
    ensures RomanToArabic(Upper(s)) == RomanToArabic(s)
  {
    UpperIdempotent(s);
  }

  /** Decoding from index i: the signed value of letter i, then decoding from index i + 1. */
  lemma DecodeSuffix(u: string, i: nat)
    requires AllLetters(u) && i < |u|
    ensures Decode(u[i..]) == SignedValue(u[i], if i == |u| - 1 then u[i] else u[i + 1]) + Decode(u[i + 1..])
  {
    assert u[i..][1..] == u[i + 1..];
    if i < |u| - 1 {
      assert u[i..][1] == u[i + 1];
    }
  }

  /** The decoding loop, proved to compute RomanToArabic. */
  method TranslateRomanToArabic(romanN: string) returns (arabicN: int)
    requires AllLetters(Upper(romanN))
    ensures arabicN == RomanToArabic(romanN)
  {
    var letters := Upper(romanN);
    arabicN := 0;
    for i := 0 to |letters|
      invariant arabicN + Decode(letters[i..]) == Decode(letters)
    {
      var next := if i == |letters| - 1 then letters[i] else letters[i + 1];
      DecodeSuffix(letters, i);
      if ROMAN_TO_ARABIC_DIC[letters[i]] >= ROMAN_TO_ARABIC_DIC[next] {
        arabicN := arabicN + ROMAN_TO_ARABIC_DIC[letters[i]];
      } else {
        arabicN := arabicN - ROMAN_TO_ARABIC_DIC[letters[i]];
      }
    }
  }

  /**
   * Sample decodings: lower case is accepted, the empty string is 0, and
   * numerals outside the standard form are still read by the sign rule.
   */
  const DECODE_EXAMPLES: map<string, int> := map[
    "" := 0, "xciv" := 94, "IIII" := 4, "IIX" := 10, "IM" := 999]

  /** XCIV, letter by letter from the right: X before C and I before V are subtracted. */
  lemma DecodeXciv()
    ensures AllLetters("XCIV") && Decode("XCIV") == 94
  {
    assert Decode("V") == 5;
    assert Decode("IV") == 4;
    assert Decode("CIV") == 104;
  }

  /** The decoder produces each sample decoding. */
  lemma DecodeExamples(s: string)
    requires s in DECODE_EXAMPLES
    ensures AllLetters(Upper(s)) && RomanToArabic(s) == DECODE_EXAMPLES[s]
  {
    if s == "xciv" {
      assert Upper("xciv") == "XCIV";
      DecodeXciv();
    } else if s == "IIII" {
      DecodeIIII();
    } else if s == "IIX" {
      DecodeIIX();
    } else if s == "IM" {
      DecodeIM();
    }
  }

  /** Only the I before the X is subtracted; the first I is compared with an I and added. */
  lemma DecodeIIX()
    ensures AllLetters(Upper("IIX")) && RomanToArabic("IIX") == 10
  {
    assert Upper("IIX") == "IIX";
    assert Decode("X") == 10;
    assert Decode("IX") == 9;
  }

  /** Any smaller letter before a larger one is subtracted, whatever the gap between them. */
  lemma DecodeIM()
    ensures AllLetters(Upper("IM")) && RomanToArabic("IM") == 999
  {
    assert Upper("IM") == "IM";
    assert Decode("M") == 1000;
  }

  /** Four I's in a row are read additively. */
  lemma DecodeIIII()
    ensures AllLetters(Upper("IIII")) && RomanToArabic("IIII") == 4
  {
    assert Upper("IIII") == "IIII";
    assert Decode("I") == 1;
    assert Decode("II") == 2;
    assert Decode("III") == 3;
  }
}
