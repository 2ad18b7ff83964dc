/**
 * isArabic and isRoman: the two input checks the converter consults.
 * An input is a JavaScript number or a string; isArabic asks whether the
 * input, converted to a number, is an integer, and isRoman whether it is a
 * string made, ignoring case, only of the letters M, D, C, L, X, V and I.
 */
module Validation {
  import opened Wrappers
  import opened Tables
  import opened Strings
  import opened Decoder

  /**
   * The inputs the converter distinguishes: a number whose value is an
   * integer, any other number (a fraction, NaN or an infinity), or a string.
   */
  datatype Input = Integer(value: int) | NonInteger | Text(chars: string)

  /** The characters the string-to-number conversion strips from both ends. */
  const WHITE_SPACE: set<char> := {
    '\t', '\n', '\U{000B}', '\U{000C}', '\r', ' ', '\U{00A0}', '\U{2028}', '\U{2029}', '\U{FEFF}'}

  predicate IsWhiteSpace(c: char) {
    c in WHITE_SPACE
  }

  /** s without its leading white space. */
  function TrimStart(s: string): (r: string)
    ensures |r| <= |s| && r == s[|s| - |r|..]
    ensures forall i :: 0 <= i < |s| - |r| ==> IsWhiteSpace(s[i])
    ensures r == [] || !IsWhiteSpace(r[0])
  {
    if s != [] && IsWhiteSpace(s[0]) then TrimStart(s[1..]) else s
  }

  /** s without its trailing white space. */
  function TrimEnd(s: string): (r: string)
    ensures |r| <= |s| && r == s[..|r|]
    ensures forall i :: |r| <= i < |s| ==> IsWhiteSpace(s[i])
    ensures r == [] || !IsWhiteSpace(r[|r| - 1])
  {
    if s != [] && IsWhiteSpace(s[|s| - 1]) then TrimEnd(s[..|s| - 1]) else s
  }

  function Trim(s: string): string {
    TrimEnd(TrimStart(s))
  }

  predicate IsDigit(c: char) {
    '0' <= c <= '9'
  }

  predicate AllDigits(s: string) {
    forall i :: 0 <= i < |s| ==> IsDigit(s[i])
  }

  predicate AllZeros(s: string) {
    forall i :: 0 <= i < |s| ==> s[i] == '0'
  }

  function DigitValue(c: char): (v: nat)
    requires IsDigit(c)
    ensures v <= 9
  {
    c as int - '0' as int
  }

  function DigitChar(d: nat): (c: char)
    requires d <= 9
    ensures IsDigit(c) && DigitValue(c) == d
  {
    ('0' as int + d) as char
  }

  /** The value of a string of decimal digits, most significant first. */
  function DigitsValue(s: string): nat
    requires AllDigits(s)
    decreases |s|
  {
    if s == [] then 0 else 10 * DigitsValue(s[..|s| - 1]) + DigitValue(s[|s| - 1])
  }

  /** The index of the first c in s, or |s| when there is none. */
  function Find(s: string, c: char): (k: nat)
    ensures k <= |s| && (k < |s| ==> s[k] == c)
    ensures forall i :: 0 <= i < k ==> s[i] != c
  {
    if s == [] then 0 else if s[0] == c then 0 else 1 + Find(s[1..], c)
  }

  /**
   * An unsigned decimal literal (digits, or digits and a point and digits,
   * with at least one digit) when its value is an integer: its fraction
   * digits, if any, are all zeros. Anything else yields None.
   */
  function UnsignedInteger(t: string): Option<int> {
    var k := Find(t, '.');
    if k == |t| then
      if t != [] && AllDigits(t) then Some(DigitsValue(t)) else None
    else
      var whole, fraction := t[..k], t[k + 1..];
      if AllDigits(whole) && AllZeros(fraction) && |whole| + |fraction| > 0 then
        Some(DigitsValue(whole))
      else None
  }

  /**
   * The string-to-number conversion of +s, when its result is an integer:
   * white space is stripped, the empty string is 0, and an optional sign may
   * precede an unsigned decimal literal.
   */
  function TextInteger(s: string): Option<int> {
    var t := Trim(s);
    if t == [] then Some(0)
    else if t[0] == '-' then
      match UnsignedInteger(t[1..])
      case Some(v) => Some(-v)
      case None => None
    else if t[0] == '+' then UnsignedInteger(t[1..])
    else UnsignedInteger(t)
  }

  /** +input, when it is an integer. */
  function NumericValue(x: Input): Option<int> {
    match x
    case Integer(v) => Some(v)
    case NonInteger => None
    case Text(s) => TextInteger(s)
  }

  /** isArabic: converting the input to a number gives an integer. */
  predicate IsArabic(x: Input) {
    NumericValue(x).Some?
  }

  /** The character class of the isRoman pattern. */
  const ROMAN_CHARS: set<char> := {'M', 'D', 'C', 'L', 'X', 'V', 'I'}

  /** isRoman: a string whose upper-cased characters all belong to ROMAN_CHARS. */
  predicate IsRoman(x: Input) {
    x.Text? && forall i :: 0 <= i < |Upper(x.chars)| ==> Upper(x.chars)[i] in ROMAN_CHARS
  }

  /** The pattern's character class is exactly the set of letters the decoder knows. */
  lemma RomanCharsAreLetters()
    ensures ROMAN_CHARS == ROMAN_TO_ARABIC_DIC.Keys
  {
  }

  /** isRoman holds exactly for strings whose upper-cased form the decoder can read. */
  lemma IsRomanLetters(x: Input)
    ensures IsRoman(x) <==> x.Text? && AllLetters(Upper(x.chars))
  {
    RomanCharsAreLetters();
  }

  /** isRoman ignores case. */
  lemma IsRomanIgnoresCase(s: string)
    ensures IsRoman(Text(Upper(s))) <==> IsRoman(Text(s))
  {
    UpperIdempotent(s);
  }

  /** A character other than white space survives trimming. */
  lemma TrimKeeps(s: string, i: nat)
    requires i < |s| && !IsWhiteSpace(s[i])
    ensures s[i] in Trim(s)
  {
    var r := TrimStart(s);
    var j := i - (|s| - |r|);
    assert r[j] == s[i];
    var e := TrimEnd(r);
    assert e[j] == r[j];
  }

  /** A literal UnsignedInteger accepts holds only digits and points. */
  lemma UnsignedIntegerChars(t: string, c: char)
    requires UnsignedInteger(t).Some? && c in t
    ensures IsDigit(c) || c == '.'
  {
    var k := Find(t, '.');
    var i :| 0 <= i < |t| && t[i] == c;
    if k < |t| && i != k {
      if i < k {
        assert t[..k][i] == c;
      } else {
        assert t[k + 1..][i - k - 1] == c;
      }
    }
  }

  /** The characters a string that converts to a number may hold. */
  predicate IsNumberChar(c: char) {
    IsWhiteSpace(c) || IsDigit(c) || c == '+' || c == '-' || c == '.'
  }

  /** No Latin letter is one of them. */
  lemma LetterIsNotNumberChar(c: char)
    requires 'A' <= c <= 'Z' || 'a' <= c <= 'z'
    ensures !IsNumberChar(c)
  {
  }

  /** A string holding a character no number literal uses does not convert to an integer. */
  lemma TextIntegerRejects(s: string, i: nat)
    requires i < |s| && !IsNumberChar(s[i])
    ensures TextInteger(s) == None
  {
    var c := s[i];
    TrimKeeps(s, i);
    var t := Trim(s);
    if t[0] == '-' || t[0] == '+' {
      var j :| 0 <= j < |t| && t[j] == c;
      assert t[1..][j - 1] == c;
      if UnsignedInteger(t[1..]).Some? {
        UnsignedIntegerChars(t[1..], c);
      }
    } else if UnsignedInteger(t).Some? {
      UnsignedIntegerChars(t, c);
    }
  }

  /** Upper-casing a string does not change whether, or to what, it converts. */
  lemma TextIntegerIgnoresCase(s: string)
    ensures TextInteger(Upper(s)) == TextInteger(s)
  {
    if i :| 0 <= i < |s| && 'a' <= s[i] <= 'z' {
      LetterIsNotNumberChar(s[i]);
      TextIntegerRejects(s, i);
      assert 'A' <= Upper(s)[i] <= 'Z';
      LetterIsNotNumberChar(Upper(s)[i]);
      TextIntegerRejects(Upper(s), i);
    } else {
      assert Upper(s) == s;
    }
  }

  /** A non-empty string that passes isRoman does not pass isArabic. */
  lemma RomanTextNotArabic(s: string)
    requires s != [] && IsRoman(Text(s))
    ensures !IsArabic(Text(s))
  {
    IsRomanLetters(Text(s));
    var c := Upper(s)[0];
    assert IsLetter(c);
    if !('a' <= s[0] <= 'z') {
      assert s[0] == c;
    }
    LetterIsNotNumberChar(s[0]);
    TextIntegerRejects(s, 0);
  }

  /** The empty string passes both checks: it converts to 0 and has no letter outside the class. */
  lemma EmptyTextIsBoth()
    ensures NumericValue(Text("")) == Some(0) && IsArabic(Text(""))
    ensures IsRoman(Text(""))
  {
  }

  /** The decimal digits of n, most significant first, with no leading zero. */
  function NatString(n: nat): (s: string)
    ensures s != [] && AllDigits(s)
    decreases n
  {
    if n < 10 then [DigitChar(n)] else NatString(n / 10) + [DigitChar(n % 10)]
  }

  /** The decimal text of an integer, with a minus sign when it is negative. */
  function DecimalString(n: int): (s: string)
    ensures s != []
  {
    if n < 0 then "-" + NatString(-n) else NatString(n)
  }

  /** Reading back the digits of n gives n. */
  lemma {:induction false} NatStringValue(n: nat)
    ensures DigitsValue(NatString(n)) == n
  {
    var s := NatString(n);
    if n >= 10 {
      NatStringValue(n / 10);
      assert s[..|s| - 1] == NatString(n / 10);
    }
  }

  /** A string of digits is an unsigned integer literal worth its digits' value. */
  lemma UnsignedIntegerOfDigits(t: string)
    requires t != [] && AllDigits(t)
    ensures UnsignedInteger(t) == Some(DigitsValue(t))
  {
    assert forall i :: 0 <= i < |t| ==> t[i] != '.';
    assert Find(t, '.') == |t|;
  }

  /** A string with no white space at either end is its own trimmed form. */
  lemma TrimUnpadded(s: string)
    requires s != [] && !IsWhiteSpace(s[0]) && !IsWhiteSpace(s[|s| - 1])
    ensures Trim(s) == s
  {
  }

  /** Digits are not white space. */
  lemma DigitsUnpadded(s: string)
    requires s != [] && AllDigits(s)
    ensures !IsWhiteSpace(s[0]) && !IsWhiteSpace(s[|s| - 1])
  {
    assert IsDigit(s[0]) && IsDigit(s[|s| - 1]);
  }

  /** The decimal text of any integer converts back to that integer. */
  lemma DecimalRoundTrip(n: int)
    ensures NumericValue(Text(DecimalString(n))) == Some(n)
  {
    var m: nat := if n < 0 then -n else n;
    NatStringValue(m);
    if n < 0 {
      NegativeDigitsText(NatString(m));
    } else {
      DigitsText(NatString(m));
    }
  }

  /** A run of digits converts to its value. */
  lemma DigitsText(t: string)
    requires t != [] && AllDigits(t)
    ensures TextInteger(t) == Some(DigitsValue(t))
  {
    UnsignedIntegerOfDigits(t);
    DigitsUnpadded(t);
    TrimUnpadded(t);
    assert IsDigit(t[0]);
  }

  /** A minus sign followed by a run of digits converts to the negated value. */
  lemma NegativeDigitsText(t: string)
    requires t != [] && AllDigits(t)
    ensures TextInteger("-" + t) == Some(-(DigitsValue(t) as int))
  {
    UnsignedIntegerOfDigits(t);
    MinusUnpadded(t);
    MinusText(t, DigitsValue(t));
  }

  /** A minus sign before text with nothing to trim converts to the negated value of that text. */
  lemma MinusText(t: string, v: int)
    requires Trim("-" + t) == "-" + t && UnsignedInteger(t) == Some(v)
    ensures TextInteger("-" + t) == Some(-v)
  {
    MinusSplit(t);
  }

  /** A minus sign before t is followed by exactly t. */
  lemma MinusSplit(t: string)
    ensures |"-" + t| == |t| + 1 && ("-" + t)[0] == '-' && ("-" + t)[1..] == t
  {
  }

  /** A minus sign followed by a run of digits has no white space to trim. */
  lemma MinusUnpadded(t: string)
    requires t != [] && AllDigits(t)
    ensures Trim("-" + t) == "-" + t
  {
    DigitsUnpadded(t);
    var s := "-" + t;
    assert s[0] == '-' && s[|s| - 1] == t[|t| - 1];
    TrimUnpadded(s);
  }

  /** Leading white space before a string that does not start with white space is stripped. */
  lemma TrimStartPadded(pre: string, t: string)
    requires forall i :: 0 <= i < |pre| ==> IsWhiteSpace(pre[i])
    requires t != [] && !IsWhiteSpace(t[0])
    ensures TrimStart(pre + t) == t
  {
    var x := pre + t;
    var r := TrimStart(x);
    assert forall i :: 0 <= i < |pre| ==> IsWhiteSpace(x[i]);
    assert !IsWhiteSpace(x[|pre|]);
    assert |r| == |t|;
    assert x[|pre|..] == t;
  }

  /** Trailing white space after a string that does not end with white space is stripped. */
  lemma TrimEndPadded(t: string, post: string)
    requires t != [] && !IsWhiteSpace(t[|t| - 1])
    requires forall i :: 0 <= i < |post| ==> IsWhiteSpace(post[i])
    ensures TrimEnd(t + post) == t
  {
    var x := t + post;
    var e := TrimEnd(x);
    assert forall i :: |t| <= i < |x| ==> IsWhiteSpace(x[i]);
    assert !IsWhiteSpace(x[|t| - 1]);
    assert |e| == |t|;
    assert x[..|t|] == t;
  }

  /** White space around a string that neither starts nor ends with white space does not matter. */
  lemma PaddingIgnored(pre: string, s: string, post: string)
    requires forall i :: 0 <= i < |pre| ==> IsWhiteSpace(pre[i])
    requires forall i :: 0 <= i < |post| ==> IsWhiteSpace(post[i])
    requires s != [] && !IsWhiteSpace(s[0]) && !IsWhiteSpace(s[|s| - 1])
    ensures Trim(pre + s + post) == s && TextInteger(pre + s + post) == TextInteger(s)
  {
    var x := pre + s + post;
    assert x == pre + (s + post);
    assert (s + post)[0] == s[0];
    TrimStartPadded(pre, s + post);
    TrimEndPadded(s, post);
    TrimUnpadded(s);
    SameTrim(x, s);
  }

  /** The conversion of a string depends only on its trimmed form. */
  lemma SameTrim(x: string, s: string)
    requires Trim(x) == Trim(s)
    ensures TextInteger(x) == TextInteger(s)
  {
  }

  /** A leading plus sign before digits changes nothing. */
  lemma PlusSignIgnored(digits: string)
    requires digits != [] && AllDigits(digits)
    ensures TextInteger("+" + digits) == Some(DigitsValue(digits))
  {
    var s := "+" + digits;
    DigitsUnpadded(digits);
    assert s[0] == '+' && s[|s| - 1] == digits[|digits| - 1] && s[1..] == digits;
    TrimUnpadded(s);
    UnsignedIntegerOfDigits(digits);
  }

  /** In whole.fraction the point is the first point. */
  lemma PointAt(whole: string, fraction: string)
    requires AllDigits(whole)
    ensures var t := whole + "." + fraction;
      Find(t, '.') == |whole| && t[..|whole|] == whole && t[|whole| + 1..] == fraction
  {
    var t := whole + "." + fraction;
    assert t[|whole|] == '.';
    assert forall i :: 0 <= i < |whole| ==> t[i] == whole[i] && t[i] != '.';
  }

  /** A decimal fraction is an integer exactly when its decimals are all zero. */
  lemma FractionInteger(whole: string, fraction: string)
    requires AllDigits(whole) && AllDigits(fraction) && |whole| + |fraction| > 0
    ensures UnsignedInteger(whole + "." + fraction) ==
      if AllZeros(fraction) then Some(DigitsValue(whole)) else None
  {
    PointAt(whole, fraction);
  }

  /** A digit string is Arabic, with its decimal value, and not Roman. */
  lemma DigitTextExample()
    ensures NumericValue(Text("2023")) == Some(2023) && !IsRoman(Text("2023"))
  {
    assert !IsRoman(Text("2023")) by { assert Upper("2023")[0] == '2'; }
    assert NumericValue(Text("2023")) == Some(2023) by {
      assert DecimalString(2023) == "2023";
      DecimalRoundTrip(2023);
    }
  }

  /** A plus sign is dropped. */
  lemma PlusSevenExample()
    ensures NumericValue(Text("+7")) == Some(7)
  {
    assert DecimalString(7) == "7";
    NatStringValue(7);
    assert "+7" == "+" + "7";
    PlusSignIgnored("7");
  }

  /** A minus sign negates. */
  lemma MinusThreeExample()
    ensures NumericValue(Text("-3")) == Some(-3)
  {
    assert "-" + "3" == "-3";
    ThreeDigits();
    NegativeDigitsText("3");
  }

  /** The digit string 3 has the value 3. */
  lemma ThreeDigits()
    ensures AllDigits("3") && DigitsValue("3") == 3
  {
    assert "3"[..0] == [];
  }

  /** A string that starts with a digit and does not end with white space converts as an unsigned literal. */
  lemma UnsignedText(t: string)
    requires t != [] && IsDigit(t[0]) && !IsWhiteSpace(t[|t| - 1])
    ensures TextInteger(t) == UnsignedInteger(t)
  {
    TrimUnpadded(t);
  }

  /** A decimal fraction whose decimals are all zero is an integer. */
  lemma ZeroFractionExample()
    ensures NumericValue(Text("5.00")) == Some(5)
  {
    assert UnsignedInteger("5.00") == Some(5) by {
      assert "5.00" == "5" + "." + "00";
      assert DigitsValue("5") == 5;
      FractionInteger("5", "00");
    }
    UnsignedText("5.00");
  }

  /** A true fraction is not Arabic. */
  lemma FractionExample()
    ensures !IsArabic(Text("1.5"))
  {
    assert UnsignedInteger("1.5") == None by {
      assert "1.5" == "1" + "." + "5";
      assert "5"[0] != '0';
      FractionInteger("1", "5");
    }
    UnsignedText("1.5");
  }

  /** A word over other letters is not Arabic. */
  lemma WordNotArabicExample()
    ensures !IsArabic(Text("ABC"))
  {
    LetterIsNotNumberChar('A');
    TextIntegerRejects("ABC", 0);
  }

  /** A word over other letters is not Roman either. */
  lemma WordNotRomanExample()
    ensures !IsRoman(Text("ABC"))
  {
    assert Upper("ABC")[0] == 'A';
  }
}
