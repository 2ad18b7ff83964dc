/**
 * roman: the converter's entry point. An in-range Arabic input (an integer
 * from 1 to 3999, as a number or as text) is encoded; otherwise a string
 * that passes isRoman is decoded; anything else is rejected.
 */
module Converter {
  import opened Wrappers
  import opened Tables
  import opened Strings
  import opened Decoder
  import opened Encoder
  import opened Validation

  /** What a conversion returns: a Roman numeral or an Arabic number. */
  datatype Output = RomanNumeral(numeral: string) | ArabicNumber(number: int)

  /** The message of the error raised for any other input. */
  const WRONG_INPUT_FORMAT: string := "Error, wrong input format"

  /** The encoder's range test: isArabic and 1 <= +input <= 3999. */
  predicate InRange(x: Input) {
    IsArabic(x) && 1 <= NumericValue(x).value <= 3999
  }

  /** roman as a value. */
  function Convert(x: Input): Result<Output, string> {
    if InRange(x) then
      Ok(RomanNumeral(ArabicToRoman(NumericValue(x).value)))
    else if IsRoman(x) then
      IsRomanLetters(x);
      Ok(ArabicNumber(RomanToArabic(x.chars)))
    else
      Err(WRONG_INPUT_FORMAT)
  }

  /**
   * The dispatch of roman: an in-range Arabic input gives a numeral that
   * decodes back to it and repeats no letter four times; otherwise a string
   * passing isRoman gives its decoding; everything else gives the error, and
   * the three outcomes are exclusive.
   */
  lemma ConvertDispatch(x: Input)
    ensures Convert(x).Ok? && Convert(x).value.RomanNumeral? <==> InRange(x)
    ensures Convert(x).Ok? && Convert(x).value.RomanNumeral? ==>
      var n, numeral := NumericValue(x).value, Convert(x).value.numeral;
      numeral == ArabicToRoman(n) && AllLetters(Upper(numeral))
      && RomanToArabic(numeral) == n && NoFourRun(numeral)
    ensures Convert(x).Ok? && Convert(x).value.ArabicNumber? <==> !InRange(x) && IsRoman(x)
    ensures Convert(x).Ok? && Convert(x).value.ArabicNumber? ==>
      AllLetters(Upper(x.chars)) && Convert(x).value.number == RomanToArabic(x.chars)
    ensures Convert(x).Err? <==> !InRange(x) && !IsRoman(x)
    ensures Convert(x).Err? ==> Convert(x).error == WRONG_INPUT_FORMAT
  {
    if InRange(x) {
      RoundTrip(NumericValue(x).value);
      EncodeNoFourRun(NumericValue(x).value);
    } else if IsRoman(x) {
      IsRomanLetters(x);
    }
  }

  /** roman, calling the two translation loops. */
  method Roman(x: Input) returns (r: Result<Output, string>)
    ensures r == Convert(x)
  {
    if IsArabic(x) && 1 <= NumericValue(x).value <= 3999 {
      var numeral := TranslateArabicToRoman(NumericValue(x).value);
      return Ok(RomanNumeral(numeral));
    }
    if IsRoman(x) {
      IsRomanLetters(x);
      var number := TranslateRomanToArabic(x.chars);
      return Ok(ArabicNumber(number));
    }
    return Err(WRONG_INPUT_FORMAT);
  }

  /** The numeral of a positive number is not empty, since it decodes to that number. */
  lemma EncodedNonEmpty(n: nat)
    requires n >= 1
    ensures ArabicToRoman(n) != []
  {
    RoundTrip(n);
  }

  /**
   * Every number from 1 to 3999 is encoded, and its numeral, given back to
   * the converter, is decoded to the same number.
   */
  lemma ConvertRoundTrip(n: int)
    requires 1 <= n <= 3999
    ensures Convert(Integer(n)) == Ok(RomanNumeral(ArabicToRoman(n)))
    ensures Convert(Text(ArabicToRoman(n))) == Ok(ArabicNumber(n))
  {
    var s := ArabicToRoman(n);
    RoundTrip(n);
    EncodedNonEmpty(n);
    IsRomanLetters(Text(s));
    RomanTextNotArabic(s);
  }

  /** Decimal text is never Roman: it ends with a digit. */
  lemma DecimalNotRoman(n: int)
    ensures !IsRoman(Text(DecimalString(n)))
  {
    var s := DecimalString(n);
    var m: nat := if n < 0 then -n else n;
    assert s[|s| - 1] == NatString(m)[|NatString(m)| - 1];
    assert IsDigit(s[|s| - 1]) && Upper(s)[|s| - 1] == s[|s| - 1];
  }

  /** A number and its decimal text convert alike. */
  lemma ConvertDecimalText(n: int)
    ensures Convert(Text(DecimalString(n))) == Convert(Integer(n))
  {
    DecimalRoundTrip(n);
    DecimalNotRoman(n);
  }

  /** Both input checks ignore case. */
  lemma ChecksIgnoreCase(s: string)
    ensures NumericValue(Text(Upper(s))) == NumericValue(Text(s))
    ensures InRange(Text(Upper(s))) == InRange(Text(s))
    ensures IsRoman(Text(Upper(s))) == IsRoman(Text(s))
  {
    TextIntegerIgnoresCase(s);
    IsRomanIgnoresCase(s);
  }

  /** Conversion ignores case. */
  lemma ConvertIgnoresCase(s: string)
    ensures Convert(Text(Upper(s))) == Convert(Text(s))
  {
    ChecksIgnoreCase(s);
    if !InRange(Text(s)) && IsRoman(Text(s)) {
      IsRomanLetters(Text(s));
      RomanToArabicIgnoresCase(s);
    }
  }

  /** Numbers outside 1..3999, and numbers that are not integers, are rejected. */
  lemma NumberErrorExamples()
    ensures Convert(Integer(0)) == Err(WRONG_INPUT_FORMAT)
    ensures Convert(Integer(4000)) == Err(WRONG_INPUT_FORMAT)
    ensures Convert(Integer(-1)) == Err(WRONG_INPUT_FORMAT)
    ensures Convert(NonInteger) == Err(WRONG_INPUT_FORMAT)
  {
  }

  /** A word that is neither a number nor a numeral is rejected. */
  lemma WordErrorExample()
    ensures Convert(Text("ABC")) == Err(WRONG_INPUT_FORMAT)
  {
    WordNotArabicExample();
    WordNotRomanExample();
  }

  /** The empty string passes isRoman and decodes to 0. */
  lemma EmptyTextExample()
    ensures Convert(Text("")) == Ok(ArabicNumber(0))
  {
    EmptyTextIsBoth();
  }

  /** 1994 is encoded as MCMXCIV. */
  lemma EncodeExample()
    ensures Convert(Integer(1994)) == Ok(RomanNumeral("MCMXCIV"))
  {
    Encode1994();
  }

  /** Text holding 2023 is Arabic, so it is encoded rather than rejected. */
  lemma DigitTextConvertExample()
    ensures Convert(Text("2023")) == Ok(RomanNumeral("MMXXIII"))
  {
    DigitTextExample();
    Encode2023();
  }
}
