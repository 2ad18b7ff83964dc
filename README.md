# Roman numeral converter, modelled in Dafny

`source/roman.js` converts between Arabic integers and Roman numerals. It has
four parts, and each is a module here:

- **Tables** (`tables.dfy`) holds the constant tables.
  - `romanToArabicDic` and its inverse `arabicToRomanDic`.
  - The descending letter values `romanNums`.
  - The four-letter runs `roman4Symbols`.
- **Encoder** (`encoder.dfy`) models `translateArabicToRoman`.
  - The greedy loop appends letters, largest value first. The `--i` rewind keeps it at the same value while the value still fits.
  - A pass over `roman4Symbols` then works from index 2 on. At each index it first replaces the next-larger letter followed by the four-run with the letter followed by the letter two places up (`DCCCC` becomes `CM`). It next replaces a remaining four-run with the letter followed by the next-larger letter (`CCCC` becomes `CD`).
  - At indices 3 and 5 the patterns are `CLLLL`→`LD`, `LLLL`→`LC`, `XVVVV`→`VL` and `VVVV`→`VX`. These are not subtractive pairs, and the greedy letters never contain them, so those iterations change nothing (`FiveLetterStep`).
  - Both loops are imperative methods: `GreedyPhase` and `TranslateArabicToRoman`. They are proved against the functions `GreedyFrom` and `ArabicToRoman`.
  - `ArabicToRoman` is proved equal to the standard numeral `CanonicalForm` for every n >= 0.
  - The round trip and the four-run property follow from that equality.
- **Decoder** (`decoder.dfy`) models `translateRomanToArabic`.
  - It upper-cases the input, then makes one pass with one letter of lookahead.
  - A letter is subtracted exactly when the next letter is worth more.
  - The last letter is compared with itself, so it is always added.
  - The loop is the method `TranslateRomanToArabic`. Its specification is the function `RomanToArabic`.
- **Validation** (`validation.dfy`) models `isArabic` and `isRoman`.
  - An input is an integer number, any other number, or a string.
  - A string is converted to a number the way `+s` is for decimal text: white space is trimmed, `""` is 0, and there may be a sign, a decimal point and decimals.
  - Whether the result is an integer decides `isArabic`.
  - `isRoman` tests the upper-cased string against the class `[MDCLXVI]`.
- **Converter** (`converter.dfy`) models `roman`.
  - An in-range Arabic input is encoded.
  - Otherwise a string that passes `isRoman` is decoded.
  - Anything else gives `Err("Error, wrong input format")`.
  - `Convert` is the function.
  - `Roman` is the method that calls the two translation loops.

`wrappers.dfy` holds the `Option` and `Result` types. `strings.dfy` holds the string operations:
- `String.prototype.replace` with a string pattern, as `ReplaceFirst`.
- `toUpperCase` on ASCII letters, as `Upper`.

## Model

| member | source | states |
|---|---|---|
| Tables.Value | source/roman.js:7-15 | every letter's value is one of the seven values of romanNums |
| Tables.Symbol | source/roman.js:30 | looking a value up in the inverse table gives the letter with that value |
| Tables.InverseTables | source/roman.js:7-30 | arabicToRomanDic has the forward values as keys and the forward keys as values; each lookup undoes the other; the forward map is injective |
| Tables.RomanNumsDescending | source/roman.js:32-37 | romanNums is strictly decreasing and holds exactly the keys of arabicToRomanDic |
| Strings.ReplaceFirstAbsent | source/roman.js:66-68 | replace changes nothing when the string has fewer copies of some letter than the pattern |
| Strings.ReplaceFirstSkipsPrefix | source/roman.js:66-68 | replace leaves alone a prefix without the pattern's first letter and works on the rest |
| Strings.ReplaceFirstAtStart | source/roman.js:66-68 | a pattern at the start is replaced there, and the rest is kept |
| Strings.ReplaceFirstOccurrence | source/roman.js:66-68 | when the pattern occurs at k and nowhere earlier, replace substitutes exactly that occurrence and keeps the text before and after it |
| Strings.ReplaceFirstNone | source/roman.js:66-68 | when the pattern occurs nowhere, replace returns the string unchanged |
| Strings.ReplaceFirstLetters | source/roman.js:66-68 | every letter of the result comes from the string or from the replacement |
| Strings.Upper | source/roman.js:81 | upper-casing keeps the length and maps each character: a-z to A-Z, all others unchanged; the properties used about it are UpperIdempotent, Decoder.UpperOfLetters and Decoder.RomanToArabicIgnoresCase |
| Strings.UpperIdempotent | source/roman.js:120 | upper-casing twice is upper-casing once |
| Decoder.SignedValue | source/roman.js:90-93 | a letter counts plus or minus its value, and minus exactly when the next letter is worth more |
| Decoder.DecodeConcat | source/roman.js:89-94 | decoding x + y adds the two decodings, except that x's last letter is subtracted, not added, when y's first letter is worth more |
| Decoder.DecodeJoin | source/roman.js:89-94 | when the letter that ends x is worth at least the letter that starts y, decoding x + y adds the decodings |
| Decoder.DecodeRep | source/roman.js:89-94 | a run of k copies of a letter decodes to k times its value |
| Decoder.DecodeNonIncreasing | source/roman.js:89-94 | when letter values never increase, decoding is the plain sum of the values |
| Decoder.SumAppend | source/roman.js:59-60 | appending a letter adds its value to the plain sum |
| Decoder.UpperOfLetters | source/roman.js:81 | upper-casing a string of Roman letters changes nothing |
| Decoder.RomanToArabic | source/roman.js:80-97 | the empty string decodes to 0 |
| Decoder.RomanToArabicIgnoresCase | source/roman.js:81 | the upper-cased input decodes to the same number |
| Decoder.TranslateRomanToArabic | source/roman.js:80-97 | the accumulating loop computes RomanToArabic |
| Decoder.DecodeExamples | source/roman.js:80-97 | "" is 0, the lower-case "xciv" is 94, and the non-standard "IIII", "IIX" and "IM" are 4, 10 and 999 |
| Decoder.DecodeXciv | source/roman.js:89-94 | XCIV decodes to 94: X before C and I before V are subtracted |
| Decoder.DecodeIIII | source/roman.js:89-94 | the non-standard IIII decodes to 4 |
| Decoder.DecodeIIX | source/roman.js:89-94 | in IIX only the I before the X is subtracted, giving 10 |
| Decoder.DecodeIM | source/roman.js:89-94 | the non-standard IM decodes to 999 |
| Decoder.DecodeSuffix | source/roman.js:89-94 | each loop step adds the signed value of letter i, judged against letter i + 1, to the decoding of the rest |
| Encoder.GreedyRun | source/roman.js:57-62 | with q copies of ROMAN_NUMS[i] and a smaller remainder left, the loop writes q copies of that letter, then moves to index i + 1 |
| Encoder.GreedyLast | source/roman.js:57-62 | at the last index the loop writes one I per unit left |
| Encoder.GreedyPlace | source/roman.js:57-62 | at a five-letter followed by its one-letter, the loop writes h five-letters and e one-letters and moves two indices on |
| Encoder.GreedyDigits | source/roman.js:57-62 | from the start, the loop spells the thousands and then each lower decimal digit in turn |
| Encoder.GreedyTake | source/roman.js:58-60 | appending the current letter while its value still fits keeps the loop invariant: the letters never increase in value, and they plus what is left make up n |
| Encoder.GreedySkip | source/roman.js:58-61 | moving to the next index when the value no longer fits keeps the loop invariant, and the index stays in range while anything is left |
| Encoder.GreedyClosedForm | source/roman.js:57-62 | the greedy letters are the M's for the thousands, then for each lower digit d one five-letter if d >= 5 and d mod 5 one-letters |
| Encoder.GreedyCounts | source/roman.js:57-62 | the exact number of each letter in the greedy output, in terms of the decimal digits of n |
| Encoder.GreedyBounds | source/roman.js:57-62 | for n <= 3999 there are at most 3 M, at most one each of D, L and V, and at most 4 each of C, X and I |
| Encoder.GuardHarmless | source/roman.js:64-68 | for n <= 3999 the greedy output contains none of MMMM, DDDD and MDDDD, the patterns of the two iterations the i >= 2 guard skips, so a search for any of them, with any replacement, changes nothing (without the guard, iteration 0 would read `roman4Symbols[-1]` and throw) |
| Encoder.RewriteStepPatterns | source/roman.js:64-70 | iterations 0 and 1 change nothing; iterations 2 to 6 replace DCCCC, CLLLL, LXXXX, XVVVV and VIIII with CM, LD, XC, VL and IX, then CCCC, LLLL, XXXX, VVVV and IIII with CD, LC, XL, VX and IV |
| Encoder.FiveLetterStep | source/roman.js:64-70 | iterations 3 (L) and 5 (V) change nothing when the string holds fewer than four of that letter |
| Encoder.DigitRewrite | source/roman.js:66-68 | the two replacements of one iteration turn the greedy letters of one digit into its standard numeral, when neither letter occurs around it |
| Encoder.RewriteHundreds | source/roman.js:64-70 | after iterations 0 to 3 the hundreds are in standard form |
| Encoder.RewriteTens | source/roman.js:64-70 | iterations 4 and 5 put the tens into standard form |
| Encoder.RewriteUnits | source/roman.js:64-70 | iteration 6 puts the units into standard form |
| Encoder.EncodeClosedForm | source/roman.js:50-73 | for every n >= 0 the encoder gives the standard numeral: n div 1000 M's, then each lower digit written as 9 = one-ten, 4 = one-five, otherwise a five-letter if d >= 5 followed by d mod 5 one-letters |
| Encoder.DecodeCanonicalDigit | source/roman.js:89-94 | the standard numeral of a digit d decodes to d times its one-letter's value and starts with its one- or five-letter |
| Encoder.DecodeCanonicalForm | source/roman.js:80-97 | the standard numeral of n is made of Roman letters and decodes to n |
| Encoder.RoundTrip | source/roman.js:45-97 | the encoder's output is upper-case Roman letters, and decoding it gives back n, for every n >= 0 |
| Encoder.NoFourRunJoin | source/roman.js:64-72 | two strings without a four-run stay without one when the letters at the join differ |
| Encoder.NoFourRunRep | source/roman.js:64-72 | a run of k copies of one letter is free of four-runs exactly when k <= 3 |
| Encoder.NoFourRunCanonicalDigit | source/roman.js:64-72 | the standard numeral of a digit has no four-run |
| Encoder.EncodeNoFourRun | source/roman.js:50-73 | the encoder's output repeats no letter four times in a row exactly when n <= 3999 |
| Encoder.GreedyPhase | source/roman.js:57-62 | the loop ends and yields GreedyFrom(0, n); the letters it appends sum to n and never increase in value |
| Encoder.TranslateArabicToRoman | source/roman.js:50-73 | the two loops compute ArabicToRoman(n), which is the standard numeral; it decodes to n and is free of four-runs exactly when n <= 3999 |
| Encoder.EncodePairExamples | source/roman.js:50-73 | 1, 4, 9, 40, 90, 400 and 900 give I, IV, IX, XL, XC, CD and CM |
| Encoder.EncodeDigits | source/roman.js:50-73 | for a number given by its digits, the encoder writes the M's and then the standard numeral of each lower digit |
| Encoder.Encode1994 | source/roman.js:50-73 | 1994 gives MCMXCIV |
| Encoder.Encode2023 | source/roman.js:50-73 | 2023 gives MMXXIII |
| Encoder.Encode3999 | source/roman.js:50-73 | 3999 gives MMMCMXCIX |
| Encoder.Encode4000 | source/roman.js:50-73 | 4000 gives MMMM, a four-run, because nothing rewrites runs of M |
| Encoder.DecodeMcmxciv | source/roman.js:80-97 | MCMXCIV and mcmxciv both decode to 1994 |
| Validation.TrimStart | source/roman.js:104 | strips exactly the white space at the front: what is dropped is white space, and what is kept starts with something else |
| Validation.TrimEnd | source/roman.js:104 | strips exactly the white space at the end |
| Validation.IsRomanLetters | source/roman.js:111-121 | isRoman is false for any input that is not a string; for a string it holds exactly when every upper-cased character is a Roman letter |
| Validation.RomanCharsAreLetters | source/roman.js:119 | the pattern's character class is exactly the set of keys of romanToArabicDic |
| Validation.IsRomanIgnoresCase | source/roman.js:120 | isRoman gives the same answer for a string and its upper-cased form |
| Validation.TextIntegerRejects | source/roman.js:104 | a string holding a character that is not white space, a digit, a sign or a point does not convert to an integer |
| Validation.TextIntegerIgnoresCase | source/roman.js:104 | upper-casing a string changes neither whether it converts to an integer nor to which one |
| Validation.RomanTextNotArabic | source/roman.js:104-121 | a non-empty string that passes isRoman fails isArabic |
| Validation.EmptyTextIsBoth | source/roman.js:104-121 | "" converts to 0, so it passes isArabic, and it also passes isRoman |
| Validation.DecimalRoundTrip | source/roman.js:104 | the decimal text of any integer converts back to that integer |
| Validation.DigitsText | source/roman.js:104 | a run of digits converts to its decimal value |
| Validation.NegativeDigitsText | source/roman.js:104 | a minus sign followed by digits converts to the negated value |
| Validation.MinusText | source/roman.js:104 | a leading minus negates the value of the rest when there is nothing to trim |
| Validation.PaddingIgnored | source/roman.js:104 | white space around an unpadded string does not change its conversion |
| Validation.PlusSignIgnored | source/roman.js:104 | "+" before digits gives the value of the digits |
| Validation.FractionInteger | source/roman.js:104 | whole.fraction converts to an integer exactly when the fraction digits are all zero, and then to the value of the whole part |
| Validation.DigitTextExample | source/roman.js:104-121 | "2023" is Arabic with value 2023, and is not Roman |
| Validation.PlusSevenExample | source/roman.js:104 | "+7" converts to 7 |
| Validation.MinusThreeExample | source/roman.js:104 | "-3" converts to -3 |
| Validation.ZeroFractionExample | source/roman.js:104 | "5.00" converts to the integer 5 |
| Validation.FractionExample | source/roman.js:104 | "1.5" is not Arabic |
| Validation.WordNotArabicExample | source/roman.js:104 | "ABC" is not Arabic |
| Validation.WordNotRomanExample | source/roman.js:111-121 | "ABC" is not Roman |
| Converter.ConvertDispatch | source/roman.js:128-138 | an in-range Arabic input gives the encoder's numeral, which decodes back to the input and has no four-run; otherwise a string passing isRoman gives the decoder's number; everything else gives the wrong-input-format error; the three outcomes exclude one another |
| Converter.Roman | source/roman.js:128-138 | the method built on the two translation loops returns Convert(x) |
| Converter.EncodedNonEmpty | source/roman.js:131-132 | a number from 1 up is encoded as a non-empty numeral |
| Converter.ConvertRoundTrip | source/roman.js:131-135 | every n in 1..3999 is encoded, and handing the numeral back gives n |
| Converter.DecimalNotRoman | source/roman.js:111-121 | the decimal text of an integer never passes isRoman |
| Converter.ConvertDecimalText | source/roman.js:131-137 | a number and its decimal text convert alike |
| Converter.ChecksIgnoreCase | source/roman.js:131-134 | the range test and isRoman give the same answer for a string and its upper-cased form |
| Converter.ConvertIgnoresCase | source/roman.js:131-137 | a string and its upper-cased form convert alike |
| Converter.NumberErrorExamples | source/roman.js:131-137 | 0, 4000, -1 and a non-integer number are rejected with the error |
| Converter.WordErrorExample | source/roman.js:131-137 | "ABC" is rejected with the error |
| Converter.EmptyTextExample | source/roman.js:131-135 | "" gives the number 0 |
| Converter.EncodeExample | source/roman.js:131-132 | 1994 gives MCMXCIV |
| Converter.DigitTextConvertExample | source/roman.js:131-132 | the text "2023" is encoded as MMXXIII, not rejected |

## Left out

- Validation.TextInteger: converting a string to a number is modelled only for decimal text. This means:
  - An optional sign.
  - Digits with an optional decimal point and decimals.
  - White space trimmed at both ends.
  - The empty string, which converts to 0.

  Hexadecimal, binary and octal prefixes (`"0x10"`) and exponents (`"1e3"`) make JavaScript produce an integer, but the model says "not an integer". White space outside the listed ASCII and line separators is also not trimmed.
- Validation.Input: numbers are given as already classified, either an integer or not. Floating-point rounding, such as a long decimal rounding to an integer, is not modelled. Booleans, `null`, arrays and objects, which `+x` also converts, are not inputs of the model.
- Strings.Upper: upper-casing covers ASCII only. JavaScript's Unicode case mapping also turns, for example, the dotless ı into I.
- Tables.ROMAN_NUMS: `Object.keys(...).reverse()` yields strings that JavaScript coerces back to numbers. The model holds the integers directly. `arabicToRomanDic` is written out, and `InverseTables` proves it is the inverse of `romanToArabicDic` rather than computing it.
- Encoder.GreedyPhase and Encoder.TranslateArabicToRoman require `arabicN >= 0`. For a negative input the source's loop never ends: the index runs past `romanNums` and compares against `NaN`. A positive non-integer input also never reaches 0. `roman` calls the encoder only for 1..3999.
- Decoder.RomanToArabic and Decoder.TranslateRomanToArabic require the upper-cased input to hold only Roman letters. On other characters the source looks up `undefined` and returns `NaN`. `roman` calls the decoder only after `isRoman` holds.
- The error is `Err(WRONG_INPUT_FORMAT)`, carrying the message of the `TypeError` that line 137 throws. The exception class is not modelled. The `FormatError` commented out at line 129 plays no part.
- The empty template literal at line 63 does nothing and is not modelled.
