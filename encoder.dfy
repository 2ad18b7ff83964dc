/**
 * translateArabicToRoman: a greedy phase that appends letters largest value
 * first, followed by a rewrite phase that turns four-letter runs into the
 * subtractive pairs.
 */
module Encoder {
  import opened Tables
  import opened Strings
  import opened Decoder

  /**
   * The letters the greedy phase appends for the remaining amount rem when
   * its walk over ROMAN_NUMS stands at index i.
   */
  function GreedyFrom(i: nat, rem: nat): string
    requires i < |ROMAN_NUMS|
    decreases rem, |ROMAN_NUMS| - i
  {
    if rem == 0 then []
    else if rem >= ROMAN_NUMS[i] then [Symbol(ROMAN_NUMS[i])] + GreedyFrom(i, rem - ROMAN_NUMS[i])
    else GreedyFrom(i + 1, rem)
  }

  /**
   * At index i, with q copies of ROMAN_NUMS[i] and a remainder below it to
   * go, the greedy phase emits a run of q copies of that letter and then
   * moves on to the next index with the remainder.
   */
  lemma {:induction false} GreedyRun(i: nat, v: nat, amount: nat, q: nat, r: nat)
    requires i < |ROMAN_NUMS| - 1 && v == ROMAN_NUMS[i] && r < v && amount == q * v + r
    ensures GreedyFrom(i, amount) == Rep(Symbol(v), q) + GreedyFrom(i + 1, r)
  {
    if q > 0 {
      assert amount - v == (q - 1) * v + r;
      GreedyRun(i, v, amount - v, q - 1, r);
    }
  }

  /** At the last index, value 1, the greedy phase emits rem copies of I. */
  lemma {:induction false} GreedyLast(rem: nat)
    ensures GreedyFrom(|ROMAN_NUMS| - 1, rem) == Rep('I', rem)
  {
    if rem > 0 {
      GreedyLast(rem - 1);
    }
  }

  /** A number is its thousands and its last three decimal digits. */
  lemma Digits(n: nat)
    ensures n == 1000 * (n / 1000) + 100 * (n / 100 % 10) + 10 * (n / 10 % 10) + n % 10
  {
    var m1 := n / 10;
    var m2 := m1 / 10;
    DivTen(n, m1);
    DivTen(n / 10, m2);
    assert n / 100 == m2 by {
      assert n == 100 * m2 + (10 * (m1 % 10) + n % 10);
    }
    assert n / 1000 == m2 / 10 by {
      assert n == 1000 * (m2 / 10) + (100 * (m2 % 10) + 10 * (m1 % 10) + n % 10);
    }
  }

  /** Division of a natural number by ten, with its remainder. */
  lemma DivTen(n: nat, q: nat)
    requires q == n / 10
    ensures n == 10 * q + n % 10 && n % 10 < 10
  {
  }

  /** The greedy letters for one decimal digit d: a run of the five-letter, then of the one-letter. */
  function GreedyDigit(d: nat, one: char, five: char): string
    requires d <= 9
  {
    Rep(five, d / 5) + Rep(one, d % 5)
  }

  /** The thousands as a run of M, then the greedy letters of each lower decimal digit. */
  function GreedyForm(n: nat): string {
    Rep('M', n / 1000) + (GreedyDigit(n / 100 % 10, 'C', 'D')
      + (GreedyDigit(n / 10 % 10, 'X', 'L') + GreedyDigit(n % 10, 'I', 'V')))
  }

  /** From index 0 (M) the greedy phase spells the thousands, then goes on at index 1 (D). */
  lemma GreedyThousands(x: nat, q: nat, r: nat)
    requires r < 1000 && x == q * 1000 + r
    ensures GreedyFrom(0, x) == Rep('M', q) + GreedyFrom(1, r)
  {
    assert ROMAN_NUMS[0] == 1000;
    GreedyRun(0, 1000, x, q, r);
    assert Symbol(ROMAN_NUMS[0]) == 'M';
  }

  /**
   * At an index whose value is five times the next one, the greedy phase
   * emits h copies of the larger letter and e of the smaller one, and goes
   * on two indices further with the remainder.
   */
  lemma GreedyPlace(i: nat, five: nat, one: nat, x: nat, h: nat, e: nat, r: nat)
    requires i + 2 < |ROMAN_NUMS| && five == ROMAN_NUMS[i] && one == ROMAN_NUMS[i + 1]
    requires r < one && e * one + r < five && x == h * five + (e * one + r)
    ensures GreedyFrom(i, x) == (Rep(Symbol(five), h) + Rep(Symbol(one), e)) + GreedyFrom(i + 2, r)
  {
    var m := e * one + r;
    GreedyRun(i, five, x, h, m);
    GreedyRun(i + 1, one, m, e, r);
    ConcatAssoc(Rep(Symbol(five), h), Rep(Symbol(one), e), GreedyFrom(i + 2, r));
  }

  /** From index 1 (D) the greedy phase spells the hundreds digit d, then goes on at index 3 (L). */
  lemma GreedyHundreds(x: nat, d: nat, r: nat)
    requires d <= 9 && r < 100 && x == d * 100 + r
    ensures GreedyFrom(1, x) == GreedyDigit(d, 'C', 'D') + GreedyFrom(3, r)
  {
    assert Symbol(100) == 'C' && Symbol(500) == 'D';
    assert d == 5 * (d / 5) + d % 5;
    GreedyPlace(1, 500, 100, x, d / 5, d % 5, r);
  }

  /** From index 3 (L) the greedy phase spells the tens digit d, then goes on at index 5 (V). */
  lemma GreedyTens(x: nat, d: nat, r: nat)
    requires d <= 9 && r < 10 && x == d * 10 + r
    ensures GreedyFrom(3, x) == GreedyDigit(d, 'X', 'L') + GreedyFrom(5, r)
  {
    assert Symbol(10) == 'X' && Symbol(50) == 'L';
    assert d == 5 * (d / 5) + d % 5;
    GreedyPlace(3, 50, 10, x, d / 5, d % 5, r);
  }

  /** From index 5 (V) the greedy phase spells the units digit d and ends. */
  lemma GreedyUnits(d: nat)
    requires d <= 9
    ensures GreedyFrom(5, d) == GreedyDigit(d, 'I', 'V')
  {
    assert ROMAN_NUMS[5] == 5;
    GreedyRun(5, 5, d, d / 5, d % 5);
    assert Symbol(ROMAN_NUMS[5]) == 'V';
    GreedyLast(d % 5);
  }

  /** The greedy phase, from its start, spells the decimal digits of n one after the other. */
  lemma GreedyDigits(n: nat, a: nat, h: nat, t: nat, o: nat)
    requires h <= 9 && t <= 9 && o <= 9
    requires n == a * 1000 + (h * 100 + (t * 10 + o))
    ensures GreedyFrom(0, n) == Rep('M', a) + (GreedyDigit(h, 'C', 'D') + (GreedyDigit(t, 'X', 'L') + GreedyDigit(o, 'I', 'V')))
  {
    var low := t * 10 + o;
    var rest := h * 100 + low;
    var tens := GreedyDigit(t, 'X', 'L') + GreedyDigit(o, 'I', 'V');
    var hundreds := GreedyDigit(h, 'C', 'D') + tens;
    assert GreedyFrom(3, low) == tens by {
      GreedyTens(low, t, o);
      GreedyUnits(o);
    }
    assert GreedyFrom(1, rest) == hundreds by {
      GreedyHundreds(rest, h, low);
    }
    GreedyThousands(n, a, rest);
  }

  /** The greedy phase, from its start, yields GreedyForm. */
  lemma GreedyClosedForm(n: nat)
    ensures GreedyFrom(0, n) == GreedyForm(n)
  {
    Digits(n);
    GreedyDigits(n, n / 1000, n / 100 % 10, n / 10 % 10, n % 10);
  }

  /**
   * One iteration i of the rewrite loop over ROMAN_4_SYMBOLS: from index 2
   * on, first the next-larger letter followed by the four-run becomes the
   * letter followed by the letter two places up, then a remaining four-run
   * becomes the letter followed by the next-larger letter.
   */
  function RewriteStep(s: string, i: nat): string
    requires i < |ROMAN_4_SYMBOLS|
  {
    if i >= 2 then
      var currSymbol := ROMAN_4_SYMBOLS[i];
      var s1 := ReplaceFirst(s, [ROMAN_4_SYMBOLS[i - 1][0]] + currSymbol, [currSymbol[0], ROMAN_4_SYMBOLS[i - 2][0]]);
      ReplaceFirst(s1, currSymbol, [currSymbol[0], ROMAN_4_SYMBOLS[i - 1][0]])
    else s
  }

  /** The first k iterations of the rewrite loop. */
  function Rewrite(s: string, k: nat): string
    requires k <= |ROMAN_4_SYMBOLS|
  {
    if k == 0 then s else RewriteStep(Rewrite(s, k - 1), k - 1)
  }

  /** translateArabicToRoman as a value: the greedy letters, then every rewrite. */
  function ArabicToRoman(n: nat): string {
    Rewrite(GreedyFrom(0, n), |ROMAN_4_SYMBOLS|)
  }

  /** Every character of s is drawn from letters. */
  predicate Over(s: string, letters: set<char>) {
    forall i :: 0 <= i < |s| ==> s[i] in letters
  }

  /** The standard numeral of one decimal digit d, with the subtractive pairs for 4 and 9. */
  function CanonicalDigit(d: nat, one: char, five: char, ten: char): string
    requires d <= 9
  {
    if d == 9 then [one, ten] else if d == 4 then [one, five] else GreedyDigit(d, one, five)
  }

  /** The standard numeral: a run of M for the thousands, then each lower decimal digit. */
  function CanonicalForm(n: nat): string {
    Rep('M', n / 1000) + (CanonicalDigit(n / 100 % 10, 'C', 'D', 'M')
      + (CanonicalDigit(n / 10 % 10, 'X', 'L', 'C') + CanonicalDigit(n % 10, 'I', 'V', 'X')))
  }

  /** The letters of one greedy digit, and how many of each. */
  lemma GreedyDigitLetters(d: nat, one: char, five: char)
    requires d <= 9 && one != five
    ensures Over(GreedyDigit(d, one, five), {one, five})
    ensures multiset(GreedyDigit(d, one, five))[one] == d % 5
    ensures multiset(GreedyDigit(d, one, five))[five] == d / 5
  {
    RepCount(five, d / 5, one);
    RepCount(five, d / 5, five);
    RepCount(one, d % 5, one);
    RepCount(one, d % 5, five);
  }

  /** The search for the five-letter and a four-run replaces the greedy letters of 9 and nothing else. */
  lemma DigitFirstReplace(pre: string, d: nat, suf: string, one: char, five: char, ten: char)
    requires d <= 9 && one != five
    requires one !in pre && five !in pre && one !in suf && five !in suf
    ensures ReplaceFirst(pre + (GreedyDigit(d, one, five) + suf), [five, one, one, one, one], [one, ten])
            == pre + ((if d == 9 then [one, ten] else GreedyDigit(d, one, five)) + suf)
  {
    var p1, r1 := [five, one, one, one, one], [one, ten];
    var g := GreedyDigit(d, one, five);
    var x := if d == 9 then [one, ten] else g;
    ReplaceFirstSkipsPrefix(pre, g + suf, p1, r1);
    assert ReplaceFirst(g + suf, p1, r1) == x + suf by {
      if d == 9 {
        assert g == p1;
        ReplaceFirstAtStart(p1, suf, r1);
      } else {
        GreedyDigitLetters(d, one, five);
        assert multiset(g + suf) == multiset(g) + multiset(suf);
        if d < 5 {
          ReplaceFirstAbsent(g + suf, p1, r1, five);
        } else {
          ReplaceFirstAbsent(g + suf, p1, r1, one);
        }
      }
    }
  }

  /** The search for a four-run then replaces the greedy letters of 4 and nothing else. */
  lemma DigitSecondReplace(pre: string, d: nat, suf: string, one: char, five: char, ten: char)
    requires d <= 9 && one != five
    requires one !in pre && one !in suf
    ensures ReplaceFirst(pre + ((if d == 9 then [one, ten] else GreedyDigit(d, one, five)) + suf),
                         [one, one, one, one], [one, five])
            == pre + (CanonicalDigit(d, one, five, ten) + suf)
  {
    var p2, r2 := [one, one, one, one], [one, five];
    var x := if d == 9 then [one, ten] else GreedyDigit(d, one, five);
    ReplaceFirstSkipsPrefix(pre, x + suf, p2, r2);
    if d == 9 {
      assert multiset(x + suf)[one] < multiset(p2)[one] by {
        assert multiset(x + suf) == multiset(x) + multiset(suf);
        assert multiset(x)[one] <= 2;
      }
      ReplaceFirstAbsent(x + suf, p2, r2, one);
    } else if d == 4 {
      assert x == p2;
      ReplaceFirstAtStart(p2, suf, r2);
    } else {
      assert multiset(x + suf)[one] < multiset(p2)[one] by {
        assert multiset(x + suf) == multiset(x) + multiset(suf);
        GreedyDigitLetters(d, one, five);
      }
      ReplaceFirstAbsent(x + suf, p2, r2, one);
    }
  }

  /**
   * The two replacements of one digit's iteration turn the greedy letters of
   * that digit into its standard numeral, when the digit's one- and
   * five-letters occur neither before nor after it.
   */
  lemma DigitRewrite(pre: string, d: nat, suf: string, one: char, five: char, ten: char)
    requires d <= 9 && one != five
    requires one !in pre && five !in pre && one !in suf && five !in suf
    ensures ReplaceFirst(ReplaceFirst(pre + (GreedyDigit(d, one, five) + suf), [five, one, one, one, one], [one, ten]),
                         [one, one, one, one], [one, five])
            == pre + (CanonicalDigit(d, one, five, ten) + suf)
  {
    DigitFirstReplace(pre, d, suf, one, five, ten);
    DigitSecondReplace(pre, d, suf, one, five, ten);
  }

  /** The concrete replacements of each iteration of the rewrite loop; indices 0 and 1 are skipped. */
  lemma RewriteStepPatterns(s: string)
    ensures RewriteStep(s, 0) == s && RewriteStep(s, 1) == s
    ensures RewriteStep(s, 2) == ReplaceFirst(ReplaceFirst(s, "DCCCC", "CM"), "CCCC", "CD")
    ensures RewriteStep(s, 3) == ReplaceFirst(ReplaceFirst(s, "CLLLL", "LD"), "LLLL", "LC")
    ensures RewriteStep(s, 4) == ReplaceFirst(ReplaceFirst(s, "LXXXX", "XC"), "XXXX", "XL")
    ensures RewriteStep(s, 5) == ReplaceFirst(ReplaceFirst(s, "XVVVV", "VL"), "VVVV", "VX")
    ensures RewriteStep(s, 6) == ReplaceFirst(ReplaceFirst(s, "VIIII", "IX"), "IIII", "IV")
  {
    assert ROMAN_4_SYMBOLS[1][0] == 'D' && ROMAN_4_SYMBOLS[0][0] == 'M';
    assert [ROMAN_4_SYMBOLS[1][0]] + ROMAN_4_SYMBOLS[2] == "DCCCC";
    assert [ROMAN_4_SYMBOLS[2][0]] + ROMAN_4_SYMBOLS[3] == "CLLLL";
    assert [ROMAN_4_SYMBOLS[3][0]] + ROMAN_4_SYMBOLS[4] == "LXXXX";
    assert [ROMAN_4_SYMBOLS[4][0]] + ROMAN_4_SYMBOLS[5] == "XVVVV";
    assert [ROMAN_4_SYMBOLS[5][0]] + ROMAN_4_SYMBOLS[6] == "VIIII";
  }

  /** A letter outside the alphabet of s does not occur in it. */
  lemma OverExcludes(s: string, letters: set<char>, x: char)
    requires Over(s, letters) && x !in letters
    ensures x !in s && multiset(s)[x] == 0
  {
  }

  /** The letters of one standard digit. */
  lemma CanonicalDigitLetters(d: nat, one: char, five: char, ten: char)
    requires d <= 9 && one != five
    ensures Over(CanonicalDigit(d, one, five, ten), {one, five, ten})
  {
    GreedyDigitLetters(d, one, five);
  }

  /** Iteration 2 (C) turns the greedy hundreds into their standard numeral. */
  lemma HundredsStep(head: string, h: nat, tail: string)
    requires h <= 9 && Over(head, {'M'}) && Over(tail, {'X', 'L', 'V', 'I'})
    ensures RewriteStep(head + (GreedyDigit(h, 'C', 'D') + tail), 2)
            == head + (CanonicalDigit(h, 'C', 'D', 'M') + tail)
  {
    var s := head + (GreedyDigit(h, 'C', 'D') + tail);
    assert RewriteStep(s, 2) == ReplaceFirst(ReplaceFirst(s, "DCCCC", "CM"), "CCCC", "CD") by {
      RewriteStepPatterns(s);
    }
    assert 'C' !in head && 'D' !in head by {
      OverExcludes(head, {'M'}, 'C');
      OverExcludes(head, {'M'}, 'D');
    }
    assert 'C' !in tail && 'D' !in tail by {
      OverExcludes(tail, {'X', 'L', 'V', 'I'}, 'C');
      OverExcludes(tail, {'X', 'L', 'V', 'I'}, 'D');
    }
    DigitRewrite(head, h, tail, 'C', 'D', 'M');
  }

  /** Iteration 4 (X) turns the greedy tens into their standard numeral. */
  lemma TensStep(head: string, t: nat, tail: string)
    requires t <= 9 && Over(head, {'M', 'D', 'C'}) && Over(tail, {'V', 'I'})
    ensures RewriteStep(head + (GreedyDigit(t, 'X', 'L') + tail), 4)
            == head + (CanonicalDigit(t, 'X', 'L', 'C') + tail)
  {
    var s := head + (GreedyDigit(t, 'X', 'L') + tail);
    assert RewriteStep(s, 4) == ReplaceFirst(ReplaceFirst(s, "LXXXX", "XC"), "XXXX", "XL") by {
      RewriteStepPatterns(s);
    }
    assert 'X' !in head && 'L' !in head by {
      OverExcludes(head, {'M', 'D', 'C'}, 'X');
      OverExcludes(head, {'M', 'D', 'C'}, 'L');
    }
    assert 'X' !in tail && 'L' !in tail by {
      OverExcludes(tail, {'V', 'I'}, 'X');
      OverExcludes(tail, {'V', 'I'}, 'L');
    }
    DigitRewrite(head, t, tail, 'X', 'L', 'C');
  }

  /** Iteration 6 (I) turns the greedy units into their standard numeral. */
  lemma UnitsStep(head: string, o: nat)
    requires o <= 9 && Over(head, {'M', 'D', 'C', 'L', 'X'})
    ensures RewriteStep(head + GreedyDigit(o, 'I', 'V'), 6) == head + CanonicalDigit(o, 'I', 'V', 'X')
  {
    var g, c := GreedyDigit(o, 'I', 'V'), CanonicalDigit(o, 'I', 'V', 'X');
    assert g + [] == g && c + [] == c;
    var s := head + g;
    assert RewriteStep(s, 6) == ReplaceFirst(ReplaceFirst(s, "VIIII", "IX"), "IIII", "IV") by {
      RewriteStepPatterns(s);
    }
    assert 'I' !in head && 'V' !in head by {
      OverExcludes(head, {'M', 'D', 'C', 'L', 'X'}, 'I');
      OverExcludes(head, {'M', 'D', 'C', 'L', 'X'}, 'V');
    }
    DigitRewrite(head, o, [], 'I', 'V', 'X');
  }

  /** Iterations 3 (L) and 5 (V) change nothing when the string has fewer than four of that letter. */
  lemma FiveLetterStep(s: string, i: nat)
    requires i == 3 || i == 5
    requires multiset(s)[ROMAN_4_SYMBOLS[i][0]] < 4
    ensures RewriteStep(s, i) == s
  {
    RewriteStepPatterns(s);
    if i == 3 {
      ReplaceFirstAbsent(s, "CLLLL", "LD", 'L');
      ReplaceFirstAbsent(s, "LLLL", "LC", 'L');
    } else {
      ReplaceFirstAbsent(s, "XVVVV", "VL", 'V');
      ReplaceFirstAbsent(s, "VVVV", "VX", 'V');
    }
  }

  /** After iteration 2 there is at most one L, so iteration 3 has nothing to replace. */
  lemma FewL(a: nat, h: nat, t: nat, o: nat)
    requires h <= 9 && t <= 9 && o <= 9
    ensures multiset(Rep('M', a) + (CanonicalDigit(h, 'C', 'D', 'M')
      + (GreedyDigit(t, 'X', 'L') + GreedyDigit(o, 'I', 'V'))))['L'] <= 1
  {
    var m, cc := Rep('M', a), CanonicalDigit(h, 'C', 'D', 'M');
    var gx, gi := GreedyDigit(t, 'X', 'L'), GreedyDigit(o, 'I', 'V');
    assert multiset(m)['L'] == 0 by {
      RepCount('M', a, 'L');
    }
    assert multiset(cc)['L'] == 0 by {
      CanonicalDigitLetters(h, 'C', 'D', 'M');
      OverExcludes(cc, {'C', 'D', 'M'}, 'L');
    }
    assert multiset(gx)['L'] <= 1 by {
      GreedyDigitCount(t, 'X', 'L', 'L');
    }
    assert multiset(gi)['L'] == 0 by {
      GreedyDigitCount(o, 'I', 'V', 'L');
    }
    CountJoin(m, cc, gx, gi, 'L');
  }

  /** After iteration 4 there is at most one V, so iteration 5 has nothing to replace. */
  lemma FewV(a: nat, h: nat, t: nat, o: nat)
    requires h <= 9 && t <= 9 && o <= 9
    ensures multiset((Rep('M', a) + CanonicalDigit(h, 'C', 'D', 'M'))
      + (CanonicalDigit(t, 'X', 'L', 'C') + GreedyDigit(o, 'I', 'V')))['V'] <= 1
  {
    var m, cc, cx := Rep('M', a), CanonicalDigit(h, 'C', 'D', 'M'), CanonicalDigit(t, 'X', 'L', 'C');
    var gi := GreedyDigit(o, 'I', 'V');
    assert multiset(m)['V'] == 0 by {
      RepCount('M', a, 'V');
    }
    assert multiset(cc)['V'] == 0 by {
      CanonicalDigitLetters(h, 'C', 'D', 'M');
      OverExcludes(cc, {'C', 'D', 'M'}, 'V');
    }
    assert multiset(cx)['V'] == 0 by {
      CanonicalDigitLetters(t, 'X', 'L', 'C');
      OverExcludes(cx, {'X', 'L', 'C'}, 'V');
    }
    assert multiset(gi)['V'] <= 1 by {
      GreedyDigitCount(o, 'I', 'V', 'V');
    }
    CountJoin(m, cc, cx, gi, 'V');
  }

  /** The count of a letter in four joined strings is the sum of its counts in each. */
  lemma CountJoin(w: string, x: string, y: string, z: string, c: char)
    ensures multiset(w + (x + (y + z)))[c] == multiset(w)[c] + multiset(x)[c] + multiset(y)[c] + multiset(z)[c]
    ensures multiset((w + x) + (y + z))[c] == multiset(w)[c] + multiset(x)[c] + multiset(y)[c] + multiset(z)[c]
  {
    assert multiset(w + (x + (y + z))) == multiset(w) + (multiset(x) + (multiset(y) + multiset(z)));
    assert multiset((w + x) + (y + z)) == (multiset(w) + multiset(x)) + (multiset(y) + multiset(z));
  }

  /** The letters left of the tens once the hundreds are rewritten, and right of them. */
  lemma TensContext(a: nat, h: nat, o: nat)
    requires h <= 9 && o <= 9
    ensures Over(Rep('M', a) + CanonicalDigit(h, 'C', 'D', 'M'), {'M', 'D', 'C'})
    ensures Over(GreedyDigit(o, 'I', 'V'), {'V', 'I'})
  {
    CanonicalDigitLetters(h, 'C', 'D', 'M');
    GreedyDigitLetters(o, 'I', 'V');
  }

  /** The letters left of the units once the hundreds and tens are rewritten. */
  lemma UnitsContext(a: nat, h: nat, t: nat)
    requires h <= 9 && t <= 9
    ensures Over((Rep('M', a) + CanonicalDigit(h, 'C', 'D', 'M')) + CanonicalDigit(t, 'X', 'L', 'C'),
                 {'M', 'D', 'C', 'L', 'X'})
  {
    CanonicalDigitLetters(h, 'C', 'D', 'M');
    CanonicalDigitLetters(t, 'X', 'L', 'C');
  }

  /** Iterations 0 to 3 of the rewrite loop: only the hundreds change. */
  lemma RewriteHundreds(g: string, a: nat, h: nat, t: nat, o: nat)
    requires h <= 9 && t <= 9 && o <= 9
    requires g == Rep('M', a) + (GreedyDigit(h, 'C', 'D') + (GreedyDigit(t, 'X', 'L') + GreedyDigit(o, 'I', 'V')))
    ensures Rewrite(g, 4) == Rep('M', a) + (CanonicalDigit(h, 'C', 'D', 'M')
      + (GreedyDigit(t, 'X', 'L') + GreedyDigit(o, 'I', 'V')))
  {
    var tail := GreedyDigit(t, 'X', 'L') + GreedyDigit(o, 'I', 'V');
    assert Over(tail, {'X', 'L', 'V', 'I'}) by {
      GreedyDigitLetters(t, 'X', 'L');
      GreedyDigitLetters(o, 'I', 'V');
    }
    RewriteStepPatterns(g);
    assert Rewrite(g, 2) == g by {
      assert Rewrite(g, 0) == g;
      assert Rewrite(g, 1) == g;
    }
    HundredsStep(Rep('M', a), h, tail);
    var s3 := Rep('M', a) + (CanonicalDigit(h, 'C', 'D', 'M') + tail);
    assert Rewrite(g, 3) == s3;
    FewL(a, h, t, o);
    FiveLetterStep(s3, 3);
  }

  /** Iterations 4 and 5 of the rewrite loop: only the tens change. */
  lemma RewriteTens(g: string, a: nat, h: nat, t: nat, o: nat)
    requires h <= 9 && t <= 9 && o <= 9
    requires Rewrite(g, 4) == Rep('M', a) + (CanonicalDigit(h, 'C', 'D', 'M')
      + (GreedyDigit(t, 'X', 'L') + GreedyDigit(o, 'I', 'V')))
    ensures Rewrite(g, 6) == (Rep('M', a) + CanonicalDigit(h, 'C', 'D', 'M'))
      + (CanonicalDigit(t, 'X', 'L', 'C') + GreedyDigit(o, 'I', 'V'))
  {
    var head := Rep('M', a) + CanonicalDigit(h, 'C', 'D', 'M');
    var gx, gi := GreedyDigit(t, 'X', 'L'), GreedyDigit(o, 'I', 'V');
    assert Rewrite(g, 4) == head + (gx + gi);
    TensContext(a, h, o);
    TensStep(head, t, gi);
    var s5 := head + (CanonicalDigit(t, 'X', 'L', 'C') + gi);
    assert Rewrite(g, 5) == s5;
    FewV(a, h, t, o);
    FiveLetterStep(s5, 5);
  }

  /** Iteration 6 of the rewrite loop: the units change and the numeral is complete. */
  lemma RewriteUnits(g: string, a: nat, h: nat, t: nat, o: nat)
    requires h <= 9 && t <= 9 && o <= 9
    requires Rewrite(g, 6) == (Rep('M', a) + CanonicalDigit(h, 'C', 'D', 'M'))
      + (CanonicalDigit(t, 'X', 'L', 'C') + GreedyDigit(o, 'I', 'V'))
    ensures Rewrite(g, 7) == Rep('M', a) + (CanonicalDigit(h, 'C', 'D', 'M')
      + (CanonicalDigit(t, 'X', 'L', 'C') + CanonicalDigit(o, 'I', 'V', 'X')))
  {
    var m, cc, cx := Rep('M', a), CanonicalDigit(h, 'C', 'D', 'M'), CanonicalDigit(t, 'X', 'L', 'C');
    var gi, ci := GreedyDigit(o, 'I', 'V'), CanonicalDigit(o, 'I', 'V', 'X');
    Reassociate(m, cc, cx, gi);
    UnitsContext(a, h, t);
    UnitsStep((m + cc) + cx, o);
    Reassociate(m, cc, cx, ci);
  }

  /** Regrouping a concatenation of four strings. */
  lemma Reassociate(w: string, x: string, y: string, z: string)
    ensures (w + x) + (y + z) == ((w + x) + y) + z
    ensures ((w + x) + y) + z == w + (x + (y + z))
  {
  }

  /** The rewrite loop turns the greedy letters of n, digit by digit, into the standard numeral. */
  lemma EncodeDigits(n: nat, a: nat, h: nat, t: nat, o: nat)
    requires h <= 9 && t <= 9 && o <= 9
    requires n == a * 1000 + (h * 100 + (t * 10 + o))
    ensures ArabicToRoman(n) == Rep('M', a) + (CanonicalDigit(h, 'C', 'D', 'M')
      + (CanonicalDigit(t, 'X', 'L', 'C') + CanonicalDigit(o, 'I', 'V', 'X')))
  {
    var g := GreedyFrom(0, n);
    GreedyDigits(n, a, h, t, o);
    RewriteHundreds(g, a, h, t, o);
    RewriteTens(g, a, h, t, o);
    RewriteUnits(g, a, h, t, o);
  }

  /** The encoder yields the standard numeral of n: the thousands as M's, then each lower digit. */
  lemma EncodeClosedForm(n: nat)
    ensures ArabicToRoman(n) == CanonicalForm(n)
  {
    Digits(n);
    EncodeDigits(n, n / 1000, n / 100 % 10, n / 10 % 10, n % 10);
  }

  /** A greedy digit is fives then ones, so it decodes to the plain sum of its letters. */
  lemma DecodeGreedyDigit(d: nat, one: char, five: char)
    requires d <= 9 && IsLetter(one) && IsLetter(five) && Value(one) <= Value(five)
    ensures AllLetters(GreedyDigit(d, one, five))
    ensures Decode(GreedyDigit(d, one, five)) == d / 5 * Value(five) + d % 5 * Value(one)
  {
    DecodeRep(five, d / 5);
    DecodeRep(one, d % 5);
    DecodeJoin(Rep(five, d / 5), Rep(one, d % 5));
  }

  /** Arithmetic behind DecodeCanonicalDigit: q fives and r ones make 5q + r ones. */
  lemma FivesAndOnes(q: nat, r: nat, u: nat)
    ensures q * (5 * u) + r * u == (5 * q + r) * u
  {
  }

  /**
   * One standard digit over letters one < five < ten with values u, 5u and
   * 10u decodes to d times u; it starts with one or five.
   */
  lemma DecodeCanonicalDigit(d: nat, one: char, five: char, ten: char)
    requires d <= 9 && IsLetter(one) && IsLetter(five) && IsLetter(ten)
    requires Value(five) == 5 * Value(one) && Value(ten) == 10 * Value(one)
    ensures AllLetters(CanonicalDigit(d, one, five, ten))
    ensures Decode(CanonicalDigit(d, one, five, ten)) == d * Value(one)
    ensures CanonicalDigit(d, one, five, ten) != [] ==>
      CanonicalDigit(d, one, five, ten)[0] in {one, five}
  {
    var c := CanonicalDigit(d, one, five, ten);
    if d == 9 {
      assert c == [one, ten] && c[1..] == [ten];
      assert Decode([ten]) == Value(ten);
      assert Decode(c) == Value(ten) - Value(one);
    } else if d == 4 {
      assert c == [one, five] && c[1..] == [five];
      assert Decode([five]) == Value(five);
      assert Decode(c) == Value(five) - Value(one);
    } else {
      DecodeGreedyDigit(d, one, five);
      FivesAndOnes(d / 5, d % 5, Value(one));
      assert c == Rep(five, d / 5) + Rep(one, d % 5);
    }
  }

  /** Tens and units: their standard numerals decode to 10t + o and start with X, L, I or V. */
  lemma DecodeLowDigits(t: nat, o: nat)
    requires t <= 9 && o <= 9
    ensures var r := CanonicalDigit(t, 'X', 'L', 'C') + CanonicalDigit(o, 'I', 'V', 'X');
      AllLetters(r) && Decode(r) == 10 * t + o && (r != [] ==> Value(r[0]) <= 50)
  {
    var cx := CanonicalDigit(t, 'X', 'L', 'C');
    var ci := CanonicalDigit(o, 'I', 'V', 'X');
    DecodeCanonicalDigit(t, 'X', 'L', 'C');
    DecodeCanonicalDigit(o, 'I', 'V', 'X');
    CanonicalDigitLetters(t, 'X', 'L', 'C');
    assert cx != [] ==> cx[|cx| - 1] in {'X', 'L', 'C'};
    DecodeJoin(cx, ci);
  }

  /** Hundreds, tens and units decode to 100h + 10t + o and start with a letter of value at most 500. */
  lemma DecodeLowerDigits(h: nat, t: nat, o: nat)
    requires h <= 9 && t <= 9 && o <= 9
    ensures var r := CanonicalDigit(h, 'C', 'D', 'M')
      + (CanonicalDigit(t, 'X', 'L', 'C') + CanonicalDigit(o, 'I', 'V', 'X'));
      AllLetters(r) && Decode(r) == 100 * h + 10 * t + o && (r != [] ==> Value(r[0]) <= 500)
  {
    var cc := CanonicalDigit(h, 'C', 'D', 'M');
    var low := CanonicalDigit(t, 'X', 'L', 'C') + CanonicalDigit(o, 'I', 'V', 'X');
    DecodeCanonicalDigit(h, 'C', 'D', 'M');
    DecodeLowDigits(t, o);
    CanonicalDigitLetters(h, 'C', 'D', 'M');
    assert cc != [] ==> cc[|cc| - 1] in {'C', 'D', 'M'};
    DecodeJoin(cc, low);
  }

  /** The standard numeral with a thousands, h hundreds, t tens and o units decodes to its value. */
  lemma DecodeAllDigits(a: nat, h: nat, t: nat, o: nat)
    requires h <= 9 && t <= 9 && o <= 9
    ensures var r := Rep('M', a) + (CanonicalDigit(h, 'C', 'D', 'M')
      + (CanonicalDigit(t, 'X', 'L', 'C') + CanonicalDigit(o, 'I', 'V', 'X')));
      AllLetters(r) && Decode(r) == 1000 * a + 100 * h + 10 * t + o
  {
    var m := Rep('M', a);
    var low := CanonicalDigit(h, 'C', 'D', 'M')
      + (CanonicalDigit(t, 'X', 'L', 'C') + CanonicalDigit(o, 'I', 'V', 'X'));
    assert Value('M') == 1000;
    DecodeRep('M', a);
    DecodeLowerDigits(h, t, o);
    assert m != [] ==> Value(m[|m| - 1]) == 1000;
    DecodeJoin(m, low);
  }

  /** Every letter of the standard numeral of n is a Roman letter, and it decodes back to n. */
  lemma DecodeCanonicalForm(n: nat)
    ensures AllLetters(CanonicalForm(n)) && Decode(CanonicalForm(n)) == n
  {
    DecodeAllDigits(n / 1000, n / 100 % 10, n / 10 % 10, n % 10);
    Digits(n);
  }

  /** Decoding the encoder's output gives back the input, for every n >= 0. */
  lemma RoundTrip(n: nat)
    ensures AllLetters(ArabicToRoman(n)) && Upper(ArabicToRoman(n)) == ArabicToRoman(n)
    ensures AllLetters(Upper(ArabicToRoman(n))) && RomanToArabic(ArabicToRoman(n)) == n
  {
    EncodeClosedForm(n);
    DecodeCanonicalForm(n);
    UpperOfLetters(ArabicToRoman(n));
  }

  /** The four letters of s from index i on are one letter. */
  predicate RunAt(s: string, i: nat)
    requires i + 3 < |s|
  {
    s[i] == s[i + 1] == s[i + 2] == s[i + 3]
  }

  /** No letter of s occurs four times in a row. */
  predicate NoFourRun(s: string) {
    forall i: nat :: i + 3 < |s| ==> !RunAt(s, i)
  }

  /**
   * Joining two strings without four-runs gives none when the letters that
   * meet at the join differ: every window across the join holds both.
   */
  lemma NoFourRunJoin(x: string, y: string)
    requires NoFourRun(x) && NoFourRun(y)
    requires x != [] && y != [] ==> x[|x| - 1] != y[0]
    ensures NoFourRun(x + y)
  {
    var s := x + y;
    forall i: nat | i + 3 < |s| ensures !RunAt(s, i) {
      if i + 3 < |x| {
        assert !RunAt(x, i);
        assert x[i] == s[i] && x[i + 1] == s[i + 1] && x[i + 2] == s[i + 2] && x[i + 3] == s[i + 3];
      } else if i >= |x| {
        var j := i - |x|;
        assert !RunAt(y, j);
        assert y[j] == s[i] && y[j + 1] == s[i + 1] && y[j + 2] == s[i + 2] && y[j + 3] == s[i + 3];
      } else {
        assert s[|x| - 1] == x[|x| - 1] && s[|x|] == y[0];
        var k := |x| - 1 - i;
        if k == 0 {
          assert s[i] != s[i + 1];
        } else if k == 1 {
          assert s[i + 1] != s[i + 2];
        } else {
          assert s[i + 2] != s[i + 3];
        }
      }
    }
  }

  /** A run of k copies of one letter has no four-run exactly when k is at most 3. */
  lemma NoFourRunRep(c: char, k: nat)
    ensures NoFourRun(Rep(c, k)) <==> k <= 3
  {
    if k > 3 {
      var r := Rep(c, k);
      assert r[0] == r[1] == r[2] == r[3];
      assert RunAt(r, 0);
    }
  }

  /** A standard digit never repeats a letter four times. */
  lemma NoFourRunCanonicalDigit(d: nat, one: char, five: char, ten: char)
    requires d <= 9 && one != five
    ensures NoFourRun(CanonicalDigit(d, one, five, ten))
  {
    var c := CanonicalDigit(d, one, five, ten);
    if d == 8 {
      assert c == [five, one, one, one];
    } else if d != 4 && d != 9 {
      assert |c| == d / 5 + d % 5 && d / 5 + d % 5 <= 3;
    }
  }

  /** A standard digit starts with its one- or five-letter and ends with one of its three letters. */
  lemma CanonicalDigitEnds(d: nat, one: char, five: char, ten: char)
    requires d <= 9 && one != five
    ensures var c := CanonicalDigit(d, one, five, ten);
      c != [] ==> c[0] in {one, five} && c[|c| - 1] in {one, five, ten}
  {
    CanonicalDigitLetters(d, one, five, ten);
    var c := CanonicalDigit(d, one, five, ten);
    if c != [] {
      assert c[0] in {one, five, ten} && c[|c| - 1] in {one, five, ten};
      if d != 4 && d != 9 {
        assert c[0] == (if d / 5 == 1 then five else one);
      }
    }
  }

  /** Tens and units of the standard numeral: no four-run, and a first letter among X, L, I, V. */
  lemma NoFourRunLowDigits(t: nat, o: nat)
    requires t <= 9 && o <= 9
    ensures var r := CanonicalDigit(t, 'X', 'L', 'C') + CanonicalDigit(o, 'I', 'V', 'X');
      NoFourRun(r) && (r != [] ==> r[0] in {'X', 'L', 'I', 'V'})
  {
    var cx := CanonicalDigit(t, 'X', 'L', 'C');
    var ci := CanonicalDigit(o, 'I', 'V', 'X');
    NoFourRunCanonicalDigit(t, 'X', 'L', 'C');
    NoFourRunCanonicalDigit(o, 'I', 'V', 'X');
    CanonicalDigitEnds(t, 'X', 'L', 'C');
    CanonicalDigitEnds(o, 'I', 'V', 'X');
    NoFourRunJoin(cx, ci);
  }

  /** Hundreds, tens and units: no four-run, and a first letter other than M. */
  lemma NoFourRunLowerDigits(h: nat, t: nat, o: nat)
    requires h <= 9 && t <= 9 && o <= 9
    ensures var r := CanonicalDigit(h, 'C', 'D', 'M')
      + (CanonicalDigit(t, 'X', 'L', 'C') + CanonicalDigit(o, 'I', 'V', 'X'));
      NoFourRun(r) && (r != [] ==> r[0] != 'M')
  {
    var cc := CanonicalDigit(h, 'C', 'D', 'M');
    var low := CanonicalDigit(t, 'X', 'L', 'C') + CanonicalDigit(o, 'I', 'V', 'X');
    NoFourRunCanonicalDigit(h, 'C', 'D', 'M');
    NoFourRunLowDigits(t, o);
    CanonicalDigitEnds(h, 'C', 'D', 'M');
    NoFourRunJoin(cc, low);
  }

  /** The standard numeral with a thousands has a four-run exactly when a exceeds 3. */
  lemma NoFourRunAllDigits(a: nat, h: nat, t: nat, o: nat)
    requires h <= 9 && t <= 9 && o <= 9
    ensures var r := Rep('M', a) + (CanonicalDigit(h, 'C', 'D', 'M')
      + (CanonicalDigit(t, 'X', 'L', 'C') + CanonicalDigit(o, 'I', 'V', 'X')));
      NoFourRun(r) <==> a <= 3
  {
    var m := Rep('M', a);
    var low := CanonicalDigit(h, 'C', 'D', 'M')
      + (CanonicalDigit(t, 'X', 'L', 'C') + CanonicalDigit(o, 'I', 'V', 'X'));
    NoFourRunRep('M', a);
    NoFourRunLowerDigits(h, t, o);
    if a <= 3 {
      NoFourRunJoin(m, low);
    } else {
      var s := m + low;
      assert s[0] == s[1] == s[2] == s[3] == 'M';
      assert RunAt(s, 0);
    }
  }

  /**
   * For 0 <= n <= 3999 the encoder never writes a letter four times in a row;
   * from 4000 on the thousands alone make a four-run.
   */
  lemma EncodeNoFourRun(n: nat)
    ensures NoFourRun(ArabicToRoman(n)) <==> n <= 3999
  {
    EncodeClosedForm(n);
    NoFourRunAllDigits(n / 1000, n / 100 % 10, n / 10 % 10, n % 10);
  }

  /** How often each letter occurs in one greedy digit. */
  lemma GreedyDigitCount(d: nat, one: char, five: char, x: char)
    requires d <= 9 && one != five
    ensures multiset(GreedyDigit(d, one, five))[x] ==
      if x == one then d % 5 else if x == five then d / 5 else 0
  {
    GreedyDigitLetters(d, one, five);
    if x != one && x != five {
      OverExcludes(GreedyDigit(d, one, five), {one, five}, x);
    }
  }

  /** The number of times x occurs in the greedy letters for a thousands, h hundreds, t tens and o units. */
  function DigitLetterCount(a: nat, h: nat, t: nat, o: nat, x: char): nat {
    (if x == 'M' then a else 0)
    + (if x == 'D' then h / 5 else if x == 'C' then h % 5 else 0)
    + (if x == 'L' then t / 5 else if x == 'X' then t % 5 else 0)
    + (if x == 'V' then o / 5 else if x == 'I' then o % 5 else 0)
  }

  /** How often x occurs in the greedy letters for a thousands, h hundreds, t tens and o units. */
  lemma GreedyCountDigits(a: nat, h: nat, t: nat, o: nat, x: char)
    requires h <= 9 && t <= 9 && o <= 9
    ensures multiset(Rep('M', a) + (GreedyDigit(h, 'C', 'D') + (GreedyDigit(t, 'X', 'L') + GreedyDigit(o, 'I', 'V'))))[x] ==
      DigitLetterCount(a, h, t, o, x)
  {
    RepCount('M', a, x);
    GreedyDigitCount(h, 'C', 'D', x);
    GreedyDigitCount(t, 'X', 'L', x);
    GreedyDigitCount(o, 'I', 'V', x);
  }

  /**
   * The greedy phase writes one M per thousand, and for each lower decimal
   * digit d one five-letter when d >= 5 and d mod 5 one-letters.
   */
  lemma GreedyCounts(n: nat)
    ensures var m := multiset(GreedyFrom(0, n));
      m['M'] == n / 1000
      && m['D'] == n / 100 % 10 / 5 && m['C'] == n / 100 % 10 % 5
      && m['L'] == n / 10 % 10 / 5 && m['X'] == n / 10 % 10 % 5
      && m['V'] == n % 10 / 5 && m['I'] == n % 10 % 5
  {
    var a, h, t, o := n / 1000, n / 100 % 10, n / 10 % 10, n % 10;
    Digits(n);
    assert forall x :: multiset(GreedyFrom(0, n))[x] == DigitLetterCount(a, h, t, o, x) by {
      GreedyDigits(n, a, h, t, o);
      EachLetterCount(a, h, t, o);
    }
    LetterCounts(GreedyFrom(0, n), a, h, t, o);
  }

  /** Reads off the count of each of the seven letters from DigitLetterCount. */
  lemma LetterCounts(g: string, a: nat, h: nat, t: nat, o: nat)
    requires forall x :: multiset(g)[x] == DigitLetterCount(a, h, t, o, x)
    ensures var m := multiset(g);
      m['M'] == a && m['D'] == h / 5 && m['C'] == h % 5
      && m['L'] == t / 5 && m['X'] == t % 5 && m['V'] == o / 5 && m['I'] == o % 5
  {
    var m := multiset(g);
    assert m['M'] == DigitLetterCount(a, h, t, o, 'M');
    assert m['D'] == DigitLetterCount(a, h, t, o, 'D');
    assert m['C'] == DigitLetterCount(a, h, t, o, 'C');
    assert m['L'] == DigitLetterCount(a, h, t, o, 'L');
    assert m['X'] == DigitLetterCount(a, h, t, o, 'X');
    assert m['V'] == DigitLetterCount(a, h, t, o, 'V');
    assert m['I'] == DigitLetterCount(a, h, t, o, 'I');
  }

  /** GreedyCountDigits for every character at once. */
  lemma EachLetterCount(a: nat, h: nat, t: nat, o: nat)
    requires h <= 9 && t <= 9 && o <= 9
    ensures var g := Rep('M', a) + (GreedyDigit(h, 'C', 'D') + (GreedyDigit(t, 'X', 'L') + GreedyDigit(o, 'I', 'V')));
      forall x :: multiset(g)[x] == DigitLetterCount(a, h, t, o, x)
  {
    forall x
      ensures multiset(Rep('M', a) + (GreedyDigit(h, 'C', 'D') + (GreedyDigit(t, 'X', 'L') + GreedyDigit(o, 'I', 'V'))))[x]
        == DigitLetterCount(a, h, t, o, x)
    {
      GreedyCountDigits(a, h, t, o, x);
    }
  }

  /**
   * Below 4000 the greedy phase writes at most three M, at most one each of
   * D, L and V, and at most four each of C, X and I.
   */
  lemma GreedyBounds(n: nat)
    requires n <= 3999
    ensures var m := multiset(GreedyFrom(0, n));
      m['M'] <= 3 && m['D'] <= 1 && m['L'] <= 1 && m['V'] <= 1
      && m['C'] <= 4 && m['X'] <= 4 && m['I'] <= 4
  {
    GreedyCounts(n);
  }

  /** The patterns of the two skipped iterations hold four M's or four D's. */
  lemma SkippedPatternCounts()
    ensures multiset(ROMAN_4_SYMBOLS[0])['M'] == 4
    ensures multiset(ROMAN_4_SYMBOLS[1])['D'] == 4
    ensures multiset([ROMAN_4_SYMBOLS[0][0]] + ROMAN_4_SYMBOLS[1])['D'] == 4
  {
    RepCount('M', 4, 'M');
    RepCount('D', 4, 'D');
    RepCount('D', 4, 'D');
    assert ROMAN_4_SYMBOLS[0] == Rep('M', 4);
    assert ROMAN_4_SYMBOLS[1] == Rep('D', 4);
    assert [ROMAN_4_SYMBOLS[0][0]] + ROMAN_4_SYMBOLS[1] == ['M'] + Rep('D', 4);
  }

  /**
   * The rewrite loop skips its first two iterations (M and D); run unguarded,
   * iteration 0 would read past the front of ROMAN_4_SYMBOLS. What the guard
   * passes over is still found nowhere below 4000: the greedy letters hold
   * neither MMMM nor DDDD nor MDDDD, so searching for any of them, with any
   * replacement, changes nothing.
   */
  lemma GuardHarmless(n: nat, replacement: string)
    requires n <= 3999
    ensures var g := GreedyFrom(0, n);
      ReplaceFirst(g, ROMAN_4_SYMBOLS[0], replacement) == g
      && ReplaceFirst(g, ROMAN_4_SYMBOLS[1], replacement) == g
      && ReplaceFirst(g, [ROMAN_4_SYMBOLS[0][0]] + ROMAN_4_SYMBOLS[1], replacement) == g
  {
    var g := GreedyFrom(0, n);
    GreedyBounds(n);
    SkippedPatternCounts();
    ReplaceFirstAbsent(g, ROMAN_4_SYMBOLS[0], replacement, 'M');
    ReplaceFirstAbsent(g, ROMAN_4_SYMBOLS[1], replacement, 'D');
    ReplaceFirstAbsent(g, [ROMAN_4_SYMBOLS[0][0]] + ROMAN_4_SYMBOLS[1], replacement, 'D');
  }

  /**
   * The greedy loop: walk ROMAN_NUMS from the largest value, appending a
   * letter and staying at the same index while its value still fits, and
   * moving on otherwise. The letters it appends sum to the input and never
   * increase in value.
   */
  method GreedyPhase(arabicN: int) returns (romanN: string)
    requires arabicN >= 0
    ensures romanN == GreedyFrom(0, arabicN)
    ensures AllLetters(romanN) && Sum(romanN) == arabicN && NonIncreasing(romanN)
  {
    romanN := "";
    var rest := arabicN;
    var i: int := 0;
    while rest != 0
      invariant 0 <= i < |ROMAN_NUMS| && rest >= 0
      invariant GreedyInvariant(romanN, i, rest, arabicN)
      decreases rest, |ROMAN_NUMS| - i
    {
      if rest - ROMAN_NUMS[i] >= 0 {
        GreedyTake(romanN, i, rest, arabicN);
        rest := rest - ROMAN_NUMS[i];
        romanN := romanN + [ARABIC_TO_ROMAN_DIC[ROMAN_NUMS[i]]];
      } else {
        GreedySkip(romanN, i, rest, arabicN);
        i := i + 1;
      }
    }
    assert romanN + GreedyFrom(i, rest) == romanN;
  }

  /**
   * The invariant of the greedy loop with letters s so far, at index i, with
   * rest still to spell out of n: the letters and the rest add up to n, the
   * letters never increase and none is below ROMAN_NUMS[i], and the letters
   * still to come complete GreedyFrom(0, n).
   */
  predicate GreedyInvariant(s: string, i: nat, rest: nat, n: nat)
    requires i < |ROMAN_NUMS|
  {
    AllLetters(s) && rest + Sum(s) == n && NonIncreasing(s)
    && (s != [] ==> Value(s[|s| - 1]) >= ROMAN_NUMS[i])
    && s + GreedyFrom(i, rest) == GreedyFrom(0, n)
  }

  /** One taken step of the greedy loop keeps its invariant, appending the letter for ROMAN_NUMS[i]. */
  lemma GreedyTake(s: string, i: nat, rest: nat, n: nat)
    requires i < |ROMAN_NUMS| && rest >= ROMAN_NUMS[i]
    requires GreedyInvariant(s, i, rest, n)
    ensures ROMAN_NUMS[i] in ARABIC_TO_ROMAN_DIC
    ensures GreedyInvariant(s + [ARABIC_TO_ROMAN_DIC[ROMAN_NUMS[i]]], i, rest - ROMAN_NUMS[i], n)
  {
    var c := Symbol(ROMAN_NUMS[i]);
    SumAppend(s, c);
    NonIncreasingAppend(s, c);
    var g := GreedyFrom(i, rest - ROMAN_NUMS[i]);
    assert GreedyFrom(i, rest) == [c] + g;
    ConcatAssoc(s, [c], g);
  }

  /** Appending a letter worth no more than the last one keeps the values non-increasing. */
  lemma NonIncreasingAppend(s: string, c: char)
    requires AllLetters(s) && IsLetter(c) && NonIncreasing(s)
    requires s != [] ==> Value(s[|s| - 1]) >= Value(c)
    ensures AllLetters(s + [c]) && NonIncreasing(s + [c])
  {
    var t := s + [c];
    forall k, l | 0 <= k < l < |t|
      ensures Value(t[k]) >= Value(t[l])
    {
      if l < |s| {
        assert t[k] == s[k] && t[l] == s[l];
      } else {
        assert t[k] == s[k] && t[l] == c;
        assert k < |s| - 1 ==> Value(s[k]) >= Value(s[|s| - 1]);
      }
    }
  }

  /** A skipped step of the greedy loop keeps its invariant at the next index. */
  lemma GreedySkip(s: string, i: nat, rest: nat, n: nat)
    requires i < |ROMAN_NUMS| && 0 < rest < ROMAN_NUMS[i]
    requires GreedyInvariant(s, i, rest, n)
    ensures i + 1 < |ROMAN_NUMS| && GreedyInvariant(s, i + 1, rest, n)
  {
    assert i != |ROMAN_NUMS| - 1;
    assert ROMAN_NUMS[i] > ROMAN_NUMS[i + 1];
  }

  /**
   * translateArabicToRoman: the greedy loop, then one pass over
   * ROMAN_4_SYMBOLS that from index 2 on replaces the first next-larger
   * letter followed by the four-run with the letter followed by the letter
   * two places up, and then the first remaining four-run with the letter
   * followed by the next-larger letter. At indices 3 and 5 (L and V) the
   * greedy letters hold neither pattern, so those iterations change nothing.
   * For every n >= 0 the result is the standard numeral of n and decodes
   * back to n; it is free of four-runs exactly when n <= 3999.
   */
  method TranslateArabicToRoman(arabicN: int) returns (romanN: string)
    requires arabicN >= 0
    ensures romanN == ArabicToRoman(arabicN) && romanN == CanonicalForm(arabicN)
    ensures AllLetters(romanN) && Decode(romanN) == arabicN
    ensures NoFourRun(romanN) <==> arabicN <= 3999
  {
    romanN := GreedyPhase(arabicN);
    ghost var greedy := romanN;
    for i := 0 to |ROMAN_4_SYMBOLS|
      invariant romanN == Rewrite(greedy, i)
    {
      var currSymbol := ROMAN_4_SYMBOLS[i];
      if i >= 2 {
        romanN := ReplaceFirst(romanN, [ROMAN_4_SYMBOLS[i - 1][0]] + currSymbol,
          [currSymbol[0], ROMAN_4_SYMBOLS[i - 2][0]]);
        romanN := ReplaceFirst(romanN, currSymbol, [currSymbol[0], ROMAN_4_SYMBOLS[i - 1][0]]);
      }
    }
    EncodeClosedForm(arabicN);
    DecodeCanonicalForm(arabicN);
    EncodeNoFourRun(arabicN);
  }

  /** The encoder writes the subtractive pairs: the digits 4 and 9 at each place, and a lone 1 as I. */
  lemma EncodePairExamples()
    ensures ArabicToRoman(1) == "I" && ArabicToRoman(4) == "IV" && ArabicToRoman(9) == "IX" && ArabicToRoman(40) == "XL"
    ensures ArabicToRoman(90) == "XC" && ArabicToRoman(400) == "CD" && ArabicToRoman(900) == "CM"
  {
    assert ArabicToRoman(1) == "I" by {
      EncodeDigits(1, 0, 0, 0, 1);
    }
    assert ArabicToRoman(4) == "IV" by {
      EncodeDigits(4, 0, 0, 0, 4);
    }
    assert ArabicToRoman(9) == "IX" by {
      EncodeDigits(9, 0, 0, 0, 9);
    }
    assert ArabicToRoman(40) == "XL" by {
      EncodeDigits(40, 0, 0, 4, 0);
    }
    assert ArabicToRoman(90) == "XC" by {
      EncodeDigits(90, 0, 0, 9, 0);
    }
    assert ArabicToRoman(400) == "CD" by {
      EncodeDigits(400, 0, 4, 0, 0);
    }
    assert ArabicToRoman(900) == "CM" by {
      EncodeDigits(900, 0, 9, 0, 0);
    }
  }

  /** A numeral with a subtractive pair at three places. */
  lemma Encode1994()
    ensures ArabicToRoman(1994) == "MCMXCIV"
  {
    var units, tens, hundreds := CanonicalDigit(4, 'I', 'V', 'X'), CanonicalDigit(9, 'X', 'L', 'C'), CanonicalDigit(9, 'C', 'D', 'M');
    assert units == "IV" && tens == "XC" && hundreds == "CM";
    assert hundreds + (tens + units) == "CMXCIV";
    assert Rep('M', 1) + "CMXCIV" == "MCMXCIV";
    EncodeDigits(1994, 1, 9, 9, 4);
  }

  /** A numeral with no subtractive pair. */
  lemma Encode2023()
    ensures ArabicToRoman(2023) == "MMXXIII"
  {
    var units, tens, hundreds := CanonicalDigit(3, 'I', 'V', 'X'), CanonicalDigit(2, 'X', 'L', 'C'), CanonicalDigit(0, 'C', 'D', 'M');
    assert units == "III" by {
      assert GreedyDigit(3, 'I', 'V') == Rep('V', 0) + Rep('I', 3);
    }
    assert tens == "XX" by {
      assert GreedyDigit(2, 'X', 'L') == Rep('L', 0) + Rep('X', 2);
    }
    assert hundreds == [] by {
      assert GreedyDigit(0, 'C', 'D') == Rep('D', 0) + Rep('C', 0);
    }
    assert hundreds + (tens + units) == "XXIII";
    assert Rep('M', 2) + "XXIII" == "MMXXIII";
    EncodeDigits(2023, 2, 0, 2, 3);
  }

  /** The largest standard numeral. */
  lemma Encode3999()
    ensures ArabicToRoman(3999) == "MMMCMXCIX"
  {
    var units, tens, hundreds := CanonicalDigit(9, 'I', 'V', 'X'), CanonicalDigit(9, 'X', 'L', 'C'), CanonicalDigit(9, 'C', 'D', 'M');
    assert units == "IX" && tens == "XC" && hundreds == "CM";
    assert hundreds + (tens + units) == "CMXCIX";
    assert Rep('M', 3) + "CMXCIX" == "MMMCMXCIX";
    EncodeDigits(3999, 3, 9, 9, 9);
  }

  /** From 4000 on the thousands are a run of M's, four of them here. */
  lemma Encode4000()
    ensures ArabicToRoman(4000) == "MMMM"
  {
    assert Rep('M', 4) == "MMMM";
    EncodeDigits(4000, 4, 0, 0, 0);
  }

  /**
   * The standard numeral MCMXCIV decodes to 1994, in upper or lower case: it
   * is what the encoder writes for 1994, and decoding undoes encoding.
   */
  lemma DecodeMcmxciv()
    ensures AllLetters(Upper("MCMXCIV")) && RomanToArabic("MCMXCIV") == 1994
    ensures AllLetters(Upper("mcmxciv")) && RomanToArabic("mcmxciv") == 1994
  {
    Encode1994();
    RoundTrip(1994);
    assert Upper("mcmxciv") == "MCMXCIV";
    RomanToArabicIgnoresCase("mcmxciv");
  }
}
