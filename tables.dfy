/**
 * The constant symbol tables of the converter: the value of each Roman
 * letter, its inverse, the descending list of letter values that drives the
 * greedy encoder, and the four-letter runs that the encoder rewrites.
 */
module Tables {

  /** romanToArabicDic: the value of each of the seven Roman letters. */
  const ROMAN_TO_ARABIC_DIC: map<char, nat> :=
    map['I' := 1, 'V' := 5, 'X' := 10, 'L' := 50, 'C' := 100, 'D' := 500, 'M' := 1000]

  /**
   * arabicToRomanDic: ROMAN_TO_ARABIC_DIC with keys and values swapped,
   * written out; InverseTables proves it is exactly that inverse.
   */
  const ARABIC_TO_ROMAN_DIC: map<nat, char> :=
    map[1 := 'I', 5 := 'V', 10 := 'X', 50 := 'L', 100 := 'C', 500 := 'D', 1000 := 'M']

  /** romanNums: the keys of the inverse table, largest first. */
  const ROMAN_NUMS: seq<nat> := [1000, 500, 100, 50, 10, 5, 1]

  /** roman4Symbols: each letter repeated four times, largest letter first. */
  const ROMAN_4_SYMBOLS: seq<string> := ["MMMM", "DDDD", "CCCC", "LLLL", "XXXX", "VVVV", "IIII"]

  predicate IsLetter(c: char) {
    c in ROMAN_TO_ARABIC_DIC
  }

  /** The value of a Roman letter; one of the entries of ROMAN_NUMS. */
  function Value(c: char): (v: nat)
    requires IsLetter(c)
    ensures v in ROMAN_NUMS
  {
    ROMAN_TO_ARABIC_DIC[c]
  }

  /** The letter whose value is v, looked up in the inverse table. */
  function Symbol(v: nat): (c: char)
    requires v in ROMAN_NUMS
    ensures IsLetter(c) && Value(c) == v
  {
    ARABIC_TO_ROMAN_DIC[v]
  }

  /**
   * The inverse table swaps the forward one: its keys are the forward values,
   * its values the forward keys, and each lookup undoes the other in both
   * directions; the forward table is injective, so the swap loses nothing.
   */
  lemma InverseTables()
    ensures ARABIC_TO_ROMAN_DIC.Keys == ROMAN_TO_ARABIC_DIC.Values
    ensures ARABIC_TO_ROMAN_DIC.Values == ROMAN_TO_ARABIC_DIC.Keys
    ensures forall c :: c in ROMAN_TO_ARABIC_DIC ==> ARABIC_TO_ROMAN_DIC[ROMAN_TO_ARABIC_DIC[c]] == c
    ensures forall v :: v in ARABIC_TO_ROMAN_DIC ==> ROMAN_TO_ARABIC_DIC[ARABIC_TO_ROMAN_DIC[v]] == v
    ensures forall c, d :: c in ROMAN_TO_ARABIC_DIC && d in ROMAN_TO_ARABIC_DIC && c != d ==>
      ROMAN_TO_ARABIC_DIC[c] != ROMAN_TO_ARABIC_DIC[d]
  {
    InverseDomains();
    InverseLookups();
    forall c, d | c in ROMAN_TO_ARABIC_DIC && d in ROMAN_TO_ARABIC_DIC && c != d
      ensures ROMAN_TO_ARABIC_DIC[c] != ROMAN_TO_ARABIC_DIC[d]
    {
      assert ARABIC_TO_ROMAN_DIC[ROMAN_TO_ARABIC_DIC[c]] == c;
      assert ARABIC_TO_ROMAN_DIC[ROMAN_TO_ARABIC_DIC[d]] == d;
    }
  }

  /** Looking a letter up in one table and the result in the other gives the letter back, and likewise for values. */
  lemma InverseLookups()
    ensures forall c :: c in ROMAN_TO_ARABIC_DIC ==>
      (ROMAN_TO_ARABIC_DIC[c] in ARABIC_TO_ROMAN_DIC && ARABIC_TO_ROMAN_DIC[ROMAN_TO_ARABIC_DIC[c]] == c)
    ensures forall v :: v in ARABIC_TO_ROMAN_DIC ==>
      (ARABIC_TO_ROMAN_DIC[v] in ROMAN_TO_ARABIC_DIC && ROMAN_TO_ARABIC_DIC[ARABIC_TO_ROMAN_DIC[v]] == v)
  {
  }

  /** The keys of each table are the values of the other. */
  lemma InverseDomains()
    ensures ARABIC_TO_ROMAN_DIC.Keys == ROMAN_TO_ARABIC_DIC.Values
    ensures ARABIC_TO_ROMAN_DIC.Values == ROMAN_TO_ARABIC_DIC.Keys
  {
    forall v ensures v in ARABIC_TO_ROMAN_DIC.Keys <==> v in ROMAN_TO_ARABIC_DIC.Values {
      if v in ARABIC_TO_ROMAN_DIC {
        assert ROMAN_TO_ARABIC_DIC[ARABIC_TO_ROMAN_DIC[v]] == v;
      }
    }
    forall c ensures c in ARABIC_TO_ROMAN_DIC.Values <==> c in ROMAN_TO_ARABIC_DIC.Keys {
      if c in ROMAN_TO_ARABIC_DIC {
        assert ARABIC_TO_ROMAN_DIC[ROMAN_TO_ARABIC_DIC[c]] == c;
      }
    }
  }

  /**
   * ROMAN_NUMS lists every key of the inverse table once, strictly
   * decreasing, so the greedy walk meets each value once, largest first.
   */
  lemma RomanNumsDescending()
    ensures forall i, j :: 0 <= i < j < |ROMAN_NUMS| ==> ROMAN_NUMS[i] > ROMAN_NUMS[j]
    ensures forall v :: v in ROMAN_NUMS <==> v in ARABIC_TO_ROMAN_DIC
  {
  }
}
