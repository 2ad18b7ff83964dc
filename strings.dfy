/**
 * The string operations the converter relies on: a run of one repeated
 * letter, String.prototype.replace with a string pattern (which replaces the
 * first occurrence only) and toUpperCase restricted to ASCII.
 */
module Strings {

  /** Concatenation is associative. */
  lemma ConcatAssoc(a: string, b: string, c: string)
    ensures a + (b + c) == (a + b) + c
  {
  }

  /** The string made of k copies of c. */
  function Rep(c: char, k: nat): (r: string)
    ensures |r| == k
    ensures forall i :: 0 <= i < |r| ==> r[i] == c
  {
    if k == 0 then [] else [c] + Rep(c, k - 1)
  }

  /**
   * s.replace(pattern, replacement) for a string pattern: the first
   * occurrence of pattern in s, scanning from the left, is replaced; a
   * string without an occurrence is returned unchanged.
   */
  function ReplaceFirst(s: string, pattern: string, replacement: string): (r: string)
    decreases |s|
  {
    if |s| < |pattern| then s
    else if s[..|pattern|] == pattern then replacement + s[|pattern|..]
    else [s[0]] + ReplaceFirst(s[1..], pattern, replacement)
  }

  /** The number of copies of c in Rep(c', k). */
  lemma {:induction false} RepCount(c: char, k: nat, x: char)
    ensures multiset(Rep(c, k))[x] == if x == c then k else 0
  {
    if k > 0 {
      RepCount(c, k - 1, x);
    }
  }

  /** A string that starts with the pattern holds every letter of the pattern. */
  lemma StartMultiset(s: string, pattern: string)
    requires |pattern| <= |s| && s[..|pattern|] == pattern
    ensures multiset(pattern) <= multiset(s)
  {
    assert s == s[..|pattern|] + s[|pattern|..];
  }

  /**
   * When some letter occurs fewer times in s than in the pattern, the pattern
   * cannot occur in s and replacing it changes nothing.
   */
  lemma {:induction false} ReplaceFirstAbsent(s: string, pattern: string, replacement: string, x: char)
    requires multiset(s)[x] < multiset(pattern)[x]
    ensures ReplaceFirst(s, pattern, replacement) == s
  {
    if |s| < |pattern| {
    } else if s[..|pattern|] == pattern {
      StartMultiset(s, pattern);
      assert false;
    } else {
      assert s == [s[0]] + s[1..];
      assert multiset(s) == multiset([s[0]]) + multiset(s[1..]);
      ReplaceFirstAbsent(s[1..], pattern, replacement, x);
    }
  }

  /**
   * A prefix that does not contain the first letter of the pattern is skipped
   * by the search and is kept as it is.
   */
  lemma {:induction false} ReplaceFirstSkipsPrefix(prefix: string, s: string, pattern: string, replacement: string)
    requires pattern != [] && pattern[0] !in prefix
    ensures ReplaceFirst(prefix + s, pattern, replacement) == prefix + ReplaceFirst(s, pattern, replacement)
  {
    if prefix != [] {
      var t := prefix + s;
      assert t[0] == prefix[0] != pattern[0];
      assert t[1..] == prefix[1..] + s;
      ReplaceFirstSkipsPrefix(prefix[1..], s, pattern, replacement);
      if |t| < |pattern| {
        assert ReplaceFirst(t, pattern, replacement) == t;
        assert ReplaceFirst(s, pattern, replacement) == s;
      } else {
        assert t[..|pattern|][0] != pattern[0];
        assert ReplaceFirst(t, pattern, replacement) == [t[0]] + ReplaceFirst(t[1..], pattern, replacement);
        assert ReplaceFirst(t[1..], pattern, replacement) == prefix[1..] + ReplaceFirst(s, pattern, replacement);
        assert prefix == [prefix[0]] + prefix[1..];
        assert [t[0]] + (prefix[1..] + ReplaceFirst(s, pattern, replacement)) == prefix + ReplaceFirst(s, pattern, replacement);
      }
    } else {
      assert prefix + s == s;
      assert prefix + ReplaceFirst(s, pattern, replacement) == ReplaceFirst(s, pattern, replacement);
    }
  }

  /** A string that starts with the pattern has that first occurrence replaced. */
  lemma ReplaceFirstAtStart(pattern: string, s: string, replacement: string)
    ensures ReplaceFirst(pattern + s, pattern, replacement) == replacement + s
  {
    assert (pattern + s)[..|pattern|] == pattern;
    assert (pattern + s)[|pattern|..] == s;
  }

  /** The pattern occurs in s starting at index k. */
  predicate OccursAt(s: string, pattern: string, k: nat) {
    k + |pattern| <= |s| && s[k..k + |pattern|] == pattern
  }

  /** An occurrence at j + 1 in s is an occurrence at j in s without its first character. */
  lemma OccursShift(s: string, pattern: string, j: nat)
    requires s != []
    ensures OccursAt(s, pattern, j + 1) <==> OccursAt(s[1..], pattern, j)
  {
    if j + 1 + |pattern| <= |s| {
      assert s[1..][j..j + |pattern|] == s[j + 1..j + 1 + |pattern|];
    }
  }

  /** Where the pattern does not start s, the search keeps the first character and moves on. */
  lemma ReplaceFirstMoves(s: string, pattern: string, replacement: string)
    requires s != [] && !OccursAt(s, pattern, 0)
    ensures ReplaceFirst(s, pattern, replacement) == if |s| < |pattern| then s
      else [s[0]] + ReplaceFirst(s[1..], pattern, replacement)
  {
  }

  /**
   * The meaning of replace: when the pattern occurs at k and at no earlier
   * index, exactly that occurrence is replaced and the rest is kept.
   */
  lemma {:induction false} ReplaceFirstOccurrence(s: string, pattern: string, replacement: string, k: nat)
    requires OccursAt(s, pattern, k)
    requires forall j: nat :: j < k ==> !OccursAt(s, pattern, j)
    ensures ReplaceFirst(s, pattern, replacement) == s[..k] + replacement + s[k + |pattern|..]
  {
    if k == 0 {
      assert s[..|pattern|] == pattern;
    } else {
      var t := s[1..];
      ReplaceFirstMoves(s, pattern, replacement);
      forall j: nat | j < k - 1
        ensures !OccursAt(t, pattern, j)
      {
        OccursShift(s, pattern, j);
      }
      OccursShift(s, pattern, k - 1);
      ReplaceFirstOccurrence(t, pattern, replacement, k - 1);
      var head, tail := t[..k - 1], t[k - 1 + |pattern|..];
      assert s[..k] == [s[0]] + head && s[k + |pattern|..] == tail;
      ConcatAssoc([s[0]], head + replacement, tail);
      ConcatAssoc([s[0]], head, replacement);
    }
  }

  /** When the pattern occurs nowhere, replace returns the string unchanged. */
  lemma {:induction false} ReplaceFirstNone(s: string, pattern: string, replacement: string)
    requires forall j: nat :: !OccursAt(s, pattern, j)
    ensures ReplaceFirst(s, pattern, replacement) == s
  {
    if s != [] {
      ReplaceFirstMoves(s, pattern, replacement);
      if |s| >= |pattern| {
        forall j: nat
          ensures !OccursAt(s[1..], pattern, j)
        {
          OccursShift(s, pattern, j);
        }
        ReplaceFirstNone(s[1..], pattern, replacement);
        assert s == [s[0]] + s[1..];
      }
    }
  }

  /** Replacement brings in no letter other than those of s and of the replacement. */
  lemma {:induction false} ReplaceFirstLetters(s: string, pattern: string, replacement: string)
    ensures forall c :: c in ReplaceFirst(s, pattern, replacement) ==> c in s || c in replacement
  {
    if |s| < |pattern| {
    } else if s[..|pattern|] == pattern {
      assert forall c :: c in s[|pattern|..] ==> c in s;
    } else {
      ReplaceFirstLetters(s[1..], pattern, replacement);
      assert forall c :: c in s[1..] ==> c in s;
    }
  }

  /** toUpperCase on one character, for the ASCII letters. */
  function UpperChar(c: char): (u: char)
    ensures 'a' <= c <= 'z' ==> 'A' <= u <= 'Z' && u as int == c as int - 32
    ensures !('a' <= c <= 'z') ==> u == c
  {
    if 'a' <= c <= 'z' then (c as int - 32) as char else c
  }

  /** toUpperCase on a string, character by character. */
  function Upper(s: string): (u: string)
    ensures |u| == |s|
    ensures forall i :: 0 <= i < |s| ==> u[i] == UpperChar(s[i])
  {
    seq(|s|, i requires 0 <= i < |s| => UpperChar(s[i]))
  }

  /** Upper-casing twice is upper-casing once. */
  lemma UpperIdempotent(s: string)
    ensures Upper(Upper(s)) == Upper(s)
  {
  }
}
