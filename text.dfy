/**
 * The operations on Python `str` values that the utilities rely on: `lower()`,
 * the substring test `sub in s`, the ordering `<=` on strings and `str(n)` for a
 * non-negative integer.
 */
module Text {

  /** `c.lower()` for ASCII capitals; every other character is its own lowercase here. */
  function LowerChar(c: char): char
  {
    if 'A' <= c <= 'Z' then (c as int + 32) as char else c
  }

  /** `s.lower()`, character by character. */
  function Lower(s: string): string
  {
    seq(|s|, i requires 0 <= i < |s| => LowerChar(s[i]))
  }

  /** After `lower()` no ASCII capital is left, and only capitals were changed. */
  lemma LowerLeavesNoCapital(s: string)
    ensures |Lower(s)| == |s|
    ensures forall i :: 0 <= i < |s| ==> !('A' <= Lower(s)[i] <= 'Z')
    ensures forall i :: 0 <= i < |s| && Lower(s)[i] != s[i] ==> 'A' <= s[i] <= 'Z'
  {
  }

  /** Lowering distributes over concatenation. */
  lemma LowerAppend(a: string, b: string)
    ensures Lower(a + b) == Lower(a) + Lower(b)
  {
    assert forall i :: 0 <= i < |a + b| ==> Lower(a + b)[i] == (Lower(a) + Lower(b))[i];
  }

  /** Lowering twice is lowering once. */
  lemma LowerIdempotent(s: string)
    ensures Lower(Lower(s)) == Lower(s)
  {
    assert forall i :: 0 <= i < |s| ==> Lower(Lower(s))[i] == Lower(s)[i];
  }

  /** `sub` occurs in `s` starting at index `i`. */
  predicate OccursAt(s: string, sub: string, i: int)
  {
    0 <= i && i + |sub| <= |s| && s[i..i + |sub|] == sub
  }

  /** Python's `sub in s`. */
  predicate Contains(s: string, sub: string)
  {
    exists i :: 0 <= i <= |s| - |sub| && OccursAt(s, sub, i)
  }

  /** `c` is the lowercase letter `w` or its ASCII capital. */
  predicate SameLetterIgnoringCase(c: char, w: char)
  {
    c == w || c as int == w as int - 32
  }

  /** Every character of `w` is a lowercase ASCII letter. */
  predicate IsLowerWord(w: string)
  {
    forall k :: 0 <= k < |w| ==> 'a' <= w[k] <= 'z'
  }

  /** `w` occurs at index `i` of `s` up to the case of each letter. */
  predicate OccursAtIgnoringCase(s: string, w: string, i: int)
  {
    0 <= i && i + |w| <= |s| && forall k :: 0 <= k < |w| ==> SameLetterIgnoringCase(s[i + k], w[k])
  }

  /** `s` contains `w` up to the case of each letter. */
  predicate ContainsIgnoringCase(s: string, w: string)
  {
    exists i :: 0 <= i <= |s| - |w| && OccursAtIgnoringCase(s, w, i)
  }

  /** A character lowers to the letter `w` exactly when it is `w` or `w`'s capital. */
  lemma LowerCharIs(c: char, w: char)
    requires 'a' <= w <= 'z'
    ensures LowerChar(c) == w <==> SameLetterIgnoringCase(c, w)
  {
  }

  /** One window of `s.lower()` equals a lowercase word exactly when that window of `s` matches it ignoring case. */
  lemma OccursAtLower(s: string, w: string, i: int)
    requires IsLowerWord(w)
    ensures OccursAt(Lower(s), w, i) <==> OccursAtIgnoringCase(s, w, i)
  {
    if 0 <= i && i + |w| <= |s| {
      forall k | 0 <= k < |w|
        ensures Lower(s)[i + k] == w[k] <==> SameLetterIgnoringCase(s[i + k], w[k])
      {
        LowerCharIs(s[i + k], w[k]);
      }
      assert OccursAt(Lower(s), w, i) <==> forall k :: 0 <= k < |w| ==> Lower(s)[i..i + |w|][k] == w[k];
    }
  }

  /**
   * `w in s.lower()` for a lowercase word `w` is a case-insensitive search:
   * some window of `s` spells `w` with each letter in either case.
   */
  lemma ContainsLower(s: string, w: string)
    requires IsLowerWord(w)
    ensures Contains(Lower(s), w) <==> ContainsIgnoringCase(s, w)
  {
    if Contains(Lower(s), w) {
      var i :| 0 <= i <= |Lower(s)| - |w| && OccursAt(Lower(s), w, i);
      OccursAtLower(s, w, i);
    }
    if ContainsIgnoringCase(s, w) {
      var i :| 0 <= i <= |s| - |w| && OccursAtIgnoringCase(s, w, i);
      OccursAtLower(s, w, i);
    }
  }

  /**
   * Python's `a <= b` on strings: lexicographic order on code points, where a
   * proper prefix comes first.
   */
  predicate LexLe(a: string, b: string)
    decreases |a|
  {
    |a| == 0 || (|b| > 0 && (a[0] < b[0] || (a[0] == b[0] && LexLe(a[1..], b[1..]))))
  }

  lemma {:induction false} LexLeReflexive(a: string)
    ensures LexLe(a, a)
    decreases |a|
  {
    if |a| > 0 {
      LexLeReflexive(a[1..]);
    }
  }

  lemma {:induction false} LexLeTotal(a: string, b: string)
    ensures LexLe(a, b) || LexLe(b, a)
    decreases |a|
  {
    if |a| > 0 && |b| > 0 && a[0] == b[0] {
      LexLeTotal(a[1..], b[1..]);
    }
  }

  lemma {:induction false} LexLeAntisymmetric(a: string, b: string)
    requires LexLe(a, b) && LexLe(b, a)
    ensures a == b
    decreases |a|
  {
    if |a| > 0 {
      LexLeAntisymmetric(a[1..], b[1..]);
      assert a == [a[0]] + a[1..] && b == [b[0]] + b[1..];
    }
  }

  lemma {:induction false} LexLeTransitive(a: string, b: string, c: string)
    requires LexLe(a, b) && LexLe(b, c)
    ensures LexLe(a, c)
    decreases |a|
  {
    if |a| > 0 && a[0] == b[0] && b[0] == c[0] {
      LexLeTransitive(a[1..], b[1..], c[1..]);
    }
  }

  /** The decimal digit for `d`. */
  function DigitChar(d: nat): (c: char)
    requires d < 10
    ensures '0' <= c <= '9' && c as int - '0' as int == d
  {
    ('0' as int + d) as char
  }

  predicate IsDigits(s: string)
  {
    forall i :: 0 <= i < |s| ==> '0' <= s[i] <= '9'
  }

  /** Python's `str(n)` for `n >= 0`: the shortest decimal numeral of `n`. */
  function NatToString(n: nat): (r: string)
    ensures |r| > 0 && IsDigits(r)
    ensures |r| > 1 ==> r[0] != '0'
    ensures n < 10 <==> |r| == 1
  {
    if n < 10 then [DigitChar(n)] else NatToString(n / 10) + [DigitChar(n % 10)]
  }

  /** The value of a decimal numeral, most significant digit first. */
  function DecimalValue(s: string): nat
    requires IsDigits(s)
  {
    if s == [] then 0 else 10 * DecimalValue(s[..|s| - 1]) + (s[|s| - 1] as int - '0' as int)
  }

  /** `str(n)` can be read back: it denotes `n`. */
  lemma {:induction false} NatToStringValue(n: nat)
    ensures DecimalValue(NatToString(n)) == n
  {
    var r := NatToString(n);
    if n >= 10 {
      NatToStringValue(n / 10);
      assert r[..|r| - 1] == NatToString(n / 10);
    }
  }

  /** Different numbers give different numerals. */
  lemma NatToStringInjective(m: nat, n: nat)
    requires NatToString(m) == NatToString(n)
    ensures m == n
  {
    NatToStringValue(m);
    NatToStringValue(n);
  }
}
