/**
 * The string operations the scraper relies on: Python's substring test
 * `sub in s`, `s.replace(pat, '')` and `s.lower()` (on ASCII letters).
 */
module Text {

  /**
   * The dagger that marks an extinct taxon. The scraper tests the one-character
   * string `'†' in text`, which is membership of this character (`ContainsChar`).
   */
  const Dagger: char := '\U{2020}'

  /** `p` is a prefix of `s`. */
  predicate IsPrefix(p: string, s: string)
  {
    |p| <= |s| && s[..|p|] == p
  }

  /** Python's `sub in s`: `sub` occurs somewhere in `s` (scanning left to right). */
  predicate Contains(s: string, sub: string)
    decreases |s|
  {
    IsPrefix(sub, s) || (|s| > 0 && Contains(s[1..], sub))
  }

  /** `sub` occurs in `s` starting at index `i` (the reference reading of `in`). */
  ghost predicate OccursAt(s: string, sub: string, i: int)
  {
    0 <= i && i + |sub| <= |s| && s[i..i + |sub|] == sub
  }

  /** The scan `Contains` agrees with the positional definition of a substring. */
  lemma {:induction false} ContainsIffOccurs(s: string, sub: string)
    ensures Contains(s, sub) <==> exists i :: OccursAt(s, sub, i)
    decreases |s|
  {
    if IsPrefix(sub, s) {
      assert OccursAt(s, sub, 0);
    } else if |s| == 0 {
    } else {
      ContainsIffOccurs(s[1..], sub);
      if Contains(s[1..], sub) {
        var i :| OccursAt(s[1..], sub, i);
        assert s[1..][i..i + |sub|] == s[i + 1..i + 1 + |sub|];
        assert OccursAt(s, sub, i + 1);
      } else {
        forall i | 0 < i && i + |sub| <= |s| ensures !OccursAt(s, sub, i) {
          var shifted := i - 1;
          assert s[1..][shifted..shifted + |sub|] == s[i..i + |sub|];
          assert !OccursAt(s[1..], sub, shifted);
        }
      }
    }
  }

  /** A one-character pattern occurs exactly when its character does. */
  lemma {:induction false} ContainsChar(s: string, c: char)
    ensures Contains(s, [c]) <==> c in s
    decreases |s|
  {
    if |s| > 0 {
      ContainsChar(s[1..], c);
      assert s == [s[0]] + s[1..];
    }
  }

  /** A string cannot contain a pattern that holds a character the string lacks. */
  lemma {:induction false} MissingCharNotContained(s: string, sub: string, c: char)
    requires c in sub && c !in s
    ensures !Contains(s, sub)
    decreases |s|
  {
    if |s| > 0 {
      assert forall k :: 0 <= k < |s[1..]| ==> s[1..][k] == s[k + 1];
      MissingCharNotContained(s[1..], sub, c);
    }
  }

  /**
   * Python's `s.replace(pat, '')`: scanning left to right, every
   * non-overlapping occurrence of `pat` is deleted; the scan resumes after
   * each deleted occurrence, so deletions never create a match that is
   * deleted in turn.
   */
  function RemoveAll(s: string, pat: string): (r: string)
    requires pat != []
    ensures |r| <= |s|
    ensures Contains(s, pat) <==> |r| < |s|
    ensures !Contains(s, pat) ==> r == s
    decreases |s|
  {
    if s == [] then []
    else if IsPrefix(pat, s) then RemoveAll(s[|pat|..], pat)
    else [s[0]] + RemoveAll(s[1..], pat)
  }

  /** An occurrence at the very start is deleted and the scan continues after it. */
  lemma LeadingPatternRemoved(pat: string, s: string)
    requires pat != []
    ensures RemoveAll(pat + s, pat) == RemoveAll(s, pat)
  {
    assert (pat + s)[..|pat|] == pat;
    assert (pat + s)[|pat|..] == s;
  }

  /** A match that starts inside a non-empty `s` and runs past its end covers `b[0]`. */
  lemma SeamCharInPattern(s: string, b: string, pat: string)
    requires s != [] && b != [] && |s| < |pat|
    requires IsPrefix(pat, s + b)
    ensures b[0] in pat && b[0] in pat[1..]
  {
    assert (s + b)[|s|] == b[0];
    assert pat[1..][|s| - 1] == pat[|s|];
  }

  /** A first character that cannot start the pattern is kept and the scan moves on. */
  lemma NonMatchingHeadKept(c: char, s: string, pat: string)
    requires pat != [] && c != pat[0]
    ensures RemoveAll([c] + s, pat) == [c] + RemoveAll(s, pat)
  {
    assert ([c] + s)[1..] == s;
  }

  /** A front none of whose characters can start the pattern is kept whole, and removal continues after it. */
  lemma {:induction false} ForeignFrontKept(a: string, s: string, pat: string)
    requires pat != [] && pat[0] !in a
    ensures RemoveAll(a + s, pat) == a + RemoveAll(s, pat)
    decreases |a|
  {
    if a != [] {
      assert a + s == [a[0]] + (a[1..] + s);
      NonMatchingHeadKept(a[0], a[1..] + s, pat);
      ForeignFrontKept(a[1..], s, pat);
      assert RemoveAll(a + s, pat) == [a[0]] + (a[1..] + RemoveAll(s, pat));
      assert [a[0]] + (a[1..] + RemoveAll(s, pat)) == ([a[0]] + a[1..]) + RemoveAll(s, pat);
      assert [a[0]] + a[1..] == a;
    } else {
      assert a + s == s && a + RemoveAll(s, pat) == RemoveAll(s, pat);
    }
  }

  /**
   * An occurrence at the very end is deleted, provided nothing before it
   * contains the pattern and the pattern's first character does not recur
   * inside it (so no earlier match can start in `s` and run into it).
   */
  lemma {:induction false} TrailingPatternRemoved(s: string, pat: string)
    requires pat != [] && pat[0] !in pat[1..]
    requires !Contains(s, pat)
    ensures RemoveAll(s + pat, pat) == s
    decreases |s|
  {
    if s == [] {
      assert s + pat == pat;
      assert pat[|pat|..] == [];
      assert IsPrefix(pat, pat);
    } else {
      if IsPrefix(pat, s + pat) {
        if |pat| <= |s| {
          assert false;
        } else {
          SeamCharInPattern(s, pat, pat);
          assert false;
        }
      }
      assert (s + pat)[1..] == s[1..] + pat;
      TrailingPatternRemoved(s[1..], pat);
    }
  }

  /**
   * Appending a string that starts with a character foreign to the pattern
   * creates no occurrence across the seam.
   */
  lemma {:induction false} NoOccurrenceAcrossSeam(s: string, b: string, pat: string)
    requires !Contains(s, pat) && !Contains(b, pat)
    requires b != [] && b[0] !in pat
    ensures !Contains(s + b, pat)
    decreases |s|
  {
    if s == [] {
      assert s + b == b;
    } else {
      if IsPrefix(pat, s + b) {
        if |pat| <= |s| {
          assert false;
        } else {
          SeamCharInPattern(s, b, pat);
          assert false;
        }
      }
      assert (s + b)[1..] == s[1..] + b;
      NoOccurrenceAcrossSeam(s[1..], b, pat);
    }
  }

  /** Python's `str.lower()` on one character, for the ASCII letters. */
  function LowerChar(c: char): char
  {
    if 'A' <= c <= 'Z' then (c as int + 32) as char else c
  }

  /** Python's `str.lower()`, folding only the ASCII letters `A`-`Z`. */
  function Lower(s: string): (r: string)
    ensures |r| == |s|
    ensures forall i :: 0 <= i < |s| ==> !('A' <= r[i] <= 'Z')
    ensures forall i :: 0 <= i < |s| && !('A' <= s[i] <= 'Z') ==> r[i] == s[i]
    ensures forall i :: 0 <= i < |s| && 'A' <= s[i] <= 'Z' ==> r[i] == (s[i] as int + 32) as char
  {
    seq(|s|, i requires 0 <= i < |s| => LowerChar(s[i]))
  }
}
