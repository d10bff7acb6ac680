/**
 Python string operations the template expander relies on: the substring
 test `p in s`, `str.replace` (every non-overlapping occurrence, scanned
 left to right) and `readlines` (split after each newline, terminators kept).
 */
module Text {

  /** `p` occurs in `s` starting at index `k`. */
  predicate OccursAt(s: string, p: string, k: int)
  {
    0 <= k && k + |p| <= |s| && s[k..k + |p|] == p
  }

  /** Python's `p in s`; the empty string occurs in every string. */
  predicate Contains(s: string, p: string)
  {
    exists k :: 0 <= k <= |s| - |p| && OccursAt(s, p, k)
  }

  predicate StartsWith(s: string, p: string)
  {
    |p| <= |s| && s[..|p|] == p
  }

  /** No character of `a` appears in `b`. */
  predicate Disjoint(a: string, b: string)
  {
    forall c :: c in a ==> c !in b
  }

  /** `s.replace('', rep)`: `rep` before every character and once at the end. */
  function Interleave(s: string, rep: string): (r: string)
    ensures |r| == |s| + (|s| + 1) * |rep|
  {
    if |s| == 0 then rep else rep + [s[0]] + Interleave(s[1..], rep)
  }

  /** `s.replace(pat, rep)`: every non-overlapping occurrence, leftmost first. */
  function Replace(s: string, pat: string, rep: string): string
    decreases |s|
  {
    if |pat| == 0 then Interleave(s, rep)
    else if |s| == 0 then []
    else if StartsWith(s, pat) then rep + Replace(s[|pat|..], pat, rep)
    else [s[0]] + Replace(s[1..], pat, rep)
  }

  /** An occurrence in a suffix is an occurrence in the whole string. */
  lemma OccursInSuffix(s: string, p: string, d: nat, k: int)
    requires d <= |s|
    requires OccursAt(s[d..], p, k)
    ensures OccursAt(s, p, k + d)
  {
    assert s[d..][k..k + |p|] == s[k + d..k + d + |p|];
  }

  lemma SuffixContains(s: string, p: string, d: nat)
    requires d <= |s|
    ensures Contains(s[d..], p) ==> Contains(s, p)
  {
    if Contains(s[d..], p) {
      var k :| 0 <= k <= |s[d..]| - |p| && OccursAt(s[d..], p, k);
      OccursInSuffix(s, p, d, k);
    }
  }

  /** Replacing a pattern that does not occur leaves the string unchanged. */
  lemma {:induction false} ReplaceAbsent(s: string, pat: string, rep: string)
    requires |pat| > 0
    requires !Contains(s, pat)
    ensures Replace(s, pat, rep) == s
    decreases |s|
  {
    if |s| > 0 {
      assert !OccursAt(s, pat, 0);
      SuffixContains(s, pat, 1);
      ReplaceAbsent(s[1..], pat, rep);
    }
  }

  /** The pattern alone is replaced by the replacement alone. */
  lemma ReplacePatternItself(pat: string, rep: string)
    requires |pat| > 0
    ensures Replace(pat, pat, rep) == rep
  {
    assert StartsWith(pat, pat);
    assert pat[|pat|..] == [];
    assert rep + [] == rep;
  }

  /**
   A head that does not hold the pattern's first character is copied
   unchanged; the replacement carries on with what follows it.
   */
  lemma {:induction false} ReplaceCopiesHead(a: string, b: string, pat: string, rep: string)
    requires |pat| > 0 && pat[0] !in a
    ensures Replace(a + b, pat, rep) == a + Replace(b, pat, rep)
    decreases |a|
  {
    if |a| == 0 {
      assert a + b == b;
    } else {
      var s, rest := a + b, Replace(b, pat, rep);
      assert s[1..] == a[1..] + b;
      assert a == [a[0]] + a[1..];
      assert !StartsWith(s, pat) by {
        assert s[0] == a[0] != pat[0];
      }
      ReplaceCopiesHead(a[1..], b, pat, rep);
      calc {
        Replace(s, pat, rep);
        [a[0]] + Replace(a[1..] + b, pat, rep);
        [a[0]] + (a[1..] + rest);
        ([a[0]] + a[1..]) + rest;
      }
    }
  }

  /**
   As long as the output shows no character of a non-empty `rep`, it agrees
   with the input: the characters before the first replacement are copied.
   */
  lemma {:induction false} ReplacePrefixCopied(s: string, pat: string, rep: string, n: nat)
    requires |pat| > 0 && |rep| > 0
    requires n <= |Replace(s, pat, rep)|
    ensures (forall i :: 0 <= i < n ==> Replace(s, pat, rep)[i] !in rep) ==>
              n <= |s| && Replace(s, pat, rep)[..n] == s[..n]
    decreases |s|
  {
    var r := Replace(s, pat, rep);
    if n > 0 && |s| > 0 {
      if StartsWith(s, pat) {
        assert r[0] == rep[0] && rep[0] in rep;
      } else {
        var tail := Replace(s[1..], pat, rep);
        assert r == [s[0]] + tail;
        ReplacePrefixCopied(s[1..], pat, rep, n - 1);
        forall i | 0 <= i < n - 1
          ensures tail[i] == r[i + 1]
        {
        }
        if forall i :: 0 <= i < n ==> r[i] !in rep {
          assert r[..n] == [s[0]] + tail[..n - 1];
          assert s[..n] == [s[0]] + s[1..][..n - 1];
        }
      }
    }
  }

  /** A string that starts with `pat` shows only characters of `pat` there. */
  lemma PatternCharsAvoid(r: string, pat: string, rep: string)
    requires |pat| <= |r|
    requires Disjoint(rep, pat)
    ensures r[..|pat|] == pat ==> forall i :: 0 <= i < |pat| ==> r[i] !in rep
  {
    forall i | 0 <= i < |pat|
      ensures r[..|pat|] == pat ==> r[i] !in rep
    {
      if r[..|pat|] == pat {
        assert r[i] == pat[i];
      }
    }
  }

  /**
   The output of a replacement that is not empty and shares no character
   with `q` cannot show `q` at `k`, unless the input already held `q`.
   */
  lemma {:induction false} ReplaceNoNewOccurrenceAt(s: string, pat: string, rep: string, q: string, k: int)
    requires |pat| > 0 && |rep| > 0 && |q| > 0
    requires Disjoint(rep, q)
    requires !Contains(s, q) || q == pat
    ensures !OccursAt(Replace(s, pat, rep), q, k)
    decreases |s|, 1
  {
    if |s| > 0 && 0 <= k && k + |q| <= |Replace(s, pat, rep)| {
      if StartsWith(s, pat) {
        NoNewOccurrenceAfterMatch(s, pat, rep, q, k);
      } else {
        NoNewOccurrenceAfterCopy(s, pat, rep, q, k);
      }
    }
  }

  /** The case where the input starts with the pattern: `rep` comes first, then the rest's replacement. */
  lemma {:induction false} NoNewOccurrenceAfterMatch(s: string, pat: string, rep: string, q: string, k: int)
    requires |pat| > 0 && |rep| > 0 && |q| > 0
    requires Disjoint(rep, q)
    requires !Contains(s, q) || q == pat
    requires |s| > 0 && StartsWith(s, pat)
    requires 0 <= k && k + |q| <= |Replace(s, pat, rep)|
    ensures !OccursAt(Replace(s, pat, rep), q, k)
    decreases |s|, 0
  {
    var r := Replace(s, pat, rep);
    var tail := Replace(s[|pat|..], pat, rep);
    assert r == rep + tail;
    if k < |rep| {
      assert r[k] == rep[k] && rep[k] in rep;
      assert q[0] in q;
    } else {
      SuffixContains(s, q, |pat|);
      ReplaceNoNewOccurrenceAt(s[|pat|..], pat, rep, q, k - |rep|);
      assert r[k..k + |q|] == tail[k - |rep|..k - |rep| + |q|];
    }
  }

  /** The case where the first character is copied: it leads, then the rest's replacement. */
  lemma {:induction false} NoNewOccurrenceAfterCopy(s: string, pat: string, rep: string, q: string, k: int)
    requires |pat| > 0 && |rep| > 0 && |q| > 0
    requires Disjoint(rep, q)
    requires !Contains(s, q) || q == pat
    requires |s| > 0 && !StartsWith(s, pat)
    requires 0 <= k && k + |q| <= |Replace(s, pat, rep)|
    ensures !OccursAt(Replace(s, pat, rep), q, k)
    decreases |s|, 0
  {
    var r := Replace(s, pat, rep);
    var tail := Replace(s[1..], pat, rep);
    assert r == [s[0]] + tail;
    if k == 0 {
      ReplacePrefixCopied(s, pat, rep, |q|);
      PatternCharsAvoid(r, q, rep);
      assert !OccursAt(s, q, 0);
    } else {
      SuffixContains(s, q, 1);
      ReplaceNoNewOccurrenceAt(s[1..], pat, rep, q, k - 1);
      assert r[k..k + |q|] == tail[k - 1..k - 1 + |q|];
    }
  }

  /**
   A replacement that shares no character with the pattern and is not empty
   removes every occurrence of the pattern: none survives and none is created.
   */
  lemma ReplaceRemovesPattern(s: string, pat: string, rep: string)
    requires |pat| > 0 && |rep| > 0
    requires Disjoint(rep, pat)
    ensures !Contains(Replace(s, pat, rep), pat)
  {
    var r := Replace(s, pat, rep);
    forall k | 0 <= k <= |r| - |pat|
      ensures !OccursAt(r, pat, k)
    {
      ReplaceNoNewOccurrenceAt(s, pat, rep, pat, k);
    }
  }

  /**
   A replacement that is not empty and shares no character with `q` cannot
   create an occurrence of `q` where the input had none.
   */
  lemma ReplaceKeepsAbsent(s: string, pat: string, rep: string, q: string)
    requires |pat| > 0 && |rep| > 0 && |q| > 0
    requires Disjoint(rep, q)
    requires !Contains(s, q)
    ensures !Contains(Replace(s, pat, rep), q)
  {
    var r := Replace(s, pat, rep);
    forall k | 0 <= k <= |r| - |q|
      ensures !OccursAt(r, q, k)
    {
      ReplaceNoNewOccurrenceAt(s, pat, rep, q, k);
    }
  }

  /** The first `i + 1` elements are the first `i` followed by element `i`. */
  lemma PrefixSnoc<T>(s: seq<T>, i: nat)
    requires i < |s|
    ensures s[..i + 1] == s[..i] + [s[i]]
  {
  }

  /** Concatenation of a list of strings (what writing them one after another produces). */
  function Concat(parts: seq<string>): string
  {
    if |parts| == 0 then [] else parts[0] + Concat(parts[1..])
  }

  lemma {:induction false} ConcatAppend(a: seq<string>, b: seq<string>)
    ensures Concat(a + b) == Concat(a) + Concat(b)
    decreases |a|
  {
    if |a| == 0 {
      assert a + b == b;
    } else {
      assert (a + b)[1..] == a[1..] + b;
      ConcatAppend(a[1..], b);
    }
  }

  /** Length of the first line of `s`, its terminating newline included. */
  function FirstLineLength(s: string): (n: nat)
    requires |s| > 0
    ensures 0 < n <= |s|
    ensures n == |s| || s[n - 1] == '\n'
    ensures forall i :: 0 <= i < n - 1 ==> s[i] != '\n'
  {
    if s[0] == '\n' || |s| == 1 then 1 else 1 + FirstLineLength(s[1..])
  }

  /** A well-formed line: not empty, and a newline at most as its last character. */
  predicate IsLine(line: string)
  {
    |line| > 0 && forall i :: 0 <= i < |line| - 1 ==> line[i] != '\n'
  }

  /**
   Python's `readlines()`: the text cut after every newline, terminators
   kept, and a final unterminated line if the text does not end in one.
   */
  function Lines(s: string): (r: seq<string>)
    ensures Concat(r) == s
    ensures forall i :: 0 <= i < |r| ==> IsLine(r[i]) && (i < |r| - 1 ==> r[i][|r[i]| - 1] == '\n')
    decreases |s|
  {
    if |s| == 0 then []
    else
      var n := FirstLineLength(s);
      assert s == s[..n] + s[n..];
      [s[..n]] + Lines(s[n..])
  }
}
