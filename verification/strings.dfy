/** Ordinal substring search and replacement, as .NET's `string.Contains(string)`
    and `string.Replace(string, string)` perform them. */
module Strings {

  /** `sub` occurs in `s` starting at index `i`. */
  predicate StartsAt(s: string, i: nat, sub: string) {
    i + |sub| <= |s| && s[i..i + |sub|] == sub
  }

  /** Ordinal `s.Contains(sub)`. */
  predicate Contains(s: string, sub: string) {
    exists i | 0 <= i <= |s| :: StartsAt(s, i, sub)
  }

  /** Ordinal `s.Replace(pat, rep)`: every non-overlapping occurrence of `pat`,
      found scanning left to right, is replaced by `rep`. The source only ever
      passes a non-empty `pat` (.NET throws on an empty one). */
  function Replace(s: string, pat: string, rep: string): (r: string)
    requires |pat| > 0
    decreases |s|
  {
    if |s| < |pat| then s
    else if s[..|pat|] == pat then rep + Replace(s[|pat|..], pat, rep)
    else [s[0]] + Replace(s[1..], pat, rep)
  }

  lemma ContainsShift(c: char, s: string, sub: string)
    requires Contains(s, sub)
    ensures Contains([c] + s, sub)
  {
    var i :| 0 <= i <= |s| && StartsAt(s, i, sub);
    assert ([c] + s)[i + 1..i + 1 + |sub|] == s[i..i + |sub|];
    assert StartsAt([c] + s, i + 1, sub);
  }

  /** A text without the pattern is returned unchanged. */
  lemma {:induction false} ReplaceAbsent(s: string, pat: string, rep: string)
    requires |pat| > 0
    requires !Contains(s, pat)
    ensures Replace(s, pat, rep) == s
    decreases |s|
  {
    if |s| < |pat| {
    } else {
      assert !StartsAt(s, 0, pat);
      forall i | 0 <= i <= |s| - 1
        ensures !StartsAt(s[1..], i, pat)
      {
        if i + |pat| <= |s| - 1 {
          assert s[1..][i..i + |pat|] == s[i + 1..i + 1 + |pat|];
          assert !StartsAt(s, i + 1, pat);
        }
      }
      ReplaceAbsent(s[1..], pat, rep);
      assert [s[0]] + s[1..] == s;
    }
  }

  /** When the pattern occurs, the scan finds an occurrence, so the
      replacement text appears in the result. */
  lemma {:induction false} ReplaceIntroduces(s: string, pat: string, rep: string)
    requires |pat| > 0
    requires Contains(s, pat)
    ensures Contains(Replace(s, pat, rep), rep)
    decreases |s|
  {
    var i :| 0 <= i <= |s| && StartsAt(s, i, pat);
    if s[..|pat|] == pat {
      assert StartsAt(rep + Replace(s[|pat|..], pat, rep), 0, rep);
    } else {
      assert i > 0;
      assert s[1..][i - 1..i - 1 + |pat|] == s[i..i + |pat|];
      assert StartsAt(s[1..], i - 1, pat);
      ReplaceIntroduces(s[1..], pat, rep);
      ContainsShift(s[0], Replace(s[1..], pat, rep), rep);
    }
  }

  /** A character that is not part of the pattern survives the replacement. */
  lemma {:induction false} ReplaceKeepsChar(s: string, pat: string, rep: string, c: char)
    requires |pat| > 0
    requires c in s && c !in pat
    ensures c in Replace(s, pat, rep)
    decreases |s|
  {
    if |s| < |pat| {
    } else if s[..|pat|] == pat {
      var k :| 0 <= k < |s| && s[k] == c;
      assert k >= |pat|;
      assert s[|pat|..][k - |pat|] == c;
      ReplaceKeepsChar(s[|pat|..], pat, rep, c);
    } else if s[0] != c {
      var k :| 0 <= k < |s| && s[k] == c;
      assert s[1..][k - 1] == c;
      ReplaceKeepsChar(s[1..], pat, rep, c);
    }
  }

  /** Removing a one-character pattern distributes over concatenation: no
      occurrence can straddle the seam. */
  lemma {:induction false} ReplaceCharConcat(a: string, b: string, c: char, rep: string)
    ensures Replace(a + b, [c], rep) == Replace(a, [c], rep) + Replace(b, [c], rep)
    decreases |a|
  {
    if |a| == 0 {
      assert a + b == b;
    } else {
      assert (a + b)[1..] == a[1..] + b;
      assert (a + b)[..1] == a[..1];
      ReplaceCharConcat(a[1..], b, c, rep);
    }
  }
}

module StringFacts {
  import opened Strings

  /** A one-character needle is found exactly when the character occurs. */
  lemma ContainsChar(s: string, c: char)
    ensures Contains(s, [c]) <==> c in s
  {
    if c in s {
      var k :| 0 <= k < |s| && s[k] == c;
      assert StartsAt(s, k, [c]);
    }
    if Contains(s, [c]) {
      var k :| 0 <= k <= |s| && StartsAt(s, k, [c]);
      assert s[k] == s[k..k + 1][0];
    }
  }

  /** A needle placed between two texts is found. */
  lemma ContainsInfix(a: string, sub: string, b: string)
    ensures Contains(a + sub + b, sub)
  {
    assert (a + sub + b)[|a|..|a| + |sub|] == sub;
    assert StartsAt(a + sub + b, |a|, sub);
  }

  /** Prepending a character shifts every occurrence by one. */
  lemma StartsAtShift(c: char, s: string, i: nat, pat: string)
    ensures StartsAt([c] + s, i + 1, pat) <==> StartsAt(s, i, pat)
  {
    if i + |pat| <= |s| {
      assert ([c] + s)[i + 1..i + 1 + |pat|] == s[i..i + |pat|];
    }
  }

  /** Replacement leaves a leading part alone when no occurrence of the
      pattern starts inside it. */
  lemma {:induction false} ReplaceKeepsPrefix(w: string, t: string, pat: string, rep: string)
    requires |pat| > 0
    requires forall i :: 0 <= i < |w| ==> !StartsAt(w + t, i, pat)
    ensures Replace(w + t, pat, rep) == w + Replace(t, pat, rep)
    decreases |w|
  {
    if |w| > 0 {
      var s := w + t;
      var rest := w[1..] + t;
      assert s == [w[0]] + rest;
      assert !StartsAt(s, 0, pat);
      forall i | 0 <= i < |w| - 1 ensures !StartsAt(rest, i, pat) {
        assert !StartsAt(s, i + 1, pat);
        StartsAtShift(w[0], rest, i, pat);
      }
      ReplaceKeepsPrefix(w[1..], t, pat, rep);
      assert Replace(s, pat, rep) == [w[0]] + Replace(rest, pat, rep);
      assert [w[0]] + (w[1..] + Replace(t, pat, rep)) == w + Replace(t, pat, rep);
    } else {
      assert w + t == t;
    }
  }
}
