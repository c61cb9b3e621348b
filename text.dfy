/**
 * The few primitives of Python's `str` that the upload handler relies on:
 * whitespace (`str.isspace`, which is also what `\s` matches in a `str`
 * pattern), `str.lower`, `str.strip`, `str.endswith` and the `in` operator.
 */
module Text {

  /** Python's `str.isspace()`: the characters CPython classifies as whitespace. */
  predicate IsSpace(c: char)
  {
    c == ' ' || '\t' <= c <= '\r' || '\U{1c}' <= c <= '\U{1f}' || c == '\U{85}' || c == '\U{a0}'
    || c == '\U{1680}' || '\U{2000}' <= c <= '\U{200a}' || c == '\U{2028}' || c == '\U{2029}'
    || c == '\U{202f}' || c == '\U{205f}' || c == '\U{3000}'
  }

  /** Every character of `s[i..j]` is whitespace. */
  predicate SpaceBetween(s: string, i: nat, j: nat)
    requires i <= j <= |s|
  {
    forall k :: i <= k < j ==> IsSpace(s[k])
  }

  predicate AllSpace(s: string)
  {
    SpaceBetween(s, 0, |s|)
  }

  /** `str.lower()` restricted to ASCII letters; every other character is kept. */
  function LowerChar(c: char): (l: char)
    ensures 'A' <= c <= 'Z' ==> 'a' <= l <= 'z' && l as int - 'a' as int == c as int - 'A' as int
    ensures !('A' <= c <= 'Z') ==> l == c
  {
    if 'A' <= c <= 'Z' then (c as int - 'A' as int + 'a' as int) as char else c
  }

  function Lower(s: string): (r: string)
    ensures |r| == |s|
    ensures forall i :: 0 <= i < |s| ==> r[i] == LowerChar(s[i])
  {
    seq(|s|, i requires 0 <= i < |s| => LowerChar(s[i]))
  }

  /** `w` occurs in `s` starting at index `i`. */
  predicate StartsAt(s: string, i: int, w: string)
  {
    0 <= i && i + |w| <= |s| && s[i..i + |w|] == w
  }

  /** Python's `w in s`. */
  predicate Contains(s: string, w: string)
  {
    exists i :: 0 <= i <= |s| && StartsAt(s, i, w)
  }

  /** Python's `s.endswith(w)`. */
  predicate EndsWith(s: string, w: string)
  {
    |w| <= |s| && s[|s| - |w|..] == w
  }

  /** An occurrence of `v` inside an occurrence of `w` is an occurrence of `v`. */
  lemma ContainsTransitive(s: string, w: string, v: string)
    requires Contains(s, w) && Contains(w, v)
    ensures Contains(s, v)
  {
    var i :| 0 <= i <= |s| && StartsAt(s, i, w);
    var j :| 0 <= j <= |w| && StartsAt(w, j, v);
    forall k | 0 <= k < |v|
      ensures s[i + j + k] == v[k]
    {
      assert v[k] == w[j..j + |v|][k] == w[j + k] == s[i..i + |w|][j + k];
    }
    assert s[i + j..i + j + |v|] == v;
    assert StartsAt(s, i + j, v);
  }

  /** `w` cannot occur in `s` if one of its characters does not. */
  lemma MissingCharNotContained(s: string, w: string, c: char)
    requires c in w && c !in s
    ensures !Contains(s, w)
  {
    var k :| 0 <= k < |w| && w[k] == c;
    forall i | 0 <= i <= |s|
      ensures !StartsAt(s, i, w)
    {
      if i + |w| <= |s| {
        assert s[i..i + |w|][k] == s[i + k];
      }
    }
  }

  /** The first index at or after `i` that is not whitespace (or `|s|`): how far a greedy `\s*` reaches. */
  function SkipSpace(s: string, i: nat): (j: nat)
    requires i <= |s|
    ensures i <= j <= |s|
    ensures forall k :: i <= k < j ==> IsSpace(s[k])
    ensures j == |s| || !IsSpace(s[j])
    decreases |s| - i
  {
    if i < |s| && IsSpace(s[i]) then SkipSpace(s, i + 1) else i
  }

  /** The start of the maximal whitespace run that ends at index `j`. */
  function SpaceRunStart(s: string, j: nat): (i: nat)
    requires j <= |s|
    ensures i <= j
    ensures forall k :: i <= k < j ==> IsSpace(s[k])
    ensures i == 0 || !IsSpace(s[i - 1])
  {
    if j > 0 && IsSpace(s[j - 1]) then SpaceRunStart(s, j - 1) else j
  }

  /** The two postconditions of SkipSpace determine it. */
  lemma SkipSpaceAt(s: string, i: nat, j: nat)
    requires i <= j <= |s|
    requires forall k :: i <= k < j ==> IsSpace(s[k])
    requires j == |s| || !IsSpace(s[j])
    ensures SkipSpace(s, i) == j
  {
  }

  /**
   * A greedy `\s*` started where `y` begins inside `pre + y + post` stops
   * where it would stop in `y` alone, provided `post` does not start with
   * whitespace.
   */
  lemma SkipSpaceInside(pre: string, y: string, post: string)
    requires post == [] || !IsSpace(post[0])
    ensures SkipSpace(pre + y + post, |pre|) == |pre| + SkipSpace(y, 0)
  {
    var t := pre + y + post;
    var m := SkipSpace(y, 0);
    forall k | |pre| <= k < |pre| + m
      ensures IsSpace(t[k])
    {
      assert t[k] == y[k - |pre|];
    }
    if m < |y| {
      assert t[|pre| + m] == y[m];
    } else if post != [] {
      assert t[|pre| + m] == post[0];
    }
    SkipSpaceAt(t, |pre|, |pre| + m);
  }

  /** Python's `s.strip()`: drop leading and trailing whitespace. */
  function Strip(s: string): (r: string)
    ensures r == [] || (!IsSpace(r[0]) && !IsSpace(r[|r| - 1]))
    ensures exists i :: 0 <= i <= |s| - |r| && r == s[i..i + |r|]
                        && SpaceBetween(s, 0, i) && SpaceBetween(s, i + |r|, |s|)
  {
    var i := SkipSpace(s, 0);
    if i == |s| then
      assert s[0..0] == [] && SpaceBetween(s, 0, 0) && SpaceBetween(s, 0 + 0, |s|);
      []
    else
      var j := SpaceRunStart(s, |s|);
      assert s[i..j] == s[i..i + (j - i)] && SpaceBetween(s, 0, i) && SpaceBetween(s, i + (j - i), |s|);
      s[i..j]
  }

  /** Where `Strip(s)` starts in `s`. */
  lemma StripBounds(s: string) returns (i: nat)
    ensures i <= |s| - |Strip(s)| && Strip(s) == s[i..i + |Strip(s)|]
    ensures SpaceBetween(s, 0, i) && SpaceBetween(s, i + |Strip(s)|, |s|)
  {
    i := if SkipSpace(s, 0) == |s| then 0 else SkipSpace(s, 0);
  }

  /**
   * An independent description of `strip`: cutting whitespace-only borders
   * `s[..i]` and `s[j..]` off `s` so that the middle neither starts nor ends
   * with whitespace gives exactly `Strip(s)`.
   */
  lemma StripUnique(s: string, i: nat, j: nat)
    requires i <= j <= |s|
    requires SpaceBetween(s, 0, i) && SpaceBetween(s, j, |s|)
    requires i == j || (!IsSpace(s[i]) && !IsSpace(s[j - 1]))
    ensures Strip(s) == s[i..j]
  {
    if i == j {
      SkipSpaceAt(s, 0, |s|);
    } else {
      SkipSpaceAt(s, 0, i);
    }
  }

  lemma StripIdempotent(s: string)
    ensures Strip(Strip(s)) == Strip(s)
  {
    var r := Strip(s);
    assert r[0..|r|] == r;
    StripUnique(r, 0, |r|);
  }

  /** Whitespace before and after `s` does not change `Strip(s)`. */
  lemma StripPadded(lead: string, s: string, trail: string)
    requires AllSpace(lead) && AllSpace(trail)
    ensures Strip(lead + s + trail) == Strip(s)
  {
    var u := lead + s;
    var t := u + trail;
    forall k | |u| <= k < |t|
      ensures IsSpace(t[k])
    {
      assert t[k] == trail[k - |u|];
    }
    assert t[..|u|] == u;
    StripDropsTrailingSpace(t, |u|);
    assert u[|lead|..] == s;
    StripDropsLeadingSpace(u, |lead|);
  }

  /** Whitespace in `y[n..]` is whitespace in `y`, shifted by `n`. */
  lemma SpaceBetweenShift(y: string, n: nat, lo: nat, hi: nat)
    requires n <= |y| && lo <= hi <= |y| - n
    requires SpaceBetween(y[n..], lo, hi)
    ensures SpaceBetween(y, n + lo, n + hi)
  {
    forall k | n + lo <= k < n + hi
      ensures IsSpace(y[k])
    {
      assert y[k] == y[n..][k - n];
    }
  }

  lemma SpaceBetweenJoin(y: string, i: nat, j: nat, k: nat)
    requires i <= j <= k <= |y|
    requires SpaceBetween(y, i, j) && SpaceBetween(y, j, k)
    ensures SpaceBetween(y, i, k)
  {
  }

  /** Whitespace at the front of `y` does not change `Strip(y)`. */
  lemma StripDropsLeadingSpace(y: string, n: nat)
    requires n <= |y| && SpaceBetween(y, 0, n)
    ensures Strip(y[n..]) == Strip(y)
  {
    var a, b := LeadingSpaceBounds(y, n);
    StripUnique(y, a, b);
  }

  /** Where `Strip(y[n..])` lies in `y`, when `y[..n]` is whitespace. */
  lemma LeadingSpaceBounds(y: string, n: nat) returns (a: nat, b: nat)
    requires n <= |y| && SpaceBetween(y, 0, n)
    ensures a <= b <= |y| && y[a..b] == Strip(y[n..])
    ensures SpaceBetween(y, 0, a) && SpaceBetween(y, b, |y|)
    ensures a == b || (!IsSpace(y[a]) && !IsSpace(y[b - 1]))
  {
    var z := y[n..];
    var r := Strip(z);
    var i := StripBounds(z);
    a, b := n + i, n + i + |r|;
    SpaceBetweenShift(y, n, 0, i);
    SpaceBetweenJoin(y, 0, n, a);
    SpaceBetweenShift(y, n, i + |r|, |z|);
    DropSlice(y, n, i, i + |r|);
  }

  /** A slice of a suffix is a slice of the whole. */
  lemma DropSlice(y: string, n: nat, i: nat, j: nat)
    requires n <= |y| && i <= j <= |y| - n
    ensures y[n..][i..j] == y[n + i..n + j]
  {
  }

  /** Whitespace at the end of `y` does not change `Strip(y)`. */
  lemma StripDropsTrailingSpace(y: string, n: nat)
    requires n <= |y| && SpaceBetween(y, n, |y|)
    ensures Strip(y[..n]) == Strip(y)
  {
    var a, b := TrailingSpaceBounds(y, n);
    StripUnique(y, a, b);
  }

  /** Where `Strip(y[..n])` lies in `y`, when `y[n..]` is whitespace. */
  lemma TrailingSpaceBounds(y: string, n: nat) returns (a: nat, b: nat)
    requires n <= |y| && SpaceBetween(y, n, |y|)
    ensures a <= b <= |y| && y[a..b] == Strip(y[..n])
    ensures SpaceBetween(y, 0, a) && SpaceBetween(y, b, |y|)
    ensures a == b || (!IsSpace(y[a]) && !IsSpace(y[b - 1]))
  {
    var z := y[..n];
    var r := Strip(z);
    var i := StripBounds(z);
    a, b := i, i + |r|;
    SpaceBetweenPrefix(y, n, 0, i);
    SpaceBetweenPrefix(y, n, b, n);
    SpaceBetweenJoin(y, b, n, |y|);
    TakeSlice(y, n, a, b);
  }

  /** A slice of a prefix is a slice of the whole. */
  lemma TakeSlice(y: string, n: nat, i: nat, j: nat)
    requires i <= j <= n <= |y|
    ensures y[..n][i..j] == y[i..j]
  {
  }

  /** Whitespace in `y[..n]` is whitespace in `y`. */
  lemma SpaceBetweenPrefix(y: string, n: nat, lo: nat, hi: nat)
    requires lo <= hi <= n <= |y|
    requires SpaceBetween(y[..n], lo, hi)
    ensures SpaceBetween(y, lo, hi)
  {
    forall k | lo <= k < hi
      ensures IsSpace(y[k])
    {
      assert y[k] == y[..n][k];
    }
  }

  /** A text that neither starts nor ends with whitespace is what `strip` keeps of it padded with whitespace. */
  lemma StripAround(lead: string, r: string, trail: string)
    requires AllSpace(lead) && AllSpace(trail)
    requires r == [] || (!IsSpace(r[0]) && !IsSpace(r[|r| - 1]))
    ensures Strip(lead + r + trail) == r
  {
    var t := lead + r + trail;
    var a, b := |lead|, |lead| + |r|;
    assert t[a..b] == r;
    StripUnique(t, a, b);
  }

  /** No ASCII capital survives lower-casing, so lower-casing twice is lower-casing once. */
  lemma LowerIdempotent(s: string)
    ensures forall i :: 0 <= i < |s| ==> !('A' <= Lower(s)[i] <= 'Z')
    ensures Lower(Lower(s)) == Lower(s)
  {
    LowerUnchanged(Lower(s));
  }

  /** Lower-casing leaves a text without ASCII capitals unchanged. */
  lemma LowerUnchanged(s: string)
    requires forall k :: 0 <= k < |s| ==> !('A' <= s[k] <= 'Z')
    ensures Lower(s) == s
  {
  }
}
