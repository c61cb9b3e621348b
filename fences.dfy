/**
 * The markdown-fence clean-up applied to the model's text before it is
 * parsed as JSON: a strip followed by three `re.sub` calls.  Each call is
 * modelled as Python's `re.sub` with an empty replacement: scan left to
 * right, delete every non-overlapping match, keep every other character.
 */
module Fences {
  import opened Wrappers
  import opened Text

  const Fence := "```"

  /**
   * The three patterns: `^```json\s*` and `^```\s*` under `re.MULTILINE`
   * (`LineFence("json")`, `LineFence("")`), and `\s*```$` without it
   * (`ClosingFence`).
   */
  datatype Pattern = LineFence(tag: string) | ClosingFence

  /** `^` under `re.MULTILINE`: the start of the text or just after a `'\n'`. */
  predicate LineStart(s: string, i: nat)
    requires i <= |s|
  {
    i == 0 || s[i - 1] == '\n'
  }

  /** `$` without `re.MULTILINE`: the end of the text or just before a final `'\n'`. */
  predicate EndAnchor(s: string, k: nat)
  {
    k == |s| || (k + 1 == |s| && s[k] == '\n')
  }

  /**
   * The end of the match of `p` that starts at index `i`, if there is one.
   * A greedy `\s*` followed by a backtick can only end where `SkipSpace`
   * stops, so no other split has to be tried.
   */
  function MatchAt(p: Pattern, s: string, i: nat): (m: Option<nat>)
    requires i <= |s|
    ensures m.Some? ==> i < m.value <= |s|
    ensures m.Some? && p.LineFence? ==> LineStart(s, i) && StartsAt(s, i + |Fence|, p.tag)
    ensures m.Some? ==> FenceAt(s, if p.LineFence? then i else m.value - |Fence|)
  {
    match p
    case LineFence(tag) =>
      if LineStart(s, i) && FenceAt(s, i) && StartsAt(s, i + |Fence|, tag) then
        Some(SkipSpace(s, i + |Fence| + |tag|))
      else None
    case ClosingFence =>
      var q := SkipSpace(s, i);
      if FenceAt(s, q) && EndAnchor(s, q + |Fence|) then Some(q + |Fence|) else None
  }

  /**
   * `re.sub(p, '', s[i..])` continued from index `i`: a match is deleted and
   * the scan resumes at its end; otherwise one character is kept.  No
   * pattern matches the empty string, so nothing is tried at `|s|`.
   */
  function Sub(p: Pattern, s: string, i: nat): (r: string)
    requires i <= |s|
    ensures |r| <= |s| - i
    decreases |s| - i
  {
    if i == |s| then []
    else
      match MatchAt(p, s, i)
      case Some(e) => Sub(p, s, e)
      case None => [s[i]] + Sub(p, s, i + 1)
  }

  /** The text handed to `json.loads`. */
  function StripFences(text: string): string
  {
    var t0 := Strip(text);
    var t1 := Sub(LineFence("json"), t0, 0);
    var t2 := Sub(LineFence(""), t1, 0);
    Sub(ClosingFence, Strip(t2), 0)
  }

  /** Three backticks start at index `j` of `s`. */
  predicate FenceAt(s: string, j: int)
  {
    0 <= j && j + 3 <= |s| && s[j] == '`' && s[j + 1] == '`' && s[j + 2] == '`'
  }

  predicate FenceFree(s: string)
  {
    forall j :: 0 <= j < |s| ==> !FenceAt(s, j)
  }

  /** Reference description of the third pattern on a stripped text: drop a final fence and the whitespace before it. */
  function DropClosingFence(t: string): (r: string)
  {
    if EndsWith(t, Fence) then t[..SpaceRunStart(t, |t| - |Fence|)] else t
  }

  lemma FenceAtIff(s: string, j: int)
    ensures StartsAt(s, j, Fence) <==> FenceAt(s, j)
  {
    if FenceAt(s, j) {
      assert s[j..j + 3] == Fence;
    }
  }

  /** `"```" in s` holds exactly when a fence starts somewhere in `s`. */
  lemma ContainsFenceIff(s: string)
    ensures Contains(s, Fence) <==> !FenceFree(s)
  {
    if !FenceFree(s) {
      var j :| FenceAt(s, j);
      FenceAtIff(s, j);
    }
    if Contains(s, Fence) {
      var j :| 0 <= j <= |s| && StartsAt(s, j, Fence);
      FenceAtIff(s, j);
    }
  }

  lemma FenceFreeSlice(s: string, i: nat, j: nat)
    requires FenceFree(s) && i <= j <= |s|
    ensures FenceFree(s[i..j])
  {
    forall k | FenceAt(s[i..j], k)
      ensures false
    {
      assert FenceAt(s, i + k);
    }
  }

  /** Joining two fence-free texts makes no fence unless backticks meet at the seam. */
  lemma FenceFreeAppend(a: string, b: string)
    requires FenceFree(a) && FenceFree(b)
    requires a == [] || b == [] || a[|a| - 1] != '`' || b[0] != '`'
    ensures FenceFree(a + b)
  {
    forall j | FenceAt(a + b, j)
      ensures false
    {
      if j + 3 <= |a| {
        assert FenceAt(a, j);
      } else if j >= |a| {
        assert FenceAt(b, j - |a|);
      }
    }
  }

  /** In `x + "```"`, with `x` fence-free and not ending in a backtick, the only fence is the last one. */
  lemma OnlyFinalFence(x: string, j: int)
    requires FenceFree(x) && (x == [] || x[|x| - 1] != '`')
    requires FenceAt(x + Fence, j)
    ensures j == |x|
  {
    if j + 3 <= |x| {
      assert FenceAt(x, j);
    }
  }

  /** Characters the pattern does not match at are copied through. */
  lemma {:induction false} SubUnmatched(p: Pattern, s: string, i: nat, k: nat)
    requires i <= k <= |s|
    requires forall j :: i <= j < k ==> MatchAt(p, s, j).None?
    ensures Sub(p, s, i) == s[i..k] + Sub(p, s, k)
    decreases k - i
  {
    if i < k {
      SubKeeps(p, s, i);
      SubUnmatched(p, s, i + 1, k);
      SliceCons(s, i, k, Sub(p, s, k));
    }
  }

  lemma SliceCons(s: string, i: nat, k: nat, rest: string)
    requires i < k <= |s|
    ensures [s[i]] + (s[i + 1..k] + rest) == s[i..k] + rest
  {
    assert s[i..k] == [s[i]] + s[i + 1..k];
  }

  /** One step of the scan where the pattern does not match: the character is kept. */
  lemma SubKeeps(p: Pattern, s: string, i: nat)
    requires i < |s| && MatchAt(p, s, i).None?
    ensures Sub(p, s, i) == [s[i]] + Sub(p, s, i + 1)
  {
  }

  /**
   * The `^` patterns only match at the start of a line: a text in which no
   * fence starts a line (an inline "```" inside a JSON string, say) passes
   * through `^```json\s*` and `^```\s*` unchanged.
   */
  lemma LineFenceNeedsLineStart(tag: string, s: string)
    requires forall j :: 0 <= j < |s| && FenceAt(s, j) ==> !LineStart(s, j)
    ensures Sub(LineFence(tag), s, 0) == s
  {
    forall j | 0 <= j < |s|
      ensures MatchAt(LineFence(tag), s, j).None?
    {
      if FenceAt(s, j) {
        assert !LineStart(s, j);
      }
    }
    SubUnmatched(LineFence(tag), s, 0, |s|);
    assert s[0..|s|] == s;
  }

  /** Every pattern needs three backticks, so a fence-free text passes through each `re.sub` unchanged. */
  lemma SubFenceFree(p: Pattern, s: string)
    requires FenceFree(s)
    ensures Sub(p, s, 0) == s
  {
    SubUnmatched(p, s, 0, |s|);
  }

  /** The third pattern, on a text not ending in `'\n'`, can only match where the whitespace run before a final fence starts. */
  lemma NoClosingMatch(t: string, j: nat)
    requires t == [] || t[|t| - 1] != '\n'
    requires j <= |t|
    requires !EndsWith(t, Fence) || SkipSpace(t, j) != |t| - |Fence|
    ensures MatchAt(ClosingFence, t, j).None?
  {
  }

  /**
   * On a text that does not end in `'\n'` (a stripped one, for instance),
   * `re.sub(r'\s*```$', '', t)` deletes the final three backticks and the
   * whitespace run before them when the text ends with them, and nothing
   * otherwise.
   */
  lemma ClosingFenceSub(t: string)
    requires t == [] || t[|t| - 1] != '\n'
    ensures Sub(ClosingFence, t, 0) == DropClosingFence(t)
  {
    if EndsWith(t, Fence) {
      ClosingFenceSubEnds(t);
    } else {
      forall j | 0 <= j < |t|
        ensures MatchAt(ClosingFence, t, j).None?
      {
        NoClosingMatch(t, j);
      }
      SubUnmatched(ClosingFence, t, 0, |t|);
    }
  }

  lemma ClosingFenceSubEnds(t: string)
    requires t == [] || t[|t| - 1] != '\n'
    requires EndsWith(t, Fence)
    ensures Sub(ClosingFence, t, 0) == t[..SpaceRunStart(t, |t| - |Fence|)]
  {
    var w := SpaceRunStart(t, |t| - |Fence|);
    forall j | 0 <= j < w
      ensures MatchAt(ClosingFence, t, j).None?
    {
      assert !IsSpace(t[w - 1]);
      assert SkipSpace(t, j) < w;
      NoClosingMatch(t, j);
    }
    SubUnmatched(ClosingFence, t, 0, w);
    ClosingMatchAtRun(t);
    assert t[0..w] == t[..w];
  }

  /** The match that deletes a final fence starts where the whitespace run before it starts. */
  lemma ClosingMatchAtRun(t: string)
    requires EndsWith(t, Fence)
    ensures Sub(ClosingFence, t, SpaceRunStart(t, |t| - |Fence|)) == []
  {
    var w := SpaceRunStart(t, |t| - |Fence|);
    ClosingMatchFromRun(t);
    assert Sub(ClosingFence, t, w) == Sub(ClosingFence, t, |t|);
  }

  lemma ClosingMatchFromRun(t: string)
    requires EndsWith(t, Fence)
    ensures MatchAt(ClosingFence, t, SpaceRunStart(t, |t| - |Fence|)) == Some(|t|)
  {
    var w := SpaceRunStart(t, |t| - |Fence|);
    FinalFence(t);
    SkipToFinalFence(t);
    var q := SkipSpace(t, w);
    assert FenceAt(t, q) && EndAnchor(t, q + |Fence|);
  }

  /** A greedy `\s*` started at the whitespace run before a final fence stops at the fence. */
  lemma {:induction false} SkipToFinalFence(t: string)
    requires EndsWith(t, Fence)
    ensures SkipSpace(t, SpaceRunStart(t, |t| - |Fence|)) == |t| - |Fence|
  {
    FinalFence(t);
    SkipSpaceAt(t, SpaceRunStart(t, |t| - |Fence|), |t| - |Fence|);
  }

  lemma FinalFence(t: string)
    requires EndsWith(t, Fence)
    ensures FenceAt(t, |t| - |Fence|)
  {
    assert t[|t| - 3..] == Fence;
  }

  lemma StripFenceFree(s: string)
    requires FenceFree(s)
    ensures FenceFree(Strip(s))
  {
    var r := Strip(s);
    var i := StripBounds(s);
    FenceFreeSlice(s, i, i + |r|);
  }

  /** Without three backticks in a row anywhere, the clean-up is exactly `text.strip()`. */
  lemma StripFencesWithoutFence(text: string)
    requires !Contains(text, Fence)
    ensures StripFences(text) == Strip(text)
  {
    ContainsFenceIff(text);
    var t0 := Strip(text);
    StripFenceFree(text);
    SubFenceFree(LineFence("json"), t0);
    SubFenceFree(LineFence(""), t0);
    StripIdempotent(text);
    SubFenceFree(ClosingFence, t0);
  }

  /**
   * The text handed to `json.loads` never starts or ends with whitespace,
   * although the result of the third substitution is not stripped again.
   */
  lemma StripFencesStripped(text: string)
    ensures Strip(StripFences(text)) == StripFences(text)
  {
    var t2 := Sub(LineFence(""), Sub(LineFence("json"), Strip(text), 0), 0);
    var t := Strip(t2);
    StripIdempotent(t2);
    ClosingFenceSub(t);
    DropClosingFenceStripped(t);
  }

  /** Dropping a final fence and the whitespace before it from a stripped text leaves a stripped text. */
  lemma DropClosingFenceStripped(t: string)
    requires Strip(t) == t
    ensures Strip(DropClosingFence(t)) == DropClosingFence(t)
  {
    if EndsWith(t, Fence) {
      var w := SpaceRunStart(t, |t| - |Fence|);
      var r := t[..w];
      assert r[0..w] == r;
      if w > 0 {
        assert r[0] == t[0] && r[w - 1] == t[w - 1];
      }
      StripUnique(r, 0, w);
    }
  }

  /** The opening and closing marker lines around a JSON text. */
  function FencedJson(json: string): string
  {
    "```json\n" + json + "\n```"
  }

  /** In a fenced fence-free text, fences start only at the two markers. */
  lemma FencedJsonFences(json: string, j: int)
    requires FenceFree(json)
    requires FenceAt(FencedJson(json), j)
    ensures j == 0 || j == |FencedJson(json)| - |Fence|
  {
    var body := FencedJson(json);
    var m := "json\n" + json + "\n";
    assert FenceFree("json\n") && FenceFree("\n");
    FenceFreeAppend("json\n", json);
    FenceFreeAppend("json\n" + json, "\n");
    assert body == Fence + (m + Fence);
    if j >= 3 {
      assert FenceAt(m + Fence, j - 3);
      OnlyFinalFence(m, j - 3);
    }
  }

  /** Past the opening marker, `^```json\s*` finds nothing in a fenced fence-free text. */
  lemma NoOpeningMatch(json: string, j: nat)
    requires FenceFree(json)
    requires 1 <= j <= |FencedJson(json)|
    ensures MatchAt(LineFence("json"), FencedJson(json), j).None?
  {
    if FenceAt(FencedJson(json), j) {
      FencedJsonFences(json, j);
    }
  }

  lemma FencedJsonShape(json: string)
    ensures FencedJson(json) == "```json\n" + (json + "\n") + Fence
    ensures |FencedJson(json)| == |json| + 12
    ensures FenceAt(FencedJson(json), 0) && StartsAt(FencedJson(json), 3, "json") && FencedJson(json)[7] == '\n'
    ensures FencedJson(json)[8..|json| + 9] == json + "\n"
    ensures FencedJson(json)[|json| + 9..] == Fence && FencedJson(json)[|json| + 9] == '`'
  {
    assert "\n```" == "\n" + Fence;
  }

  lemma FencedJsonSuffix(json: string, e: nat)
    requires 8 <= e <= |json| + 9
    ensures FencedJson(json)[e..] == (json + "\n")[e - 8..] + Fence
  {
    FencedJsonShape(json);
  }

  /** Where the first substitution's only match ends: after the opening marker and the whitespace that follows it. */
  function OpeningEnd(json: string): (e: nat)
    ensures 8 <= e <= |json| + 9
    ensures forall k :: 7 <= k < e ==> IsSpace(FencedJson(json)[k])
    ensures e == |json| + 9 || !IsSpace(FencedJson(json)[e])
  {
    FencedJsonShape(json);
    SkipSpace(FencedJson(json), 7)
  }

  /** The opening match ends where the whitespace at the front of `json + "\n"` ends. */
  lemma OpeningEndSkip(json: string)
    ensures OpeningEnd(json) == 8 + SkipSpace(json + "\n", 0)
  {
    var body := FencedJson(json);
    FencedJsonShape(json);
    assert IsSpace(body[7]);
    assert SkipSpace(body, 7) == SkipSpace(body, 8);
    SkipSpaceInside("```json\n", json + "\n", Fence);
  }

  lemma OpeningSub(json: string)
    requires FenceFree(json)
    ensures Sub(LineFence("json"), FencedJson(json), 0) == FencedJson(json)[OpeningEnd(json)..]
  {
    var p := LineFence("json");
    var body := FencedJson(json);
    FencedJsonShape(json);
    var e := OpeningEnd(json);
    assert MatchAt(p, body, 0) == Some(e);
    forall j | e <= j < |body|
      ensures MatchAt(p, body, j).None?
    {
      NoOpeningMatch(json, j);
    }
    SubUnmatched(p, body, e, |body|);
  }

  /**
   * The first substitution deletes the opening marker line together with
   * the whitespace that follows it; what is left is a fence-free text `x`,
   * ending in its final `'\n'` unless empty, followed by the closing marker.
   */
  lemma OpeningFenceSub(json: string) returns (x: string)
    requires FenceFree(json)
    ensures Sub(LineFence("json"), FencedJson(json), 0) == x + Fence
    ensures x == (json + "\n")[SkipSpace(json + "\n", 0)..]
    ensures FenceFree(x) && (x == [] || x[|x| - 1] == '\n')
    ensures Strip(x) == Strip(json)
  {
    OpeningSub(json);
    var e := OpeningEnd(json);
    OpeningEndSkip(json);
    x := (json + "\n")[e - 8..];
    FencedJsonSuffix(json, e);
    LineRestFenceFree(json, e - 8);
    OpeningRestStrip(json);
  }

  lemma LineRestFenceFree(json: string, n: nat)
    requires FenceFree(json) && n <= |json| + 1
    ensures FenceFree((json + "\n")[n..])
    ensures (json + "\n")[n..] == [] || (json + "\n")[n..][|(json + "\n")[n..]| - 1] == '\n'
  {
    assert FenceFree("\n");
    FenceFreeAppend(json, "\n");
    var y := json + "\n";
    FenceFreeSlice(y, n, |y|);
    assert y[n..|y|] == y[n..];
    assert y[n..] == [] || y[n..][|y[n..]| - 1] == y[|y| - 1];
  }

  lemma OpeningRestStrip(json: string)
    ensures Strip((json + "\n")[OpeningEnd(json) - 8..]) == Strip(json)
  {
    var y := json + "\n";
    var e := OpeningEnd(json);
    FencedJsonShape(json);
    forall k | 0 <= k < e - 8
      ensures IsSpace(y[k])
    {
      assert y[k] == FencedJson(json)[8..|json| + 9][k];
    }
    StripDropsLeadingSpace(y, e - 8);
    StripNewline(json);
  }

  lemma StripNewline(s: string)
    ensures Strip(s + "\n") == Strip(s)
  {
    assert (s + "\n")[..|s|] == s;
    StripDropsTrailingSpace(s + "\n", |s|);
  }

  /** The second substitution then deletes the closing marker, which now stands at the start of a line. */
  lemma ClosingLineFenceSub(x: string)
    requires FenceFree(x) && (x == [] || x[|x| - 1] == '\n')
    ensures Sub(LineFence(""), x + Fence, 0) == x
  {
    var t := x + Fence;
    forall j | 0 <= j < |t| && j != |x|
      ensures !FenceAt(t, j)
    {
      if FenceAt(t, j) {
        OnlyFinalFence(x, j);
      }
    }
    assert FenceAt(t, |x|) && LineStart(t, |x|);
    SingleLineFenceSub(t, |x|);
    assert t[..|x|] == x && t[|t|..] == [];
  }

  /**
   * A JSON text without three backticks in a row, wrapped in a
   * ```` ```json ```` marker line and a closing ```` ``` ```` line and
   * padded with whitespace, comes out as the stripped JSON text.
   */
  lemma StripFencesOfFencedJson(lead: string, json: string, trail: string)
    requires AllSpace(lead) && AllSpace(trail) && !Contains(json, Fence)
    ensures StripFences(lead + "```json\n" + json + "\n```" + trail) == Strip(json)
  {
    ContainsFenceIff(json);
    var body := FencedJson(json);
    assert lead + "```json\n" + json + "\n```" + trail == lead + body + trail;
    StripAround(lead, body, trail);
    var x := OpeningFenceSub(json);
    ClosingLineFenceSub(x);
    StripFenceFree(json);
    SubFenceFree(ClosingFence, Strip(json));
  }

  /** In `x + "```" + y`, with the seams free of backticks, the only fence is the middle one. */
  lemma OnlyMiddleFence(x: string, y: string, j: int)
    requires FenceFree(x) && FenceFree(y)
    requires x == [] || x[|x| - 1] != '`'
    requires y == [] || y[0] != '`'
    requires FenceAt(x + Fence + y, j)
    ensures j == |x|
  {
    var t := x + Fence + y;
    if j + 3 <= |x| {
      assert FenceAt(x, j);
    } else if j >= |x| + 3 {
      assert FenceAt(y, j - |x| - 3);
    }
  }

  /**
   * Under `re.MULTILINE` the second substitution deletes three backticks at
   * the start of ANY line, not only on the first or last line of the text,
   * together with all the whitespace after them, line breaks included.
   */
  lemma {:induction false} InteriorLineFenceSub(x: string, y: string)
    requires FenceFree(x) && FenceFree(y)
    requires x != [] && x[|x| - 1] == '\n'
    requires y == [] || y[0] != '`'
    ensures Sub(LineFence(""), x + Fence + y, 0) == x + y[SkipSpace(y, 0)..]
  {
    var t := x + Fence + y;
    forall j | 0 <= j < |t| && j != |x|
      ensures !FenceAt(t, j)
    {
      if FenceAt(t, j) {
        OnlyMiddleFence(x, y, j);
      }
    }
    assert FenceAt(t, |x|) && t[|x| - 1] == '\n';
    SingleLineFenceSub(t, |x|);
    assert (x + Fence) + y + [] == t;
    SkipSpaceInside(x + Fence, y, []);
    assert t[..|x|] == x;
    AppendDrop(x + Fence, y, SkipSpace(y, 0));
  }

  /** A suffix of `u + y` that starts inside `y` is a suffix of `y`. */
  lemma AppendDrop(u: string, y: string, m: nat)
    requires m <= |y|
    ensures (u + y)[|u| + m..] == y[m..]
  {
  }

  /**
   * `re.sub(r'^```\s*', '', s)` on a text whose only fence starts a line at
   * index `c`: the fence and the whitespace run after it are deleted, and
   * every other character is copied.
   */
  lemma SingleLineFenceSub(s: string, c: nat)
    requires c + |Fence| <= |s| && LineStart(s, c) && FenceAt(s, c)
    requires forall j :: 0 <= j < |s| && j != c ==> !FenceAt(s, j)
    ensures Sub(LineFence(""), s, 0) == s[..c] + s[SkipSpace(s, c + |Fence|)..]
  {
    var p := LineFence("");
    var e := SkipSpace(s, c + |Fence|);
    assert s[c + 3..c + 3] == "";
    assert MatchAt(p, s, c) == Some(e);
    forall j | 0 <= j < |s| && j != c
      ensures MatchAt(p, s, j).None?
    {
      assert !FenceAt(s, j);
    }
    SubUnmatched(p, s, 0, c);
    SubSkips(p, s, c, e);
    SubUnmatched(p, s, e, |s|);
    assert s[0..c] == s[..c] && s[e..|s|] + [] == s[e..];
  }

  /** Where the pattern matches, the scan deletes the match and resumes after it. */
  lemma SubSkips(p: Pattern, s: string, i: nat, e: nat)
    requires i < |s| && MatchAt(p, s, i) == Some(e)
    ensures Sub(p, s, i) == Sub(p, s, e)
  {
  }
}
