/**
  The `update` mode of the metadata editor as a rule on strings: a
  placeholder text is overwritten, an HTML abstract gets a new paragraph
  before its three closing divisions, any other text gets the new text
  appended as a further sentence.
 */
module MetadataText {

  /** Marks the placeholder text that a metadata template ships with. */
  const Required := "REQUIRED:"

  /** Three closing divisions with the angle brackets escaped as entities. */
  const EscapedDivs := "&lt;/DIV&gt;&lt;/DIV&gt;&lt;/DIV&gt;"

  /** Three closing divisions, unescaped. */
  const RawDivs := "</DIV></DIV></DIV>"

  /** The opening and closing tags of the paragraph that `update` inserts, escaped and unescaped. */
  const EscapedOpen := "&lt;P&gt;&lt;SPAN&gt;"
  const EscapedClose := "&lt;/SPAN&gt;&lt;/P&gt;"
  const RawOpen := "<P><SPAN>"
  const RawClose := "</SPAN></P>"

  /** The escaped paragraph holding `t`, followed by the escaped closing divisions. */
  function EscapedInsert(t: string): (r: string)
    ensures |r| == |EscapedOpen| + |t| + |EscapedClose| + |EscapedDivs|
    ensures StartsWith(r, EscapedOpen) && r[|EscapedOpen|..|EscapedOpen| + |t|] == t
    ensures EndsWith(r, EscapedClose + EscapedDivs)
  {
    var r := EscapedOpen + t + EscapedClose + EscapedDivs;
    assert r[..|EscapedOpen|] == EscapedOpen;
    assert r[|EscapedOpen|..|EscapedOpen| + |t|] == t;
    assert r[|r| - |EscapedClose + EscapedDivs|..] == EscapedClose + EscapedDivs;
    r
  }

  /** The paragraph holding `t`, followed by the closing divisions. */
  function RawInsert(t: string): (r: string)
    ensures |r| == |RawOpen| + |t| + |RawClose| + |RawDivs|
    ensures StartsWith(r, RawOpen) && r[|RawOpen|..|RawOpen| + |t|] == t
    ensures EndsWith(r, RawClose + RawDivs)
  {
    var r := RawOpen + t + RawClose + RawDivs;
    assert r[..|RawOpen|] == RawOpen;
    assert r[|RawOpen|..|RawOpen| + |t|] == t;
    assert r[|r| - |RawClose + RawDivs|..] == RawClose + RawDivs;
    r
  }

  /** The closing-division sequence, escaped or not. */
  function Divs(escaped: bool): (d: string)
    ensures |d| > 0 && (d[0] == '&' || d[0] == '<')
  {
    if escaped then EscapedDivs else RawDivs
  }

  /** The paragraph-wrapping replacement of `Divs(escaped)`: it opens with a markup character and keeps the divisions last. */
  function Insert(escaped: bool, t: string): (r: string)
    ensures |r| > 0 && (r[0] == '&' || r[0] == '<')
    ensures EndsWith(r, Divs(escaped))
  {
    if escaped then
      var r := EscapedInsert(t);
      assert r[0] == r[..|EscapedOpen|][0];
      assert r[|r| - |EscapedDivs|..] == r[|r| - |EscapedClose + EscapedDivs|..][|EscapedClose|..];
      r
    else
      var r := RawInsert(t);
      assert r[0] == r[..|RawOpen|][0];
      assert r[|r| - |RawDivs|..] == r[|r| - |RawClose + RawDivs|..][|RawClose|..];
      r
  }

  predicate StartsWith(s: string, p: string) {
    |p| <= |s| && s[..|p|] == p
  }

  predicate EndsWith(s: string, p: string) {
    |p| <= |s| && s[|s| - |p|..] == p
  }

  /** An occurrence of `pat` in `s` starts at index `i`. */
  predicate MatchAt(s: string, pat: string, i: int) {
    0 <= i && i + |pat| <= |s| && s[i..i + |pat|] == pat
  }

  /** No occurrence of `pat` in `s` starts before index `k`. */
  predicate NoMatchBefore(s: string, pat: string, k: int) {
    forall i :: 0 <= i < k ==> !MatchAt(s, pat, i)
  }

  /**
    Python's `str.replace(pat, rep)`: scanning from the left, every
    occurrence of `pat` that does not overlap an earlier replaced one is
    replaced by `rep`.
   */
  function ReplaceAll(s: string, pat: string, rep: string): (r: string)
    requires pat != []
    decreases |s|
  {
    if |s| < |pat| then s
    else if MatchAt(s, pat, 0) then rep + ReplaceAll(s[|pat|..], pat, rep)
    else [s[0]] + ReplaceAll(s[1..], pat, rep)
  }

  /** Dropping the first character shifts every later non-match down by one. */
  lemma NoMatchBeforeTail(s: string, pat: string, k: nat)
    requires 0 < k <= |s| && NoMatchBefore(s, pat, k)
    ensures NoMatchBefore(s[1..], pat, k - 1)
  {
    forall i | 0 <= i < k - 1
      ensures !MatchAt(s[1..], pat, i)
    {
      assert !MatchAt(s, pat, i + 1);
      if i + |pat| <= |s[1..]| {
        assert s[1..][i..i + |pat|] == s[i + 1..i + 1 + |pat|];
      }
    }
  }

  /** A prefix in which `pat` does not start is copied unchanged. */
  lemma {:induction false} ReplaceAllSkips(s: string, pat: string, rep: string, k: nat)
    requires pat != [] && k <= |s|
    requires NoMatchBefore(s, pat, k)
    ensures ReplaceAll(s, pat, rep) == s[..k] + ReplaceAll(s[k..], pat, rep)
  {
    if k == 0 {
      assert s[..0] == [] && s[0..] == s;
    } else if |s| < |pat| {
      assert s[..k] + s[k..] == s;
    } else {
      assert !MatchAt(s, pat, 0);
      NoMatchBeforeTail(s, pat, k);
      ReplaceAllSkips(s[1..], pat, rep, k - 1);
      assert s[1..][k - 1..] == s[k..];
      assert s[..k] == [s[0]] + s[1..][..k - 1];
    }
  }

  /** A text in which `pat` does not occur comes back unchanged. */
  lemma {:induction false} ReplaceAllNoMatch(s: string, pat: string, rep: string)
    requires pat != [] && NoMatchBefore(s, pat, |s|)
    ensures ReplaceAll(s, pat, rep) == s
  {
    ReplaceAllSkips(s, pat, rep, |s|);
    assert s[..|s|] == s && s[|s|..] == [];
  }

  /** A match at the very start is replaced and the scan goes on after it. */
  lemma ReplaceAllLeadingMatch(pat: string, x: string, rep: string)
    requires pat != []
    ensures ReplaceAll(pat + x, pat, rep) == rep + ReplaceAll(x, pat, rep)
  {
    var s := pat + x;
    assert s[0..|pat|] == pat && s[|pat|..] == x;
    assert MatchAt(s, pat, 0);
  }

  /** When `pat` occurs in `a + pat` only at the end, that one occurrence becomes `rep`. */
  lemma ReplaceAllOnlyTrailing(a: string, pat: string, rep: string)
    requires pat != [] && NoMatchBefore(a + pat, pat, |a|)
    ensures ReplaceAll(a + pat, pat, rep) == a + rep
  {
    var s := a + pat;
    ReplaceAllSkips(s, pat, rep, |a|);
    assert s[..|a|] == a && s[|a|..] == pat;
    ReplaceAllLeadingMatch(pat, [], rep);
    assert pat + [] == pat;
  }

  /** Two runs of `pat`, each the first occurrence after the previous one, are both replaced. */
  lemma ReplaceAllTwoRuns(a: string, b: string, pat: string, rep: string)
    requires pat != []
    requires NoMatchBefore(a + pat + b + pat, pat, |a|)
    requires NoMatchBefore(b + pat, pat, |b|)
    ensures ReplaceAll(a + pat + b + pat, pat, rep) == a + rep + b + rep
  {
    var s := a + pat + b + pat;
    var tail := pat + (b + pat);
    assert s == a + tail;
    ReplaceAllSkips(s, pat, rep, |a|);
    assert s[..|a|] == a && s[|a|..] == tail;
    ReplaceAllLeadingMatch(pat, b + pat, rep);
    ReplaceAllOnlyTrailing(b, pat, rep);
    assert a + (rep + (b + rep)) == a + rep + b + rep;
  }

  /** A suffix of `s` at least as long as `pat` ends with what `s` ends with. */
  lemma EndsWithDrop(s: string, pat: string, n: nat)
    requires EndsWith(s, pat) && n + |pat| <= |s|
    ensures EndsWith(s[n..], pat)
  {
    assert s[n..][|s[n..]| - |pat|..] == s[|s| - |pat|..];
  }

  /** Putting text in front keeps the ending. */
  lemma EndsWithPrepend(y: string, s: string, pat: string)
    requires EndsWith(s, pat)
    ensures EndsWith(y + s, pat)
  {
    assert (y + s)[|y + s| - |pat|..] == s[|s| - |pat|..];
  }

  /** When `s` and `rep` both end with `pat`, so does the rewritten text. */
  lemma {:induction false} ReplaceAllKeepsSuffix(s: string, pat: string, rep: string)
    requires pat != [] && EndsWith(s, pat) && EndsWith(rep, pat)
    ensures EndsWith(ReplaceAll(s, pat, rep), pat)
    decreases |s|
  {
    if MatchAt(s, pat, 0) {
      var rest := s[|pat|..];
      if |rest| >= |pat| {
        EndsWithDrop(s, pat, |pat|);
        ReplaceAllKeepsSuffix(rest, pat, rep);
        EndsWithPrepend(rep, ReplaceAll(rest, pat, rep), pat);
      } else {
        // The remainder is copied, and the match it follows is the text's own ending.
        var y := rep[..|rep| - |pat|];
        assert rep == y + pat;
        assert s == pat + rest;
        assert rep + ReplaceAll(rest, pat, rep) == y + s;
        EndsWithPrepend(y, s, pat);
      }
    } else {
      assert |s| > |pat|;
      EndsWithDrop(s, pat, 1);
      ReplaceAllKeepsSuffix(s[1..], pat, rep);
      EndsWithPrepend([s[0]], ReplaceAll(s[1..], pat, rep), pat);
    }
  }

  /** The outcome of `update` on an element's text: the new text, and whether it is counted. */
  datatype Rewrite = Rewrite(text: string, counted: bool)

  /**
    The `update` rule on a present text `s` with new text `t`, branches in
    the source's order: placeholder, escaped divisions, raw divisions,
    appended sentence. The two division branches are not counted.
   */
  function UpdateRule(s: string, t: string): (r: Rewrite)
    ensures r.counted <==> StartsWith(s, Required) || !(EndsWith(s, EscapedDivs) || EndsWith(s, RawDivs))
  {
    if StartsWith(s, Required) then Rewrite(t, true)
    else if EndsWith(s, EscapedDivs) then Rewrite(ReplaceAll(s, EscapedDivs, EscapedInsert(t)), false)
    else if EndsWith(s, RawDivs) then Rewrite(ReplaceAll(s, RawDivs, RawInsert(t)), false)
    else if EndsWith(s, ".") then Rewrite(s + " " + t, true)
    else Rewrite(s + ". " + t, true)
  }

  /** A placeholder text is overwritten and counted, whatever it ends with. */
  lemma RequiredOverwrites(s: string, t: string)
    requires StartsWith(s, Required)
    ensures UpdateRule(s, t) == Rewrite(t, true)
  {
  }

  /** A text ending in raw divisions never ends in escaped ones, so the escaped branch is tried first harmlessly. */
  lemma DivEndingsExclusive(s: string)
    ensures !(EndsWith(s, EscapedDivs) && EndsWith(s, RawDivs))
  {
    assert EndsWith(s, EscapedDivs) ==> s[|s| - 1] == EscapedDivs[|EscapedDivs| - 1] == ';';
    assert EndsWith(s, RawDivs) ==> s[|s| - 1] == RawDivs[|RawDivs| - 1] == '>';
  }

  /**
    Any other text is kept as the start of the result, followed by one
    sentence break ". " (the period is not doubled) and the new text.
   */
  lemma AppendKeepsOriginal(s: string, t: string)
    requires !StartsWith(s, Required) && !EndsWith(s, EscapedDivs) && !EndsWith(s, RawDivs)
    ensures var r := UpdateRule(s, t).text;
      && UpdateRule(s, t).counted
      && StartsWith(r, s) && EndsWith(r, t)
      && EndsWith(r[..|r| - |t|], ". ")
      && |r| == |s| + |t| + (if EndsWith(s, ".") then 1 else 2)
  {
    var r := UpdateRule(s, t).text;
    if EndsWith(s, ".") {
      assert r == s + " " + t;
      assert r[..|r| - |t|] == s + " ";
      assert (s + " ")[|s + " "| - 2..] == [s[|s| - 1], ' '];
    } else {
      assert r == s + ". " + t;
      assert r[..|r| - |t|] == s + ". ";
    }
  }

  /**
    When the closing divisions occur only at the end of the text, the new
    paragraph lands right before them and nothing else changes; the
    element is not counted.
   */
  lemma TrailingDivsGetParagraph(a: string, t: string, escaped: bool)
    requires !StartsWith(a + Divs(escaped), Required)
    requires NoMatchBefore(a + Divs(escaped), Divs(escaped), |a|)
    ensures UpdateRule(a + Divs(escaped), t) == Rewrite(a + Insert(escaped, t), false)
  {
    var d := Divs(escaped);
    var s := a + d;
    assert s[|s| - |d|..] == d;
    DivEndingsExclusive(s);
    ReplaceAllOnlyTrailing(a, d, Insert(escaped, t));
  }

  /**
    `str.replace` rewrites every closing-division run, not only the
    trailing one: a text holding two runs gets two paragraphs.
   */
  lemma EveryDivRunRewritten(a: string, b: string, t: string, escaped: bool)
    requires !StartsWith(a + Divs(escaped) + b + Divs(escaped), Required)
    requires NoMatchBefore(a + Divs(escaped) + b + Divs(escaped), Divs(escaped), |a|)
    requires NoMatchBefore(b + Divs(escaped), Divs(escaped), |b|)
    ensures UpdateRule(a + Divs(escaped) + b + Divs(escaped), t)
         == Rewrite(a + Insert(escaped, t) + b + Insert(escaped, t), false)
  {
    var d := Divs(escaped);
    var s := a + d + b + d;
    assert s[|s| - |d|..] == d;
    DivEndingsExclusive(s);
    ReplaceAllTwoRuns(a, b, d, Insert(escaped, t));
  }

  /** The leftmost occurrence of `pat` in `s`, given any occurrence `j`. */
  lemma FirstMatch(s: string, pat: string, j: nat) returns (i: nat)
    requires MatchAt(s, pat, j)
    ensures i <= j && MatchAt(s, pat, i) && NoMatchBefore(s, pat, i)
    decreases j
  {
    if NoMatchBefore(s, pat, j) {
      i := j;
    } else {
      var k :| 0 <= k < j && MatchAt(s, pat, k);
      i := FirstMatch(s, pat, k);
    }
  }

  /** No character of the placeholder marker is `&` or `<`. */
  lemma RequiredHasNoMarkup(k: nat)
    requires k < |Required|
    ensures Required[k] != '&' && Required[k] != '<'
  {
  }

  /**
    Text whose first `p` characters are followed by markup starts before
    the marker could end, so it is not a placeholder.
   */
  lemma MarkupBreaksRequired(p: string, x: string, y: string)
    requires |p| < |Required| && x != [] && (x[0] == '&' || x[0] == '<')
    ensures !StartsWith(p + x + y, Required)
  {
    var r := p + x + y;
    RequiredHasNoMarkup(|p|);
    assert r[|p|] == x[0];
  }

  /** Rewriting the division runs of a text that is no placeholder does not make it one. */
  lemma DivRewriteNotRequired(s: string, d: string, ins: string)
    requires d != [] && (d[0] == '&' || d[0] == '<') && EndsWith(s, d)
    requires ins != [] && (ins[0] == '&' || ins[0] == '<')
    requires !StartsWith(s, Required)
    ensures !StartsWith(ReplaceAll(s, d, ins), Required)
  {
    assert MatchAt(s, d, |s| - |d|);
    var i := FirstMatch(s, d, |s| - |d|);
    ReplaceAllSkips(s, d, ins, i);
    var rest := s[i + |d|..];
    assert s[i..] == d + rest;
    ReplaceAllLeadingMatch(d, rest, ins);
    var r := ReplaceAll(s, d, ins);
    assert r == s[..i] + ins + ReplaceAll(rest, d, ins);
    if i < |Required| {
      MarkupBreaksRequired(s[..i], ins, ReplaceAll(rest, d, ins));
    } else {
      assert r[..|Required|] == s[..|Required|];
    }
  }

  /**
    A text that went down a division branch still ends with the same
    closing divisions and has not become a placeholder, so a later
    `update` takes that branch again.
   */
  lemma DivRewriteStaysDiv(s: string, t: string, escaped: bool)
    requires !StartsWith(s, Required) && EndsWith(s, Divs(escaped))
    ensures !UpdateRule(s, t).counted
    ensures EndsWith(UpdateRule(s, t).text, Divs(escaped))
    ensures !StartsWith(UpdateRule(s, t).text, Required)
  {
    var d, ins := Divs(escaped), Insert(escaped, t);
    DivEndingsExclusive(s);
    ReplaceAllKeepsSuffix(s, d, ins);
    DivRewriteNotRequired(s, d, ins);
  }
}
