/** The link fixes of the sanitizer (scripts/sanitizer.py, `_fix_links`):
    three regular-expression substitutions, each written as a scan that
    tries the pattern at every position, leftmost first, and resumes after
    a match. */
module SanitizerLinks {

  import opened Wrappers
  import opened Strings
  import opened Markup

  // ---------------------------------------------------------------------
  // Wikilinks (lines 109-114)
  // ---------------------------------------------------------------------

  /** Where `\[\[([^\]]+)\]\]` matches at the start of `s`, the index of
      the first `]`, which ends the group: the class admits no `]`, so the
      group runs to the first one, which must be followed by a second. */
  function WikiClose(s: string): (r: Option<nat>)
    ensures r.Some? ==> 2 < r.value && r.value + 1 < |s|
  {
    if |s| < 2 || s[0] != '[' || s[1] != '[' then None
    else match FindFrom(s, ']', 2)
      case None => None
      case Some(j) => if j > 2 && j + 1 < |s| && s[j + 1] == ']' then Some(j) else None
  }

  /** `broken_wikilinks.sub(fix_wikilink, content)`: the link text is
      stripped and loses its `<...>` tags. */
  function FixWikilinks(s: string): string
    decreases |s|
  {
    if |s| == 0 then ""
    else match WikiClose(s)
      case Some(j) => "[[" + StripTags(Strip(s[2..j])) + "]]" + FixWikilinks(s[j + 2..])
      case None => [s[0]] + FixWikilinks(s[1..])
  }

  /** Text without `[` in front of the rest passes through. */
  lemma {:induction false} FixWikilinksPrefix(p: string, q: string)
    requires '[' !in p
    ensures FixWikilinks(p + q) == p + FixWikilinks(q)
    decreases |p|
  {
    if |p| > 0 {
      var s := p + q;
      assert s[0] == p[0] && WikiClose(s).None?;
      FixWikilinksKeep(s);
      assert s[1..] == p[1..] + q;
      assert p == [p[0]] + p[1..];
      FixWikilinksPrefix(p[1..], q);
    } else {
      assert p + q == q;
    }
  }

  lemma {:induction false} FixWikilinksKeep(s: string)
    requires |s| > 0 && WikiClose(s).None?
    ensures FixWikilinks(s) == [s[0]] + FixWikilinks(s[1..])
  {
  }

  /** The wikilink after a stretch without `[` is rewritten to its trimmed,
      tag-free text, and the scan goes on after it. */
  lemma FixWikilinksAt(p: string, x: string, q: string)
    requires '[' !in p && |x| > 0 && ']' !in x
    ensures FixWikilinks(p + "[[" + x + "]]" + q)
         == p + "[[" + StripTags(Strip(x)) + "]]" + FixWikilinks(q)
    ensures TagFree(StripTags(Strip(x)))
  {
    var s := "[[" + x + "]]" + q;
    WikiOpen(x, q);
    WikiMatch(s);
    assert p + "[[" + x + "]]" + q == p + s;
    FixWikilinksPrefix(p, s);
    StripTagsTagFree(Strip(x));
  }

  /** The wikilink pattern matches `[[x]]` at the start, its group `x`. */
  lemma WikiOpen(x: string, q: string)
    requires |x| > 0 && ']' !in x
    ensures var s := "[[" + x + "]]" + q;
      WikiClose(s) == Some(|x| + 2) && s[2..|x| + 2] == x && s[|x| + 4..] == q
  {
    var s := "[[" + x + "]]" + q;
    var j := |x| + 2;
    assert s[2..j] == x && s[j] == ']' && s[j + 1] == ']';
    assert forall k :: 2 <= k < j ==> s[k] == x[k - 2];
    FindFromAt(s, ']', 2, j);
    assert s[j + 2..] == q;
  }

  lemma {:induction false} WikiMatch(s: string)
    requires WikiClose(s).Some?
    ensures var j := WikiClose(s).value;
      FixWikilinks(s) == "[[" + StripTags(Strip(s[2..j])) + "]]" + FixWikilinks(s[j + 2..])
  {
  }

  // ---------------------------------------------------------------------
  // Empty links (line 116)
  // ---------------------------------------------------------------------

  /** Where `\[([^\]]+)\]\(\s*\)` matches at the start of `s`: the index
      of the `]` closing the text and the index just past the `)`. */
  function EmptyLinkAt(s: string): (r: Option<(nat, nat)>)
    ensures r.Some? ==> 1 < r.value.0 < r.value.1 <= |s|
  {
    if |s| == 0 || s[0] != '[' then None
    else match FindFrom(s, ']', 1)
      case None => None
      case Some(j) =>
        if j > 1 && j + 1 < |s| && s[j + 1] == '(' then
          var k := j + 2 + SpaceRun(s[j + 2..]);
          if k < |s| && s[k] == ')' then Some((j, k + 1)) else None
        else None
  }

  /** `re.sub(r'\[([^\]]+)\]\(\s*\)', r'\1', content)`: a link with an
      empty target becomes its text. */
  function FixEmptyLinks(s: string): string
    decreases |s|
  {
    if |s| == 0 then ""
    else match EmptyLinkAt(s)
      case Some((j, e)) => s[1..j] + FixEmptyLinks(s[e..])
      case None => [s[0]] + FixEmptyLinks(s[1..])
  }

  lemma {:induction false} FixEmptyLinksPrefix(p: string, q: string)
    requires '[' !in p
    ensures FixEmptyLinks(p + q) == p + FixEmptyLinks(q)
    decreases |p|
  {
    if |p| > 0 {
      var s := p + q;
      assert s[0] == p[0] && EmptyLinkAt(s).None?;
      FixEmptyLinksKeep(s);
      assert s[1..] == p[1..] + q;
      assert p == [p[0]] + p[1..];
      FixEmptyLinksPrefix(p[1..], q);
    } else {
      assert p + q == q;
    }
  }

  lemma {:induction false} FixEmptyLinksKeep(s: string)
    requires |s| > 0 && EmptyLinkAt(s).None?
    ensures FixEmptyLinks(s) == [s[0]] + FixEmptyLinks(s[1..])
  {
  }

  /** `[t]( )`, with only whitespace inside the parentheses, becomes `t`. */
  lemma FixEmptyLinksAt(p: string, t: string, w: string, q: string)
    requires '[' !in p && |t| > 0 && ']' !in t
    requires forall i :: 0 <= i < |w| ==> IsSpace(w[i])
    ensures FixEmptyLinks(p + "[" + t + "](" + w + ")" + q) == p + t + FixEmptyLinks(q)
  {
    var s := "[" + t + "](" + w + ")" + q;
    assert FixEmptyLinks(s) == t + FixEmptyLinks(q) by {
      EmptyLinkOpen(t, w, q);
      EmptyLinkMatch(s);
    }
    assert p + "[" + t + "](" + w + ")" + q == p + s;
    FixEmptyLinksPrefix(p, s);
  }

  /** The empty-link pattern matches `[t]( )` at the start, its group `t`. */
  lemma EmptyLinkOpen(t: string, w: string, q: string)
    requires |t| > 0 && ']' !in t
    requires forall i :: 0 <= i < |w| ==> IsSpace(w[i])
    ensures var s := "[" + t + "](" + w + ")" + q;
      var j := |t| + 1;
      EmptyLinkAt(s) == Some((j, j + |w| + 3)) && s[1..j] == t && s[j + |w| + 3..] == q
  {
    var s := "[" + t + "](" + w + ")" + q;
    var j := |t| + 1;
    assert s[1..j] == t && s[j] == ']' && s[j + 1] == '(';
    assert forall k :: 1 <= k < j ==> s[k] == t[k - 1];
    FindFromAt(s, ']', 1, j);
    assert s[j + 2..] == w + ")" + q;
    SpaceRunOfSpaces(w, ")" + q);
    assert s[j + 2 + |w|] == ')';
    assert s[j + |w| + 3..] == q;
  }

  lemma {:induction false} EmptyLinkMatch(s: string)
    requires EmptyLinkAt(s).Some?
    ensures var m := EmptyLinkAt(s).value;
      FixEmptyLinks(s) == s[1..m.0] + FixEmptyLinks(s[m.1..])
  {
  }

  /** A run of whitespace followed by something else is counted whole. */
  lemma {:induction false} SpaceRunOfSpaces(w: string, q: string)
    requires forall i :: 0 <= i < |w| ==> IsSpace(w[i])
    requires |q| > 0 && !IsSpace(q[0])
    ensures SpaceRun(w + q) == |w|
    decreases |w|
  {
    if |w| > 0 {
      assert (w + q)[1..] == w[1..] + q;
      SpaceRunOfSpaces(w[1..], q);
    }
  }

  // ---------------------------------------------------------------------
  // Images without alt text (line 118)
  // ---------------------------------------------------------------------

  /** Where `!\[\]\(([^)]+)\)` matches at the start of `s`, the index of
      the `)` closing the target. */
  function BareImageAt(s: string): (r: Option<nat>)
    ensures r.Some? ==> 4 < r.value < |s|
  {
    if |s| < 4 || s[..4] != "![](" then None
    else match FindFrom(s, ')', 4)
      case None => None
      case Some(j) => if j > 4 then Some(j) else None
  }

  /** `re.sub(r'!\[\]\(([^)]+)\)', r'![\1](\1)', content)`: an image with no
      alt text takes its target as alt text. */
  function FixImages(s: string): string
    decreases |s|
  {
    if |s| == 0 then ""
    else match BareImageAt(s)
      case Some(j) => "![" + s[4..j] + "](" + s[4..j] + ")" + FixImages(s[j + 1..])
      case None => [s[0]] + FixImages(s[1..])
  }

  lemma {:induction false} FixImagesPrefix(p: string, q: string)
    requires '!' !in p
    ensures FixImages(p + q) == p + FixImages(q)
    decreases |p|
  {
    if |p| > 0 {
      var s := p + q;
      assert s[0] == p[0] && BareImageAt(s).None?;
      FixImagesKeep(s);
      assert s[1..] == p[1..] + q;
      assert p == [p[0]] + p[1..];
      FixImagesPrefix(p[1..], q);
    } else {
      assert p + q == q;
    }
  }

  lemma {:induction false} FixImagesKeep(s: string)
    requires |s| > 0 && BareImageAt(s).None?
    ensures FixImages(s) == [s[0]] + FixImages(s[1..])
  {
  }

  /** `![](u)` becomes `![u](u)`. */
  lemma FixImagesAt(p: string, u: string, q: string)
    requires '!' !in p && |u| > 0 && ')' !in u
    ensures FixImages(p + "![](" + u + ")" + q) == p + "![" + u + "](" + u + ")" + FixImages(q)
  {
    var s := "![](" + u + ")" + q;
    assert p + "![](" + u + ")" + q == p + s;
    FixImagesPrefix(p, s);
    BareImageOpen(u, q);
    BareImageMatch(s);
  }

  /** The image pattern matches `![](u)` at the start, its group `u`. */
  lemma BareImageOpen(u: string, q: string)
    requires |u| > 0 && ')' !in u
    ensures var s := "![](" + u + ")" + q;
      BareImageAt(s) == Some(|u| + 4) && s[4..|u| + 4] == u && s[|u| + 5..] == q
  {
    var s := "![](" + u + ")" + q;
    var j := |u| + 4;
    assert s[..4] == "![](" && s[4..j] == u && s[j] == ')';
    assert forall k :: 4 <= k < j ==> s[k] == u[k - 4];
    FindFromAt(s, ')', 4, j);
    assert s[j + 1..] == q;
  }

  lemma {:induction false} BareImageMatch(s: string)
    requires BareImageAt(s).Some?
    ensures var j := BareImageAt(s).value;
      FixImages(s) == "![" + s[4..j] + "](" + s[4..j] + ")" + FixImages(s[j + 1..])
  {
  }

  /** Without a `[` the image pattern cannot match. */
  lemma {:induction false} FixImagesNoBracket(s: string)
    requires '[' !in s
    ensures FixImages(s) == s
    decreases |s|
  {
    if |s| > 0 {
      assert BareImageAt(s).None? by {
        if |s| >= 4 {
          assert s[..4][1] == s[1] != '[';
        }
      }
      FixImagesKeep(s);
      FixImagesNoBracket(s[1..]);
      assert s == [s[0]] + s[1..];
    }
  }

  // ---------------------------------------------------------------------
  // The three fixes in order (lines 107-119)
  // ---------------------------------------------------------------------

  /** `_fix_links`. */
  function FixLinks(s: string): string {
    FixImages(FixEmptyLinks(FixWikilinks(s)))
  }

  /** Every pattern opens with or contains `[`: text without one is left
      alone. */
  lemma FixLinksNoBracket(s: string)
    requires '[' !in s
    ensures FixLinks(s) == s
  {
    FixWikilinksPrefix(s, "");
    FixEmptyLinksPrefix(s, "");
    FixImagesNoBracket(s);
    assert s + "" == s;
  }
}
