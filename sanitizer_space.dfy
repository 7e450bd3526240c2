/** The whitespace steps of the sanitizer (scripts/sanitizer.py,
    `_normalize_whitespace` and `_fix_code_blocks`). Every step changes
    whitespace only: the text with its whitespace removed stays the same. */
module SanitizerSpace {

  import opened Strings
  import opened Markup

  predicate IsBlank(c: char) { c == ' ' || c == '\t' }

  /** The number of spaces and tabs that open `s`. */
  function BlankRun(s: string): (n: nat)
    ensures n <= |s|
    ensures forall k :: 0 <= k < n ==> IsBlank(s[k])
    ensures n < |s| ==> !IsBlank(s[n])
    decreases |s|
  {
    if |s| > 0 && IsBlank(s[0]) then 1 + BlankRun(s[1..]) else 0
  }

  /** The pattern `[ \t]+$` (multi-line) matches at the start of `s`: a run
      of spaces and tabs that ends the text or a line. */
  predicate TrailingAtStart(s: string) {
    |s| > 0 && IsBlank(s[0]) && (BlankRun(s) == |s| || s[BlankRun(s)] == '\n')
  }

  /** Line 122: `re.sub(r'[ \t]+$', '', content, flags=re.MULTILINE)`. */
  function DropTrailingBlanks(s: string): (r: string)
    ensures |s| > 0 && !TrailingAtStart(s) ==> |r| > 0 && r[0] == s[0]
    decreases |s|
  {
    if |s| == 0 then ""
    else if TrailingAtStart(s) then DropTrailingBlanks(s[BlankRun(s)..])
    else [s[0]] + DropTrailingBlanks(s[1..])
  }

  /** No space or tab ends a line or the text. */
  predicate NoTrailingBlank(s: string) {
    forall i :: 0 <= i < |s| && IsBlank(s[i]) ==> i + 1 < |s| && s[i + 1] != '\n'
  }

  lemma {:induction false} DropTrailingBlanksClean(s: string)
    ensures NoTrailingBlank(DropTrailingBlanks(s))
    decreases |s|
  {
    if |s| > 0 {
      if TrailingAtStart(s) {
        DropTrailingBlanksClean(s[BlankRun(s)..]);
      } else {
        var t := DropTrailingBlanks(s[1..]);
        DropTrailingBlanksClean(s[1..]);
        if IsBlank(s[0]) {
          // the run goes on past `s[0]` to a character that is not a newline
          assert BlankRun(s) == 1 + BlankRun(s[1..]);
          assert !TrailingAtStart(s[1..]);
          assert |t| > 0 && t[0] == s[1];
        }
        var r := [s[0]] + t;
        assert forall i :: 1 <= i < |r| ==> r[i] == t[i - 1];
      }
    }
  }

  lemma {:induction false} DropTrailingBlanksNonSpace(s: string)
    ensures NonSpace(DropTrailingBlanks(s)) == NonSpace(s)
    decreases |s|
  {
    if |s| > 0 {
      if TrailingAtStart(s) {
        DropTrailingBlanksNonSpace(s[BlankRun(s)..]);
        SkipSpaces(s, BlankRun(s));
      } else {
        DropTrailingBlanksNonSpace(s[1..]);
      }
    }
  }

  /** Collapsing newlines keeps a text free of trailing blanks. */
  lemma {:induction false} CollapseKeepsClean(s: string, m: nat)
    requires m >= 3 && NoTrailingBlank(s)
    ensures NoTrailingBlank(Collapse(s, m))
    decreases |s|
  {
    if |s| > 0 {
      assert NoTrailingBlank(s[1..]) by {
        forall i | 0 <= i < |s[1..]| && IsBlank(s[1..][i]) ensures i + 1 < |s[1..]| && s[1..][i + 1] != '\n' {
          assert s[1..][i] == s[i + 1];
        }
      }
      if s[0] != '\n' {
        CollapseKeepsClean(s[1..], m);
        var t := Collapse(s[1..], m);
        var r := [s[0]] + t;
        if IsBlank(s[0]) {
          assert |t| > 0 && t[0] == s[1];
        }
        assert forall i :: 1 <= i < |r| ==> r[i] == t[i - 1];
      } else {
        var n := CharRun(s, '\n');
        var p := if n >= m then "\n\n" else s[..n];
        assert NoTrailingBlank(s[n..]) by {
          forall i | 0 <= i < |s[n..]| && IsBlank(s[n..][i]) ensures i + 1 < |s[n..]| && s[n..][i + 1] != '\n' {
            assert s[n..][i] == s[i + n];
          }
        }
        CollapseKeepsClean(s[n..], m);
        var t := Collapse(s[n..], m);
        var r := p + t;
        assert forall i :: 0 <= i < |p| ==> r[i] == '\n';
        assert forall i :: |p| <= i < |r| ==> r[i] == t[i - |p|];
      }
    }
  }

  lemma {:induction false} CollapseNonSpace(s: string, m: nat)
    requires m >= 3
    ensures NonSpace(Collapse(s, m)) == NonSpace(s)
    decreases |s|
  {
    if |s| > 0 {
      if s[0] != '\n' {
        CollapseNonSpace(s[1..], m);
      } else {
        var n := CharRun(s, '\n');
        var p := if n >= m then "\n\n" else s[..n];
        CollapseNonSpace(s[n..], m);
        NonSpaceAppend(p, Collapse(s[n..], m));
        NonSpaceOfSpaces(p);
        SkipSpaces(s, n);
      }
    }
  }

  /** `_normalize_whitespace`: trailing blanks go, runs of three or more
      newlines become two, and the text ends with one newline. The heading
      substitution of line 125 needs three newlines in a row, which the text
      has no longer (`NormalizeWhitespaceShape`), so it changes nothing and
      is not written out. */
  function NormalizeWhitespace(s: string): string {
    RStrip(Collapse(DropTrailingBlanks(s), 3)) + "\n"
  }

  /** No line ends in a space or a tab, there is no run of three newlines,
      the text ends with exactly one newline, and only whitespace changed. */
  lemma NormalizeWhitespaceShape(s: string)
    ensures var r := NormalizeWhitespace(s);
      && NoTrailingBlank(r)
      && NoRun(r, 3)
      && r[|r| - 1] == '\n' && (|r| >= 2 ==> r[|r| - 2] != '\n')
      && NonSpace(r) == NonSpace(s)
  {
    var d := DropTrailingBlanks(s);
    var c := Collapse(d, 3);
    DropTrailingBlanksClean(s);
    CollapseKeepsClean(d, 3);
    EndLine(c);
    DropTrailingBlanksNonSpace(s);
    CollapseNonSpace(d, 3);
    NonSpaceStrip(c);
    NonSpaceAppend(RStrip(c), "\n");
  }

  /** Line 124 keeps a text free of trailing blanks and of runs of three
      newlines, and makes it end with exactly one newline. */
  lemma EndLine(c: string)
    requires NoTrailingBlank(c) && NoRun(c, 3)
    ensures var r := RStrip(c) + "\n";
      && NoTrailingBlank(r)
      && NoRun(r, 3)
      && r[|r| - 1] == '\n' && (|r| >= 2 ==> r[|r| - 2] != '\n')
  {
    var rs := RStrip(c);
    var r := rs + "\n";
    RStripShape(c);
    NoRunRStrip(c, 3);
    assert forall i :: 0 <= i < |rs| ==> r[i] == c[i];
    forall i | 0 <= i < |r| && IsBlank(r[i]) ensures i + 1 < |r| && r[i + 1] != '\n' {
      if i + 1 < |rs| {
        assert r[i + 1] == c[i + 1];
      }
    }
    forall i ensures !RunAt(r, i, 3) {
      if 0 <= i && i + 3 <= |r| {
        if i + 3 == |r| {
          assert r[i + 1] == rs[|rs| - 1];
        } else {
          assert !RunAt(rs, i, 3);
          assert forall k :: i <= k < i + 3 ==> r[k] == rs[k];
        }
      }
    }
  }

  // ---------------------------------------------------------------------
  // `_fix_code_blocks` (lines 147-151)
  // ---------------------------------------------------------------------

  /** The length of the longest prefix of `s` that is whitespace and ends
      with a newline (0 when there is none): what `\s*\n` takes there. */
  function SpaceToNewline(s: string): (k: nat)
    ensures k <= |s|
    ensures k > 0 ==> s[k - 1] == '\n'
    ensures forall x :: 0 <= x < k ==> IsSpace(s[x])
    decreases |s|
  {
    if |s| == 0 || !IsSpace(s[0]) then 0
    else
      var k := SpaceToNewline(s[1..]);
      if k > 0 then k + 1 else if s[0] == '\n' then 1 else 0
  }

  /** Line 148: `re.sub(r'```\s*\n', '```\n', content)`. */
  function FenceNewline(s: string): string
    decreases |s|
  {
    if |s| == 0 then ""
    else if IsPrefix("```", s) && SpaceToNewline(s[3..]) > 0 then
      "```\n" + FenceNewline(s[3 + SpaceToNewline(s[3..])..])
    else [s[0]] + FenceNewline(s[1..])
  }

  /** Line 149: `re.sub(r'([^\n])\n```', r'\1\n\n```', content)`. */
  function BlankBeforeFence(s: string): string
    decreases |s|
  {
    if |s| >= 5 && s[0] != '\n' && s[1] == '\n' && s[2..5] == "```" then
      [s[0]] + "\n\n```" + BlankBeforeFence(s[5..])
    else if |s| == 0 then ""
    else [s[0]] + BlankBeforeFence(s[1..])
  }

  /** Line 150: `re.sub(r'```\n([^\n])', r'```\n\n\1', content)`. */
  function BlankAfterFence(s: string): string
    decreases |s|
  {
    if |s| >= 5 && s[..4] == "```\n" && s[4] != '\n' then
      "```\n\n" + [s[4]] + BlankAfterFence(s[5..])
    else if |s| == 0 then ""
    else [s[0]] + BlankAfterFence(s[1..])
  }

  /** `_fix_code_blocks`. */
  function FixCodeBlocks(s: string): string {
    BlankAfterFence(BlankBeforeFence(FenceNewline(s)))
  }

  lemma {:induction false} FenceNewlineNonSpace(s: string)
    ensures NonSpace(FenceNewline(s)) == NonSpace(s)
    decreases |s|
  {
    if |s| > 0 {
      if IsPrefix("```", s) && SpaceToNewline(s[3..]) > 0 {
        var k := SpaceToNewline(s[3..]);
        FenceNewlineNonSpace(s[3 + k..]);
        NonSpaceAppend("```\n", FenceNewline(s[3 + k..]));
        assert s == "```" + s[3..];
        NonSpaceAppend("```", s[3..]);
        SkipSpaces(s[3..], k);
        assert s[3..][k..] == s[3 + k..];
      } else {
        FenceNewlineNonSpace(s[1..]);
      }
    }
  }

  lemma {:induction false} BlankBeforeFenceNonSpace(s: string)
    ensures NonSpace(BlankBeforeFence(s)) == NonSpace(s)
    decreases |s|
  {
    if |s| >= 5 && s[0] != '\n' && s[1] == '\n' && s[2..5] == "```" {
      BlankBeforeFenceNonSpace(s[5..]);
      NonSpaceAppend([s[0]] + "\n\n```", BlankBeforeFence(s[5..]));
      assert s == [s[0]] + "\n```" + s[5..];
      NonSpaceAppend([s[0]] + "\n```", s[5..]);
      SpacesBetween([s[0]], "\n\n", "\n", "```");
    } else if |s| > 0 {
      BlankBeforeFenceNonSpace(s[1..]);
    }
  }

  lemma {:induction false} BlankAfterFenceNonSpace(s: string)
    ensures NonSpace(BlankAfterFence(s)) == NonSpace(s)
    decreases |s|
  {
    if |s| >= 5 && s[..4] == "```\n" && s[4] != '\n' {
      BlankAfterFenceNonSpace(s[5..]);
      NonSpaceAppend("```\n\n" + [s[4]], BlankAfterFence(s[5..]));
      assert s == "```\n" + [s[4]] + s[5..];
      NonSpaceAppend("```\n" + [s[4]], s[5..]);
      SpacesBetween("```", "\n\n", "\n", [s[4]]);
      assert "```\n\n" + [s[4]] == "```" + "\n\n" + [s[4]];
      assert "```\n" + [s[4]] == "```" + "\n" + [s[4]];
    } else if |s| > 0 {
      BlankAfterFenceNonSpace(s[1..]);
    }
  }

  /** Two texts that differ in one stretch of whitespace agree off it. */
  lemma SpacesBetween(a: string, w1: string, w2: string, b: string)
    requires forall k :: 0 <= k < |w1| ==> IsSpace(w1[k])
    requires forall k :: 0 <= k < |w2| ==> IsSpace(w2[k])
    ensures NonSpace(a + w1 + b) == NonSpace(a + w2 + b)
  {
    NonSpaceAppend(a + w1, b);
    NonSpaceAppend(a, w1);
    NonSpaceOfSpaces(w1);
    NonSpaceAppend(a + w2, b);
    NonSpaceAppend(a, w2);
    NonSpaceOfSpaces(w2);
  }

  /** Fixing the fences changes whitespace only. */
  lemma FixCodeBlocksNonSpace(s: string)
    ensures NonSpace(FixCodeBlocks(s)) == NonSpace(s)
  {
    FenceNewlineNonSpace(s);
    BlankBeforeFenceNonSpace(FenceNewline(s));
    BlankAfterFenceNonSpace(BlankBeforeFence(FenceNewline(s)));
  }

  /** A fence followed by blank lines is followed by exactly one newline. */
  lemma {:induction false} FenceNewlineAt(w: string, q: string)
    requires forall k :: 0 <= k < |w| ==> IsSpace(w[k])
    requires |q| > 0 && !IsSpace(q[0])
    ensures FenceNewline("```" + w + "\n" + q) == "```\n" + FenceNewline(q)
  {
    var s := "```" + w + "\n" + q;
    var t := w + "\n" + q;
    assert s[3..] == t && IsPrefix("```", s);
    SpaceToNewlineAt(w, q);
    assert s[3 + |w| + 1..] == q;
    FenceNewlineMatch(s, |w| + 1);
  }

  /** `FenceNewline` where a match of length `3 + n` starts. */
  lemma {:induction false} FenceNewlineMatch(s: string, n: nat)
    requires IsPrefix("```", s) && SpaceToNewline(s[3..]) == n > 0
    ensures FenceNewline(s) == "```\n" + FenceNewline(s[3 + n..])
  {
  }

  lemma {:induction false} SpaceToNewlineAt(w: string, q: string)
    requires forall k :: 0 <= k < |w| ==> IsSpace(w[k])
    requires |q| > 0 && !IsSpace(q[0])
    ensures SpaceToNewline(w + "\n" + q) == |w| + 1
    decreases |w|
  {
    var s := w + "\n" + q;
    if |w| == 0 {
      assert s[1..] == q;
    } else {
      assert s[1..] == w[1..] + "\n" + q;
      SpaceToNewlineAt(w[1..], q);
    }
  }
}
