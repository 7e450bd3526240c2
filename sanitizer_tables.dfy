/** The table fixer of the sanitizer (scripts/sanitizer.py, `_fix_tables`):
    the text is walked line by line; a line with a `|` outside a code fence
    gets its pipes spaced and its separator dashes normalised, and a blank
    line is put between a table and the text that follows it. */
module SanitizerTables {

  import opened Strings

  // ---------------------------------------------------------------------
  // One table line (lines 134-138)
  // ---------------------------------------------------------------------

  /** Line 136: `re.sub(r'\s*\|\s*', ' | ', line)`. A match starts where a
      run of whitespace (possibly empty) reaches a `|`. */
  function PipeNorm(s: string): string
    decreases |s|
  {
    if |s| == 0 then ""
    else if PipeAt(s) then " | " + PipeNorm(s[MatchEnd(s)..])
    else [s[0]] + PipeNorm(s[1..])
  }

  /** A match starts at the front of `s`. */
  predicate PipeAt(s: string) {
    SpaceRun(s) < |s| && s[SpaceRun(s)] == '|'
  }

  /** Where the match at the front of `s` ends: past the pipe and the
      whitespace after it. */
  function MatchEnd(s: string): (e: nat)
    requires PipeAt(s)
    ensures SpaceRun(s) < e <= |s|
  {
    var k := SpaceRun(s);
    k + 1 + SpaceRun(s[k + 1..])
  }

  /** A text without a pipe is left alone. */
  lemma {:induction false} PipeNormNoPipe(s: string)
    requires '|' !in s
    ensures PipeNorm(s) == s
    decreases |s|
  {
    if |s| > 0 {
      PipeNormNoPipe(s[1..]);
      assert s == [s[0]] + s[1..];
    }
  }

  /** The first pipe and the whitespace around it become `" | "`: the text
      before it loses its trailing whitespace, the text after it its leading
      whitespace. With `PipeNormNoPipe` this fixes `PipeNorm` on every text. */
  lemma {:induction false} PipeNormAt(a: string, b: string)
    requires '|' !in a
    ensures PipeNorm(a + "|" + b) == RStrip(a) + " | " + PipeNorm(LStrip(b))
    decreases |a|
  {
    var s := a + "|" + b;
    if forall x :: 0 <= x < |a| ==> IsSpace(a[x]) {
      RStripSpaces(a);
      PipeNormLead(a, b);
    } else {
      var j :| 0 <= j < |a| && !IsSpace(a[j]);
      SpaceRunBefore(s, j);
      PipeNormKeep(s);
      assert s[1..] == a[1..] + "|" + b;
      PipeNormAt(a[1..], b);
      RStripCons(a, j);
      var r, t := RStrip(a[1..]), PipeNorm(LStrip(b));
      AppendAssoc([a[0]], r + " | ", t);
      AppendAssoc([a[0]], r, " | ");
    }
  }

  /** Whitespace before the first pipe goes with it. */
  lemma {:induction false} PipeNormLead(a: string, b: string)
    requires forall x :: 0 <= x < |a| ==> IsSpace(a[x])
    ensures PipeNorm(a + "|" + b) == " | " + PipeNorm(LStrip(b))
  {
    var s := a + "|" + b;
    SpaceRunTo(a, b);
    assert s[|a|] == '|' && s[|a| + 1..] == b;
    PipeNormPipeAt(s, |a|, b);
  }

  /** `PipeNorm` where the match is a leading pipe at `n`. */
  lemma {:induction false} PipeNormPipeAt(s: string, n: nat, b: string)
    requires SpaceRun(s) == n < |s| && s[n] == '|' && s[n + 1..] == b
    ensures PipeNorm(s) == " | " + PipeNorm(LStrip(b))
  {
    LStripSpaceRun(b);
    assert PipeAt(s) && MatchEnd(s) == n + 1 + SpaceRun(b);
    PipeNormPipe(s);
    assert s[MatchEnd(s)..] == b[SpaceRun(b)..];
  }

  /** `PipeNorm` where a match starts. */
  lemma {:induction false} PipeNormPipe(s: string)
    requires PipeAt(s)
    ensures PipeNorm(s) == " | " + PipeNorm(s[MatchEnd(s)..])
  {
  }

  /** `PipeNorm` where no match starts. */
  lemma {:induction false} PipeNormKeep(s: string)
    requires |s| > 0 && !PipeAt(s)
    ensures PipeNorm(s) == [s[0]] + PipeNorm(s[1..])
  {
  }

  /** Whitespace followed by a pipe is one run. */
  lemma {:induction false} SpaceRunTo(a: string, b: string)
    requires forall x :: 0 <= x < |a| ==> IsSpace(a[x])
    ensures SpaceRun(a + "|" + b) == |a|
    decreases |a|
  {
    if |a| > 0 {
      assert (a + "|" + b)[1..] == a[1..] + "|" + b;
      SpaceRunTo(a[1..], b);
    }
  }

  /** A run of whitespace stops at the first character that is not one. */
  lemma SpaceRunBefore(s: string, j: nat)
    requires j < |s| && !IsSpace(s[j])
    ensures SpaceRun(s) <= j
  {
  }

  /** Only whitespace changes. */
  lemma {:induction false} PipeNormNonSpace(s: string)
    ensures NonSpace(PipeNorm(s)) == NonSpace(s)
    decreases |s|
  {
    if |s| > 0 {
      if PipeAt(s) {
        var r := s[MatchEnd(s)..];
        PipeNormPipe(s);
        PipeNormNonSpace(r);
        NonSpaceAppend(" | ", PipeNorm(r));
        assert NonSpace(" | ") == "|";
        NonSpaceMatch(s);
        assert NonSpace(s) == "|" + NonSpace(r);
      } else {
        var r := s[1..];
        PipeNormKeep(s);
        assert PipeNorm(s) == [s[0]] + PipeNorm(r);
        PipeNormNonSpace(r);
        NonSpaceCons(s[0], PipeNorm(r));
        NonSpaceCons(s[0], r);
        assert [s[0]] + r == s;
      }
    } else {
      assert PipeNorm(s) == "";
    }
  }

  /** A match keeps only its pipe among the non-whitespace characters. */
  lemma {:induction false} NonSpaceCons(c: char, b: string)
    ensures NonSpace([c] + b) == (if IsSpace(c) then "" else [c]) + NonSpace(b)
  {
    assert ([c] + b)[1..] == b;
  }

  lemma {:induction false} NonSpaceMatch(s: string)
    requires PipeAt(s)
    ensures NonSpace(s) == "|" + NonSpace(s[MatchEnd(s)..])
  {
    var k := SpaceRun(s);
    var t := s[k + 1..];
    SkipSpaces(s, k);
    assert s[k..] == "|" + t;
    NonSpaceAppend("|", t);
    assert NonSpace("|") == "|";
    SkipSpaces(t, SpaceRun(t));
    assert t[SpaceRun(t)..] == s[MatchEnd(s)..];
  }

  /** Normalising pipes puts in no newline. */
  lemma {:induction false} PipeNormNoNewline(s: string)
    requires '\n' !in s
    ensures '\n' !in PipeNorm(s)
    decreases |s|
  {
    if |s| > 0 {
      if PipeAt(s) {
        var j := MatchEnd(s);
        NoNewlineAfter(s, j);
        PipeNormPipe(s);
        PipeNormNoNewline(s[j..]);
        NoNewlineJoin(" | ", PipeNorm(s[j..]));
      } else {
        NoNewlineAfter(s, 1);
        PipeNormKeep(s);
        PipeNormNoNewline(s[1..]);
        NoNewlineJoin([s[0]], PipeNorm(s[1..]));
      }
    } else {
      assert PipeNorm(s) == "";
    }
  }

  lemma {:induction false} NoNewlineJoin(a: string, b: string)
    requires forall i :: 0 <= i < |a| ==> a[i] != '\n'
    requires '\n' !in b
    ensures '\n' !in a + b
  {
    forall i | 0 <= i < |a + b| ensures (a + b)[i] != '\n' {
      if i >= |a| {
        assert (a + b)[i] == b[i - |a|];
      }
    }
  }

  lemma {:induction false} NoNewlineAfter(s: string, i: nat)
    requires '\n' !in s && i <= |s|
    ensures '\n' !in s[i..]
  {
    forall j | 0 <= j < |s| - i ensures s[i..][j] != '\n' {
      assert s[i..][j] == s[i + j];
    }
  }

  /** Line 138: `re.sub(r'-+', '---', line)`. */
  function DashRuns(s: string): string
    decreases |s|
  {
    if |s| == 0 then ""
    else if s[0] == '-' then "---" + DashRuns(s[CharRun(s, '-')..])
    else [s[0]] + DashRuns(s[1..])
  }

  lemma {:induction false} DashRunsNoDash(s: string)
    requires '-' !in s
    ensures DashRuns(s) == s
    decreases |s|
  {
    if |s| > 0 {
      DashRunsNoDash(s[1..]);
      assert s == [s[0]] + s[1..];
    }
  }

  /** The first run of dashes becomes exactly three. With `DashRunsNoDash`
      this fixes `DashRuns` on every text. */
  lemma {:induction false} DashRunsAt(a: string, d: string, b: string)
    requires '-' !in a && |d| > 0 && (forall k :: 0 <= k < |d| ==> d[k] == '-')
    requires |b| == 0 || b[0] != '-'
    ensures DashRuns(a + d + b) == a + "---" + DashRuns(b)
    decreases |a|
  {
    var s := a + d + b;
    if |a| == 0 {
      assert s == d + b;
      DashRunOf(d, b);
      assert s[|d|..] == b;
    } else {
      assert s[1..] == a[1..] + d + b;
      DashRunsAt(a[1..], d, b);
    }
  }

  lemma {:induction false} DashRunOf(d: string, b: string)
    requires forall k :: 0 <= k < |d| ==> d[k] == '-'
    requires |b| == 0 || b[0] != '-'
    ensures CharRun(d + b, '-') == |d|
    decreases |d|
  {
    if |d| > 0 {
      assert (d + b)[1..] == d[1..] + b;
      DashRunOf(d[1..], b);
    } else {
      assert d + b == b;
    }
  }

  /** Normalising the dashes of a normalised text changes nothing. */
  lemma {:induction false} DashRunsIdempotent(s: string)
    ensures DashRuns(DashRuns(s)) == DashRuns(s)
    decreases |s|
  {
    if |s| > 0 {
      if s[0] == '-' {
        var t := s[CharRun(s, '-')..];
        DashRunsIdempotent(t);
        var u := DashRuns(t);
        DashRunsFirst(t);
        DashRunsAt("", "---", u);
        assert "" + "---" + u == "---" + u;
      } else {
        var u := DashRuns(s[1..]);
        DashRunsIdempotent(s[1..]);
        assert DashRuns([s[0]] + u) == [s[0]] + DashRuns(u) by {
          assert ([s[0]] + u)[1..] == u;
        }
      }
    }
  }

  /** What follows a normalised run does not begin with a dash. */
  lemma DashRunsFirst(t: string)
    requires |t| == 0 || t[0] != '-'
    ensures |DashRuns(t)| == 0 || DashRuns(t)[0] != '-'
  {
  }

  lemma {:induction false} DashRunsNoNewline(s: string)
    requires '\n' !in s
    ensures '\n' !in DashRuns(s)
    decreases |s|
  {
    if |s| > 0 {
      if s[0] == '-' {
        DashRunsNoNewline(s[CharRun(s, '-')..]);
      } else {
        DashRunsNoNewline(s[1..]);
      }
    }
  }

  /** Line 137: `re.match(r'^[\s\|\-:]+$', line)` on a line (which holds no
      newline): whitespace, pipes, dashes and colons only. */
  predicate IsSeparator(p: string) {
    |p| > 0 && forall i :: 0 <= i < |p| ==> IsSpace(p[i]) || p[i] == '|' || p[i] == '-' || p[i] == ':'
  }

  /** Line 134: a line of a table. */
  predicate IsTableLine(l: string) {
    '|' in l && !IsPrefix("```", Strip(l))
  }

  /** Lines 136-138: what becomes of a table line. */
  function FixLine(l: string): string {
    var p := PipeNorm(l);
    if IsSeparator(p) then DashRuns(p) else p
  }

  lemma FixLineNoNewline(l: string)
    requires '\n' !in l
    ensures '\n' !in FixLine(l)
  {
    PipeNormNoNewline(l);
    DashRunsNoNewline(PipeNorm(l));
  }

  // ---------------------------------------------------------------------
  // The walk over the lines (lines 129-145)
  // ---------------------------------------------------------------------

  /** A blank line goes in before line `i`: it is not blank and not a table
      line, and the line before it is a table line. */
  predicate Gap(ls: seq<string>, i: nat)
    requires i < |ls|
  {
    i > 0 && IsTableLine(ls[i - 1]) && !IsTableLine(ls[i]) && Strip(ls[i]) != ""
  }

  /** What line `i` contributes to the output. */
  function Piece(ls: seq<string>, i: nat): seq<string>
    requires i < |ls|
  {
    if IsTableLine(ls[i]) then [FixLine(ls[i])]
    else if Gap(ls, i) then ["", ls[i]]
    else [ls[i]]
  }

  /** The output lines, defined line by line from each line and the one
      before it. */
  function TableLines(ls: seq<string>): seq<string>
    decreases |ls|
  {
    if |ls| == 0 then [] else TableLines(ls[..|ls| - 1]) + Piece(ls, |ls| - 1)
  }

  /** The number of blank lines put in. */
  function Gaps(ls: seq<string>): nat
    decreases |ls|
  {
    if |ls| == 0 then 0 else Gaps(ls[..|ls| - 1]) + (if Gap(ls, |ls| - 1) then 1 else 0)
  }

  /** The loop of lines 133-143, with the `in_table` flag. */
  method FixTableLines(lines: seq<string>) returns (fixed: seq<string>)
    ensures fixed == TableLines(lines)
  {
    fixed := [];
    var inTable := false;
    for i := 0 to |lines|
      invariant fixed == TableLines(lines[..i])
      invariant inTable == (i > 0 && IsTableLine(lines[i - 1]))
    {
      var line := lines[i];
      if '|' in line && !IsPrefix("```", Strip(line)) {
        inTable := true;
        line := PipeNorm(line);
        if IsSeparator(line) {
          line := DashRuns(line);
        }
      } else {
        if inTable && Strip(line) != "" {
          fixed := fixed + [""];
        }
        inTable := false;
      }
      fixed := fixed + [line];
      PieceOfPrefix(lines, i);
    }
    assert lines[..|lines|] == lines;
  }

  /** A line's piece depends only on it and the line before it. */
  lemma PieceOfPrefix(ls: seq<string>, i: nat)
    requires i < |ls|
    ensures TableLines(ls[..i + 1]) == TableLines(ls[..i]) + Piece(ls, i)
  {
    var p := ls[..i + 1];
    assert p[..i] == ls[..i];
    assert p[i] == ls[i] && (i > 0 ==> p[i - 1] == ls[i - 1]);
  }

  /** One output line per input line, plus one per blank line put in. */
  lemma {:induction false} TableLinesLength(ls: seq<string>)
    ensures |TableLines(ls)| == |ls| + Gaps(ls)
    decreases |ls|
  {
    if |ls| > 0 {
      TableLinesLength(ls[..|ls| - 1]);
    }
  }

  /** The output of a prefix is a prefix of the output. */
  lemma {:induction false} TableLinesPrefix(ls: seq<string>, j: nat)
    requires j <= |ls|
    ensures |TableLines(ls[..j])| <= |TableLines(ls)|
    ensures TableLines(ls)[..|TableLines(ls[..j])|] == TableLines(ls[..j])
    decreases |ls| - j
  {
    if j < |ls| {
      TableLinesPrefix(ls, j + 1);
      PieceOfPrefix(ls, j);
      var a := TableLines(ls[..j]);
      var b := TableLines(ls[..j + 1]);
      var c := TableLines(ls);
      assert b == a + Piece(ls, j);
      assert c[..|a|] == c[..|b|][..|a|] == b[..|a|] == a;
    } else {
      assert ls[..j] == ls;
    }
  }

  /** Line `i` comes out at position `i + Gaps(ls[..i + 1])`: fixed when it
      is a table line and unchanged otherwise, with a blank line just before
      it exactly where a gap is. */
  lemma {:induction false} TableLinesAt(ls: seq<string>, i: nat)
    requires i < |ls|
    ensures var out := TableLines(ls);
      var pos := i + Gaps(ls[..i + 1]);
      && pos < |out|
      && out[pos] == (if IsTableLine(ls[i]) then FixLine(ls[i]) else ls[i])
      && (Gap(ls, i) ==> out[pos - 1] == "")
  {
    var out, pre := TableLines(ls), TableLines(ls[..i + 1]);
    TableLinesPrefix(ls, i + 1);
    TableLinesLength(ls[..i + 1]);
    assert |ls[..i + 1]| == i + 1;
    var pos := i + Gaps(ls[..i + 1]);
    assert pos == |pre| - 1;
    PieceAtEnd(ls, i);
    assert out[..|pre|] == pre;
    PrefixAt(out, pre, pos);
    assert out[pos] == pre[|pre| - 1];
    if Gap(ls, i) {
      PrefixAt(out, pre, pos - 1);
    }
  }

  /** The output of the lines up to `i` ends with line `i`'s piece. */
  lemma {:induction false} PieceAtEnd(ls: seq<string>, i: nat)
    requires i < |ls|
    ensures var pre := TableLines(ls[..i + 1]);
      && |pre| > 0
      && pre[|pre| - 1] == (if IsTableLine(ls[i]) then FixLine(ls[i]) else ls[i])
      && (Gap(ls, i) ==> |pre| > 1 && pre[|pre| - 2] == "")
  {
    PieceOfPrefix(ls, i);
    var a, p := TableLines(ls[..i]), Piece(ls, i);
    assert TableLines(ls[..i + 1]) == a + p;
    assert (a + p)[|a + p| - 1] == p[|p| - 1];
    if Gap(ls, i) {
      assert (a + p)[|a + p| - 2] == p[0];
    }
  }

  lemma PrefixAt<T>(s: seq<T>, p: seq<T>, k: nat)
    requires |p| <= |s| && s[..|p|] == p && k < |p|
    ensures s[k] == p[k]
  {
    assert s[..|p|][k] == s[k];
  }

  /** Output lines hold no newline when the input lines hold none. */
  lemma {:induction false} TableLinesNoNewline(ls: seq<string>)
    requires forall i :: 0 <= i < |ls| ==> '\n' !in ls[i]
    ensures forall i :: 0 <= i < |TableLines(ls)| ==> '\n' !in TableLines(ls)[i]
    decreases |ls|
  {
    if |ls| > 0 {
      var n := |ls| - 1;
      assert forall i :: 0 <= i < n ==> ls[..n][i] == ls[i];
      TableLinesNoNewline(ls[..n]);
      FixLineNoNewline(ls[n]);
    }
  }

  /** `_fix_tables` on the whole text. */
  function FixTablesText(s: string): string {
    Join(TableLines(Split(s, '\n')), '\n')
  }

  /** `_fix_tables`: split into lines, walk them, join them. */
  method FixTables(content: string) returns (r: string)
    ensures r == FixTablesText(content)
  {
    var lines := Split(content, '\n');
    var fixed := FixTableLines(lines);
    r := Join(fixed, '\n');
  }

  /** The lines of the output are the walk's output lines, so there are at
      least as many as in the input. */
  lemma FixTablesLines(s: string)
    ensures Split(FixTablesText(s), '\n') == TableLines(Split(s, '\n'))
    ensures |Split(FixTablesText(s), '\n')| >= |Split(s, '\n')|
  {
    var ls := Split(s, '\n');
    SplitPieces(s, '\n');
    TableLinesNoNewline(ls);
    TableLinesLength(ls);
    SplitJoin(TableLines(ls), '\n');
  }
}
