/** The rules by which the metadata injector (scripts/metadata_injector.py)
    reads a note: its type, its source, its title and its creation date. */
module MetadataRules {

  import opened Wrappers
  import opened Strings
  import opened Markup

  // ---------------------------------------------------------------------
  // Table rows (line 162)
  // ---------------------------------------------------------------------

  /** The end of the line that holds position `i`: its newline, or the end. */
  function LineEnd(s: string, i: nat): (e: nat)
    requires i <= |s|
    ensures i <= e <= |s|
  {
    match FindFrom(s, '\n', i)
    case Some(k) => k
    case None => |s|
  }

  /** Where `\|.*\|` matches at the start of `s`: `.*` is greedy and stops
      at a newline, so the match runs to the last `|` of the line. */
  function PipeSpanAt(s: string): (r: Option<nat>)
    ensures r.Some? ==> 0 < r.value < |s|
  {
    if |s| == 0 || s[0] != '|' then None
    else match LastIndexOf(s[1..LineEnd(s, 1)], '|')
      case None => None
      case Some(j) => Some(j + 1)
  }

  /** `len(re.findall(r'\|.*\|', content))`. */
  function PipePairs(s: string): nat
    decreases |s|
  {
    if |s| == 0 then 0
    else match PipeSpanAt(s)
      case Some(j) => 1 + PipePairs(s[j + 1..])
      case None => PipePairs(s[1..])
  }

  lemma {:induction false} PipePairsKeep(s: string)
    requires |s| > 0 && PipeSpanAt(s).None?
    ensures PipePairs(s) == PipePairs(s[1..])
  {
  }

  lemma {:induction false} PipePairsMatch(s: string)
    requires PipeSpanAt(s).Some?
    ensures PipePairs(s) == 1 + PipePairs(s[PipeSpanAt(s).value + 1..])
  {
  }

  /** Text without `|` in front of the rest adds no match. */
  lemma {:induction false} PipePairsSkip(p: string, q: string)
    requires '|' !in p
    ensures PipePairs(p + q) == PipePairs(q)
    decreases |p|
  {
    if |p| > 0 {
      var s := p + q;
      assert s[0] == p[0] != '|';
      PipePairsKeep(s);
      assert s[1..] == p[1..] + q;
      PipePairsSkip(p[1..], q);
    } else {
      assert p + q == q;
    }
  }

  /** The line holds at least two pipes. */
  predicate TwoPipes(l: string) {
    exists i, j :: 0 <= i < j < |l| && l[i] == '|' && l[j] == '|'
  }

  /** The number of lines with at least two pipes. */
  function RowsWithPipes(ls: seq<string>): nat
    decreases |ls|
  {
    if |ls| == 0 then 0 else (if TwoPipes(ls[0]) then 1 else 0) + RowsWithPipes(ls[1..])
  }

  /** A line counts once when it holds two pipes, and not at all otherwise. */
  lemma {:induction false} PipePairsLine(l: string, tail: string)
    requires '\n' !in l && (tail == "" || tail[0] == '\n')
    ensures PipePairs(l + tail) == (if TwoPipes(l) then 1 else 0) + PipePairs(tail)
  {
    if '|' !in l {
      PipePairsSkip(l, tail);
      assert !TwoPipes(l);
    } else {
      var a := FirstPipe(l);
      var p, m := l[..a], l[a + 1..];
      assert l == p + "|" + m;
      var s := "|" + m + tail;
      assert l + tail == p + s;
      PipePairsSkip(p, s);
      PipeRowFrom(m, tail);
      TwoPipesFirst(l, a);
    }
  }

  /** From the first pipe of a line, the line holds two pipes exactly when
      the rest of it holds one. */
  lemma {:induction false} TwoPipesFirst(l: string, a: nat)
    requires a < |l| && l[a] == '|' && '|' !in l[..a]
    ensures TwoPipes(l) <==> '|' in l[a + 1..]
  {
    var m := l[a + 1..];
    if TwoPipes(l) {
      var i, j :| 0 <= i < j < |l| && l[i] == '|' && l[j] == '|';
      assert forall k :: 0 <= k < a ==> l[k] != '|' by {
        forall k | 0 <= k < a ensures l[k] != '|' {
          assert l[..a][k] == l[k];
        }
      }
      assert m[j - a - 1] == l[j];
    }
    if '|' in m {
      var j :| 0 <= j < |m| && m[j] == '|';
      assert l[a + 1 + j] == '|';
    }
  }

  /** The index of the first `|` of a line that holds one. */
  function FirstPipe(l: string): (a: nat)
    requires '|' in l
    ensures a < |l| && l[a] == '|' && '|' !in l[..a]
  {
    var f := FindFrom(l, '|', 0);
    assert f.Some?;
    f.value
  }

  /** From a line's first pipe, one match when the rest of the line holds
      another pipe and none otherwise; then the next line. */
  lemma {:induction false} PipeRowFrom(m: string, tail: string)
    requires '\n' !in m && (tail == "" || tail[0] == '\n')
    ensures PipePairs("|" + m + tail) == (if '|' in m then 1 else 0) + PipePairs(tail)
  {
    match LastIndexOf(m, '|')
    case Some(j) =>
      assert m[j] in m;
      PipeRowMatch(m, tail, j);
    case None =>
      PipeRowNoMatch(m, tail);
  }

  /** A row with a `|` in it is one match. */
  lemma {:induction false} PipeRowMatch(m: string, tail: string, j: nat)
    requires '\n' !in m && (tail == "" || tail[0] == '\n') && LastIndexOf(m, '|') == Some(j)
    ensures PipePairs("|" + m + tail) == 1 + PipePairs(tail)
  {
    var s := "|" + m + tail;
    RowSpan(m, tail);
    assert PipeSpanAt(s).value + 1 == j + 2;
    PipePairsMatch(s);
    var r := m[j + 1..];
    assert '|' !in r;
    RowRest(m, tail, j + 1);
    PipePairsSkip(r, tail);
  }

  lemma RowRest(m: string, tail: string, k: nat)
    requires k <= |m|
    ensures ("|" + m + tail)[k + 1..] == m[k..] + tail
  {
  }

  /** A lone `|` is no match. */
  lemma {:induction false} PipeRowNoMatch(m: string, tail: string)
    requires '\n' !in m && (tail == "" || tail[0] == '\n') && LastIndexOf(m, '|') == None
    ensures PipePairs("|" + m + tail) == PipePairs(tail)
  {
    var s := "|" + m + tail;
    RowSpan(m, tail);
    PipePairsKeep(s);
    assert s[1..] == m + tail;
    PipePairsSkip(m, tail);
  }

  /** The match at a row's leading `|` ends at the row's last `|`. */
  lemma RowSpan(m: string, tail: string)
    requires '\n' !in m && (tail == "" || tail[0] == '\n')
    ensures PipeSpanAt("|" + m + tail)
         == match LastIndexOf(m, '|') case Some(j) => Some(j + 1) case None => None
  {
    var s := "|" + m + tail;
    RowLineEnd(m, tail);
    assert s[1..1 + |m|] == m;
  }

  /** A row's line ends where the row does. */
  lemma RowLineEnd(m: string, tail: string)
    requires '\n' !in m && (tail == "" || tail[0] == '\n')
    ensures LineEnd("|" + m + tail, 1) == 1 + |m|
  {
    var s := "|" + m + tail;
    assert forall x :: 1 <= x < 1 + |m| ==> s[x] == m[x - 1];
    if tail != "" {
      assert s[1 + |m|] == '\n';
      FindFromAt(s, '\n', 1, 1 + |m|);
    }
  }

  /** The matches counted over a text are its lines with two pipes or more:
      `.*` cannot cross a newline and runs to the last pipe of its line. */
  lemma PipePairsRows(s: string)
    ensures PipePairs(s) == RowsWithPipes(Split(s, '\n'))
  {
    JoinSplit(s, '\n');
    SplitPieces(s, '\n');
    PipePairsJoin(Split(s, '\n'));
  }

  lemma {:induction false} PipePairsJoin(ls: seq<string>)
    requires forall i :: 0 <= i < |ls| ==> '\n' !in ls[i]
    ensures PipePairs(Join(ls, '\n')) == RowsWithPipes(ls)
    decreases |ls|
  {
    if |ls| == 1 {
      PipePairsLine(ls[0], "");
      assert ls[0] + "" == ls[0];
      assert RowsWithPipes(ls[1..]) == 0;
    } else if |ls| > 1 {
      var rest := Join(ls[1..], '\n');
      PipePairsJoin(ls[1..]);
      PipePairsLine(ls[0], "\n" + rest);
      PipePairsSkip("\n", rest);
      assert Join(ls, '\n') == ls[0] + ("\n" + rest);
    }
  }

  // ---------------------------------------------------------------------
  // Note type (lines 160-171)
  // ---------------------------------------------------------------------

  /** The number of words that open after whitespace (or at the start). */
  function WordStarts(s: string, afterSpace: bool): nat
    decreases |s|
  {
    if |s| == 0 then 0
    else (if afterSpace && !IsSpace(s[0]) then 1 else 0) + WordStarts(s[1..], IsSpace(s[0]))
  }

  /** `len(content.split())`: the maximal runs of non-whitespace. */
  function WordCount(s: string): nat {
    WordStarts(s, true)
  }

  /** `_classify_note_type`. */
  function ClassifyNoteType(content: string): string {
    if FenceCount(content) >= 2 then "snippet"
    else if PipePairs(content) >= 2 then "documentation"
    else if WordCount(content) > 500 then "article"
    else "note"
  }

  /** The four types in priority order, each in both directions. */
  lemma ClassifyNoteTypeRules(content: string)
    ensures var t := ClassifyNoteType(content);
      && (t == "snippet" <==> FenceCount(content) >= 2)
      && (t == "documentation" <==> FenceCount(content) < 2 && RowsWithPipes(Split(content, '\n')) >= 2)
      && (t == "article" <==> FenceCount(content) < 2 && RowsWithPipes(Split(content, '\n')) < 2
                              && WordCount(content) > 500)
      && (t == "note" <==> FenceCount(content) < 2 && RowsWithPipes(Split(content, '\n')) < 2
                           && WordCount(content) <= 500)
  {
    PipePairsRows(content);
  }

  // ---------------------------------------------------------------------
  // Source (lines 150-158)
  // ---------------------------------------------------------------------

  /** The class `[\w\.-]`. */
  predicate IsUrlChar(c: char) { IsWordChar(c) || c == '.' || c == '-' }

  function UrlRun(t: string, j: nat): (n: nat)
    requires j <= |t|
    ensures j + n <= |t| && forall k :: j <= k < j + n ==> IsUrlChar(t[k])
    ensures j + n < |t| ==> !IsUrlChar(t[j + n])
    decreases |t| - j
  {
    if j < |t| && IsUrlChar(t[j]) then 1 + UrlRun(t, j + 1) else 0
  }

  /** Where `https?://[\w\.-]+` matches at `i`, the end of the match:
      the `s` is taken when present, and the class run is as long as it can
      be. */
  function UrlAt(t: string, i: nat): (r: Option<nat>)
    ensures r.Some? ==> i + 8 <= r.value <= |t|
  {
    if !OccursAt(t, "http", i) then None
    else
      var j := if i + 4 < |t| && t[i + 4] == 's' then i + 5 else i + 4;
      if OccursAt(t, "://", j) && j + 3 < |t| && IsUrlChar(t[j + 3]) then Some(j + 3 + UrlRun(t, j + 3))
      else None
  }

  /** The leftmost match from `i` on, as `(start, end)`. */
  function FirstUrl(t: string, i: nat): (r: Option<(nat, nat)>)
    ensures r.Some? ==> i <= r.value.0 && UrlAt(t, r.value.0) == Some(r.value.1)
    ensures forall k :: i <= k && (r.None? || k < r.value.0) ==> UrlAt(t, k).None?
    decreases |t| - i
  {
    if i >= |t| then
      assert forall k :: i <= k ==> !OccursAt(t, "http", k);
      None
    else match UrlAt(t, i)
      case Some(e) => Some((i, e))
      case None => FirstUrl(t, i + 1)
  }

  /** `_identify_source` of the file name and the content. */
  function IdentifySource(fileName: string, content: string): string {
    if Contains(Lower(content), "evernote") then "evernote"
    else
      var t := Take(content, 1000);
      match FirstUrl(t, 0)
      case Some((a, e)) => "web/" + t[a..e]
      case None => if Contains(Lower(fileName), "export") then "evernote_export" else "unknown"
  }

  /** The rules in priority order, one lemma each: a mention of Evernote
      anywhere, in any case... */
  lemma IdentifySourceEvernote(fileName: string, content: string)
    requires Contains(Lower(content), "evernote")
    ensures IdentifySource(fileName, content) == "evernote"
  {
  }

  /** ...otherwise the leftmost web address among the first 1000
      characters... */
  lemma IdentifySourceWeb(fileName: string, content: string, a: nat, e: nat)
    requires !Contains(Lower(content), "evernote")
    requires FirstUrl(Take(content, 1000), 0) == Some((a, e))
    ensures IdentifySource(fileName, content) == "web/" + content[a..e]
    ensures a < e <= 1000 && OccursAt(content, "http", a)
  {
    var t := Take(content, 1000);
    assert t[a..e] == content[a..e];
    assert t[a..a + 4] == content[a..a + 4];
  }

  /** ...otherwise `export` in the file name, in any case... */
  lemma IdentifySourceExport(fileName: string, content: string)
    requires !Contains(Lower(content), "evernote") && FirstUrl(Take(content, 1000), 0).None?
    requires Contains(Lower(fileName), "export")
    ensures IdentifySource(fileName, content) == "evernote_export"
  {
  }

  /** ...and otherwise the source is unknown. */
  lemma IdentifySourceUnknown(fileName: string, content: string)
    requires !Contains(Lower(content), "evernote") && FirstUrl(Take(content, 1000), 0).None?
    requires !Contains(Lower(fileName), "export")
    ensures IdentifySource(fileName, content) == "unknown"
  {
  }

  /** A web source names an address that opens with `http://` or
      `https://` and runs on with at least one address character. */
  lemma WebSourceShape(t: string, a: nat, e: nat)
    requires FirstUrl(t, 0) == Some((a, e))
    ensures OccursAt(t, "http://", a) || OccursAt(t, "https://", a)
    ensures forall k :: a + 7 <= k < e && !(k == a + 7 && t[a + 4] == 's') ==> IsUrlChar(t[k])
  {
    assert UrlAt(t, a) == Some(e);
    if a + 4 < |t| && t[a + 4] == 's' {
      SchemeJoin(t, a, 5, "https://");
    } else {
      SchemeJoin(t, a, 4, "http://");
    }
  }

  /** `http` followed by the rest of the scheme at `a + n` is the whole
      scheme at `a`. */
  lemma SchemeJoin(t: string, a: nat, n: nat, w: string)
    requires (n == 4 || n == 5) && n < |w| && w[..4] == "http" && w[n..] == "://"
    requires OccursAt(t, "http", a) && OccursAt(t, "://", a + n)
    requires n == 5 ==> t[a + 4] == w[4]
    ensures OccursAt(t, w, a)
  {
    assert |w| == n + 3;
    forall k | 0 <= k < |w| ensures t[a + k] == w[k] {
      if k < 4 {
        assert t[a..a + 4][k] == t[a + k];
        assert w[..4][k] == w[k];
      } else if k >= n {
        assert t[a + n..a + n + 3][k - n] == t[a + k];
        assert w[n..][k - n] == w[k];
      }
    }
    assert t[a..a + |w|] == w;
  }

  // ---------------------------------------------------------------------
  // Title (lines 105-111)
  // ---------------------------------------------------------------------

  /** `i` is where `^` matches in multi-line mode. */
  predicate LineStart(s: string, i: nat) {
    i == 0 || (0 < i <= |s| && s[i - 1] == '\n')
  }

  /** After `#` at `h`, `\s+` first takes the whole run of whitespace
      (newlines included) and gives back one character at a time until
      `.+` can take a character that is not a newline: the start of the
      group, trying runs of `m` characters down to one. */
  function GroupStart(s: string, h: nat, m: nat): (r: Option<nat>)
    ensures r.Some? ==> h + 1 < r.value < |s| && s[r.value] != '\n' && r.value <= h + 1 + m
    decreases m
  {
    if m == 0 then None
    else if h + 1 + m < |s| && s[h + 1 + m] != '\n' then Some(h + 1 + m)
    else GroupStart(s, h, m - 1)
  }

  /** Where `^#\s+(.+)$` matches with its `#` at `h`: the bounds of the
      group, which `.+` runs to the end of its line, where `$` matches. */
  function HeadingAt(s: string, h: nat): (r: Option<(nat, nat)>)
    ensures r.Some? ==> h < r.value.0 < r.value.1 <= |s|
  {
    if !(h < |s| && LineStart(s, h) && s[h] == '#') then None
    else match GroupStart(s, h, SpaceRun(s[h + 1..]))
      case None => None
      case Some(g) => Some((g, LineEnd(s, g)))
  }

  /** The leftmost heading from `h` on. */
  function FirstHeading(s: string, h: nat): (r: Option<(nat, nat)>)
    ensures r.Some? ==> r.value.0 < r.value.1 <= |s|
    ensures r.Some? ==> exists k :: h <= k && HeadingAt(s, k) == r
    ensures r.None? ==> forall k :: h <= k < |s| ==> HeadingAt(s, k).None?
    decreases |s| - h
  {
    if h >= |s| then None
    else match HeadingAt(s, h)
      case Some(b) => Some(b)
      case None => FirstHeading(s, h + 1)
  }

  /** The characters of the class `[*_`]`. */
  predicate IsEmphasis(c: char) { c == '*' || c == '_' || c == '`' }

  /** `str.title()` on ASCII: a letter is upper-cased after a non-letter and
      lower-cased after a letter. */
  function TitleCase(s: string): (r: string)
    ensures |r| == |s|
  {
    seq(|s|, i requires 0 <= i < |s| =>
      if i == 0 || !IsAsciiLetter(s[i - 1]) then UpperChar(s[i]) else LowerChar(s[i]))
  }

  /** `_extract_title` of the content and the file's stem. */
  function ExtractTitle(content: string, stem: string): string {
    match FirstHeading(content, 0)
    case Some((g, e)) => RemoveChars(Strip(content[g..e]), IsEmphasis)
    case None => TitleCase(ReplaceChar(ReplaceChar(stem, '_', ' '), '-', ' '))
  }

  /** A title taken from a heading has no emphasis characters and every
      character of it is on the heading's line. */
  lemma ExtractTitleHeading(content: string, stem: string, g: nat, e: nat)
    requires FirstHeading(content, 0) == Some((g, e))
    ensures forall c :: c in ExtractTitle(content, stem) ==> !IsEmphasis(c) && c in content[g..e]
    ensures '\n' !in content[g..e]
  {
    var h :| 0 <= h && HeadingAt(content, h) == Some((g, e));
    HeadingOneLine(content, h);
    StripChars(content[g..e]);
  }

  /** A heading's group lies on one line. */
  lemma {:induction false} HeadingOneLine(s: string, h: nat)
    requires HeadingAt(s, h).Some?
    ensures var (g, e) := HeadingAt(s, h).value; '\n' !in s[g..e]
  {
    var (g, e) := HeadingAt(s, h).value;
    assert LineEnd(s, g) == e;
    forall k | g <= k < e ensures s[k] != '\n' {
    }
  }

  /** Without a heading the title is the stem, with `_` and `-` turned into
      spaces and each word capitalised. */
  lemma ExtractTitleStem(content: string, stem: string)
    requires FirstHeading(content, 0).None?
    ensures var r := ExtractTitle(content, stem);
      && |r| == |stem| && '_' !in r && '-' !in r
      && forall i :: 0 <= i < |stem| && !IsAsciiLetter(stem[i]) && stem[i] != '_' && stem[i] != '-' ==> r[i] == stem[i]
  {
    var u := ReplaceChar(ReplaceChar(stem, '_', ' '), '-', ' ');
    TitleCaseKeeps(u);
    var r := TitleCase(u);
    forall i | 0 <= i < |r| ensures r[i] != '_' && r[i] != '-' {
      assert u[i] != '_' && u[i] != '-';
    }
  }

  /** Title-casing changes letters only, and only into letters. */
  lemma {:induction false} TitleCaseKeeps(s: string)
    ensures var r := TitleCase(s);
      forall i :: 0 <= i < |s| ==>
        && (!IsAsciiLetter(s[i]) ==> r[i] == s[i])
        && (IsAsciiLetter(s[i]) ==> IsAsciiLetter(r[i]))
  {
    var r := TitleCase(s);
    forall i | 0 <= i < |s|
      ensures (!IsAsciiLetter(s[i]) ==> r[i] == s[i]) && (IsAsciiLetter(s[i]) ==> IsAsciiLetter(r[i]))
    {
      CaseKeepsOthers(s[i]);
    }
  }

  /** Case mapping leaves everything but letters alone and sends letters to
      letters. */
  lemma {:induction false} CaseKeepsOthers(c: char)
    ensures !IsAsciiLetter(c) ==> UpperChar(c) == c && LowerChar(c) == c
    ensures IsAsciiLetter(c) ==> IsAsciiLetter(UpperChar(c)) && IsAsciiLetter(LowerChar(c))
  {
  }

  /** A note opening with `# x` takes its title from `x`, stripped and
      without emphasis characters. */
  lemma ExtractTitleFirstLine(x: string, rest: string, stem: string)
    requires |x| > 0 && !IsSpace(x[0]) && '\n' !in x
    ensures ExtractTitle("# " + x + "\n" + rest, stem) == RemoveChars(Strip(x), IsEmphasis)
  {
    var s := "# " + x + "\n" + rest;
    assert s[1..][0] == ' ' && s[1..][1] == x[0];
    assert SpaceRun(s[1..]) == 1;
    assert GroupStart(s, 0, 1) == Some(2);
    assert forall k :: 2 <= k < 2 + |x| ==> s[k] == x[k - 2];
    FindFromAt(s, '\n', 2, 2 + |x|);
    var e: nat := 2 + |x|;
    assert HeadingAt(s, 0) == Some((2, e));
    assert s[2..2 + |x|] == x;
  }

  /** Without `#` the title comes from the stem. */
  lemma ExtractTitleNoHeading(content: string, stem: string)
    requires '#' !in content
    ensures ExtractTitle(content, stem) == TitleCase(ReplaceChar(ReplaceChar(stem, '_', ' '), '-', ' '))
  {
    forall k: nat ensures HeadingAt(content, k).None? {
      if k < |content| {
        assert content[k] != '#';
      }
    }
  }

  // ---------------------------------------------------------------------
  // Creation date (lines 113-131)
  // ---------------------------------------------------------------------

  /** `\d{4}-\d{2}-\d{2}` matches at `i`. */
  predicate IsoDateAt(t: string, i: nat) {
    i + 10 <= |t|
    && IsDigit(t[i]) && IsDigit(t[i + 1]) && IsDigit(t[i + 2]) && IsDigit(t[i + 3]) && t[i + 4] == '-'
    && IsDigit(t[i + 5]) && IsDigit(t[i + 6]) && t[i + 7] == '-' && IsDigit(t[i + 8]) && IsDigit(t[i + 9])
  }

  function FirstIsoDate(t: string, i: nat): (r: Option<nat>)
    ensures r.Some? ==> i <= r.value && IsoDateAt(t, r.value)
    ensures forall k :: i <= k && (r.None? || k < r.value) ==> !IsoDateAt(t, k)
    decreases |t| - i
  {
    if i + 10 > |t| then None
    else if IsoDateAt(t, i) then Some(i)
    else FirstIsoDate(t, i + 1)
  }

  /** `_extract_creation_date`: the first ISO date among the first 500
      characters; otherwise `fallback`, the date the environment supplies
      (the file's creation time, or today when that cannot be read). */
  function ExtractCreationDate(content: string, fallback: string): (r: string)
    ensures r == fallback || (|r| == 10 && exists i :: 0 <= i <= 490 && IsoDateAt(content, i) && r == content[i..i + 10])
  {
    var t := Take(content, 500);
    match FirstIsoDate(t, 0)
    case Some(i) =>
      assert IsoDateAt(content, i) && t[i..i + 10] == content[i..i + 10];
      t[i..i + 10]
    case None => fallback
  }

  /** With an ISO date among the first 500 characters, the leftmost one
      is the creation date. */
  lemma ExtractCreationDateFound(content: string, fallback: string, i: nat)
    requires IsoDateAt(content, i) && i + 10 <= 500
    requires forall k :: 0 <= k < i ==> !IsoDateAt(content, k)
    ensures ExtractCreationDate(content, fallback) == content[i..i + 10]
  {
    var t := Take(content, 500);
    IsoDatePrefix(t, content, i);
    forall k | 0 <= k < i ensures !IsoDateAt(t, k) {
      IsoDatePrefix(t, content, k);
    }
    assert FirstIsoDate(t, 0) == Some(i);
    assert t[i..i + 10] == content[i..i + 10];
  }

  /** Without one, the date is the fallback. */
  lemma ExtractCreationDateFallback(content: string, fallback: string)
    requires forall i :: 0 <= i && i + 10 <= Min(500, |content|) ==> !IsoDateAt(content, i)
    ensures ExtractCreationDate(content, fallback) == fallback
  {
    var t := Take(content, 500);
    forall i | 0 <= i && i + 10 <= |t| ensures !IsoDateAt(t, i) {
      IsoDatePrefix(t, content, i);
    }
  }

  /** A date within a prefix is a date of the whole text. */
  lemma {:induction false} IsoDatePrefix(t: string, content: string, i: nat)
    requires |t| <= |content| && t == content[..|t|] && i + 10 <= |t|
    ensures IsoDateAt(t, i) == IsoDateAt(content, i)
  {
    assert forall d :: i <= d < i + 10 ==> t[d] == content[d];
  }
}
