/** The Markdown sanitizer (scripts/sanitizer.py): the cleaning pipeline,
    the validation report, and the in-place cleaning of one note and of a
    batch of notes.

    The notes on disk are a value: the text of each note that reads as
    UTF-8 and the notes whose reading or writing raises. */
module Sanitizer {

  import opened Wrappers
  import opened Strings
  import opened Markup
  import opened NoteFiles
  import SanitizerLinks
  import SanitizerSpace
  import SanitizerTables

  // ---------------------------------------------------------------------
  // The pipeline (lines 35, 82-89)
  // ---------------------------------------------------------------------

  /** The class `[​‌‍﻿]` of the `zero_width` pattern. */
  predicate IsZeroWidth(c: char) {
    c == '\U{200B}' || c == '\U{200C}' || c == '\U{200D}' || c == '\U{FEFF}'
  }

  /** `_clean_pipeline`. `removeHtml` is `_remove_html_artifacts`, the
      first step, which this model leaves abstract. */
  function CleanPipeline(content: string, removeHtml: string -> string): (r: string)
    ensures forall c :: c in r ==> !IsZeroWidth(c)
  {
    var s := SanitizerLinks.FixLinks(removeHtml(content));
    var s := SanitizerSpace.NormalizeWhitespace(s);
    var s := SanitizerTables.FixTablesText(s);
    var s := SanitizerSpace.FixCodeBlocks(s);
    RemoveChars(s, IsZeroWidth)
  }

  // ---------------------------------------------------------------------
  // Validation (lines 157-169)
  // ---------------------------------------------------------------------

  /** `re.search(r'\]\([^\)]*$', content, re.MULTILINE)` matches from `i`
      to `k`: a `](` whose parenthesis is not closed before the end of its
      line (the class `[^\)]` also crosses line ends, and `$` matches before
      any newline and at the end). */
  predicate OpenLinkTo(s: string, i: int, k: int) {
    0 <= i && i + 2 <= k <= |s| && s[i] == ']' && s[i + 1] == '('
    && (k == |s| || s[k] == '\n') && ')' !in s[i + 2..k]
  }

  predicate OpenLinkAt(s: string, i: int) {
    exists k | 0 <= k <= |s| :: OpenLinkTo(s, i, k)
  }

  predicate MalformedLink(s: string) {
    exists i | 0 <= i < |s| :: OpenLinkAt(s, i)
  }

  /** A `](` never closed is reported. */
  lemma MalformedLinkUnclosed(p: string, t: string)
    requires ')' !in t
    ensures MalformedLink(p + "](" + t)
  {
    var s := p + "](" + t;
    var i := |p|;
    assert s[i] == ']' && s[i + 1] == '(';
    assert s[i + 2..|s|] == t;
    assert OpenLinkTo(s, i, |s|);
    assert OpenLinkAt(s, i);
  }

  /** Without `](` nothing is reported. */
  lemma MalformedLinkNeedsOpen(s: string)
    requires !Contains(s, "](")
    ensures !MalformedLink(s)
  {
    forall i | 0 <= i < |s| ensures !OpenLinkAt(s, i) {
      if i + 1 < |s| {
        assert !OccursAt(s, "](", i);
        assert s[i..i + 2] == [s[i], s[i + 1]];
        assert forall k :: !OpenLinkTo(s, i, k);
      }
    }
  }

  /** The alternatives of `(div|span|font|center)` in order: the one that
      starts `t`, if any. */
  function TagName(t: string): Option<string> {
    if IsPrefix("div", t) then Some("div")
    else if IsPrefix("span", t) then Some("span")
    else if IsPrefix("font", t) then Some("font")
    else if IsPrefix("center", t) then Some("center")
    else None
  }

  /** Where `<(div|span|font|center)[^>]*>` matches at the start of `s`:
      the tag name and the index just past the first `>` after it. */
  function HtmlTagAt(s: string): (r: Option<(string, nat)>)
    ensures r.Some? ==> 0 < r.value.1 <= |s|
  {
    if |s| == 0 || s[0] != '<' then None
    else match TagName(s[1..])
      case None => None
      case Some(n) =>
        match FindFrom(s, '>', 1 + |n|)
        case None => None
        case Some(e) => Some((n, e + 1))
  }

  /** `re.findall(r'<(div|span|font|center)[^>]*>', content)`: the names
      of the non-overlapping matches, leftmost first. */
  function HtmlTags(s: string): seq<string>
    decreases |s|
  {
    if |s| == 0 then []
    else match HtmlTagAt(s)
      case Some((n, e)) => [n] + HtmlTags(s[e..])
      case None => HtmlTags(s[1..])
  }

  /** Without `<` no tag is found. */
  lemma {:induction false} HtmlTagsNoAngle(s: string)
    requires '<' !in s
    ensures HtmlTags(s) == []
    decreases |s|
  {
    if |s| > 0 {
      assert s[0] != '<';
      HtmlTagsNoAngle(s[1..]);
    }
  }

  /** Text without `<` in front of the rest adds no tag. */
  lemma {:induction false} HtmlTagsPrefix(p: string, q: string)
    requires '<' !in p
    ensures HtmlTags(p + q) == HtmlTags(q)
    decreases |p|
  {
    if |p| > 0 {
      var s := p + q;
      assert s[0] == p[0] != '<';
      assert s[1..] == p[1..] + q;
      HtmlTagsPrefix(p[1..], q);
    } else {
      assert p + q == q;
    }
  }

  const TagNames := ["div", "span", "font", "center"]

  /** The names are not prefixes of one another, so each is recognised as
      itself. */
  lemma TagNameOf(n: string, rest: string)
    requires n in TagNames
    ensures TagName(n + rest) == Some(n)
  {
    var t := n + rest;
    assert t[..|n|] == n;
    assert t[0] == n[0];
    if n != "div" {
      assert t[0] != 'd';
    }
    if n == "font" || n == "center" {
      assert t[0] != 's';
    }
    if n == "center" {
      assert t[0] != 'f';
    }
  }

  /** An opening `div`, `span`, `font` or `center` tag is found by its name,
      and the scan goes on after its `>`. */
  lemma HtmlTagsAt(p: string, n: string, x: string, q: string)
    requires '<' !in p && n in TagNames && '>' !in x
    ensures HtmlTags(p + "<" + n + x + ">" + q) == [n] + HtmlTags(q)
  {
    var s := "<" + n + x + ">" + q;
    var e := 1 + |n| + |x|;
    HtmlTagAtOf(n, x, q);
    HtmlTagsFound(s, n, e + 1);
    assert s[e + 1..] == q;
    var t1, t2, t3 := "<" + n, "<" + n + x, "<" + n + x + ">";
    AppendAssoc(p, "<", n);
    AppendAssoc(p, t1, x);
    AppendAssoc(p, t2, ">");
    AppendAssoc(p, t3, q);
    HtmlTagsPrefix(p, s);
  }

  /** The tag `<n x>` is found at the front, ending past its `>`. */
  lemma HtmlTagAtOf(n: string, x: string, q: string)
    requires n in TagNames && '>' !in x
    ensures HtmlTagAt("<" + n + x + ">" + q) == Some((n, 2 + |n| + |x|))
  {
    var s := "<" + n + x + ">" + q;
    var e := 1 + |n| + |x|;
    assert s[1..] == n + (x + ">" + q);
    TagNameOf(n, x + ">" + q);
    assert s[e] == '>';
    assert forall k :: 1 + |n| <= k < e ==> s[k] == x[k - 1 - |n|];
    FindFromAt(s, '>', 1 + |n|, e);
  }

  lemma HtmlTagsFound(s: string, n: string, e: nat)
    requires HtmlTagAt(s) == Some((n, e))
    ensures HtmlTags(s) == [n] + HtmlTags(s[e..])
  {
  }

  /** Each message of `validate_markdown`. */
  const Unclosed := "Unclosed code block detected"
  const Malformed := "Malformed markdown link detected"
  const MalformedImage := "Malformed image syntax detected"
  const RemainingPrefix := "Remaining HTML tags: "

  /** `validate_markdown`. `render` is Python's text form of the set of tag
      names, whose order depends on string hashing. */
  function ValidateMarkdown(content: string, render: set<string> -> string): (bool, seq<string>) {
    var tags := HtmlTags(content);
    var issues :=
      (if FenceCount(content) % 2 != 0 then [Unclosed] else [])
      + (if MalformedLink(content) then [Malformed] else [])
      + (if Contains(content, "![]![") then [MalformedImage] else [])
      + (if |tags| > 0 then [RemainingPrefix + render(set t | t in tags)] else []);
    (|issues| == 0, issues)
  }

  /** The verdict is `(True, [])` exactly when no check finds an issue, and
      otherwise `False` with the issues listed; an odd number of fences is
      always reported, first, and only then. */
  lemma ValidateMarkdownIssues(content: string, render: set<string> -> string)
    ensures var (ok, issues) := ValidateMarkdown(content, render);
      && (ok <==> issues == [])
      && (issues == [] <==> FenceCount(content) % 2 == 0 && !MalformedLink(content)
                            && !Contains(content, "![]![") && HtmlTags(content) == [])
      && (FenceCount(content) % 2 == 1 ==> issues[0] == Unclosed)
      && (Unclosed in issues <==> FenceCount(content) % 2 == 1)
  {
    var (ok, issues) := ValidateMarkdown(content, render);
    var tags := HtmlTags(content);
    var html := set t | t in tags;
    assert (RemainingPrefix + render(html))[0] == 'R';
    assert Malformed[0] == 'M' && MalformedImage[0] == 'M' && Unclosed[0] == 'U';
  }

  // ---------------------------------------------------------------------
  // Cleaning notes in place (lines 42-76)
  // ---------------------------------------------------------------------

  /** `sanitize_file`: `(returned value, notes afterwards)`. A note that is
      missing or does not read gives False; the cleaned text is written only
      when it differs, and a write that raises gives False. */
  function SanitizeFile(v: Notes, path: FilePath, removeHtml: string -> string): (bool, Notes) {
    if !Readable(v, path) then (false, v)
    else
      var cleaned := CleanPipeline(v.text[path], removeHtml);
      if cleaned == v.text[path] then (true, v)
      else if path in v.unwritable then (false, v)
      else (true, v.(text := v.text[path := cleaned]))
  }

  /** The only write is to `path`, it happens only when cleaning changed the
      text, and the note then holds the cleaned text; the call succeeds
      exactly when the note reads and, if it changes, writes. */
  lemma SanitizeFileWrites(v: Notes, path: FilePath, removeHtml: string -> string)
    ensures var (ok, w) := SanitizeFile(v, path, removeHtml);
      && w.unreadable == v.unreadable && w.unwritable == v.unwritable
      && w.text.Keys == v.text.Keys
      && (forall p :: p in v.text && p != path ==> w.text[p] == v.text[p])
      && (ok <==> path in v.text && path !in v.unreadable
                  && (CleanPipeline(v.text[path], removeHtml) == v.text[path] || path !in v.unwritable))
      && (w.text != v.text ==> path in v.text && CleanPipeline(v.text[path], removeHtml) != v.text[path])
      && (ok ==> w.text[path] == CleanPipeline(v.text[path], removeHtml))
  {
  }

  /** The run of `sanitize_batch` over the first files: the count so far
      and the notes afterwards. */
  function Batch(files: seq<FilePath>, v: Notes, removeHtml: string -> string): (nat, Notes)
    decreases |files|
  {
    if |files| == 0 then (0, v)
    else
      var (count, w) := Batch(files[..|files| - 1], v, removeHtml);
      var (ok, w') := SanitizeFile(w, files[|files| - 1], removeHtml);
      (if ok then count + 1 else count, w')
  }

  /** `sanitize_batch`: the number of files for which `sanitize_file`
      returned True. */
  method SanitizeBatch(files: seq<FilePath>, v: Notes, removeHtml: string -> string)
    returns (count: nat, w: Notes)
    ensures (count, w) == Batch(files, v, removeHtml)
  {
    count, w := 0, v;
    for i := 0 to |files|
      invariant (count, w) == Batch(files[..i], v, removeHtml)
    {
      assert files[..i + 1][..i] == files[..i];
      var (ok, w') := SanitizeFile(w, files[i], removeHtml);
      w := w';
      if ok {
        count := count + 1;
      }
    }
    assert files[..|files|] == files;
  }

  /** The count never exceeds the number of files; a failure on one file
      leaves the others to be counted; the failure sets are never changed
      and no note outside the batch is touched. */
  lemma {:induction false} BatchFrame(files: seq<FilePath>, v: Notes, removeHtml: string -> string)
    ensures var (count, w) := Batch(files, v, removeHtml);
      && count <= |files|
      && w.unreadable == v.unreadable && w.unwritable == v.unwritable
      && w.text.Keys == v.text.Keys
      && (forall p :: p in v.text && p !in files ==> w.text[p] == v.text[p])
    decreases |files|
  {
    if |files| > 0 {
      var init := files[..|files| - 1];
      BatchFrame(init, v, removeHtml);
      var (count, w) := Batch(init, v, removeHtml);
      SanitizeFileWrites(w, files[|files| - 1], removeHtml);
      forall p | p in v.text && p !in files ensures Batch(files, v, removeHtml).1.text[p] == v.text[p] {
        assert p !in init;
      }
    }
  }

  /** When every note exists, reads and writes, every call succeeds. */
  lemma {:induction false} BatchAllSucceed(files: seq<FilePath>, v: Notes, removeHtml: string -> string)
    requires forall i :: 0 <= i < |files| ==> files[i] in v.text && files[i] !in v.unreadable && files[i] !in v.unwritable
    ensures Batch(files, v, removeHtml).0 == |files|
    decreases |files|
  {
    if |files| > 0 {
      var init := files[..|files| - 1];
      BatchAllSucceed(init, v, removeHtml);
      BatchFrame(init, v, removeHtml);
    }
  }

  /** A batch whose notes are all missing or unreadable counts nothing and
      changes nothing. */
  lemma {:induction false} BatchNoneReadable(files: seq<FilePath>, v: Notes, removeHtml: string -> string)
    requires forall i :: 0 <= i < |files| ==> files[i] !in v.text || files[i] in v.unreadable
    ensures Batch(files, v, removeHtml) == (0, v)
    decreases |files|
  {
    if |files| > 0 {
      BatchNoneReadable(files[..|files| - 1], v, removeHtml);
    }
  }
}
