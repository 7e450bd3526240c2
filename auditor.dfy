/** The pre-flight auditor (scripts/auditor.py): per-file findings, the
    complexity score, and the report over a source directory. */
module Auditor {

  import opened Strings

  type SourcePath = string

  /** `MAX_SAFE_FILE_SIZE`: 100 MiB. */
  const MaxSafeFileSize: nat := 100 * 1024 * 1024

  /** The integer weights of `COMPLEXITY_WEIGHTS`; the `size_kb` weight of
      0.1 enters through the size term. */
  const TableWeight: nat := 10
  const NestedTableWeight: nat := 20
  const MergedCellsWeight: nat := 15
  const ImageWeight: nat := 5
  const CodeWeight: nat := 3

  /** Above this score a file gets the high-complexity warning. */
  const HighComplexity: nat := 120

  // ---------------------------------------------------------------------
  // Sizes in MB (lines 140 and 232)
  // ---------------------------------------------------------------------

  function Pow10(d: nat): (r: nat)
    ensures r >= 1
  {
    if d == 0 then 1 else 10 * Pow10(d - 1)
  }

  const MiB: nat := 1048576

  /** `size / 1024 / 1024` with `d` decimals, as an integer count of
      `10^-d` MB: the quotient is exact in floating point (both divisions
      are by powers of two), and formatting rounds it to the nearest value,
      halves to even. */
  function ScaledMb(size: nat, d: nat): nat {
    var num := size * Pow10(d);
    var q, r := num / MiB, num % MiB;
    if 2 * r > MiB || (2 * r == MiB && q % 2 == 1) then q + 1 else q
  }

  /** The rounded value is within half a unit of the exact one, and an
      exact half goes to the even neighbour. */
  lemma ScaledMbNearest(size: nat, d: nat)
    ensures var v, num := ScaledMb(size, d), size * Pow10(d);
      && v * MiB <= num + MiB / 2 && num <= v * MiB + MiB / 2
      && (2 * (num % MiB) == MiB ==> v % 2 == 0)
  {
  }

  /** The characters of a formatted decimal number. */
  predicate DecimalText(s: string) {
    forall i :: 0 <= i < |s| ==> IsDigit(s[i]) || s[i] == '.'
  }

  /** `s` padded on the left with zeros to `d` characters. */
  function PadLeft(s: string, d: nat): (r: string)
    requires DecimalText(s)
    ensures |r| >= d && DecimalText(r)
    decreases d - |s|
  {
    if |s| >= d then s else PadLeft("0" + s, d)
  }

  lemma DivMod(a: nat, b: nat)
    requires b > 0
    ensures a / b >= 0 && 0 <= a % b < b
  {
  }

  /** `f"{size / 1024 / 1024:.{d}f}"`. */
  function FixedMb(size: nat, d: nat): (r: string)
    requires d > 0
    ensures DecimalText(r)
  {
    var v, p := ScaledMb(size, d), Pow10(d);
    DivMod(v, p);
    var whole, frac := NatToString(v / p), NatToString(v % p);
    assert DecimalText(whole) && DecimalText(frac);
    var r := whole + "." + PadLeft(frac, d);
    assert forall i :: |whole| < i < |r| ==> r[i] == PadLeft(frac, d)[i - |whole| - 1];
    r
  }

  // ---------------------------------------------------------------------
  // Warnings (lines 138-141, 157-160, 177-181)
  // ---------------------------------------------------------------------

  function LargeFileWarning(size: nat): string {
    "Large file detected (" + FixedMb(size, 1) + " MB)"
  }

  function HighComplexityWarning(score: nat): string {
    "High complexity score: " + NatToString(score)
  }

  /** What the HTML audit reports about one table. */
  datatype TableIssue = NestedTable | MergedCells

  function IssueText(t: TableIssue): string {
    match t
    case NestedTable => "Nested table detected"
    case MergedCells => "Merged table cells detected"
  }

  function IssueTexts(issues: seq<TableIssue>): (r: seq<string>)
    ensures |r| == |issues| && forall i :: 0 <= i < |r| ==> r[i] == IssueText(issues[i])
  {
    seq(|issues|, i requires 0 <= i < |issues| => IssueText(issues[i]))
  }

  /** What `_audit_html` or `_audit_enex` finds in a file: the counts of
      tables, images and code blocks, the issue of each table in document
      order, and the errors (an ENEX file that does not parse); or the
      findings the audit had already added when reading or parsing raised
      (the notes of an ENEX file audited before the one whose content no
      parser accepts), and the exception's message. */
  datatype Scan =
    | Scanned(tables: nat, images: nat, codeBlocks: nat, issues: seq<TableIssue>, errors: seq<string>)
    | Raised(tables: nat, images: nat, codeBlocks: nat, issues: seq<TableIssue>, message: string)

  // ---------------------------------------------------------------------
  // `_calculate_complexity` (lines 205-219)
  // ---------------------------------------------------------------------

  /** `any(p in w.lower() for w in ws)`. */
  predicate AnyContains(ws: seq<string>, p: string) {
    exists k | 0 <= k < |ws| :: Contains(Lower(ws[k]), p)
  }

  /** The score of a file with the given size term, counts and warnings. */
  function Complexity(sizeTerm: nat, tables: nat, images: nat, codeBlocks: nat, warnings: seq<string>): nat {
    sizeTerm + tables * TableWeight + images * ImageWeight + codeBlocks * CodeWeight
    + (if AnyContains(warnings, "nested") then NestedTableWeight else 0)
    + (if AnyContains(warnings, "merged") then MergedCellsWeight else 0)
  }

  /** The score never decreases when a count, the size term or the
      warnings grow, and the warnings add at most 35. */
  lemma ComplexityMonotone(s: nat, t: nat, i: nat, c: nat, ws: seq<string>,
                           s': nat, t': nat, i': nat, c': nat, ws': seq<string>)
    requires s <= s' && t <= t' && i <= i' && c <= c'
    requires forall w :: w in ws ==> w in ws'
    ensures Complexity(s, t, i, c, ws) <= Complexity(s', t', i', c', ws')
    ensures Complexity(s, t, i, c, ws) <= s + t * 10 + i * 5 + c * 3 + 35
  {
    if AnyContains(ws, "nested") {
      var k :| 0 <= k < |ws| && Contains(Lower(ws[k]), "nested");
      assert ws[k] in ws';
    }
    if AnyContains(ws, "merged") {
      var k :| 0 <= k < |ws| && Contains(Lower(ws[k]), "merged");
      assert ws[k] in ws';
    }
  }

  /** `score += ...` step by step, with `any` as a loop that stops at the
      first warning that has the word. */
  method AnyLowerContains(ws: seq<string>, p: string) returns (b: bool)
    ensures b == AnyContains(ws, p)
  {
    b := false;
    var k := 0;
    while k < |ws| && !b
      invariant 0 <= k <= |ws|
      invariant b ==> AnyContains(ws, p)
      invariant !b ==> forall j :: 0 <= j < k ==> !Contains(Lower(ws[j]), p)
      decreases |ws| - k
    {
      b := Contains(Lower(ws[k]), p);
      k := k + 1;
    }
  }

  // ---------------------------------------------------------------------
  // `FileAudit` and `_audit_file` (lines 45-57, 132-166)
  // ---------------------------------------------------------------------

  datatype AuditRecord = AuditRecord(
    filepath: SourcePath, fileSize: nat,
    tableCount: nat, imageCount: nat, codeBlockCount: nat,
    hasTables: bool, hasImages: bool, hasCodeBlocks: bool,
    complexityScore: nat, warnings: seq<string>, errors: seq<string>)

  class FileAudit {
    const filepath: SourcePath
    const fileSize: nat
    var tableCount: nat
    var imageCount: nat
    var codeBlockCount: nat
    var hasTables: bool
    var hasImages: bool
    var hasCodeBlocks: bool
    var complexityScore: nat
    var warnings: seq<string>
    var errors: seq<string>

    /** All counts zero, all flags False, no warnings and no errors. */
    constructor (filepath: SourcePath, fileSize: nat)
      ensures this.filepath == filepath && this.fileSize == fileSize
      ensures tableCount == 0 && imageCount == 0 && codeBlockCount == 0
      ensures !hasTables && !hasImages && !hasCodeBlocks
      ensures complexityScore == 0 && warnings == [] && errors == []
    {
      this.filepath := filepath;
      this.fileSize := fileSize;
      tableCount, imageCount, codeBlockCount := 0, 0, 0;
      hasTables, hasImages, hasCodeBlocks := false, false, false;
      complexityScore := 0;
      warnings, errors := [], [];
    }

    function Record(): AuditRecord
      reads this
    {
      AuditRecord(filepath, fileSize, tableCount, imageCount, codeBlockCount,
                  hasTables, hasImages, hasCodeBlocks, complexityScore, warnings, errors)
    }
  }

  /** `_calculate_complexity` of an audit, with `sizeTerm` standing for
      `int((file_size / 1024) * 0.1)`. */
  method CalculateComplexity(audit: FileAudit, sizeTerm: nat -> nat) returns (score: nat)
    ensures score == Complexity(sizeTerm(audit.fileSize), audit.tableCount, audit.imageCount,
                                audit.codeBlockCount, audit.warnings)
  {
    score := 0;
    score := score + sizeTerm(audit.fileSize);
    score := score + audit.tableCount * TableWeight;
    score := score + audit.imageCount * ImageWeight;
    score := score + audit.codeBlockCount * CodeWeight;
    var nested := AnyLowerContains(audit.warnings, "nested");
    if nested {
      score := score + NestedTableWeight;
    }
    var merged := AnyLowerContains(audit.warnings, "merged");
    if merged {
      score := score + MergedCellsWeight;
    }
  }

  /** The audit of one file of the given size: the large-file warning
      first, then the table issues and the errors of the scan, the flags,
      the score and the high-complexity warning; a scan that raised keeps
      the counts and issues found before the raise, leaves the flags and
      the score unset, and has its message as the one error. */
  function AuditOf(path: SourcePath, size: nat, scan: Scan, sizeTerm: nat -> nat): AuditRecord {
    var large := if size > MaxSafeFileSize then [LargeFileWarning(size)] else [];
    match scan
    case Raised(t, i, c, issues, msg) =>
      AuditRecord(path, size, t, i, c, false, false, false, 0, large + IssueTexts(issues), [msg])
    case Scanned(t, i, c, issues, errs) =>
      var ws := large + IssueTexts(issues);
      var score := Complexity(sizeTerm(size), t, i, c, ws);
      AuditRecord(path, size, t, i, c, t > 0, i > 0, c > 0, score,
                  ws + (if score > HighComplexity then [HighComplexityWarning(score)] else []), errs)
  }

  /** `_audit_file`, with the file's size and what its HTML or ENEX audit
      finds given. */
  method AuditFile(path: SourcePath, size: nat, scan: Scan, sizeTerm: nat -> nat) returns (audit: FileAudit)
    ensures fresh(audit)
    ensures audit.Record() == AuditOf(path, size, scan, sizeTerm)
  {
    audit := new FileAudit(path, size);
    if audit.fileSize > MaxSafeFileSize {
      audit.warnings := audit.warnings + [LargeFileWarning(audit.fileSize)];
    }
    assert audit.warnings == if size > MaxSafeFileSize then [LargeFileWarning(size)] else [];
    match scan
    case Raised(_, _, _, _, _) =>
      RaiseInto(audit, scan);
      AuditOfRaised(path, size, scan, sizeTerm);
    case Scanned(_, _, _, _, _) =>
      ScanInto(audit, scan, sizeTerm);
      AuditOfScanned(path, size, scan, sizeTerm);
  }

  /** The `try` body of `_audit_file` for a scan that did not raise: the
      counts and flags, the issues after the warnings so far, the errors,
      the score, and the high-complexity warning last. */
  method ScanInto(audit: FileAudit, scan: Scan, sizeTerm: nat -> nat)
    requires scan.Scanned?
    modifies audit
    ensures audit.tableCount == old(audit.tableCount) + scan.tables
    ensures audit.imageCount == old(audit.imageCount) + scan.images
    ensures audit.codeBlockCount == old(audit.codeBlockCount) + scan.codeBlocks
    ensures audit.hasTables == (audit.tableCount > 0) && audit.hasImages == (audit.imageCount > 0)
    ensures audit.hasCodeBlocks == (audit.codeBlockCount > 0)
    ensures audit.errors == old(audit.errors) + scan.errors
    ensures audit.complexityScore == Complexity(sizeTerm(audit.fileSize), audit.tableCount, audit.imageCount,
                                                audit.codeBlockCount, old(audit.warnings) + IssueTexts(scan.issues))
    ensures audit.warnings == old(audit.warnings) + IssueTexts(scan.issues)
      + (if audit.complexityScore > HighComplexity then [HighComplexityWarning(audit.complexityScore)] else [])
  {
    audit.tableCount := audit.tableCount + scan.tables;
    audit.warnings := audit.warnings + IssueTexts(scan.issues);
    audit.imageCount := audit.imageCount + scan.images;
    audit.codeBlockCount := audit.codeBlockCount + scan.codeBlocks;
    audit.errors := audit.errors + scan.errors;
    audit.hasTables := audit.tableCount > 0;
    audit.hasImages := audit.imageCount > 0;
    audit.hasCodeBlocks := audit.codeBlockCount > 0;
    audit.complexityScore := CalculateComplexity(audit, sizeTerm);
    if audit.complexityScore > HighComplexity {
      audit.warnings := audit.warnings + [HighComplexityWarning(audit.complexityScore)];
    }
  }

  /** The `try` body of `_audit_file` for a scan that raised: what the
      scan added before the exception stays, and the `except` appends the
      message; the flags, the score and the high-complexity warning are
      never reached. */
  method RaiseInto(audit: FileAudit, scan: Scan)
    requires scan.Raised?
    modifies audit
    ensures audit.tableCount == old(audit.tableCount) + scan.tables
    ensures audit.imageCount == old(audit.imageCount) + scan.images
    ensures audit.codeBlockCount == old(audit.codeBlockCount) + scan.codeBlocks
    ensures audit.warnings == old(audit.warnings) + IssueTexts(scan.issues)
    ensures audit.errors == old(audit.errors) + [scan.message]
    ensures audit.hasTables == old(audit.hasTables) && audit.hasImages == old(audit.hasImages)
    ensures audit.hasCodeBlocks == old(audit.hasCodeBlocks) && audit.complexityScore == old(audit.complexityScore)
  {
    audit.tableCount := audit.tableCount + scan.tables;
    audit.warnings := audit.warnings + IssueTexts(scan.issues);
    audit.imageCount := audit.imageCount + scan.images;
    audit.codeBlockCount := audit.codeBlockCount + scan.codeBlocks;
    audit.errors := audit.errors + [scan.message];
  }

  lemma {:induction false} AuditOfRaised(path: SourcePath, size: nat, scan: Scan, sizeTerm: nat -> nat)
    requires scan.Raised?
    ensures AuditOf(path, size, scan, sizeTerm)
      == AuditRecord(path, size, scan.tables, scan.images, scan.codeBlocks, false, false, false, 0,
                     (if size > MaxSafeFileSize then [LargeFileWarning(size)] else []) + IssueTexts(scan.issues),
                     [scan.message])
  {
  }

  lemma {:induction false} AuditOfScanned(path: SourcePath, size: nat, scan: Scan, sizeTerm: nat -> nat)
    requires scan.Scanned?
    ensures var ws := (if size > MaxSafeFileSize then [LargeFileWarning(size)] else []) + IssueTexts(scan.issues);
      var score := Complexity(sizeTerm(size), scan.tables, scan.images, scan.codeBlocks, ws);
      AuditOf(path, size, scan, sizeTerm)
      == AuditRecord(path, size, scan.tables, scan.images, scan.codeBlocks,
                     scan.tables > 0, scan.images > 0, scan.codeBlocks > 0, score,
                     ws + (if score > HighComplexity then [HighComplexityWarning(score)] else []), scan.errors)
  {
  }

  /** The per-file rules: each flag of a scanned file is its count being
      positive, and a scan that raised sets no flag; the
      large-file warning comes first exactly when the size exceeds 100 MiB;
      the high-complexity warning is there exactly when the file was
      scanned and its score exceeds 120; a scan that raised gives exactly
      one error. */
  lemma AuditOfRules(path: SourcePath, size: nat, scan: Scan, sizeTerm: nat -> nat)
    ensures var a := AuditOf(path, size, scan, sizeTerm);
      && (scan.Scanned? ==> a.hasTables == (a.tableCount > 0) && a.hasImages == (a.imageCount > 0)
                            && a.hasCodeBlocks == (a.codeBlockCount > 0))
      && (scan.Raised? ==> !a.hasTables && !a.hasImages && !a.hasCodeBlocks)
      && (a.tableCount, a.imageCount, a.codeBlockCount) == (scan.tables, scan.images, scan.codeBlocks)
      && ((|a.warnings| > 0 && a.warnings[0] == LargeFileWarning(size)) <==> size > MaxSafeFileSize)
      && (HighComplexityWarning(a.complexityScore) in a.warnings <==> scan.Scanned? && a.complexityScore > HighComplexity)
      && (scan.Raised? ==> a.errors == [scan.message] && a.complexityScore == 0)
  {
    var a := AuditOf(path, size, scan, sizeTerm);
    var lw, hw := LargeFileWarning(size), HighComplexityWarning(a.complexityScore);
    var large := if size > MaxSafeFileSize then [lw] else [];
    assert lw[0] == 'L' && hw[0] == 'H';
    if scan.Raised? {
      AuditOfRaised(path, size, scan, sizeTerm);
      WarningOrder(large, scan.issues, [], lw, hw);
    } else {
      AuditOfScanned(path, size, scan, sizeTerm);
      WarningOrder(large, scan.issues, if a.complexityScore > HighComplexity then [hw] else [], lw, hw);
    }
  }

  /** Where the large-file and the high-complexity warnings sit among the
      table issues: the first starts with `L` and the second with `H`,
      which no issue text does. */
  lemma {:induction false} WarningOrder(large: seq<string>, issues: seq<TableIssue>, high: seq<string>, lw: string, hw: string)
    requires |lw| > 0 && lw[0] == 'L' && |hw| > 0 && hw[0] == 'H'
    requires large == [] || large == [lw]
    requires high == [] || high == [hw]
    ensures var ws := large + IssueTexts(issues) + high;
      && ((|ws| > 0 && ws[0] == lw) <==> large == [lw])
      && (hw in ws <==> high == [hw])
  {
    var its := IssueTexts(issues);
    var ws := large + its + high;
    forall k | 0 <= k < |its| ensures its[k][0] == 'N' || its[k][0] == 'M' {
      assert its[k] == IssueText(issues[k]);
    }
    if |ws| > 0 && large == [] {
      assert ws[0] == if |its| > 0 then its[0] else hw;
    }
    forall k | 0 <= k < |large| + |its| ensures ws[k] != hw {
      if k < |large| {
        assert ws[k] == lw;
      } else {
        assert ws[k] == its[k - |large|];
        assert ws[k][0] != hw[0];
      }
    }
    if high == [hw] {
      assert ws[|ws| - 1] == hw;
    }
  }


  /** The words the score looks for: the table issues say `nested` and
      `merged`, and the large-file warning says neither, so the score adds
      20 exactly when some table is nested and 15 exactly when some table
      has merged cells. */
  lemma ComplexityOfScan(size: nat, t: nat, i: nat, c: nat, issues: seq<TableIssue>, sizeTerm: nat -> nat)
    ensures var large := if size > MaxSafeFileSize then [LargeFileWarning(size)] else [];
      Complexity(sizeTerm(size), t, i, c, large + IssueTexts(issues))
      == sizeTerm(size) + 10 * t + 5 * i + 3 * c
         + (if NestedTable in issues then 20 else 0) + (if MergedCells in issues then 15 else 0)
  {
    var large := if size > MaxSafeFileSize then [LargeFileWarning(size)] else [];
    LargeFileWords(size);
    assert forall k :: 0 <= k < |large| ==> large[k] == LargeFileWarning(size);
    AnyContainsAppend(large, IssueTexts(issues), "nested");
    AnyContainsAppend(large, IssueTexts(issues), "merged");
    AnyIssue(issues, NestedTable);
    AnyIssue(issues, MergedCells);
  }

  /** A word occurs in one of two lists joined exactly when it occurs in
      one of them. */
  lemma {:induction false} AnyContainsAppend(a: seq<string>, b: seq<string>, p: string)
    ensures AnyContains(a + b, p) <==> AnyContains(a, p) || AnyContains(b, p)
  {
    if AnyContains(a + b, p) {
      var k :| 0 <= k < |a + b| && Contains(Lower((a + b)[k]), p);
      if k < |a| {
        assert (a + b)[k] == a[k];
      } else {
        assert (a + b)[k] == b[k - |a|];
      }
    }
    if AnyContains(a, p) {
      var k :| 0 <= k < |a| && Contains(Lower(a[k]), p);
      assert (a + b)[k] == a[k];
    }
    if AnyContains(b, p) {
      var k :| 0 <= k < |b| && Contains(Lower(b[k]), p);
      assert (a + b)[|a| + k] == b[k];
    }
  }

  /** The word the score looks for in the text of an issue. */
  function IssueWord(t: TableIssue): string {
    match t
    case NestedTable => "nested"
    case MergedCells => "merged"
  }

  /** The issue texts mention an issue's word exactly when that issue is
      among them. */
  lemma {:induction false} AnyIssue(issues: seq<TableIssue>, t: TableIssue)
    ensures AnyContains(IssueTexts(issues), IssueWord(t)) <==> t in issues
  {
    var ws := IssueTexts(issues);
    if AnyContains(ws, IssueWord(t)) {
      var k :| 0 <= k < |ws| && Contains(Lower(ws[k]), IssueWord(t));
      assert ws[k] == IssueText(issues[k]);
      IssueWordIn(t, issues[k]);
    }
    if t in issues {
      var k :| 0 <= k < |issues| && issues[k] == t;
      assert ws[k] == IssueText(t);
      IssueWordIn(t, t);
    }
  }

  /** Each issue text holds its own word and not the other. */
  lemma {:induction false} IssueWordIn(t: TableIssue, u: TableIssue)
    ensures Contains(Lower(IssueText(u)), IssueWord(t)) <==> t == u
  {
    if u == NestedTable {
      NestedWords();
    } else {
      MergedWords();
    }
  }

  lemma {:induction false} NestedWords()
    ensures Contains(Lower(IssueText(NestedTable)), "nested")
    ensures !Contains(Lower(IssueText(NestedTable)), "merged")
  {
    var n := Lower(IssueText(NestedTable));
    assert n[..6] == "nested";
    assert OccursAt(n, "nested", 0);
    MissingFirst(n, "merged");
  }

  lemma {:induction false} MergedWords()
    ensures Contains(Lower(IssueText(MergedCells)), "merged")
    ensures !Contains(Lower(IssueText(MergedCells)), "nested")
  {
    var m := Lower(IssueText(MergedCells));
    assert m[..6] == "merged";
    assert OccursAt(m, "merged", 0);
    MissingFirst(m, "nested");
  }

  /** A word whose first letter is missing from a text does not occur in it. */
  lemma {:induction false} MissingFirst(s: string, p: string)
    requires |p| > 0 && forall i :: 0 <= i < |s| ==> s[i] != p[0]
    ensures !Contains(s, p)
  {
    forall i | 0 <= i <= |s| - |p| ensures !OccursAt(s, p, i) {
      assert s[i..i + |p|][0] == s[i];
    }
  }

  /** The large-file warning holds neither `nested` nor `merged`: it has no
      `n`, and its only `m` is the one of ` MB)` at its end. */
  lemma {:induction false} LargeFileWords(size: nat)
    ensures !Contains(Lower(LargeFileWarning(size)), "nested")
    ensures !Contains(Lower(LargeFileWarning(size)), "merged")
  {
    var x := FixedMb(size, 1);
    LowerLarge(x);
    LargeTextWords(x);
  }

  /** Lowering the large-file warning lowers its words and keeps its number. */
  lemma {:induction false} LowerLarge(x: string)
    requires DecimalText(x)
    ensures Lower("Large file detected (" + x + " MB)") == "large file detected (" + x + " mb)"
  {
    var w, l := "Large file detected (" + x + " MB)", "large file detected (" + x + " mb)";
    assert |w| == |l|;
    forall i | 0 <= i < |w| ensures LowerChar(w[i]) == l[i] {
      if 21 <= i < 21 + |x| {
        assert w[i] == x[i - 21] && l[i] == x[i - 21];
      }
    }
  }

  lemma {:induction false} LargeTextWords(x: string)
    requires DecimalText(x)
    ensures !Contains("large file detected (" + x + " mb)", "nested")
    ensures !Contains("large file detected (" + x + " mb)", "merged")
  {
    var l := "large file detected (" + x + " mb)";
    forall i | 0 <= i < |l| ensures l[i] != 'n' && (l[i] == 'm' ==> i == |l| - 3) {
      if 21 <= i < 21 + |x| {
        assert l[i] == x[i - 21];
      }
    }
    MissingFirst(l, "nested");
    forall i | 0 <= i <= |l| - 6 ensures !OccursAt(l, "merged", i) {
      assert l[i..i + 6][0] == l[i];
    }
  }


  // ---------------------------------------------------------------------
  // `AuditReport` and `audit_directory` (lines 60-71, 90-126)
  // ---------------------------------------------------------------------

  /** The report's totals, validity and message lists. */
  datatype ReportRecord = ReportRecord(
    totalFiles: nat, totalTables: nat, totalImages: nat, totalCodeBlocks: nat, totalSize: nat,
    isValid: bool, warnings: seq<string>, errors: seq<string>)

  class AuditReport {
    const auditedAt: string
    var totalFiles: nat
    var totalTables: nat
    var totalImages: nat
    var totalCodeBlocks: nat
    var totalSize: nat
    var isValid: bool
    var fileAudits: seq<FileAudit>
    var warnings: seq<string>
    var errors: seq<string>

    /** An empty, valid report stamped with `auditedAt`. */
    constructor (auditedAt: string)
      ensures this.auditedAt == auditedAt && fileAudits == [] && Record() == Fresh
    {
      this.auditedAt := auditedAt;
      totalFiles, totalTables, totalImages, totalCodeBlocks, totalSize := 0, 0, 0, 0, 0;
      isValid := true;
      fileAudits, warnings, errors := [], [], [];
    }

    /** The body of the loop of `audit_directory`: the audit appended, and
        its counts, size, warnings and errors added. */
    method Include(audit: FileAudit)
      modifies this
      ensures fileAudits == old(fileAudits) + [audit]
      ensures Record() == Add(old(Record()), audit.Record())
    {
      fileAudits := fileAudits + [audit];
      totalFiles := totalFiles + 1;
      totalTables := totalTables + audit.tableCount;
      totalImages := totalImages + audit.imageCount;
      totalCodeBlocks := totalCodeBlocks + audit.codeBlockCount;
      totalSize := totalSize + audit.fileSize;
      warnings := warnings + audit.warnings;
      errors := errors + audit.errors;
    }

    function Record(): ReportRecord
      reads this
    {
      ReportRecord(totalFiles, totalTables, totalImages, totalCodeBlocks, totalSize, isValid, warnings, errors)
    }
  }

  const Fresh: ReportRecord := ReportRecord(0, 0, 0, 0, 0, true, [], [])

  /** One step of the loop: a file audit added to the totals and lists. */
  function Add(r: ReportRecord, a: AuditRecord): ReportRecord {
    r.(totalFiles := r.totalFiles + 1, totalTables := r.totalTables + a.tableCount,
       totalImages := r.totalImages + a.imageCount, totalCodeBlocks := r.totalCodeBlocks + a.codeBlockCount,
       totalSize := r.totalSize + a.fileSize,
       warnings := r.warnings + a.warnings, errors := r.errors + a.errors)
  }

  /** The report after the loop has taken the audits in order. */
  function Accumulate(audits: seq<AuditRecord>): ReportRecord
    decreases |audits|
  {
    if |audits| == 0 then Fresh else Add(Accumulate(audits[..|audits| - 1]), audits[|audits| - 1])
  }

  /** `rglob("*.html")` followed by `rglob("*.enex")`, over the walk of the
      directory. */
  function SourceFiles(walk: seq<SourcePath>): (r: seq<SourcePath>)
    ensures forall p :: p in r <==> p in walk && (IsSuffix(".html", p) || IsSuffix(".enex", p))
  {
    WithSuffix(walk, ".html") + WithSuffix(walk, ".enex")
  }

  function WithSuffix(walk: seq<SourcePath>, ext: string): (r: seq<SourcePath>)
    ensures forall p :: p in r <==> p in walk && IsSuffix(ext, p)
    decreases |walk|
  {
    if |walk| == 0 then []
    else (if IsSuffix(ext, walk[0]) then [walk[0]] else []) + WithSuffix(walk[1..], ext)
  }

  /** The audits of the files, in order. */
  function Audits(files: seq<SourcePath>, size: SourcePath -> nat, scan: SourcePath -> Scan, sizeTerm: nat -> nat)
    : (r: seq<AuditRecord>)
    ensures |r| == |files|
  {
    seq(|files|, i requires 0 <= i < |files| => AuditOf(files[i], size(files[i]), scan(files[i]), sizeTerm))
  }

  /** The report `audit_directory` returns, without its file audits. */
  function ReportOf(dir: string, dirExists: bool, walk: seq<SourcePath>,
                    size: SourcePath -> nat, scan: SourcePath -> Scan, sizeTerm: nat -> nat): ReportRecord
  {
    if !dirExists then Fresh.(isValid := false, errors := ["Source directory not found: " + dir])
    else
      var files := SourceFiles(walk);
      if |files| == 0 then Fresh.(isValid := false, errors := ["No HTML or ENEX files found."])
      else
        var r := Accumulate(Audits(files, size, scan, sizeTerm));
        r.(isValid := r.errors == [])
  }

  /** The first `n` files of `files` can be measured. */
  predicate StatsOk(files: seq<SourcePath>, statOk: SourcePath -> bool, n: nat)
    requires n <= |files|
  {
    forall j :: 0 <= j < n ==> statOk(files[j])
  }

  /** Some file of `files` cannot be measured: `filepath.stat()` of line
      135 raises, outside the `try` of `_audit_file`. */
  predicate SomeStatFails(files: seq<SourcePath>, statOk: SourcePath -> bool) {
    exists j :: 0 <= j < |files| && !statOk(files[j])
  }

  /** `audit_directory`: the directory's existence, its walk, and for each
      file whether it can be measured, its size and its findings are given.
      `raised` says that the call ends with the exception of a file that
      cannot be measured, and then returns no report. */
  method AuditDirectory(dir: string, dirExists: bool, walk: seq<SourcePath>, statOk: SourcePath -> bool,
                        size: SourcePath -> nat, scan: SourcePath -> Scan, sizeTerm: nat -> nat,
                        auditedAt: string)
    returns (report: AuditReport, raised: bool)
    ensures fresh(report) && report.auditedAt == auditedAt
    ensures raised <==> dirExists && SourceFiles(walk) != [] && SomeStatFails(SourceFiles(walk), statOk)
    ensures !raised ==> report.Record() == ReportOf(dir, dirExists, walk, size, scan, sizeTerm)
    ensures !raised ==> var audits := if dirExists then Audits(SourceFiles(walk), size, scan, sizeTerm) else [];
      |report.fileAudits| == |audits| && forall i :: 0 <= i < |audits| ==> report.fileAudits[i].Record() == audits[i]
  {
    raised := false;
    report := new AuditReport(auditedAt);
    if !dirExists {
      report.isValid := false;
      report.errors := report.errors + ["Source directory not found: " + dir];
      return;
    }
    var files := WithSuffix(walk, ".html") + WithSuffix(walk, ".enex");
    if |files| == 0 {
      report.isValid := false;
      report.errors := report.errors + ["No HTML or ENEX files found."];
      return;
    }
    raised := AuditFiles(report, files, statOk, size, scan, sizeTerm);
    if raised {
      return;
    }
    AccumulateTotals(Audits(files, size, scan, sizeTerm));
    if report.errors != [] {
      report.isValid := false;
    }
  }

  /** The loop of `audit_directory`: each file audited in turn and
      included in the report, until a file that cannot be measured raises. */
  method AuditFiles(report: AuditReport, files: seq<SourcePath>, statOk: SourcePath -> bool,
                    size: SourcePath -> nat, scan: SourcePath -> Scan, sizeTerm: nat -> nat)
    returns (raised: bool)
    requires report.Record() == Fresh && report.fileAudits == []
    modifies report
    ensures raised <==> SomeStatFails(files, statOk)
    ensures !raised ==> report.Record() == Accumulate(Audits(files, size, scan, sizeTerm))
    ensures !raised ==> |report.fileAudits| == |files|
    ensures !raised ==> forall j :: 0 <= j < |files| ==>
      report.fileAudits[j].Record() == AuditOf(files[j], size(files[j]), scan(files[j]), sizeTerm)
  {
    ghost var audits := Audits(files, size, scan, sizeTerm);
    var i := 0;
    while i < |files| && statOk(files[i])
      invariant i <= |files|
      invariant StatsOk(files, statOk, i)
      invariant report.Record() == Accumulate(audits[..i])
      invariant |report.fileAudits| == i
      invariant AuditsMatch(report.fileAudits, audits, i)
    {
      assert StatsOk(files, statOk, i + 1);
      AuditNext(report, files, i, size, scan, sizeTerm);
      i := i + 1;
    }
    raised := i < |files|;
    if raised {
      assert !statOk(files[i]);
    } else {
      assert StatsOk(files, statOk, |files|);
      assert audits[..|files|] == audits;
    }
  }

  /** The first `n` file audits have the records `audits` lists. */
  ghost predicate AuditsMatch(fas: seq<FileAudit>, audits: seq<AuditRecord>, n: nat)
    reads fas
  {
    n <= |fas| && n <= |audits| && forall j :: 0 <= j < n ==> fas[j].Record() == audits[j]
  }

  /** One pass of that loop: the audit of the `i`-th file included. */
  method AuditNext(report: AuditReport, files: seq<SourcePath>, i: nat,
                   size: SourcePath -> nat, scan: SourcePath -> Scan, sizeTerm: nat -> nat)
    requires i < |files|
    requires var audits := Audits(files, size, scan, sizeTerm);
      report.Record() == Accumulate(audits[..i]) && |report.fileAudits| == i
      && AuditsMatch(report.fileAudits, audits, i)
    modifies report
    ensures var audits := Audits(files, size, scan, sizeTerm);
      report.Record() == Accumulate(audits[..i + 1]) && |report.fileAudits| == i + 1
      && AuditsMatch(report.fileAudits, audits, i + 1)
  {
    ghost var audits := Audits(files, size, scan, sizeTerm);
    ghost var before := report.fileAudits;
    var fileAudit := AuditFile(files[i], size(files[i]), scan(files[i]), sizeTerm);
    ghost var r := fileAudit.Record();
    assert r == audits[i];
    report.Include(fileAudit);
    assert fileAudit.Record() == r;
    forall j | 0 <= j <= i ensures report.fileAudits[j].Record() == audits[j] {
      if j < i {
        assert report.fileAudits[j] == before[j];
      } else {
        assert report.fileAudits[j] == fileAudit;
      }
    }
    AccumulateStep(audits, i);
  }

  // ---------------------------------------------------------------------
  // What the report adds up to
  // ---------------------------------------------------------------------

  lemma {:induction false} AccumulateStep(audits: seq<AuditRecord>, i: nat)
    requires i < |audits|
    ensures Accumulate(audits[..i + 1]) == Add(Accumulate(audits[..i]), audits[i])
  {
    assert audits[..i + 1][..i] == audits[..i];
  }

  /** The sum of a count over the audits. */
  function SumOf(audits: seq<AuditRecord>, f: AuditRecord -> nat): nat
    decreases |audits|
  {
    if |audits| == 0 then 0 else f(audits[0]) + SumOf(audits[1..], f)
  }

  /** The lists of the audits, one after the other. */
  function ConcatOf(audits: seq<AuditRecord>, f: AuditRecord -> seq<string>): seq<string>
    decreases |audits|
  {
    if |audits| == 0 then [] else f(audits[0]) + ConcatOf(audits[1..], f)
  }

  lemma {:induction false} SumOfSnoc(audits: seq<AuditRecord>, a: AuditRecord, f: AuditRecord -> nat)
    ensures SumOf(audits + [a], f) == SumOf(audits, f) + f(a)
    decreases |audits|
  {
    if |audits| > 0 {
      assert (audits + [a])[1..] == audits[1..] + [a];
      SumOfSnoc(audits[1..], a, f);
    }
  }

  lemma {:induction false} ConcatOfSnoc(audits: seq<AuditRecord>, a: AuditRecord, f: AuditRecord -> seq<string>)
    ensures ConcatOf(audits + [a], f) == ConcatOf(audits, f) + f(a)
    decreases |audits|
  {
    if |audits| > 0 {
      assert (audits + [a])[1..] == audits[1..] + [a];
      ConcatOfSnoc(audits[1..], a, f);
    }
  }

  /** The totals are the number of audits and the sums of their counts and
      sizes; the warnings and errors are theirs in file order. */
  lemma {:induction false} AccumulateTotals(audits: seq<AuditRecord>)
    ensures var r := Accumulate(audits);
      && r.isValid && r.totalFiles == |audits|
      && r.totalTables == SumOf(audits, (a: AuditRecord) => a.tableCount)
      && r.totalImages == SumOf(audits, (a: AuditRecord) => a.imageCount)
      && r.totalCodeBlocks == SumOf(audits, (a: AuditRecord) => a.codeBlockCount)
      && r.totalSize == SumOf(audits, (a: AuditRecord) => a.fileSize)
      && r.warnings == ConcatOf(audits, (a: AuditRecord) => a.warnings)
      && r.errors == ConcatOf(audits, (a: AuditRecord) => a.errors)
    decreases |audits|
  {
    if |audits| > 0 {
      var init, last := audits[..|audits| - 1], audits[|audits| - 1];
      assert audits == init + [last];
      AccumulateTotals(init);
      SumOfSnoc(init, last, (a: AuditRecord) => a.tableCount);
      SumOfSnoc(init, last, (a: AuditRecord) => a.imageCount);
      SumOfSnoc(init, last, (a: AuditRecord) => a.codeBlockCount);
      SumOfSnoc(init, last, (a: AuditRecord) => a.fileSize);
      ConcatOfSnoc(init, last, (a: AuditRecord) => a.warnings);
      ConcatOfSnoc(init, last, (a: AuditRecord) => a.errors);
    }
  }

  /** The lists joined are empty exactly when each list is. */
  lemma {:induction false} ConcatOfEmpty(audits: seq<AuditRecord>, f: AuditRecord -> seq<string>)
    ensures ConcatOf(audits, f) == [] <==> forall i :: 0 <= i < |audits| ==> f(audits[i]) == []
    decreases |audits|
  {
    if |audits| > 0 {
      ConcatOfEmpty(audits[1..], f);
      assert forall i :: 1 <= i < |audits| ==> audits[1..][i - 1] == audits[i];
    }
  }

  /** A missing directory, and a directory without HTML or ENEX files, give
      an invalid report with exactly one error and nothing else. */
  lemma ReportInvalidCases(dir: string, dirExists: bool, walk: seq<SourcePath>,
                           size: SourcePath -> nat, scan: SourcePath -> Scan, sizeTerm: nat -> nat)
    requires !dirExists || SourceFiles(walk) == []
    ensures var r := ReportOf(dir, dirExists, walk, size, scan, sizeTerm);
      && !r.isValid && |r.errors| == 1 && r.warnings == []
      && r.totalFiles == 0 && r.totalTables == 0 && r.totalImages == 0 && r.totalCodeBlocks == 0 && r.totalSize == 0
  {
  }

  /** Once files have been audited, the report is valid exactly when no
      file has an error: when every file was scanned and its scan found no
      error. */
  lemma ReportValidity(dir: string, walk: seq<SourcePath>,
                       size: SourcePath -> nat, scan: SourcePath -> Scan, sizeTerm: nat -> nat)
    requires SourceFiles(walk) != []
    ensures var r := ReportOf(dir, true, walk, size, scan, sizeTerm);
      var files := SourceFiles(walk);
      && (r.isValid <==> r.errors == [])
      && (r.isValid <==> forall i :: 0 <= i < |files| ==> scan(files[i]).Scanned? && scan(files[i]).errors == [])
      && r.totalFiles == |files|
  {
    var files := SourceFiles(walk);
    var audits := Audits(files, size, scan, sizeTerm);
    AccumulateTotals(audits);
    ConcatOfEmpty(audits, (a: AuditRecord) => a.errors);
    forall i | 0 <= i < |files|
      ensures audits[i].errors == [] <==> scan(files[i]).Scanned? && scan(files[i]).errors == []
    {
    }
  }
}
