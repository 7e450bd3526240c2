/** The text report of the pre-flight auditor (`generate_text_report` in
    scripts/auditor.py). */
module AuditorReport {

  import opened Strings
  import opened Auditor

  /** `"=" * 70`. */
  function Rule(): (r: string)
    ensures |r| == 70 && forall i :: 0 <= i < 70 ==> r[i] == '='
  {
    seq(70, _ => '=')
  }

  const Title: string := "OMNI-PARSER \U{2013} PRE-FLIGHT AUDIT REPORT"

  /** How the shown errors and warnings are listed. */
  function Bullet(s: string): string {
    "  \U{2022} " + s
  }

  function Bullets(xs: seq<string>): (r: seq<string>)
    ensures |r| == |xs| && forall i :: 0 <= i < |xs| ==> r[i] == Bullet(xs[i])
  {
    seq(|xs|, i requires 0 <= i < |xs| => Bullet(xs[i]))
  }

  /** Eleven header lines: the banner, the time stamp, the totals, a blank
      line and the status. */
  function Header(r: ReportRecord, auditedAt: string): (h: seq<string>)
    ensures |h| == 11
  {
    [ Rule(), Title, Rule(),
      "Audited At: " + auditedAt + " UTC",
      "Total Files: " + NatToString(r.totalFiles),
      "Total Size: " + FixedMb(r.totalSize, 2) + " MB",
      "Tables: " + NatToString(r.totalTables),
      "Images: " + NatToString(r.totalImages),
      "Code Blocks: " + NatToString(r.totalCodeBlocks),
      "",
      "STATUS: " + (if r.isValid then "PASSED" else "FAILED") ]
  }

  /** All errors, under their heading, when there are any. */
  function ErrorSection(errors: seq<string>): seq<string> {
    if errors == [] then [] else ["\nERRORS:"] + Bullets(errors)
  }

  /** At most ten warnings shown. */
  const ShownWarnings: nat := 10

  function OverflowLine(hidden: nat): string {
    "  ... and " + NatToString(hidden) + " more"
  }

  /** The first ten warnings under their heading, then how many more there
      are when there are more than ten. */
  function WarningSection(warnings: seq<string>): seq<string> {
    if warnings == [] then []
    else
      ["\nWARNINGS:"] + Bullets(warnings[..Min(ShownWarnings, |warnings|)])
      + (if |warnings| > ShownWarnings then [OverflowLine(|warnings| - ShownWarnings)] else [])
  }

  /** The lines of the report, closed by the banner rule. */
  function ReportLines(r: ReportRecord, auditedAt: string): seq<string> {
    Header(r, auditedAt) + ErrorSection(r.errors) + WarningSection(r.warnings) + [Rule()]
  }

  /** `generate_text_report`: the lines built one by one, joined with
      newlines. */
  method GenerateTextReport(report: AuditReport) returns (text: string)
    ensures text == Join(ReportLines(report.Record(), report.auditedAt), '\n')
  {
    var lines := [
      Rule(), Title, Rule(),
      "Audited At: " + report.auditedAt + " UTC",
      "Total Files: " + NatToString(report.totalFiles),
      "Total Size: " + FixedMb(report.totalSize, 2) + " MB",
      "Tables: " + NatToString(report.totalTables),
      "Images: " + NatToString(report.totalImages),
      "Code Blocks: " + NatToString(report.totalCodeBlocks),
      "",
      "STATUS: " + (if report.isValid then "PASSED" else "FAILED")];
    assert lines == Header(report.Record(), report.auditedAt);
    var errorLines := ErrorLines(report.errors);
    lines := lines + errorLines;
    var warningLines := WarningLines(report.warnings);
    lines := lines + warningLines;
    lines := lines + [Rule()];
    text := Join(lines, '\n');
  }

  /** The `if report.errors:` block: a bullet per error, in order. */
  method ErrorLines(errors: seq<string>) returns (lines: seq<string>)
    ensures lines == ErrorSection(errors)
  {
    lines := [];
    if errors != [] {
      lines := lines + ["\nERRORS:"];
      for k := 0 to |errors|
        invariant lines == ["\nERRORS:"] + Bullets(errors[..k])
      {
        lines := lines + [Bullet(errors[k])];
        assert Bullets(errors[..k + 1]) == Bullets(errors[..k]) + [Bullet(errors[k])];
      }
      assert errors[..|errors|] == errors;
    }
  }

  /** The `if report.warnings:` block: a bullet for each of the first ten
      warnings, then the overflow line when there are more. */
  method WarningLines(warnings: seq<string>) returns (lines: seq<string>)
    ensures lines == WarningSection(warnings)
  {
    lines := [];
    if warnings != [] {
      lines := lines + ["\nWARNINGS:"];
      var shown := warnings[..Min(ShownWarnings, |warnings|)];
      for k := 0 to |shown|
        invariant lines == ["\nWARNINGS:"] + Bullets(shown[..k])
      {
        lines := lines + [Bullet(shown[k])];
        assert Bullets(shown[..k + 1]) == Bullets(shown[..k]) + [Bullet(shown[k])];
      }
      assert shown[..|shown|] == shown;
      if |warnings| > ShownWarnings {
        lines := lines + [OverflowLine(|warnings| - ShownWarnings)];
      }
    }
  }

  /** The banner rule opens and closes the report, the status line says
      PASSED exactly when the report is valid, and the report has the
      header, a heading and a line per error, and a heading, at most ten
      warning lines and the overflow line for the warnings. */
  lemma {:induction false} ReportFrame(r: ReportRecord, auditedAt: string)
    ensures var lines := ReportLines(r, auditedAt);
      var shown := Min(ShownWarnings, |r.warnings|);
      && lines[0] == Rule() && lines[|lines| - 1] == Rule()
      && (lines[10] == "STATUS: PASSED" <==> r.isValid)
      && |lines| == 12 + (if r.errors == [] then 0 else 1 + |r.errors|)
                       + (if r.warnings == [] then 0 else 1 + shown + (if |r.warnings| > ShownWarnings then 1 else 0))
  {
    var h, es, ws := Header(r, auditedAt), ErrorSection(r.errors), WarningSection(r.warnings);
    var lines := ReportLines(r, auditedAt);
    assert lines == h + es + ws + [Rule()];
    assert lines[0] == h[0] && lines[10] == h[10];
    assert "STATUS: FAILED"[8] != "STATUS: PASSED"[8];
  }

  /** Every error is listed. */
  lemma {:induction false} ErrorsListed(r: ReportRecord, auditedAt: string)
    ensures forall e :: e in r.errors ==> Bullet(e) in ReportLines(r, auditedAt)
  {
    var h, es, ws := Header(r, auditedAt), ErrorSection(r.errors), WarningSection(r.warnings);
    var lines := ReportLines(r, auditedAt);
    assert lines == h + es + ws + [Rule()];
    forall e | e in r.errors ensures Bullet(e) in lines {
      var k :| 0 <= k < |r.errors| && r.errors[k] == e;
      assert lines[|h| + 1 + k] == es[1 + k] == Bullet(e);
    }
  }

  /** The first ten warnings are listed. */
  lemma {:induction false} WarningsListed(r: ReportRecord, auditedAt: string)
    ensures forall i :: 0 <= i < Min(ShownWarnings, |r.warnings|) ==> Bullet(r.warnings[i]) in ReportLines(r, auditedAt)
  {
    var h, es, ws := Header(r, auditedAt), ErrorSection(r.errors), WarningSection(r.warnings);
    var lines := ReportLines(r, auditedAt);
    assert lines == h + es + ws + [Rule()];
    forall i | 0 <= i < Min(ShownWarnings, |r.warnings|) ensures Bullet(r.warnings[i]) in lines {
      assert lines[|h| + |es| + 1 + i] == ws[1 + i] == Bullet(r.warnings[i]);
    }
  }

  /** The overflow line is the last but one line when there are more than
      ten warnings, and no other line has its text. */
  lemma {:induction false} OverflowPlace(r: ReportRecord, auditedAt: string)
    ensures var lines := ReportLines(r, auditedAt);
      var shown := Min(ShownWarnings, |r.warnings|);
      OverflowLine(|r.warnings| - shown) in lines <==> |r.warnings| > ShownWarnings
  {
    var lines := ReportLines(r, auditedAt);
    var h, es, ws := Header(r, auditedAt), ErrorSection(r.errors), WarningSection(r.warnings);
    var shown := Min(ShownWarnings, |r.warnings|);
    var o := OverflowLine(|r.warnings| - shown);
    assert lines == h + es + ws + [Rule()];
    if |r.warnings| > ShownWarnings {
      assert lines[|lines| - 2] == o;
    } else {
      assert o == OverflowLine(0);
      forall k | 0 <= k < |lines| ensures lines[k] != o {
        NotOverflow(r, auditedAt, k);
      }
    }
  }

  /** No line other than the overflow line starts with `"  ."`. */
  lemma {:induction false} NotOverflow(r: ReportRecord, auditedAt: string, k: nat)
    requires |r.warnings| <= ShownWarnings && k < |ReportLines(r, auditedAt)|
    ensures ReportLines(r, auditedAt)[k] != OverflowLine(0)
  {
    var lines := ReportLines(r, auditedAt);
    var h, es, ws := Header(r, auditedAt), ErrorSection(r.errors), WarningSection(r.warnings);
    assert lines == h + es + ws + [Rule()];
    var o := OverflowLine(0);
    assert |o| > 2 && o[2] == '.';
    if k < |h| {
      assert lines[k] == h[k];
    } else if k < |h| + |es| {
      assert lines[k] == es[k - |h|];
      if k > |h| {
        assert es[k - |h|] == Bullet(r.errors[k - |h| - 1]);
      }
    } else if k < |h| + |es| + |ws| {
      assert lines[k] == ws[k - |h| - |es|];
      if k > |h| + |es| {
        assert ws[k - |h| - |es|] == Bullet(r.warnings[k - |h| - |es| - 1]);
      }
    }
  }
}
