// The text generateScript returns (js/app.js): the preamble template with a
// "Generated on" line inserted after its header line, the dynamic block of
// bash assignments for the selected records, a blank line, and the body
// template verbatim. The two templates are passed in as a Templates value.

module Script {
  import opened Options
  import opened Text
  import opened Catalog
  import opened Format
  import opened Summary

  /** SCRIPT_PREAMBLE (shebang through "# Parameters\n") and SCRIPT_BODY
      (from "# Initialize failed_downloads" to the end). */
  datatype Templates = Templates(preamble: string, body: string)

  /** The header line the timestamp goes after. */
  const GeneratedBy: string := "# Generated by the AGE-PRO Data Archive\n"

  /** The header line followed by the new "Generated on" line. */
  function TimestampHeader(timestamp: string): string {
    GeneratedBy + "# Generated on: " + timestamp + "\n"
  }

  /** The preamble after the first-occurrence replace of the header line. */
  function StampedPreamble(preamble: string, timestamp: string): string {
    ReplaceFirst(preamble, GeneratedBy, TimestampHeader(timestamp))
  }

  function TotalSizeLine(sizeLabel: string): string {
    "TOTAL_SIZE=\"Total size: " + sizeLabel + "\""
  }

  function UrlLine(url: string): string {
    "DOWNLOAD_URLS+=(\"" + url + "\")"
  }

  function TargetLine(dir: string): string {
    "DOWNLOAD_TARGETS+=(\"" + dir + "\")"
  }

  /** One URLS+= line and one TARGETS+= line per record, record after record. */
  function RecordLines(rs: seq<Record>): (lines: seq<string>)
    ensures |lines| == 2 * |rs|
    ensures forall i :: 0 <= i < |rs| ==>
              lines[2 * i] == UrlLine(rs[i].url) && lines[2 * i + 1] == TargetLine(rs[i].targetDir)
  {
    if rs == [] then []
    else RecordLines(rs[..|rs| - 1]) + [UrlLine(rs[|rs| - 1].url), TargetLine(rs[|rs| - 1].targetDir)]
  }

  /** The lines of the dynamic block, without their newlines. */
  function DynamicLines(sizeLabel: string, rs: seq<Record>): seq<string> {
    [TotalSizeLine(sizeLabel), "DOWNLOAD_URLS=()", "DOWNLOAD_TARGETS=()"] + RecordLines(rs)
  }

  /** The whole script for the selected records, or None for an empty
      selection (the null the download button handler ignores). */
  function ScriptText(t: Templates, now: LocalTime, rs: seq<Record>): Option<string> {
    if rs == [] then None
    else
      Some(StampedPreamble(t.preamble, FormatTimestamp(now))
           + Unlines(DynamicLines(FormatTotalSize(TotalSize(rs)), rs)) + "\n" + t.body)
  }

  // ---------------------------------------------------------------------------
  // Properties of the generated text
  // ---------------------------------------------------------------------------

  /** A script exists exactly for a non-empty selection, and it ends with the
      body template verbatim. */
  lemma ScriptEndsWithBody(t: Templates, now: LocalTime, rs: seq<Record>)
    ensures ScriptText(t, now, rs).Some? <==> rs != []
    ensures rs != [] ==>
      var s := ScriptText(t, now, rs).value;
      |t.body| <= |s| && s[|s| - |t.body|..] == t.body
  {
    if rs != [] {
      var s := ScriptText(t, now, rs).value;
      var head := StampedPreamble(t.preamble, FormatTimestamp(now)) + Unlines(DynamicLines(FormatTotalSize(TotalSize(rs)), rs)) + "\n";
      assert s == head + t.body;
      assert s[|head|..] == t.body;
    }
  }

  /** The timestamp line lands right after the first header line and nothing
      else in the preamble changes; a preamble without that header line is
      left as it is. */
  lemma StampedPreambleSpec(preamble: string, timestamp: string)
    ensures match FindFirst(preamble, GeneratedBy)
      case None => StampedPreamble(preamble, timestamp) == preamble
      case Some(i) =>
        StampedPreamble(preamble, timestamp) ==
          preamble[..i + |GeneratedBy|] + "# Generated on: " + timestamp + "\n" + preamble[i + |GeneratedBy|..]
  {
    match FindFirst(preamble, GeneratedBy)
    case None =>
    case Some(i) =>
      ReplaceFirstInserts(preamble, GeneratedBy, "# Generated on: ", timestamp, "\n", i);
  }

  /** JavaScript's replace interprets '$' patterns in the replacement; the
      replacement here has none, so the literal first-occurrence replace is
      what runs. */
  lemma TimestampHeaderHasNoDollar(now: LocalTime)
    requires now.year >= 0
    ensures '$' !in TimestampHeader(FormatTimestamp(now))
  {
    var ts := FormatTimestamp(now);
    TimestampCharset(now);
    StampHasNoDollar(ts);
    HeaderLiteralsHaveNoDollar();
    NoDollarConcat4(GeneratedBy, "# Generated on: ", ts, "\n");
  }

  lemma StampHasNoDollar(ts: string)
    requires StampChars(ts)
    ensures '$' !in ts
  {
  }

  lemma HeaderLiteralsHaveNoDollar()
    ensures '$' !in GeneratedBy && '$' !in "# Generated on: " && '$' !in "\n"
  {
  }

  lemma NoDollarConcat4(a: string, b: string, c: string, d: string)
    requires '$' !in a && '$' !in b && '$' !in c && '$' !in d
    ensures '$' !in a + b + c + d
  {
  }

  /** The dynamic block, line by line: the TOTAL_SIZE line, the two array
      resets, then exactly one URLS+= and one TARGETS+= line per selected
      record, in selection order. */
  lemma DynamicLayout(sizeLabel: string, rs: seq<Record>)
    ensures var lines := DynamicLines(sizeLabel, rs);
      && |lines| == 3 + 2 * |rs|
      && lines[0] == TotalSizeLine(sizeLabel)
      && lines[1] == "DOWNLOAD_URLS=()"
      && lines[2] == "DOWNLOAD_TARGETS=()"
      && (forall i :: 0 <= i < |rs| ==>
            lines[3 + 2 * i] == UrlLine(rs[i].url) && lines[4 + 2 * i] == TargetLine(rs[i].targetDir))
  {
    var lines := DynamicLines(sizeLabel, rs);
    var rec := RecordLines(rs);
    forall i | 0 <= i < |rs|
      ensures lines[3 + 2 * i] == UrlLine(rs[i].url) && lines[4 + 2 * i] == TargetLine(rs[i].targetDir)
    {
      assert lines[3 + 2 * i] == rec[2 * i];
      assert lines[4 + 2 * i] == rec[2 * i + 1];
    }
  }

  /** When no URL, target or size label holds a newline, splitting the
      dynamic block on "\n" gives back exactly its lines (and the empty text
      after the last newline). */
  lemma DynamicSplitsBack(sizeLabel: string, rs: seq<Record>)
    requires '\n' !in sizeLabel
    requires forall r :: r in rs ==> '\n' !in r.url && '\n' !in r.targetDir
    ensures Split(Unlines(DynamicLines(sizeLabel, rs)), '\n') == DynamicLines(sizeLabel, rs) + [""]
  {
    DynamicLinesHaveNoNewline(sizeLabel, rs);
    SplitUnlines(DynamicLines(sizeLabel, rs));
  }

  lemma DynamicLinesHaveNoNewline(sizeLabel: string, rs: seq<Record>)
    requires '\n' !in sizeLabel
    requires forall r :: r in rs ==> '\n' !in r.url && '\n' !in r.targetDir
    ensures forall k :: 0 <= k < |DynamicLines(sizeLabel, rs)| ==> '\n' !in DynamicLines(sizeLabel, rs)[k]
  {
    var lines := DynamicLines(sizeLabel, rs);
    DynamicLayout(sizeLabel, rs);
    LineLiteralsHaveNoNewline();
    forall k | 0 <= k < |lines| ensures '\n' !in lines[k] {
      if k == 0 {
        NoNewlineConcat3("TOTAL_SIZE=\"Total size: ", sizeLabel, "\"");
      } else if k >= 3 {
        var i := (k - 3) / 2;
        assert rs[i] in rs;
        if k % 2 == 1 {
          assert k == 3 + 2 * i;
          NoNewlineConcat3("DOWNLOAD_URLS+=(\"", rs[i].url, "\")");
        } else {
          assert k == 4 + 2 * i;
          NoNewlineConcat3("DOWNLOAD_TARGETS+=(\"", rs[i].targetDir, "\")");
        }
      }
    }
  }

  lemma LineLiteralsHaveNoNewline()
    ensures '\n' !in "TOTAL_SIZE=\"Total size: " && '\n' !in "\""
    ensures '\n' !in "DOWNLOAD_URLS=()" && '\n' !in "DOWNLOAD_TARGETS=()"
    ensures '\n' !in "DOWNLOAD_URLS+=(\"" && '\n' !in "DOWNLOAD_TARGETS+=(\"" && '\n' !in "\")"
  {
  }

  lemma NoNewlineConcat3(a: string, b: string, c: string)
    requires '\n' !in a && '\n' !in b && '\n' !in c
    ensures '\n' !in a + b + c
  {
  }

  /** The size in the TOTAL_SIZE line is the selection's total under the
      total-size rule: GB from 1000 MB up, never "<1 MB". */
  lemma ScriptSizeLabel(rs: seq<Record>)
    ensures FormatTotalSize(TotalSize(rs)) != "<1 MB"
    ensures TotalSize(rs) == 0 ==> FormatTotalSize(TotalSize(rs)) == "0.0 MB"
  {
    RowLabelVersusTotal(TotalSize(rs));
    if TotalSize(rs) == 0 {
      SizeLabelExamples();
    }
  }
}
