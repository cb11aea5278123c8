// The catalog builder of preprocess_csv.py: each line of each bulk-load CSV
// file becomes at most one Record, with stripped and normalised fields, a
// filename taken from the URL, a target directory built from the facets, and
// consecutive ids across all files. Reading the files and writing js/data.js
// are left to the caller: files arrive as their lines, and the records are
// returned.

module Preprocess {
  import opened Options
  import opened Text
  import opened PyStr
  import opened Catalog

  // ---------------------------------------------------------------------------
  // Field normalisation
  // ---------------------------------------------------------------------------

  /** normalize_molecule: strip, and spell the bare "CO" as "12CO". */
  function NormalizeMolecule(mol: string): (r: string)
    ensures Strip(r) == r
    ensures r != "CO"
    ensures Strip(mol) != "CO" ==> r == Strip(mol)
  {
    var m := Strip(mol);
    StripIdempotent(mol);
    if m == "CO" then
      StripUnchanged("12CO");
      "12CO"
    else m
  }

  /** Normalising a molecule twice is normalising it once. */
  lemma NormalizeMoleculeIdempotent(mol: string)
    ensures NormalizeMolecule(NormalizeMolecule(mol)) == NormalizeMolecule(mol)
  {
  }

  /** The two spellings of carbon monoxide, "CO" with any whitespace around
      it and "12CO", end up as one facet value. */
  lemma MoleculeSpellings(mol: string)
    requires Strip(mol) == "CO"
    ensures NormalizeMolecule(mol) == NormalizeMolecule("12CO") == "12CO"
  {
    StripUnchanged("12CO");
  }

  /** normalize_data_type: " ".join(dt.split()). The result holds the same
      words and has single spaces between them and none at either end. */
  function NormalizeDataType(dt: string): (r: string)
    ensures Normalized(r)
    ensures Words(r) == Words(dt)
  {
    var ws := Words(dt);
    JoinNormalized(ws);
    WordsOfJoin(ws);
    Join(ws, ' ')
  }

  /** Normalising a data type twice is normalising it once. */
  lemma NormalizeDataTypeIdempotent(dt: string)
    ensures NormalizeDataType(NormalizeDataType(dt)) == NormalizeDataType(dt)
  {
  }

  /** The text parse_size hands to float(): stripped, then every tab removed. */
  function SizeText(s: string): (r: string)
    ensures '\t' !in r
    ensures r == [] || (!IsSpace(r[0]) && !IsSpace(r[|r| - 1]))
    ensures r == [] <==> forall k :: 0 <= k < |s| ==> IsSpace(s[k])
  {
    var t := Strip(s);
    StripEmpty(s);
    if t == [] then []
    else
      TabFreeEnds(t);
      RemoveChar(t, '\t')
  }

  /** Removing tabs from a stripped, non-empty text keeps its first and last
      characters, which are not white space. */
  lemma TabFreeEnds(t: string)
    requires t != [] && !IsSpace(t[0]) && !IsSpace(t[|t| - 1])
    ensures var r := RemoveChar(t, '\t'); r != [] && !IsSpace(r[0]) && !IsSpace(r[|r| - 1])
  {
    assert IsSpace('\t');
    RemoveCharEnds(t, '\t');
  }

  /** parse_size: 0 for an empty text, float's value otherwise, and 0 when
      float rejects it. float is the parameter parseFloat, which yields None
      where Python raises ValueError. */
  function ParseSize(s: string, parseFloat: string -> Option<Tenths>): (size: Tenths)
    ensures (forall k :: 0 <= k < |s| ==> IsSpace(s[k])) ==> size == 0
    ensures SizeText(s) != [] && parseFloat(SizeText(s)).Some? ==> size == parseFloat(SizeText(s)).value
    ensures parseFloat(SizeText(s)).None? ==> size == 0
  {
    var t := SizeText(s);
    if t == [] then 0
    else match parseFloat(t)
      case None => 0
      case Some(v) => v
  }

  /** Cleaning the size text a second time changes nothing, so a size field
      already in clean form parses to the same value. */
  lemma SizeTextIdempotent(s: string)
    ensures SizeText(SizeText(s)) == SizeText(s)
  {
    var t := SizeText(s);
    StripUnchanged(t);
    RemoveCharAbsent(t, '\t');
  }

  /** extract_filename: the last '/'-separated part once trailing slashes are
      dropped. */
  function ExtractFilename(url: string): (name: string)
    ensures '/' !in name
  {
    var parts := Split(RStripChar(url, '/'), '/');
    parts[|parts| - 1]
  }

  /** The name after the last slash of a path is its filename. */
  lemma ExtractFilenameOfPath(base: string, name: string)
    requires name != [] && '/' !in name
    ensures ExtractFilename(base + "/" + name) == name
  {
    var s := base + "/" + name;
    assert s[|s| - 1] == name[|name| - 1];
    assert RStripChar(s, '/') == s;
    assert s == base + ['/'] + name;
    SplitConcat(base, name, '/');
    SplitNoSep(name, '/');
  }

  /** A URL without '/' is its own filename. */
  lemma ExtractFilenameNoSlash(url: string)
    requires '/' !in url
    ensures ExtractFilename(url) == url
  {
    RStripCharAbsent(url, '/');
    SplitNoSep(url, '/');
  }

  /** Trailing slashes do not change the filename. */
  lemma ExtractFilenameTrailingSlash(url: string)
    ensures ExtractFilename(url + "/") == ExtractFilename(url)
  {
    assert (url + "/")[..|url|] == url;
  }

  /** The target directory: AGEPRO_DATA/region/disk/band/molecule. */
  function TargetDir(region: string, disk: string, band: string, molecule: string): string {
    "AGEPRO_DATA/" + region + "/" + disk + "/" + band + "/" + molecule
  }

  /** Facets without '/' give a target directory whose '/'-parts are the
      root and the four facets, so distinct facet tuples never share a
      directory. */
  lemma TargetDirParts(region: string, disk: string, band: string, molecule: string)
    requires '/' !in region && '/' !in disk && '/' !in band && '/' !in molecule
    ensures Split(TargetDir(region, disk, band, molecule), '/') == ["AGEPRO_DATA", region, disk, band, molecule]
  {
    var parts := ["AGEPRO_DATA", region, disk, band, molecule];
    assert Join(parts, '/') == TargetDir(region, disk, band, molecule) by {
      assert Join(parts[4..], '/') == molecule;
      assert Join(parts[3..], '/') == band + "/" + molecule;
      assert Join(parts[2..], '/') == disk + "/" + band + "/" + molecule;
      assert Join(parts[1..], '/') == region + "/" + disk + "/" + band + "/" + molecule;
    }
    SplitOfJoin(parts, '/');
  }

  // ---------------------------------------------------------------------------
  // One line
  // ---------------------------------------------------------------------------

  /** line.rstrip("\n").rstrip("\r"). */
  function CleanLine(line: string): string {
    RStripChar(RStripChar(line, '\n'), '\r')
  }

  /** What every record the builder emits looks like. */
  predicate WellShaped(r: Record) {
    && r.region != [] && Strip(r.region) == r.region
    && Strip(r.disk) == r.disk
    && Strip(r.band) == r.band
    && Strip(r.molecule) == r.molecule && r.molecule != "CO"
    && r.url != [] && Strip(r.url) == r.url
    && Normalized(r.dataType)
    && '/' !in r.filename
    && r.targetDir == TargetDir(r.region, r.disk, r.band, r.molecule)
  }

  /** The body of the loop of main for the line at index i of its file: None
      for a line that is skipped (the header, a blank or comma-only line, a
      line of fewer than eight fields, a missing region or URL), otherwise the
      record with id rid. */
  function ParseLine(i: nat, line: string, rid: nat, parseFloat: string -> Option<Tenths>): (r: Option<Record>)
    ensures r.Some? ==> r.value.id == rid && WellShaped(r.value)
    ensures i == 0 && StartsWith(CleanLine(line), "Region") ==> r.None?
    ensures |Split(CleanLine(line), ',')| < 8 ==> r.None?
  {
    var l := CleanLine(line);
    if i == 0 && StartsWith(l, "Region") then None
    else if Strip(RemoveChar(l, ',')) == [] then None
    else
      var parts := Split(l, ',');
      if |parts| < 8 || Strip(parts[0]) == [] || Strip(parts[4]) == [] then None
      else Some(RecordOf(rid, parts, parseFloat))
  }

  /** The whole keep/skip rule of main's loop body, and the field mapping of
      a kept line: a line is kept exactly when it is not the first-line
      header, not blank once commas are removed, has at least eight fields,
      and has a non-blank region and URL; the record then carries the
      cleaned fields in their places. */
  lemma ParseLineSpec(i: nat, line: string, rid: nat, parseFloat: string -> Option<Tenths>)
    ensures var l := CleanLine(line); var parts := Split(l, ',');
      ParseLine(i, line, rid, parseFloat).Some? <==>
        && !(i == 0 && StartsWith(l, "Region"))
        && Strip(RemoveChar(l, ',')) != []
        && |parts| >= 8 && Strip(parts[0]) != [] && Strip(parts[4]) != []
    ensures var parts := Split(CleanLine(line), ',');
      ParseLine(i, line, rid, parseFloat).Some? && |parts| >= 8 ==>
        var r := ParseLine(i, line, rid, parseFloat).value;
        && r.region == Strip(parts[0]) && r.disk == Strip(parts[1]) && r.band == Strip(parts[2])
        && r.molecule == NormalizeMolecule(parts[3]) && r.url == Strip(parts[4])
        && r.dataType == NormalizeDataType(parts[5]) && r.sizeMB == ParseSize(parts[7], parseFloat)
        && r.filename == ExtractFilename(r.url)
        && r.targetDir == TargetDir(r.region, r.disk, r.band, r.molecule)
  {
  }

  /** The record built from the fields of a kept line. */
  function RecordOf(rid: nat, parts: seq<string>, parseFloat: string -> Option<Tenths>): (r: Record)
    requires |parts| >= 8 && Strip(parts[0]) != [] && Strip(parts[4]) != []
    ensures r.id == rid && WellShaped(r)
  {
    var region := Strip(parts[0]);
    var disk := Strip(parts[1]);
    var band := Strip(parts[2]);
    var molecule := NormalizeMolecule(parts[3]);
    var url := Strip(parts[4]);
    StripIdempotent(parts[0]);
    StripIdempotent(parts[1]);
    StripIdempotent(parts[2]);
    StripIdempotent(parts[4]);
    Record(rid, ExtractFilename(url), region, disk, band, molecule, NormalizeDataType(parts[5]),
           ParseSize(parts[7], parseFloat), url, TargetDir(region, disk, band, molecule))
  }

  /** A comma-only or whitespace-only line is skipped. */
  lemma BlankLineSkipped(i: nat, line: string, rid: nat, parseFloat: string -> Option<Tenths>)
    requires forall k :: 0 <= k < |line| ==> line[k] == ',' || IsSpace(line[k])
    ensures ParseLine(i, line, rid, parseFloat).None?
  {
    var l := CleanLine(line);
    assert forall k :: 0 <= k < |l| ==> l[k] == line[k];
    var rest := RemoveChar(l, ',');
    forall k | 0 <= k < |rest| ensures IsSpace(rest[k]) {
      assert rest[k] in rest;
      assert rest[k] != ',';
      assert rest[k] in l;
    }
    StripEmpty(rest);
  }

  /** The record of a data row written out as eight or more comma-separated
      fields: every skip rule lets it through, each of the first eight
      fields lands, normalised, in its place, and any further field is
      ignored. */
  lemma {:induction false} ParseDataRow(i: nat, fields: seq<string>, rid: nat, parseFloat: string -> Option<Tenths>)
    requires |fields| >= 8
    requires forall k :: 0 <= k < |fields| ==> ',' !in fields[k] && '\n' !in fields[k] && '\r' !in fields[k]
    requires Strip(fields[0]) != [] && Strip(fields[4]) != []
    requires i > 0 || !StartsWith(Join(fields, ','), "Region")
    ensures ParseLine(i, Join(fields, ',') + "\n", rid, parseFloat) ==
      var region, disk, band, molecule := Strip(fields[0]), Strip(fields[1]), Strip(fields[2]), NormalizeMolecule(fields[3]);
      var url := Strip(fields[4]);
      Some(Record(rid, ExtractFilename(url), region, disk, band, molecule, NormalizeDataType(fields[5]),
                  ParseSize(fields[7], parseFloat), url, TargetDir(region, disk, band, molecule)))
  {
    var body := Join(fields, ',');
    CleanDataRow(fields);
    SplitOfJoin(fields, ',');
    DataRowNotBlank(fields);
    assert ParseLine(i, body + "\n", rid, parseFloat) == Some(RecordOf(rid, fields, parseFloat));
  }

  /** The newline at the end of a data row is all CleanLine removes. */
  lemma CleanDataRow(fields: seq<string>)
    requires forall k :: 0 <= k < |fields| ==> '\n' !in fields[k] && '\r' !in fields[k]
    ensures CleanLine(Join(fields, ',') + "\n") == Join(fields, ',')
  {
    var body := Join(fields, ',');
    JoinAvoids(fields, ',', '\n');
    JoinAvoids(fields, ',', '\r');
    assert (body + "\n")[..|body|] == body;
    RStripCharAbsent(body, '\n');
    RStripCharAbsent(body, '\r');
  }

  /** A row with a region is not blank: a region character that is neither
      a comma nor whitespace survives the blank-line test. */
  lemma DataRowNotBlank(fields: seq<string>)
    requires |fields| >= 1 && ',' !in fields[0] && Strip(fields[0]) != []
    ensures Strip(RemoveChar(Join(fields, ','), ',')) != []
  {
    var body := Join(fields, ',');
    StripEmpty(fields[0]);
    var k :| 0 <= k < |fields[0]| && !IsSpace(fields[0][k]);
    var c := fields[0][k];
    assert c in fields[0];
    JoinHas(fields, ',', 0, c);
    RemoveCharKeeps(body, ',', c);
    var rest := RemoveChar(body, ',');
    StripEmpty(rest);
    var j :| 0 <= j < |rest| && rest[j] == c;
  }

  // ---------------------------------------------------------------------------
  // Files and the whole catalog
  // ---------------------------------------------------------------------------

  /** ParseLine for a fixed float(), as the function of (index in file,
      line, next id) the per-file loop applies. */
  function LineParser(parseFloat: string -> Option<Tenths>): (nat, string, nat) -> Option<Record> {
    (i: nat, line: string, rid: nat) => ParseLine(i, line, rid, parseFloat)
  }

  /** A line parser that keeps the id it is handed. */
  ghost predicate KeepsIds(parse: (nat, string, nat) -> Option<Record>) {
    forall i, line, rid :: parse(i, line, rid).Some? ==> parse(i, line, rid).value.id == rid
  }

  /** A line parser that only emits well-shaped records. */
  ghost predicate EmitsWellShaped(parse: (nat, string, nat) -> Option<Record>) {
    forall i, line, rid :: parse(i, line, rid).Some? ==> WellShaped(parse(i, line, rid).value)
  }

  lemma LineParserKeepsIds(parseFloat: string -> Option<Tenths>)
    ensures KeepsIds(LineParser(parseFloat))
  {
  }

  lemma LineParserWellShaped(parseFloat: string -> Option<Tenths>)
    ensures EmitsWellShaped(LineParser(parseFloat))
  {
  }

  /** The records of one file whose first record gets id rid0: line after
      line, each kept line taking the next id. */
  function FileRecords(lines: seq<string>, rid0: nat, parse: (nat, string, nat) -> Option<Record>): (rs: seq<Record>)
    requires KeepsIds(parse)
    ensures |rs| <= |lines|
    ensures forall k :: 0 <= k < |rs| ==> rs[k].id == rid0 + k
  {
    if lines == [] then []
    else
      var prev := FileRecords(lines[..|lines| - 1], rid0, parse);
      match parse(|lines| - 1, lines[|lines| - 1], rid0 + |prev|)
      case None => prev
      case Some(r) =>
        var rs := prev + [r];
        assert forall k :: 0 <= k < |prev| ==> rs[k] == prev[k];
        rs
  }

  /** One more line adds its record, if any, after the others. */
  lemma {:induction false} FileRecordsSnoc(lines: seq<string>, line: string, rid0: nat, parse: (nat, string, nat) -> Option<Record>)
    requires KeepsIds(parse)
    ensures var prev := FileRecords(lines, rid0, parse);
      FileRecords(lines + [line], rid0, parse) ==
        match parse(|lines|, line, rid0 + |prev|)
        case None => prev
        case Some(r) => prev + [r]
  {
    assert (lines + [line])[..|lines|] == lines;
  }

  /** The records of all files, in file order, numbered from 0, for the
      line parser parse. */
  function CatalogOf(files: seq<seq<string>>, parse: (nat, string, nat) -> Option<Record>): (c: seq<Record>)
    requires KeepsIds(parse)
    ensures IsCatalog(c)
  {
    if files == [] then []
    else
      var prev := CatalogOf(files[..|files| - 1], parse);
      prev + FileRecords(files[|files| - 1], |prev|, parse)
  }

  /** The catalog main() writes to data.js. */
  function Built(files: seq<seq<string>>, parseFloat: string -> Option<Tenths>): seq<Record> {
    LineParserKeepsIds(parseFloat);
    CatalogOf(files, LineParser(parseFloat))
  }

  /** Every record of a file is well shaped. */
  lemma {:induction false} FileRecordsWellShaped(lines: seq<string>, rid0: nat, parse: (nat, string, nat) -> Option<Record>)
    requires KeepsIds(parse) && EmitsWellShaped(parse)
    ensures forall r :: r in FileRecords(lines, rid0, parse) ==> WellShaped(r)
    decreases |lines|
  {
    if lines != [] {
      FileRecordsWellShaped(lines[..|lines| - 1], rid0, parse);
    }
  }

  /** Every record of the catalog is well shaped: facets stripped, region and
      URL present, molecule and data type normalised, target directory built
      from the facets; and the ids number the records from 0. */
  lemma {:induction false} CatalogWellShaped(files: seq<seq<string>>, parse: (nat, string, nat) -> Option<Record>)
    requires KeepsIds(parse) && EmitsWellShaped(parse)
    ensures forall r :: r in CatalogOf(files, parse) ==> WellShaped(r)
    decreases |files|
  {
    if files != [] {
      var prev := CatalogOf(files[..|files| - 1], parse);
      CatalogWellShaped(files[..|files| - 1], parse);
      FileRecordsWellShaped(files[|files| - 1], |prev|, parse);
    }
  }

  lemma BuiltSpec(files: seq<seq<string>>, parseFloat: string -> Option<Tenths>)
    ensures IsCatalog(Built(files, parseFloat))
    ensures forall r :: r in Built(files, parseFloat) ==> WellShaped(r)
  {
    LineParserKeepsIds(parseFloat);
    LineParserWellShaped(parseFloat);
    CatalogWellShaped(files, LineParser(parseFloat));
  }

  /** main() up to writing data.js: the loop over files and lines with the
      running rid, each line handed to parse (ParseLine for main's float(),
      through LineParser). */
  method BuildCatalog(files: seq<seq<string>>, parse: (nat, string, nat) -> Option<Record>) returns (records: seq<Record>)
    requires KeepsIds(parse)
    ensures records == CatalogOf(files, parse)
    ensures IsCatalog(records)
  {
    records := [];
    var rid := 0;
    for fi := 0 to |files|
      invariant records == CatalogOf(files[..fi], parse)
      invariant rid == |records|
    {
      assert files[..fi + 1][..fi] == files[..fi];
      records, rid := ParseFileLines(records, rid, files[fi], parse);
    }
    assert files[..|files|] == files;
  }

  /** main()'s inner loop over one file's lines: each parsed record is
      appended with the running rid, which then moves on by one. */
  method ParseFileLines(records0: seq<Record>, rid0: nat, lines: seq<string>, parse: (nat, string, nat) -> Option<Record>)
    returns (records: seq<Record>, rid: nat)
    requires KeepsIds(parse)
    requires rid0 == |records0|
    ensures records == records0 + FileRecords(lines, rid0, parse)
    ensures rid == |records|
  {
    records, rid := records0, rid0;
    for i := 0 to |lines|
      invariant records == records0 + FileRecords(lines[..i], rid0, parse)
      invariant rid == |records|
    {
      var r := parse(i, lines[i], rid);
      ParseLineStep(records0, rid0, lines, i, records, parse);
      if r.Some? {
        records := records + [r.value];
        rid := rid + 1;
      }
    }
    assert lines[..|lines|] == lines;
  }

  lemma ParseLineStep(records0: seq<Record>, rid0: nat, lines: seq<string>, i: nat, records: seq<Record>,
                      parse: (nat, string, nat) -> Option<Record>)
    requires KeepsIds(parse)
    requires rid0 == |records0| && i < |lines|
    requires records == records0 + FileRecords(lines[..i], rid0, parse)
    ensures match parse(i, lines[i], |records|)
      case None => records == records0 + FileRecords(lines[..i + 1], rid0, parse)
      case Some(r) => records + [r] == records0 + FileRecords(lines[..i + 1], rid0, parse)
  {
    assert lines[..i + 1] == lines[..i] + [lines[i]];
    FileRecordsSnoc(lines[..i], lines[i], rid0, parse);
    var prev := FileRecords(lines[..i], rid0, parse);
    assert |records| == rid0 + |prev|;
    match parse(i, lines[i], |records|)
    case None =>
    case Some(r) =>
      assert records0 + (prev + [r]) == (records0 + prev) + [r];
  }

  // ---------------------------------------------------------------------------
  // String facts used above
  // ---------------------------------------------------------------------------

  lemma StripEmpty(s: string)
    ensures Strip(s) == [] <==> forall k :: 0 <= k < |s| ==> IsSpace(s[k])
  {
    var t := LStrip(s);
    if t != [] {
      assert t[0] == s[|s| - |t|];
    }
  }

  lemma {:induction false} RemoveCharEnds(s: string, c: char)
    requires s != [] && s[0] != c && s[|s| - 1] != c
    ensures RemoveChar(s, c) != []
    ensures RemoveChar(s, c)[0] == s[0]
    ensures RemoveChar(s, c)[|RemoveChar(s, c)| - 1] == s[|s| - 1]
    decreases |s|
  {
    if |s| > 1 {
      var t := s[1..];
      if t[0] == c {
        assert exists k :: 0 <= k < |t| && t[k] != c && k == |t| - 1;
        RemoveCharLast(t, c);
      } else {
        RemoveCharEnds(t, c);
      }
    }
  }

  lemma {:induction false} RemoveCharLast(s: string, c: char)
    requires s != [] && s[|s| - 1] != c
    ensures RemoveChar(s, c) != [] && RemoveChar(s, c)[|RemoveChar(s, c)| - 1] == s[|s| - 1]
    decreases |s|
  {
    if |s| > 1 {
      RemoveCharLast(s[1..], c);
    }
  }

  lemma {:induction false} RemoveCharAbsent(s: string, c: char)
    requires c !in s
    ensures RemoveChar(s, c) == s
    decreases |s|
  {
    if s != [] {
      RemoveCharAbsent(s[1..], c);
      assert [s[0]] + s[1..] == s;
    }
  }

  lemma RemoveCharKeeps(s: string, c: char, x: char)
    requires x != c && x in s
    ensures x in RemoveChar(s, c)
  {
  }

  lemma RStripCharAbsent(s: string, c: char)
    requires c !in s
    ensures RStripChar(s, c) == s
  {
  }

  lemma {:induction false} SplitNoSep(s: string, sep: char)
    requires sep !in s
    ensures Split(s, sep) == [s]
    decreases |s|
  {
    if s != [] {
      SplitNoSep(s[1..], sep);
      assert [s[0]] + s[1..] == s;
    }
  }

  /** Splitting at a separator splits the two sides independently. */
  lemma {:induction false} SplitConcat(a: string, b: string, sep: char)
    ensures Split(a + [sep] + b, sep) == Split(a, sep) + Split(b, sep)
    decreases |a|
  {
    var s := a + [sep] + b;
    if a == [] {
      assert s[1..] == b;
    } else {
      assert s[1..] == a[1..] + [sep] + b;
      SplitConcat(a[1..], b, sep);
    }
  }

  lemma {:induction false} SplitOfJoin(parts: seq<string>, sep: char)
    requires parts != []
    requires forall k :: 0 <= k < |parts| ==> sep !in parts[k]
    ensures Split(Join(parts, sep), sep) == parts
    decreases |parts|
  {
    if |parts| == 1 {
      SplitNoSep(parts[0], sep);
    } else {
      SplitOfJoin(parts[1..], sep);
      SplitAfterPrefix(parts[0], Join(parts[1..], sep), sep);
      assert [parts[0]] + parts[1..] == parts;
    }
  }

  lemma {:induction false} JoinAvoids(parts: seq<string>, sep: char, c: char)
    requires c != sep
    requires forall k :: 0 <= k < |parts| ==> c !in parts[k]
    ensures c !in Join(parts, sep)
    decreases |parts|
  {
    if |parts| > 1 {
      JoinAvoids(parts[1..], sep, c);
    }
  }

  lemma {:induction false} JoinHas(parts: seq<string>, sep: char, k: nat, c: char)
    requires k < |parts| && c in parts[k]
    ensures c in Join(parts, sep)
    decreases k
  {
    if k > 0 {
      JoinHas(parts[1..], sep, k - 1, c);
    }
  }
}
