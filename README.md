# AGE-PRO data archive, modelled in Dafny

The AGE-PRO data archive is a static web page. It lists the downloadable
files of the AGE-PRO survey, one row per file. Each file's record carries its
region, disk, band, molecule, data type, size, filename, URL and target
directory; a row shows the filename and the facet and size columns. It has two parts:

- **The catalog builder** (`preprocess_csv.py`). It reads the bulk-load CSV
  files line by line and cleans each field. It numbers the kept records
  densely from 0 and writes them out as `AGEPRO_DATA`.
- **The browser application** (`js/app.js`). It keeps one mutable `state`
  object with these parts:
  - five facet filters (region, disk, band, molecule, data type);
  - the available options each facet still reaches;
  - the filtered and sorted view;
  - the selection, a JavaScript `Set` of record ids;
  - the sort column and direction.

  Its handlers update that state. It derives:
  - the header checkbox;
  - the summary line;
  - the workflow-step indicator;
  - the generated bash download script.

The model follows that split:

| module | file | models |
|---|---|---|
| `Catalog` | `catalog.dfy` | the record, the facet keys, facet sets, sort keys, dense ids |
| `Text`, `PyStr` | `text.dfy`, `pystr.dfy` | the string built-ins the code relies on: `String(n)`, the first-occurrence `replace`, `split`/`join`, and Python's `strip`, `rstrip(c)`, `replace(c, "")`, `split()` |
| `Filters` | `filters.dfy` | the match predicate, the filtered view and the available options, as specification functions |
| `Sorting`, `Ordering` | `sorting.dfy`, `order.dfy` | the stable sort by a comparator; the column comparator and the sort-click state machine |
| `Selection` | `selection.dfy` | the selection `Set` as a duplicate-free sequence in insertion order; the header checkbox |
| `Summary`, `Format`, `Workflow`, `Script` | `summary.dfy`, `format.dfy`, `workflow.dfy`, `script.dfy` | the derived displays and the script text |
| `Archive` | `archive.dfy` | the `state` object as the class `ArchiveState`, with one method per handler, each proved against the specification functions above |
| `Preprocess` | `preprocess.dfy` | the field normalisers, the per-line parse, and the catalog builder as a loop proved against a fold |

`ArchiveState.Valid()` is the invariant every handler keeps:
- the available options are `AvailableAll` of the current filters;
- the view holds exactly the filtered records, in catalog order when unsorted;
- a sorted view is ordered by the current column;
- the selection is duplicate-free and holds only catalog ids.

Two points of the code shape the model:

- **Script record order.** `generateScript` (js/app.js:437-441) iterates the
  selection `Set`, which iterates in insertion order, so the script lists
  the selected records in the order their rows were checked. The model keeps
  `selectedIds` as a sequence in insertion order, and the script follows it.
  In the model, whose sizes are exact tenths of a megabyte, the selected
  size does not depend on that order (`Summary.SelectedSizeOrderFree`).
- **Header uncheck.** Unchecking the header checkbox is not a named function
  in the code; it is an inline handler in `init` (js/app.js:502-513). It
  deletes only the shown ids. The model gives it its own method,
  `UncheckHeader`.

## Model

| member | source | states |
|---|---|---|
| Catalog.FilterKeysComplete | js/app.js:10 | every facet is one of FILTER_KEYS, so the loops over FILTER_KEYS visit every facet |
| Catalog.Ids | js/app.js:278 | the id list has one entry per row, the i-th being row i's id |
| Text.NatToStringValue | js/app.js:51-53 | `String(n)` reads back as n and has no leading zero except for 0 itself |
| Text.IntToString | js/app.js:55-65 | a year renders as a non-empty digit string, with a leading '-' only when negative |
| Text.FindFirst | js/app.js:452-455 | the result is an occurrence of the pattern with none before it, or None when the pattern occurs nowhere |
| Text.ReplaceFirst | js/app.js:452-455 | `String.prototype.replace` with a string pattern; see ReplaceFirstSpec and ReplaceFirstInserts for what it does |
| Text.ReplaceFirstSpec | js/app.js:452-455 | the string `replace` with a string pattern swaps exactly the first occurrence and keeps everything around it |
| Text.ReplaceFirstInserts | js/app.js:452-455 | replacing the first occurrence by itself plus more text inserts that text right after it |
| Text.Split | preprocess_csv.py:62 | `split(sep)` gives at least one part, and no part contains the separator |
| Text.SplitJoin | preprocess_csv.py:62 | joining the parts of a split with its separator gives back the line |
| Text.SplitUnlines | js/app.js:458-464 | splitting newline-terminated lines that hold no newline on "\n" gives back the lines plus a final empty part |
| PyStr.LStrip | preprocess_csv.py:22 | removes exactly the leading whitespace run |
| PyStr.RStrip | preprocess_csv.py:22 | removes exactly the trailing whitespace run |
| PyStr.Strip | preprocess_csv.py:22 | the result is empty or begins and ends with non-space |
| PyStr.StripIdempotent | preprocess_csv.py:22 | stripping twice is stripping once |
| PyStr.RStripChar | preprocess_csv.py:51 | `rstrip(c)` removes exactly the trailing run of c |
| PyStr.RemoveChar | preprocess_csv.py:58 | `replace(c, "")` leaves no c and keeps every other character present |
| PyStr.RemoveCharAppend | preprocess_csv.py:33 | `replace(c, "")` acts on each part of a concatenation in place, so the other characters keep their order and number |
| PyStr.RemoveCharSingle | preprocess_csv.py:33 | a single character is dropped exactly when it is c |
| PyStr.Words | preprocess_csv.py:29 | `split()` with no argument gives non-empty words without whitespace |
| PyStr.WordsOfJoin | preprocess_csv.py:29 | `split()` of the single-space join of such words gives the words back |
| PyStr.JoinNormalized | preprocess_csv.py:29 | the single-space join of words has no surrounding space and no two adjacent spaces |
| Format.Fixed1 | js/app.js:41-48 | `toFixed(1)` of t/10 as digits, a point and one digit; see Fixed1RoundTrip, which reads it back as t tenths |
| Format.Fixed1RoundTrip | js/app.js:40-49 | `toFixed(1)` of t/10 reads back as t tenths |
| Format.GigabyteTenths | js/app.js:40-49 | the GB figure is the exact size in GB rounded to the nearest tenth, ties upward (within half a tenth of a GB) |
| Format.FormatTotalSize | js/app.js:46-49 | formatTotalSize; see TotalSizeLabel: GB exactly from 1000 MB up, and an MB label shows the exact size |
| Format.TotalSizeLabel | js/app.js:46-49 | a total label is in GB exactly from 1000 MB up; an MB label shows the exact size, a GB label the size within half a tenth of a GB |
| Format.FormatSize | js/app.js:40-44 | formatSize; see RowLabelVersusTotal and SizeLabelExamples: "<1 MB" exactly at 0, otherwise the total label |
| Format.RowLabelVersusTotal | js/app.js:40-49 | the row label is "<1 MB" exactly for size 0, and otherwise equals the total label |
| Format.SizeLabelExamples | js/app.js:40-49 | 999 MB, 1000 MB and 0 MB label as "999.0 MB", "1.0 GB", "<1 MB" (row) and "0.0 MB" (total) |
| Format.PadStart | js/app.js:51-53 | `padStart` keeps the string as the suffix and fills in front up to the width |
| Format.PadTwo | js/app.js:51-53 | `padTwo(n)` is a digit string, two long below 100 |
| Format.PadTwoValue | js/app.js:51-53 | `padTwo(n)` reads back as n; it is two long below 100 and `String(n)` itself from 100 up |
| Format.FormatTimestamp | js/app.js:55-65 | formatTimestamp of the local-time fields; see TimestampRoundTrip, TimestampCharset and YearDigits |
| Format.TimestampCharset | js/app.js:55-65 | a timestamp holds only digits and '_' |
| Format.YearDigits | js/app.js:57 | a four-digit year renders as four digits reading back as the year |
| Format.TimestampRoundTrip | js/app.js:55-65 | for a four-digit year a timestamp is 15 characters, YYYYMMDD_HHMMSS with a 1-based month, and reads back as the time it came from |
| Filters.Matches | js/app.js:95-101 | a record passes every facet: an empty facet allows all, otherwise the value must be selected; see Filtered |
| Filters.Filtered | js/app.js:95-101 | the view holds exactly the catalog records that pass every facet (empty facet = no constraint, OR within, AND across) |
| Filters.FilteredNoFilters | js/app.js:95-101 | with every facet empty the view is the whole catalog, in order |
| Filters.FilteredOrdered | js/app.js:95-101 | the unsorted view keeps catalog order: ids strictly increase and each row is the catalog's record for its id |
| Filters.MatchesExcept | js/app.js:81-87 | a record passes every facet except one; see AvailableWitness and AvailableIgnoresOwnFacet |
| Filters.FacetValues | js/app.js:116-127 | the values the catalog takes on a facet, as buildFilterUI's `allValues` without their display order; see AvailableBounds |
| Filters.Available | js/app.js:81-88 | one facet's available options; see AvailableAll, AvailableWitness and AvailableBounds |
| Filters.AvailableAll | js/app.js:78-90 | each facet's available options are the values it takes on records that pass every other facet |
| Filters.AvailableIgnoresOwnFacet | js/app.js:78-90 | a facet's available options never depend on that facet's own selection |
| Filters.FilteredValuesAvailable | js/app.js:78-90 | every value the view shows for a facet is an available option of it |
| Filters.AvailableWitness | js/app.js:78-90 | a value is available exactly when some catalog record passing the other facets has it |
| Filters.AvailableBounds | js/app.js:114-127 | available options are always among the facet's listed values, and are all of them when no other facet constrains |
| Filters.SelectAllFiltersLikeNone | js/app.js:152-173 | "All" on a facet filters exactly like "None": the same view and the same available options |
| Sorting.Insert | js/app.js:354-362 | one insertion step of the stable sort; see InsertFromBack and InsertEquivalents |
| Sorting.Sort | js/app.js:354-362 | the stable `Array.prototype.sort` by a comparator; see SortPermutes, SortSorted, SortStable and SortOfSorted |
| Sorting.SortPermutes | js/app.js:350-363 | sorting is a permutation of the view |
| Sorting.SortSorted | js/app.js:350-363 | the sorted view is ordered by the comparator |
| Sorting.SortStable | js/app.js:350-363 | rows the comparator ranks equal keep their relative order |
| Sorting.SortOfSorted | js/app.js:350-363 | sorting an already ordered view changes nothing |
| Sorting.InsertionSort | js/app.js:350-363 | the loop computes exactly the stable sort |
| Sorting.InsertFromBack | js/app.js:350-363 | one insertion, scanning back past the strictly greater elements, puts the element where the stable sort does |
| Sorting.InsertEquivalents | js/app.js:350-363 | an insertion keeps the order of the elements equivalent to any e and puts the new one after them |
| Ordering.DescendingReversesAscending | js/app.js:350-363 | the descending comparator is the ascending one with its arguments swapped |
| Ordering.RecordLeq | js/app.js:354-362 | the applySorting comparator read as "compare(a, b) <= 0"; see RecordOrderIsTotalPreorder and DescendingReversesAscending |
| Ordering.RecordOrderIsTotalPreorder | js/app.js:350-363 | for every column and direction the comparator is a total preorder, given that naturalSort is |
| Ordering.Click | js/app.js:365-378 | a click sorts by the clicked column, toggling the direction when it is already the column and ascending otherwise |
| Ordering.ClickTwice | js/app.js:365-378 | two clicks on the current column return to the same state; from another column they give descending |
| Ordering.TwoClicksBackToAscending | js/app.js:365-378 | sorted ascending on a column, two more clicks on it give ascending again |
| Selection.SetAdd | js/app.js:293-306 | `Set.add` appends a new id, leaves a present one in place and keeps the set duplicate-free |
| Selection.Without | js/app.js:293-306 | deleting ids keeps exactly the others as members, duplicate-free and no longer |
| Selection.WithoutAppend | js/app.js:507 | deleting from a concatenation deletes from each part in place, so the kept ids stay in their order |
| Selection.WithoutSingle | js/app.js:507 | a single id is kept exactly when it is not deleted |
| Selection.SetDelete | js/app.js:299 | `Set.delete` of one id; see Without and WithoutSingle |
| Selection.AddAll | js/app.js:309 | the forEach of `Set.add` over the shown ids; see AddAllSpec |
| Selection.AddAllSpec | js/app.js:308-314 | adding ids one by one keeps the old selection as a prefix, makes exactly the old and the added ids members, and keeps a duplicate-free selection duplicate-free |
| Selection.DeleteAll | js/app.js:507 | the forEach of `Set.delete` over the shown ids; see DeleteAllIsWithout |
| Selection.DeleteAllIsWithout | js/app.js:507 | deleting the shown ids one by one removes exactly the shown ids and keeps the hidden selections in their order |
| Selection.Every | js/app.js:284 | true exactly when all shown ids are selected |
| Selection.Any | js/app.js:285 | true exactly when some shown id is selected |
| Selection.HeaderState | js/app.js:276-288 | the header is unchecked with nothing shown, checked exactly when every shown row is selected, indeterminate exactly when some but not all are, and never both |
| Selection.SelectAllShownChecksHeader | js/app.js:308-314 | after selecting all shown rows the header is checked and not indeterminate |
| Selection.UncheckHeaderClearsHeader | js/app.js:502-513 | after unchecking the header it is neither checked nor indeterminate |
| Summary.TotalSize | js/app.js:326 | the `reduce` sum of sizes, also used at js/app.js:443; see TotalSizeAppend and TotalSizePermutation |
| Summary.TotalSizeAppend | js/app.js:324-341 | the size total over a concatenation is the sum of the totals |
| Summary.TotalSizePermutation | js/app.js:324-341 | the exact-tenths total of a view depends only on its multiset of records, so not on the sort order |
| Summary.SelectedRecords | js/app.js:437-441 | the selected records are the catalog records of the selected ids, in selection order |
| Summary.SelectedRecordsIds | js/app.js:437-441 | the selected records carry exactly the selected ids, in the same order |
| Summary.SelectedSizeOrderFree | js/app.js:324-341 | the exact-tenths selected total depends only on which ids are selected, not on the click order |
| Workflow.GenerateDisabled | js/app.js:343-345 | the generate button is disabled exactly for an empty selection; see Archive.GenerateButtonAgrees |
| Workflow.HasFilters | js/app.js:392-407 | true exactly when some facet has a selected value |
| Workflow.WorkflowSteps | js/app.js:392-407 | each step's completed and active flags in terms of "some facet constrains" and "the selection is non-empty" |
| Workflow.StepsConsistent | js/app.js:392-407 | some step is always active, step 1 is completed or active but not both, and step 2 is active only after step 1 is done |
| Workflow.NoFiltersActivatesStepOne | js/app.js:412-423 | after a reset step 1 is active and step 2 is not, whatever the selection |
| Script.ScriptText | js/app.js:436-467 | generateScript on the selected records; see ScriptEndsWithBody, StampedPreambleSpec and DynamicLayout |
| Script.RecordLines | js/app.js:458-464 | one URL line and one target line per selected record, paired, in selection order |
| Script.ScriptEndsWithBody | js/app.js:436-467 | a script exists exactly for a non-empty selection, and it ends with the body template verbatim |
| Script.StampedPreamble | js/app.js:452-455 | the preamble with the timestamp line inserted; see StampedPreambleSpec and TimestampHeaderHasNoDollar |
| Script.StampedPreambleSpec | js/app.js:452-455 | the "Generated on" line lands right after the first header line, and the rest of the preamble is unchanged |
| Script.TimestampHeaderHasNoDollar | js/app.js:452-455 | the replacement holds no '$', so `replace` inserts it literally |
| Script.DynamicLines | js/app.js:458-464 | the lines of the dynamic block; see DynamicLayout and DynamicSplitsBack |
| Script.DynamicLayout | js/app.js:458-464 | the dynamic block is the TOTAL_SIZE line, the two resets and two lines per record, in selection order |
| Script.DynamicSplitsBack | js/app.js:458-464 | when no field holds a newline, the block splits back on "\n" into exactly its lines |
| Script.ScriptSizeLabel | js/app.js:443-446 | the script's size label is never "<1 MB"; an empty total reads "0.0 MB" |
| Archive.AvailableIn | js/app.js:78-90 | the values the loop gathers for a facet: those of the records that pass every other facet |
| Archive.AvailableInIsAvailable | js/app.js:78-90 | the loop's collection equals the specified available options |
| Archive.FreshView | js/app.js:92-109 | the filtered view, sorted when a key is set; see FreshViewSpec |
| Archive.FreshViewSpec | js/app.js:92-109 | the re-filtered view holds the filtered records: in catalog order when unsorted, ordered by the column when sorted |
| Archive.GenerateButtonAgrees | js/app.js:343-345 | the generate button is enabled exactly when the download step is active, and exactly then a script is produced |
| Archive.SumSizes | js/app.js:443-446 | the running sum is the selection's total size |
| Archive.DynamicBlock | js/app.js:458-464 | the block built line by line is the specified dynamic block |
| Archive.SelectedSize | js/app.js:328-331 | the forEach over the selection sums exactly the selected records' sizes |
| Archive.AddShown | js/app.js:309 | the forEach adds the shown ids one by one, as AddAll specifies |
| Archive.DeleteShown | js/app.js:507 | the forEach deletes the shown ids one by one, as DeleteAll specifies |
| Archive.AddShownKeepsSelection | js/app.js:308-314 | after selecting every shown row the selection is still duplicate-free and holds only catalog ids, and the header reads checked |
| Archive.DeleteShownKeepsSelection | js/app.js:502-513 | after deleting the shown rows the selection is still duplicate-free and holds only catalog ids, and the header reads unchecked |
| Archive.ShownRowsAreCatalogRecords | js/app.js:92-109 | every shown row is a catalog record that passes the filters and sits at its own id |
| Archive.ShownIdsInCatalog | js/app.js:92-109 | every shown id is a catalog id |
| Archive.ArchiveState.constructor | js/app.js:12-31 | the initial state plus `init`'s first applyFilters: no filters, no selection, unsorted, the whole catalog shown, the invariant holding |
| Archive.ArchiveState.ComputeAvailableOptions | js/app.js:78-90 | sets every facet's available options to the specified AvailableAll and changes nothing else |
| Archive.ArchiveState.CollectAvailable | js/app.js:78-90 | the inner loop returns the facet's available options |
| Archive.ArchiveState.ApplySorting | js/app.js:350-363 | leaves the view alone when unsorted; otherwise replaces it by its stable sort on the current column and direction |
| Archive.ArchiveState.ApplyFilters | js/app.js:92-109 | re-derives the available options and the view (filtered, then sorted), and restores the invariant |
| Archive.ArchiveState.SortClick | js/app.js:365-378 | updates the sort state by Click and stable-sorts the current view by the new order; the invariant holds |
| Archive.ArchiveState.ToggleFacetValue | js/app.js:176-185 | adds or removes exactly one value of one facet, then re-derives the view |
| Archive.ArchiveState.SelectAllFacetValues | js/app.js:152-173 | adds every listed value of the facet, then re-derives the view |
| Archive.ArchiveState.ClearFacet | js/app.js:152-173 | empties one facet, then re-derives the view |
| Archive.ArchiveState.ResetAllFilters | js/app.js:412-423 | empties every facet and clears the sort, so the whole catalog is shown; the selection survives |
| Archive.ArchiveState.ToggleRow | js/app.js:293-306 | checking a row adds its id and unchecking it deletes the id; nothing else changes |
| Archive.ArchiveState.SelectAllShown | js/app.js:308-314 | adds every shown id after the old selection, and the header then reads checked |
| Archive.ArchiveState.UncheckHeader | js/app.js:502-513 | deletes the shown ids one by one (so, by `DeleteAllIsWithout`, exactly the shown ids, keeping hidden selections in order); the header then reads unchecked and nothing else changes |
| Archive.ArchiveState.DeselectAll | js/app.js:316-322 | empties the selection and changes nothing else |
| Archive.ArchiveState.Summary | js/app.js:324-341 | the shown count and size are those of the filtered records, the total is the catalog size, the selected count and size are those of the selection |
| Archive.ArchiveState.GenerateScript | js/app.js:436-467 | null exactly for an empty selection; otherwise the specified script text for the selected records in selection order |
| Archive.ArchiveState.CollectSelected | js/app.js:437-441 | the loop gathers the selected records in selection order |
| Preprocess.NormalizeMolecule | preprocess_csv.py:21-25 | the result is stripped and never "CO"; anything other than a padded "CO" is just stripped |
| Preprocess.NormalizeMoleculeIdempotent | preprocess_csv.py:21-25 | normalising twice is normalising once |
| Preprocess.MoleculeSpellings | preprocess_csv.py:21-25 | "CO", with or without padding, becomes "12CO", the same as "12CO" itself |
| Preprocess.NormalizeDataType | preprocess_csv.py:28-29 | the result has the same words as the input, single-spaced with no padding |
| Preprocess.NormalizeDataTypeIdempotent | preprocess_csv.py:28-29 | normalising twice is normalising once |
| Preprocess.SizeText | preprocess_csv.py:33 | the cleaned size text has no tab and no surrounding space, and is empty exactly for an all-space field |
| Preprocess.SizeTextIdempotent | preprocess_csv.py:33 | cleaning twice is cleaning once |
| Preprocess.ParseSize | preprocess_csv.py:32-37 | an all-space field gives 0, a parsable one its value, an unparsable one 0 |
| Preprocess.ExtractFilename | preprocess_csv.py:40-41 | the filename never contains '/' |
| Preprocess.ExtractFilenameOfPath | preprocess_csv.py:40-41 | the filename of base/name is name |
| Preprocess.ExtractFilenameNoSlash | preprocess_csv.py:40-41 | a URL without '/' is its own filename |
| Preprocess.ExtractFilenameTrailingSlash | preprocess_csv.py:40-41 | a trailing slash does not change the filename |
| Preprocess.TargetDir | preprocess_csv.py:79 | the f-string target directory; see TargetDirParts |
| Preprocess.TargetDirParts | preprocess_csv.py:79 | the target directory splits into AGEPRO_DATA, region, disk, band, molecule |
| Preprocess.ParseLine | preprocess_csv.py:51-94 | a kept row carries the running id and is well shaped; the first-line "Region" header and rows with fewer than 8 fields are skipped |
| Preprocess.ParseLineSpec | preprocess_csv.py:51-94 | a line is kept exactly when it is not the first-line "Region" header, not blank once commas are removed, has at least 8 fields and a non-blank region and URL; the kept record holds the cleaned fields 0-5 and 7 in their places, the filename of its URL and its target directory |
| Preprocess.RecordOf | preprocess_csv.py:66-94 | the record built from the fields carries the running id and is well shaped |
| Preprocess.BlankLineSkipped | preprocess_csv.py:57-60 | a line of only commas and whitespace is skipped |
| Preprocess.ParseDataRow | preprocess_csv.py:51-94 | a data row of 8 or more plain fields gives exactly the record of its first 8 cleaned fields; further fields are ignored |
| Preprocess.CleanLine | preprocess_csv.py:51 | `rstrip("\n").rstrip("\r")`; see CleanDataRow |
| Preprocess.CleanDataRow | preprocess_csv.py:51 | line-end cleaning removes exactly the newline of a row |
| Preprocess.DataRowNotBlank | preprocess_csv.py:57-60 | a row with a non-blank first field is not taken for a blank line |
| Preprocess.LineParserKeepsIds | preprocess_csv.py:81-95 | every record the line parser emits carries the id it was given |
| Preprocess.LineParserWellShaped | preprocess_csv.py:66-94 | every record the line parser emits is well shaped |
| Preprocess.FileRecords | preprocess_csv.py:50-95 | one file gives at most one record per line, numbered on from the running id |
| Preprocess.FileRecordsSnoc | preprocess_csv.py:81-95 | one more line appends what the parser makes of it (the line's index in the file, the next id) after the records so far, or nothing when it is skipped |
| Preprocess.CatalogOf | preprocess_csv.py:44-95 | the records of all files, in file order, are a dense catalog (record i has id i) |
| Preprocess.FileRecordsWellShaped | preprocess_csv.py:66-94 | every record of one file is well shaped |
| Preprocess.CatalogWellShaped | preprocess_csv.py:66-94 | every record of the catalog is well shaped |
| Preprocess.Built | preprocess_csv.py:44-95 | main's record list; see BuiltSpec |
| Preprocess.BuiltSpec | preprocess_csv.py:44-95 | the builder's output is a dense catalog of well-shaped records |
| Preprocess.BuildCatalog | preprocess_csv.py:44-95 | the nested loops with the running id compute exactly the specified fold, a dense catalog |
| Preprocess.ParseFileLines | preprocess_csv.py:50-95 | the loop over one file's lines appends exactly that file's records and leaves the running id at the record count |

A well-shaped record (`Preprocess.WellShaped`) has these properties:
- a non-empty, stripped region and URL;
- stripped disk and band;
- a normalised molecule and data type;
- a filename without '/';
- the target directory built from its fields.

## Left out

- DOM rendering is not modelled:
  - `buildFilterUI`'s checkbox markup (js/app.js:129-151);
  - `updateFilterUI`'s count badges and its `unavailable` class on options that are not available;
  - `renderTable`, `escapeHtml`/`escapeAttr`, `regionBadgeClass`, `updateSortUI`;
  - the event wiring of `init`.

  The model keeps the state that rendering reads.
- `naturalSort` (js/app.js:36-38) calls `localeCompare` with numeric, base-letter (case- and accent-insensitive) collation. That collation is locale data outside the code. The model takes it as an abstract comparator `naturalLeq`, required to be a total preorder.
- Floating point is not modelled. Sizes are naturals counted in tenths of a megabyte, so `toFixed(1)` of an MB size is exact. Sizes with more than one decimal, negative sizes, NaN and infinities are not representable.
- Format.GigabyteTenths: rounds the exact quotient, ties upward, whereas js/app.js:42 and :48 call `toFixed(1)` on the double `mb / 1000`. At a decimal tie the double can lie just below it: `1450 / 1000` is the double 1.44999999999999995559…, so JavaScript prints "1.4 GB" where the model gives "1.5 GB" (likewise 1150 MB: "1.1 GB" against "1.2 GB"). Away from ties, and for a total that the double sum gives exactly, the two agree.
- Format.TotalSizeLabel: its GB bound `1000 * v - 500 <= t < 1000 * v + 500` is half-open because ties round upward in the model; for JavaScript at a tie such as t = 14500, where the label value is 14, only the closed bound `t <= 1000 * v + 500` holds.
- Summary.SelectedSizeOrderFree: holds for the model's exact tenths only. js/app.js:329-331 add the sizes as doubles in `Set` order, and double addition is not associative. For files of 46.5, 638.7, 709.1 and 55.7 MB checked in that order, the sum is 1450.0000000000002 and the label reads "1.5 GB". Checked as 55.7, 46.5, 638.7, 709.1, the sum is 1450.0 and the label reads "1.4 GB". The same holds for the TOTAL_SIZE line of the script (js/app.js:443).
- Summary.TotalSizePermutation: holds for the model's exact tenths only. The shown total at js/app.js:326 is a double `reduce` in view order, so after a sort click the sum can change in its last bits and, at a GB tie, the label can change with it.
- `Date` is not modelled. `formatTimestamp` takes the six local-time fields as a `LocalTime` value.
- `downloadScript` (js/app.js:469-485) is not modelled: its `Blob`, object URL, anchor click and download filename are browser I/O.
- The two script templates (js/app.js:432-434) are a `Templates` parameter; their text is not reproduced.
- File I/O in the builder is not modelled:
  - opening the CSV files, and Python's universal-newline translation on reading;
  - the JSON write of `js/data.js` and the console summary (preprocess_csv.py:97-116).

  Each file is a sequence of lines, each ending in its newline.
- Python's `float()` is the `parseFloat` parameter of `ParseSize`. Returning None stands for a `ValueError`.
- `Preprocess.BuildCatalog` is generic in the line parser: it is proved for any parser that keeps the ids it is given. The builder's own parser is `LineParser(parseFloat)`, and `BuiltSpec` states its catalog's properties.
- `Archive.ArchiveState.ApplySorting`: `Array.prototype.sort` sorts in place. The model reassigns the `filteredData` sequence field, so aliasing of the array is not modelled.
- `Archive.ArchiveState.ToggleRow`: `parseInt` of the row's `data-id` attribute is not modelled. The method takes a catalog id.
- The `Set` is modelled by a duplicate-free sequence. Only the operations the code uses on it are modelled: `add`, `delete`, `has`, `size`, `clear` and iteration.
