// The browser state of js/app.js: the module-level `state` object and the
// handlers that update it, with DOM rendering left out. The catalog
// (AGEPRO_DATA) and the string comparator behind naturalSort are fixed when
// the state is made; the handlers change the facet sets, the selection and
// the sort column, and re-derive the available options and the shown rows.

module Archive {
  import opened Options
  import opened Text
  import opened Catalog
  import opened Filters
  import opened Sorting
  import opened Ordering
  import opened Selection
  import opened Summary
  import opened Format
  import opened Script
  import opened Workflow

  /** The values facet k takes on the records of rs that pass every other
      facet: what the loop of computeAvailableOptions collects. */
  function AvailableIn(rs: seq<Record>, f: FacetSets, k: Facet): (vals: set<string>)
    ensures forall v :: v in vals <==>
              exists i :: 0 <= i < |rs| && MatchesExcept(f, rs[i], k) && FacetValue(rs[i], k) == v
  {
    if rs == [] then {}
    else
      var prev := AvailableIn(rs[..|rs| - 1], f, k);
      var last := rs[|rs| - 1];
      assert forall i :: 0 <= i < |rs| - 1 ==> rs[..|rs| - 1][i] == rs[i];
      if MatchesExcept(f, last, k) then prev + {FacetValue(last, k)} else prev
  }

  lemma AvailableInIsAvailable(catalog: seq<Record>, f: FacetSets, k: Facet)
    ensures AvailableIn(catalog, f, k) == Available(catalog, f, k)
  {
    forall v ensures v in AvailableIn(catalog, f, k) <==> v in Available(catalog, f, k) {
      AvailableWitness(catalog, f, k, v);
    }
  }

  /** What filteredData holds right after applyFilters: the filtered view,
      stably sorted by the current column when there is one. */
  function FreshView(catalog: seq<Record>, f: FacetSets, naturalLeq: (string, string) -> bool, s: SortState): seq<Record> {
    match s.key
    case None => Filtered(catalog, f)
    case Some(key) => Sort(Filtered(catalog, f), RecordOrder(naturalLeq, key, s.asc))
  }

  /** The state after applyFilters: the filtered records, each once, in
      column order when a column is chosen and in catalog order otherwise. */
  lemma FreshViewSpec(catalog: seq<Record>, f: FacetSets, naturalLeq: (string, string) -> bool, s: SortState)
    requires TotalPreorder(naturalLeq)
    ensures multiset(FreshView(catalog, f, naturalLeq, s)) == multiset(Filtered(catalog, f))
    ensures s.key.None? ==> FreshView(catalog, f, naturalLeq, s) == Filtered(catalog, f)
    ensures s.key.Some? ==> Sorted(FreshView(catalog, f, naturalLeq, s), RecordOrder(naturalLeq, s.key.value, s.asc))
  {
    if s.key.Some? {
      var leq := RecordOrder(naturalLeq, s.key.value, s.asc);
      RecordOrderIsTotalPreorder(naturalLeq, s.key.value, s.asc);
      SortPermutes(Filtered(catalog, f), leq);
      SortSorted(Filtered(catalog, f), leq);
    }
  }

  /** The selection is a duplicate-free list of ids below n. */
  ghost predicate SelectionOk(selectedIds: seq<nat>, n: nat) {
    Distinct(selectedIds) && IdsIn(selectedIds, n)
  }

  /** The available options and the shown rows are those of the current
      facet sets; the rows are in catalog order when no column is chosen
      and ordered by the chosen column otherwise. */
  ghost predicate ViewOk(catalog: seq<Record>, naturalLeq: (string, string) -> bool, filters: FacetSets,
                         availableOptions: FacetSets, filteredData: seq<Record>, sortKey: Option<SortKey>, sortAsc: bool)
  {
    && availableOptions == AvailableAll(catalog, filters)
    && multiset(filteredData) == multiset(Filtered(catalog, filters))
    && (sortKey.None? ==> filteredData == Filtered(catalog, filters))
    && (sortKey.Some? ==> Sorted(filteredData, RecordOrder(naturalLeq, sortKey.value, sortAsc)))
  }

  class ArchiveState {
    const catalog: seq<Record>
    const naturalLeq: (string, string) -> bool
    var filters: FacetSets
    var availableOptions: FacetSets
    var filteredData: seq<Record>
    var selectedIds: seq<nat>
    var sortKey: Option<SortKey>
    var sortAsc: bool

    /** The catalog is dense, the comparator consistent, and the selection a
        duplicate-free list of catalog ids. */
    ghost predicate WellFormed()
      reads this`selectedIds
    {
      IsCatalog(catalog) && TotalPreorder(naturalLeq) && SelectionOk(selectedIds, |catalog|)
    }

    ghost predicate ViewValid()
      reads this`filters, this`availableOptions, this`filteredData, this`sortKey, this`sortAsc
    {
      ViewOk(catalog, naturalLeq, filters, availableOptions, filteredData, sortKey, sortAsc)
    }

    /** The invariant that holds between events. */
    ghost predicate Valid()
      reads this
    {
      WellFormed() && ViewValid()
    }

    /** init(): the empty initial state, then applyFilters. */
    constructor (catalog: seq<Record>, naturalLeq: (string, string) -> bool)
      requires IsCatalog(catalog) && TotalPreorder(naturalLeq)
      ensures Valid()
      ensures this.catalog == catalog && this.naturalLeq == naturalLeq
      ensures filters == NoFilters && selectedIds == [] && sortKey == None && sortAsc
      ensures filteredData == catalog
    {
      this.catalog := catalog;
      this.naturalLeq := naturalLeq;
      filters := NoFilters;
      availableOptions := NoFilters;
      filteredData := [];
      selectedIds := [];
      sortKey := None;
      sortAsc := true;
      new;
      ApplyFilters();
      FilteredNoFilters(catalog);
    }

    // -------------------------------------------------------------------------
    // Filtering and sorting
    // -------------------------------------------------------------------------

    /** computeAvailableOptions: for each facet in turn, the set of its values
        over the records that pass every other facet. */
    method ComputeAvailableOptions()
      modifies this
      ensures availableOptions == AvailableAll(catalog, filters)
      ensures filters == old(filters) && filteredData == old(filteredData) && selectedIds == old(selectedIds)
      ensures sortKey == old(sortKey) && sortAsc == old(sortAsc)
    {
      for ki := 0 to |FilterKeys|
        invariant filters == old(filters) && filteredData == old(filteredData) && selectedIds == old(selectedIds)
        invariant sortKey == old(sortKey) && sortAsc == old(sortAsc)
        invariant forall j :: 0 <= j < ki ==> availableOptions.Get(FilterKeys[j]) == Available(catalog, filters, FilterKeys[j])
      {
        var key := FilterKeys[ki];
        var vals := CollectAvailable(key);
        assert forall j :: 0 <= j < ki ==> FilterKeys[j] != key;
        availableOptions := availableOptions.With(key, vals);
      }
      forall k ensures availableOptions.Get(k) == AvailableAll(catalog, filters).Get(k) {
        FilterKeysComplete(k);
      }
      FacetSetsExt(availableOptions, AvailableAll(catalog, filters));
    }

    /** The inner loop of computeAvailableOptions for one facet: the values
        of that facet over the catalog records passing every other facet. */
    method CollectAvailable(key: Facet) returns (vals: set<string>)
      ensures vals == Available(catalog, filters, key)
    {
      vals := {};
      for i := 0 to |catalog|
        invariant vals == AvailableIn(catalog[..i], filters, key)
      {
        assert catalog[..i + 1][..i] == catalog[..i];
        if MatchesExcept(filters, catalog[i], key) {
          vals := vals + {FacetValue(catalog[i], key)};
        }
      }
      assert catalog[..|catalog|] == catalog;
      AvailableInIsAvailable(catalog, filters, key);
    }

    /** applySorting: nothing without a sort column; otherwise a stable sort
        of the shown rows by that column and direction. */
    method ApplySorting()
      modifies this
      ensures sortKey.None? ==> filteredData == old(filteredData)
      ensures sortKey.Some? ==> filteredData == Sort(old(filteredData), RecordOrder(naturalLeq, sortKey.value, sortAsc))
      ensures filters == old(filters) && availableOptions == old(availableOptions) && selectedIds == old(selectedIds)
      ensures sortKey == old(sortKey) && sortAsc == old(sortAsc)
    {
      if sortKey.None? {
        return;
      }
      filteredData := InsertionSort(filteredData, RecordOrder(naturalLeq, sortKey.value, sortAsc));
    }

    /** applyFilters: recompute the options, keep the catalog records that pass
        every facet, and sort them. */
    method ApplyFilters()
      requires WellFormed()
      modifies this
      ensures Valid()
      ensures availableOptions == AvailableAll(catalog, filters)
      ensures filteredData == FreshView(catalog, filters, naturalLeq, SortState(sortKey, sortAsc))
      ensures filters == old(filters) && selectedIds == old(selectedIds)
      ensures sortKey == old(sortKey) && sortAsc == old(sortAsc)
    {
      ComputeAvailableOptions();
      var view: seq<Record> := [];
      for i := 0 to |catalog|
        invariant view == Filtered(catalog[..i], filters)
      {
        assert catalog[..i + 1][..i] == catalog[..i];
        if Matches(filters, catalog[i]) {
          view := view + [catalog[i]];
        }
      }
      assert catalog[..|catalog|] == catalog;
      filteredData := view;
      ApplySorting();
      FreshViewSpec(catalog, filters, naturalLeq, SortState(sortKey, sortAsc));
    }

    /** onSortClick: the same column flips the direction, another column
        becomes the sort column ascending; then the shown rows are re-sorted
        as they stand. */
    method SortClick(key: SortKey)
      requires Valid()
      modifies this
      ensures Valid()
      ensures SortState(sortKey, sortAsc) == Click(SortState(old(sortKey), old(sortAsc)), key)
      ensures filteredData == Sort(old(filteredData), RecordOrder(naturalLeq, key, sortAsc))
      ensures filters == old(filters) && availableOptions == old(availableOptions) && selectedIds == old(selectedIds)
    {
      var s := Click(SortState(sortKey, sortAsc), key);
      sortKey, sortAsc := s.key, s.asc;
      ApplySorting();
      RecordOrderIsTotalPreorder(naturalLeq, key, sortAsc);
      SortPermutes(old(filteredData), RecordOrder(naturalLeq, key, sortAsc));
      SortSorted(old(filteredData), RecordOrder(naturalLeq, key, sortAsc));
    }

    // -------------------------------------------------------------------------
    // Facet events
    // -------------------------------------------------------------------------

    /** onFilterChange: add the value to the facet's set when checked, delete
        it when unchecked, then applyFilters. */
    method ToggleFacetValue(key: Facet, value: string, checked: bool)
      requires Valid()
      modifies this
      ensures Valid()
      ensures filters == old(filters).With(key, if checked then old(filters).Get(key) + {value}
                                                else old(filters).Get(key) - {value})
      ensures filteredData == FreshView(catalog, filters, naturalLeq, SortState(sortKey, sortAsc))
      ensures selectedIds == old(selectedIds) && sortKey == old(sortKey) && sortAsc == old(sortAsc)
    {
      var sel := filters.Get(key);
      filters := filters.With(key, if checked then sel + {value} else sel - {value});
      ApplyFilters();
    }

    /** A facet's "All" button: every value the facet's checkbox list holds,
        which is every value the catalog has for it, reachable or not. */
    method SelectAllFacetValues(key: Facet)
      requires Valid()
      modifies this
      ensures Valid()
      ensures filters == old(filters).With(key, old(filters).Get(key) + FacetValues(catalog, key))
      ensures filteredData == FreshView(catalog, filters, naturalLeq, SortState(sortKey, sortAsc))
      ensures selectedIds == old(selectedIds) && sortKey == old(sortKey) && sortAsc == old(sortAsc)
    {
      filters := filters.With(key, filters.Get(key) + FacetValues(catalog, key));
      ApplyFilters();
    }

    /** A facet's "None" button: that facet's set is cleared, no other. */
    method ClearFacet(key: Facet)
      requires Valid()
      modifies this
      ensures Valid()
      ensures filters == old(filters).With(key, {})
      ensures filteredData == FreshView(catalog, filters, naturalLeq, SortState(sortKey, sortAsc))
      ensures selectedIds == old(selectedIds) && sortKey == old(sortKey) && sortAsc == old(sortAsc)
    {
      filters := filters.With(key, {});
      ApplyFilters();
    }

    /** resetAllFilters: every facet cleared, no sort column, ascending; the
        whole catalog is shown again in catalog order, and the selection is
        kept. */
    method ResetAllFilters()
      requires Valid()
      modifies this
      ensures Valid()
      ensures filters == NoFilters && sortKey == None && sortAsc
      ensures filteredData == catalog
      ensures availableOptions == AvailableAll(catalog, NoFilters)
      ensures selectedIds == old(selectedIds)
    {
      filters := NoFilters;
      sortKey := None;
      sortAsc := true;
      ApplyFilters();
      FilteredNoFilters(catalog);
    }

    // -------------------------------------------------------------------------
    // Selection events
    // -------------------------------------------------------------------------

    /** onRowCheckboxChange: add the row's id when checked, delete it
        otherwise. The id comes from a rendered row, so it is a catalog id. */
    method ToggleRow(id: nat, checked: bool)
      requires Valid() && id < |catalog|
      modifies this
      ensures Valid()
      ensures selectedIds == if checked then SetAdd(old(selectedIds), id) else SetDelete(old(selectedIds), id)
      ensures filters == old(filters) && availableOptions == old(availableOptions) && filteredData == old(filteredData)
      ensures sortKey == old(sortKey) && sortAsc == old(sortAsc)
    {
      IdsInMembers(selectedIds, |catalog|);
      if checked {
        selectedIds := SetAdd(selectedIds, id);
      } else {
        selectedIds := SetDelete(selectedIds, id);
      }
      IdsInMembers(selectedIds, |catalog|);
    }

    /** selectAllShown (and checking the header box): every shown id is
        added, in row order; the header box then shows checked. */
    method SelectAllShown()
      requires Valid()
      modifies this
      ensures Valid()
      ensures selectedIds == AddAll(old(selectedIds), Ids(filteredData))
      ensures filteredData != [] ==> HeaderState(Ids(filteredData), selectedIds) == HeaderCheckbox(true, false)
      ensures filters == old(filters) && availableOptions == old(availableOptions) && filteredData == old(filteredData)
      ensures sortKey == old(sortKey) && sortAsc == old(sortAsc)
    {
      ShownIdsInCatalog(catalog, filters, filteredData);
      var ids := AddShown(selectedIds, filteredData);
      AddShownKeepsSelection(selectedIds, filteredData, |catalog|);
      selectedIds := ids;
    }

    /** Unchecking the header box: only the shown ids are deleted, so
        selections the filters hide survive; the header box then shows
        neither checked nor indeterminate. */
    method UncheckHeader()
      requires Valid()
      modifies this
      ensures Valid()
      ensures selectedIds == DeleteAll(old(selectedIds), Ids(filteredData))
      ensures HeaderState(Ids(filteredData), selectedIds) == HeaderCheckbox(false, false)
      ensures filters == old(filters) && availableOptions == old(availableOptions) && filteredData == old(filteredData)
      ensures sortKey == old(sortKey) && sortAsc == old(sortAsc)
    {
      var ids := DeleteShown(selectedIds, filteredData);
      DeleteShownKeepsSelection(selectedIds, filteredData, |catalog|);
      selectedIds := ids;
    }

    /** deselectAll: the selection is emptied. */
    method DeselectAll()
      requires Valid()
      modifies this
      ensures Valid()
      ensures selectedIds == []
      ensures filters == old(filters) && availableOptions == old(availableOptions) && filteredData == old(filteredData)
      ensures sortKey == old(sortKey) && sortAsc == old(sortAsc)
    {
      selectedIds := [];
    }

    // -------------------------------------------------------------------------
    // Derived values
    // -------------------------------------------------------------------------

    /** updateSummary's figures: shown and catalog counts, the shown total
        (whatever order the rows are in, the filtered records' total), the
        selected count and the selected total. */
    method Summary() returns (shown: nat, total: nat, shownSize: Tenths, selectedCount: nat, selectedSize: Tenths)
      requires Valid()
      ensures shown == |Filtered(catalog, filters)| && total == |catalog|
      ensures shownSize == TotalSize(Filtered(catalog, filters))
      ensures selectedCount == |selectedIds|
      ensures selectedSize == TotalSize(SelectedRecords(catalog, selectedIds))
    {
      shown := |filteredData|;
      total := |catalog|;
      shownSize := SumSizes(filteredData);
      TotalSizePermutation(filteredData, Filtered(catalog, filters));
      assert |multiset(filteredData)| == |multiset(Filtered(catalog, filters))|;
      selectedCount := |selectedIds|;
      selectedSize := SelectedSize(catalog, selectedIds);
    }

    /** generateScript: no script for an empty selection; otherwise the
        selected records in selection order, their total under the
        total-size rule, the stamped preamble, the dynamic block and the
        body. */
    method GenerateScript(t: Templates, now: LocalTime) returns (script: Option<string>)
      requires Valid()
      ensures script == ScriptText(t, now, SelectedRecords(catalog, selectedIds))
      ensures script.None? <==> selectedIds == []
    {
      var selectedRecords := CollectSelected();
      if |selectedRecords| == 0 {
        return None;
      }
      var totalMB := SumSizes(selectedRecords);
      var totalSizeStr := if totalMB >= 10000 then Fixed1(GigabyteTenths(totalMB)) + " GB" else Fixed1(totalMB) + " MB";
      var timestamp := FormatTimestamp(now);
      var preamble := ReplaceFirst(t.preamble, GeneratedBy, GeneratedBy + "# Generated on: " + timestamp + "\n");
      var dynamic := DynamicBlock(totalSizeStr, selectedRecords);
      script := Some(preamble + dynamic + "\n" + t.body);
    }

    /** selectedIds mapped to their catalog records, in selection order. */
    method CollectSelected() returns (selectedRecords: seq<Record>)
      requires WellFormed()
      ensures selectedRecords == SelectedRecords(catalog, selectedIds)
    {
      selectedRecords := [];
      for i := 0 to |selectedIds|
        invariant IdsIn(selectedIds[..i], |catalog|)
        invariant selectedRecords == SelectedRecords(catalog, selectedIds[..i])
      {
        assert selectedIds[..i + 1][..i] == selectedIds[..i];
        selectedRecords := selectedRecords + [catalog[selectedIds[i]]];
      }
      assert selectedIds[..|selectedIds|] == selectedIds;
    }
  }

  /** Every shown row is a catalog record that passes the filters and
      sits at its own id in the catalog. */
  lemma ShownRowsAreCatalogRecords(catalog: seq<Record>, f: FacetSets, rows: seq<Record>)
    requires IsCatalog(catalog)
    requires multiset(rows) == multiset(Filtered(catalog, f))
    ensures forall r :: r in rows ==> r in catalog && Matches(f, r)
    ensures forall r :: r in rows ==> r.id < |catalog| && catalog[r.id] == r
  {
    FilteredOrdered(catalog, f);
    forall r | r in rows ensures r in Filtered(catalog, f) {
      assert r in multiset(rows);
    }
    forall r | r in rows ensures r.id < |catalog| && catalog[r.id] == r {
      var view := Filtered(catalog, f);
      assert r in view;
      var i :| 0 <= i < |view| && view[i] == r;
    }
  }

  /** Every shown id is a catalog id. */
  lemma ShownIdsInCatalog(catalog: seq<Record>, f: FacetSets, rows: seq<Record>)
    requires IsCatalog(catalog)
    requires multiset(rows) == multiset(Filtered(catalog, f))
    ensures IdsIn(Ids(rows), |catalog|)
  {
    ShownRowsAreCatalogRecords(catalog, f, rows);
    forall i | 0 <= i < |rows| ensures Ids(rows)[i] < |catalog| {
      assert rows[i] in rows;
    }
  }

  /** The loop of selectAllShown: each shown row's id is added in turn. */
  method AddShown(s: seq<nat>, rs: seq<Record>) returns (r: seq<nat>)
    ensures r == AddAll(s, Ids(rs))
  {
    r := s;
    for i := 0 to |rs|
      invariant r == AddAll(s, Ids(rs[..i]))
    {
      IdsSnoc(rs, i);
      r := SetAdd(r, rs[i].id);
    }
    assert rs[..|rs|] == rs;
  }

  /** The loop of the header-uncheck handler: each shown row's id is deleted
      in turn. */
  method DeleteShown(s: seq<nat>, rs: seq<Record>) returns (r: seq<nat>)
    ensures r == DeleteAll(s, Ids(rs))
  {
    r := s;
    for i := 0 to |rs|
      invariant r == DeleteAll(s, Ids(rs[..i]))
    {
      IdsSnoc(rs, i);
      r := SetDelete(r, rs[i].id);
    }
    assert rs[..|rs|] == rs;
  }

  /** The running sum of sizeMB over the records. */
  method SumSizes(rs: seq<Record>) returns (total: Tenths)
    ensures total == TotalSize(rs)
  {
    total := 0;
    for i := 0 to |rs|
      invariant total == TotalSize(rs[..i])
    {
      assert rs[..i + 1][..i] == rs[..i];
      total := total + rs[i].sizeMB;
    }
    assert rs[..|rs|] == rs;
  }

  /** updateSummary's forEach over the selection, adding each selected
      record's size. */
  method SelectedSize(catalog: seq<Record>, ids: seq<nat>) returns (total: Tenths)
    requires IdsIn(ids, |catalog|)
    ensures total == TotalSize(SelectedRecords(catalog, ids))
  {
    total := 0;
    for i := 0 to |ids|
      invariant IdsIn(ids[..i], |catalog|)
      invariant total == TotalSize(SelectedRecords(catalog, ids[..i]))
    {
      assert ids[..i + 1][..i] == ids[..i];
      total := total + catalog[ids[i]].sizeMB;
    }
    assert ids[..|ids|] == ids;
  }

  /** generateScript's dynamic block, built line by line: the TOTAL_SIZE
      line, the two array resets, then a URL and a target line per record. */
  method DynamicBlock(totalSizeStr: string, rs: seq<Record>) returns (dynamic: string)
    ensures dynamic == Unlines(DynamicLines(totalSizeStr, rs))
  {
    dynamic := "TOTAL_SIZE=\"Total size: " + totalSizeStr + "\"\n";
    dynamic := dynamic + "DOWNLOAD_URLS=()\n";
    dynamic := dynamic + "DOWNLOAD_TARGETS=()\n";
    ghost var head := [TotalSizeLine(totalSizeStr), "DOWNLOAD_URLS=()", "DOWNLOAD_TARGETS=()"];
    UnlinesThree(head[0], head[1], head[2]);
    assert head == [head[0], head[1], head[2]];
    assert head + RecordLines(rs[..0]) == head;
    for i := 0 to |rs|
      invariant dynamic == Unlines(head + RecordLines(rs[..i]))
    {
      var r := rs[i];
      RecordLinesStep(head, rs, i);
      AppendRecordLines(dynamic, r.url, r.targetDir);
      dynamic := dynamic + "DOWNLOAD_URLS+=(\"" + r.url + "\")\n";
      dynamic := dynamic + "DOWNLOAD_TARGETS+=(\"" + r.targetDir + "\")\n";
    }
    assert rs[..|rs|] == rs;
  }

  /** The generate button, the download step and the script agree: the button
      is enabled exactly when the download step is active, and exactly then
      does generateScript produce a script rather than null. */
  lemma GenerateButtonAgrees(t: Templates, now: LocalTime, catalog: seq<Record>, f: FacetSets, ids: seq<nat>)
    requires IdsIn(ids, |catalog|)
    ensures !GenerateDisabled(ids) <==> WorkflowSteps(f, ids).downloadActive
    ensures GenerateDisabled(ids) <==> ScriptText(t, now, SelectedRecords(catalog, ids)).None?
  {
    ScriptEndsWithBody(t, now, SelectedRecords(catalog, ids));
  }

  /** After selecting every shown row the selection is still a
      duplicate-free list of catalog ids, and the header box reads checked. */
  lemma AddShownKeepsSelection(s: seq<nat>, rs: seq<Record>, n: nat)
    requires Distinct(s) && IdsIn(s, n) && IdsIn(Ids(rs), n)
    ensures Distinct(AddAll(s, Ids(rs))) && IdsIn(AddAll(s, Ids(rs)), n)
    ensures rs != [] ==> HeaderState(Ids(rs), AddAll(s, Ids(rs))) == HeaderCheckbox(true, false)
  {
    AddAllSpec(s, Ids(rs));
    AddAllIdsIn(s, Ids(rs), n);
    if rs != [] {
      SelectAllShownChecksHeader(s, Ids(rs));
    }
  }

  /** After deleting the shown rows the selection is still a duplicate-free
      list of catalog ids, and the header box reads unchecked. */
  lemma DeleteShownKeepsSelection(s: seq<nat>, rs: seq<Record>, n: nat)
    requires Distinct(s) && IdsIn(s, n)
    ensures Distinct(DeleteAll(s, Ids(rs))) && IdsIn(DeleteAll(s, Ids(rs)), n)
    ensures HeaderState(Ids(rs), DeleteAll(s, Ids(rs))) == HeaderCheckbox(false, false)
  {
    UncheckHeaderClearsHeader(s, Ids(rs));
    DeleteAllIsWithout(s, Ids(rs));
    IdsInMembers(s, n);
    IdsInMembers(DeleteAll(s, Ids(rs)), n);
  }

  lemma IdsSnoc(rs: seq<Record>, i: nat)
    requires i < |rs|
    ensures Ids(rs[..i + 1]) == Ids(rs[..i]) + [rs[i].id]
    ensures Ids(rs[..i + 1])[..i] == Ids(rs[..i])
  {
    assert Ids(rs[..i + 1]) == Ids(rs[..i]) + [rs[i].id];
  }

  /** Adding catalog ids to a selection of catalog ids keeps it one. */
  lemma AddAllIdsIn(s: seq<nat>, ids: seq<nat>, n: nat)
    requires IdsIn(s, n) && IdsIn(ids, n)
    ensures IdsIn(AddAll(s, ids), n)
  {
    AddAllSpec(s, ids);
    IdsInMembers(s, n);
    IdsInMembers(ids, n);
    IdsInMembers(AddAll(s, ids), n);
  }

  lemma UnlinesThree(a: string, b: string, c: string)
    ensures Unlines([a, b, c]) == a + "\n" + b + "\n" + c + "\n"
  {
    assert [a, b, c][..2] == [a, b];
    assert [a, b][..1] == [a];
    assert [a][..0] == [];
    assert Unlines([a]) == a + "\n";
    assert Unlines([a, b]) == Unlines([a]) + b + "\n";
    assert Unlines([a, b, c]) == Unlines([a, b]) + c + "\n";
  }

  lemma RecordLinesStep(head: seq<string>, rs: seq<Record>, i: nat)
    requires i < |rs|
    ensures Unlines(head + RecordLines(rs[..i + 1]))
         == Unlines(head + RecordLines(rs[..i])) + UrlLine(rs[i].url) + "\n" + TargetLine(rs[i].targetDir) + "\n"
  {
    assert rs[..i + 1][..i] == rs[..i];
    assert head + RecordLines(rs[..i + 1]) == (head + RecordLines(rs[..i])) + [UrlLine(rs[i].url), TargetLine(rs[i].targetDir)];
    UnlinesPush(head + RecordLines(rs[..i]), UrlLine(rs[i].url), TargetLine(rs[i].targetDir));
  }

  lemma AppendRecordLines(d: string, url: string, dir: string)
    ensures d + "DOWNLOAD_URLS+=(\"" + url + "\")\n" + "DOWNLOAD_TARGETS+=(\"" + dir + "\")\n"
         == d + UrlLine(url) + "\n" + TargetLine(dir) + "\n"
  {
  }

  lemma UnlinesPush(lines: seq<string>, a: string, b: string)
    ensures Unlines(lines + [a, b]) == Unlines(lines) + a + "\n" + b + "\n"
  {
    assert (lines + [a, b])[..|lines| + 1] == lines + [a];
    assert (lines + [a])[..|lines|] == lines;
  }
}
