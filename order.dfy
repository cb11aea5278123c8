// The table's sort state and the comparator applySorting hands to
// Array.prototype.sort (js/app.js). The sort itself is stable, so the
// comparator is modelled as the relation "does not put b strictly before a".

module Ordering {
  import opened Options
  import opened Catalog
  import opened Sorting

  /** record[key] for a string column. */
  function TextField(r: Record, key: SortKey): string
    requires key != BySize
  {
    match key
    case ByFilename => r.filename
    case ByRegion => r.region
    case ByDisk => r.disk
    case ByBand => r.band
    case ByMolecule => r.molecule
    case ByDataType => r.dataType
  }

  /** The comparator of applySorting, as "compare(a, b) <= 0". sizeMB is the
      only numeric column and compares by value (va - vb, or vb - va when
      descending); every other column goes through naturalSort, negated when
      descending. naturalLeq(x, y) stands for naturalSort(x, y) <= 0.
      Descending text columns are written naturalLeq(b, a), which equals
      -naturalSort(a, b) <= 0 only because localeCompare's sign is taken to
      be antisymmetric, as the total preorder on naturalLeq implies. */
  predicate RecordLeq(naturalLeq: (string, string) -> bool, key: SortKey, asc: bool, a: Record, b: Record) {
    if key == BySize then
      (if asc then a.sizeMB <= b.sizeMB else b.sizeMB <= a.sizeMB)
    else if asc then naturalLeq(TextField(a, key), TextField(b, key))
    else naturalLeq(TextField(b, key), TextField(a, key))
  }

  function RecordOrder(naturalLeq: (string, string) -> bool, key: SortKey, asc: bool): (Record, Record) -> bool {
    (a: Record, b: Record) => RecordLeq(naturalLeq, key, asc, a, b)
  }

  /** Descending order is ascending order read backwards. */
  lemma DescendingReversesAscending(naturalLeq: (string, string) -> bool, key: SortKey, a: Record, b: Record)
    ensures RecordLeq(naturalLeq, key, false, a, b) == RecordLeq(naturalLeq, key, true, b, a)
  {
  }

  /** For a consistent naturalSort every column order, in either direction, is
      a total preorder, so the stable sort by it is well defined. */
  lemma RecordOrderIsTotalPreorder(naturalLeq: (string, string) -> bool, key: SortKey, asc: bool)
    requires TotalPreorder(naturalLeq)
    ensures TotalPreorder(RecordOrder(naturalLeq, key, asc))
  {
    var leq := RecordOrder(naturalLeq, key, asc);
    forall a, b ensures leq(a, b) || leq(b, a) {
      if key != BySize {
        assert naturalLeq(TextField(a, key), TextField(b, key)) || naturalLeq(TextField(b, key), TextField(a, key));
      }
    }
    forall a, b, c | leq(a, b) && leq(b, c) ensures leq(a, c) {
      if key != BySize {
        var x, y, z := TextField(a, key), TextField(b, key), TextField(c, key);
        if asc {
          assert naturalLeq(x, y) && naturalLeq(y, z);
        } else {
          assert naturalLeq(z, y) && naturalLeq(y, x);
        }
      }
    }
  }

  // ---------------------------------------------------------------------------
  // Sort state
  // ---------------------------------------------------------------------------

  /** state.sortKey (None for null) and state.sortAsc. */
  datatype SortState = SortState(key: Option<SortKey>, asc: bool)

  const Unsorted: SortState := SortState(None, true)

  /** onSortClick's state update. */
  function Click(s: SortState, key: SortKey): (r: SortState)
    ensures r.key == Some(key)
    ensures s.key == Some(key) ==> r.asc == !s.asc
    ensures s.key != Some(key) ==> r.asc
  {
    if s.key == Some(key) then s.(asc := !s.asc) else SortState(Some(key), true)
  }

  /** Clicking the same header twice returns to where it was, once that
      column is the sort column; from another column (or none) two clicks
      leave it sorted descending. */
  lemma ClickTwice(s: SortState, key: SortKey)
    ensures Click(Click(s, key), key) == if s.key == Some(key) then s else SortState(Some(key), false)
  {
  }

  /** Starting ascending on a column, two clicks on it return to ascending. */
  lemma TwoClicksBackToAscending(key: SortKey)
    ensures Click(Click(SortState(Some(key), true), key), key) == SortState(Some(key), true)
  {
    ClickTwice(SortState(Some(key), true), key);
  }
}
