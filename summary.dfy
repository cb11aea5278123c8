// The aggregates updateSummary shows (js/app.js) and the selected records
// generateScript collects: the records behind a selection, in selection
// order, and size totals over record sequences.

module Summary {
  import opened Catalog
  import opened Selection

  /** The sum of sizeMB over rs (the reduce of updateSummary and generateScript). */
  function TotalSize(rs: seq<Record>): Tenths {
    if rs == [] then 0 else TotalSize(rs[..|rs| - 1]) + rs[|rs| - 1].sizeMB
  }

  lemma {:induction false} TotalSizeAppend(a: seq<Record>, b: seq<Record>)
    ensures TotalSize(a + b) == TotalSize(a) + TotalSize(b)
    decreases |b|
  {
    if b == [] {
      assert a + b == a;
    } else {
      var init := b[..|b| - 1];
      assert (a + b)[..|a + b| - 1] == a + init;
      TotalSizeAppend(a, init);
    }
  }

  /** Removing the element at i takes exactly its size off the total. */
  lemma TotalSizeRemove(s: seq<Record>, i: nat)
    requires i < |s|
    ensures TotalSize(s) == TotalSize(s[..i] + s[i + 1..]) + s[i].sizeMB
  {
    SplitAt(s, i);
    TotalSizeSplit(s[..i], s[i], s[i + 1..]);
  }

  lemma SplitAt<T>(s: seq<T>, i: nat)
    requires i < |s|
    ensures s == s[..i] + [s[i]] + s[i + 1..]
  {
  }

  lemma TotalSizeSplit(p: seq<Record>, x: Record, q: seq<Record>)
    ensures TotalSize(p + [x] + q) == TotalSize(p + q) + x.sizeMB
  {
    TotalSizeAppend(p + [x], q);
    TotalSizeAppend(p, q);
    assert (p + [x])[..|p|] == p;
  }

  /** The total depends only on which records there are, not on their order:
      sorting the filtered view does not change the size shown for it. */
  lemma {:induction false} TotalSizePermutation(a: seq<Record>, b: seq<Record>)
    requires multiset(a) == multiset(b)
    ensures TotalSize(a) == TotalSize(b)
    decreases |a|
  {
    if a != [] {
      var j := RemoveMatching(a, b);
      TotalSizePermutation(a[..|a| - 1], b[..j] + b[j + 1..]);
      TotalSizeRemove(b, j);
    } else {
      assert |b| == |multiset(b)|;
    }
  }

  /** For equal multisets, the last element of a sits somewhere in b, and
      what is left on each side once it is taken out is again equal. */
  lemma RemoveMatching<T>(a: seq<T>, b: seq<T>) returns (j: nat)
    requires a != [] && multiset(a) == multiset(b)
    ensures j < |b| && b[j] == a[|a| - 1]
    ensures multiset(a[..|a| - 1]) == multiset(b[..j] + b[j + 1..])
  {
    var last, init := a[|a| - 1], a[..|a| - 1];
    MultisetRemove(a, |a| - 1);
    assert a[..|a| - 1] + a[|a|..] == init;
    assert last in multiset(b);
    j :| 0 <= j < |b| && b[j] == last;
    MultisetRemove(b, j);
    MultisetCancel(multiset(init), multiset(b[..j] + b[j + 1..]), last);
  }

  lemma MultisetRemove<T>(s: seq<T>, j: nat)
    requires j < |s|
    ensures multiset(s) == multiset(s[..j] + s[j + 1..]) + multiset{s[j]}
  {
    assert s == s[..j] + [s[j]] + s[j + 1..];
  }

  lemma MultisetCancel<T>(x: multiset<T>, y: multiset<T>, e: T)
    requires x + multiset{e} == y + multiset{e}
    ensures x == y
  {
    assert x == (x + multiset{e}) - multiset{e};
    assert y == (y + multiset{e}) - multiset{e};
  }

  /** Every id indexes the catalog. */
  predicate IdsIn(ids: seq<nat>, n: nat) {
    forall i :: 0 <= i < |ids| ==> ids[i] < n
  }

  lemma IdsInMembers(ids: seq<nat>, n: nat)
    ensures IdsIn(ids, n) <==> forall x :: x in ids ==> x < n
  {
    if IdsIn(ids, n) {
      forall x | x in ids ensures x < n {
        var i :| 0 <= i < |ids| && ids[i] == x;
      }
    }
    if forall x :: x in ids ==> x < n {
      forall i | 0 <= i < |ids| ensures ids[i] < n {
        assert ids[i] in ids;
      }
    }
  }

  /** selectedIds mapped through AGEPRO_DATA[id], in selection order. */
  function SelectedRecords(catalog: seq<Record>, ids: seq<nat>): (rs: seq<Record>)
    requires IdsIn(ids, |catalog|)
    ensures |rs| == |ids|
    ensures forall i :: 0 <= i < |ids| ==> rs[i] == catalog[ids[i]]
  {
    if ids == [] then []
    else SelectedRecords(catalog, ids[..|ids| - 1]) + [catalog[ids[|ids| - 1]]]
  }

  /** On a dense catalog the selected records carry exactly the selected ids,
      in the same order. */
  lemma SelectedRecordsIds(catalog: seq<Record>, ids: seq<nat>)
    requires IsCatalog(catalog)
    requires IdsIn(ids, |catalog|)
    ensures Ids(SelectedRecords(catalog, ids)) == ids
  {
  }

  /** A duplicate-free sequence holds each of its elements exactly once. */
  lemma {:induction false} DistinctMultiset(s: seq<nat>, x: nat)
    requires Distinct(s)
    ensures multiset(s)[x] == if x in s then 1 else 0
    decreases |s|
  {
    if s != [] {
      var init := s[..|s| - 1];
      assert s == init + [s[|s| - 1]];
      assert Distinct(init);
      DistinctMultiset(init, x);
    }
  }

  /** With the same ids selected, in whatever order they were clicked, the
      selected size is the same. */
  lemma SelectedSizeOrderFree(catalog: seq<Record>, ids: seq<nat>, ids2: seq<nat>)
    requires Distinct(ids) && Distinct(ids2)
    requires forall x :: x in ids <==> x in ids2
    requires IdsIn(ids, |catalog|)
    ensures IdsIn(ids2, |catalog|)
    ensures TotalSize(SelectedRecords(catalog, ids)) == TotalSize(SelectedRecords(catalog, ids2))
  {
    forall x ensures multiset(ids)[x] == multiset(ids2)[x] {
      DistinctMultiset(ids, x);
      DistinctMultiset(ids2, x);
    }
    assert multiset(ids) == multiset(ids2);
    SelectedMultiset(catalog, ids, ids2);
  }

  lemma IdsInPermutation(ids: seq<nat>, ids2: seq<nat>, n: nat)
    requires multiset(ids) == multiset(ids2)
    requires IdsIn(ids, n)
    ensures IdsIn(ids2, n)
  {
    IdsInMembers(ids, n);
    IdsInMembers(ids2, n);
    assert forall x :: x in ids2 ==> x in multiset(ids);
  }

  lemma SelectedRemove(catalog: seq<Record>, ids: seq<nat>, j: nat)
    requires IdsIn(ids, |catalog|) && j < |ids|
    ensures IdsIn(ids[..j] + ids[j + 1..], |catalog|)
    ensures SelectedRecords(catalog, ids[..j] + ids[j + 1..]) ==
            SelectedRecords(catalog, ids)[..j] + SelectedRecords(catalog, ids)[j + 1..]
  {
    var rest := ids[..j] + ids[j + 1..];
    assert forall i :: 0 <= i < |rest| ==> rest[i] == (if i < j then ids[i] else ids[i + 1]);
  }

  lemma {:induction false} SelectedMultiset(catalog: seq<Record>, ids: seq<nat>, ids2: seq<nat>)
    requires multiset(ids) == multiset(ids2)
    requires IdsIn(ids, |catalog|)
    ensures IdsIn(ids2, |catalog|)
    ensures TotalSize(SelectedRecords(catalog, ids)) == TotalSize(SelectedRecords(catalog, ids2))
    decreases |ids|
  {
    IdsInPermutation(ids, ids2, |catalog|);
    if ids != [] {
      var j := RemoveMatching(ids, ids2);
      SelectedRemove(catalog, ids2, j);
      SelectedMultiset(catalog, ids[..|ids| - 1], ids2[..j] + ids2[j + 1..]);
      TotalSizeRemove(SelectedRecords(catalog, ids2), j);
    }
  }
}
