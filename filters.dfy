// The facet match predicate, the filtered view and the per-facet available
// options (js/app.js applyFilters and computeAvailableOptions), as
// specification functions, with the properties the filter panel relies on.

module Filters {
  import opened Catalog

  /** One facet's test: an empty selection is a wildcard, otherwise the
      record's value must be one of the selected values (OR within a facet). */
  predicate Allows(selected: set<string>, v: string) {
    selected == {} || v in selected
  }

  /** A record passes every facet's test (AND across facets). */
  predicate Matches(f: FacetSets, r: Record) {
    forall k | k in FilterKeys :: Allows(f.Get(k), FacetValue(r, k))
  }

  /** A record passes the test of every facet other than `key`. */
  predicate MatchesExcept(f: FacetSets, r: Record, key: Facet) {
    forall k | k in FilterKeys && k != key :: Allows(f.Get(k), FacetValue(r, k))
  }

  /** The catalog records that match, in catalog order. */
  function Filtered(catalog: seq<Record>, f: FacetSets): (view: seq<Record>)
    ensures |view| <= |catalog|
    ensures forall r :: r in view <==> r in catalog && Matches(f, r)
  {
    if catalog == [] then []
    else
      var last := catalog[|catalog| - 1];
      var prev := Filtered(catalog[..|catalog| - 1], f);
      assert forall r :: r in catalog <==> r in catalog[..|catalog| - 1] || r == last by {
        assert catalog == catalog[..|catalog| - 1] + [last];
      }
      if Matches(f, last) then prev + [last] else prev
  }

  /** Every value a facet takes in the catalog: the options the filter panel
      lists for it, whether or not they are currently reachable. */
  function FacetValues(catalog: seq<Record>, k: Facet): set<string> {
    set r | r in catalog :: FacetValue(r, k)
  }

  /** The values facet k still reaches under every other facet's constraint. */
  function Available(catalog: seq<Record>, f: FacetSets, k: Facet): set<string> {
    set r | r in catalog && MatchesExcept(f, r, k) :: FacetValue(r, k)
  }

  function AvailableAll(catalog: seq<Record>, f: FacetSets): (a: FacetSets)
    ensures forall k :: a.Get(k) == Available(catalog, f, k)
  {
    FacetSets(Available(catalog, f, Region), Available(catalog, f, Disk), Available(catalog, f, Band),
              Available(catalog, f, Molecule), Available(catalog, f, DataType))
  }

  // ---------------------------------------------------------------------------
  // Properties of the filtered view
  // ---------------------------------------------------------------------------

  lemma MatchesNoFilters(r: Record)
    ensures Matches(NoFilters, r)
  {
  }

  /** With every facet empty the view is the whole catalog, in order. */
  lemma {:induction false} FilteredNoFilters(catalog: seq<Record>)
    ensures Filtered(catalog, NoFilters) == catalog
    decreases |catalog|
  {
    if catalog != [] {
      FilteredNoFilters(catalog[..|catalog| - 1]);
      MatchesNoFilters(catalog[|catalog| - 1]);
    }
  }

  /** On a dense catalog the view keeps catalog order: ids strictly increase
      along it and each record is the catalog's record for its id. Together
      with the membership clause of Filtered this fixes the view. */
  lemma {:induction false} FilteredOrdered(catalog: seq<Record>, f: FacetSets)
    requires IsCatalog(catalog)
    ensures forall i, j :: 0 <= i < j < |Filtered(catalog, f)| ==>
              Filtered(catalog, f)[i].id < Filtered(catalog, f)[j].id
    ensures forall i :: 0 <= i < |Filtered(catalog, f)| ==>
              Filtered(catalog, f)[i].id < |catalog| && catalog[Filtered(catalog, f)[i].id] == Filtered(catalog, f)[i]
    decreases |catalog|
  {
    if catalog != [] {
      var n := |catalog| - 1;
      var init := catalog[..n];
      assert IsCatalog(init);
      FilteredOrdered(init, f);
      var prev := Filtered(init, f);
      assert forall i :: 0 <= i < |prev| ==> prev[i].id < n && catalog[prev[i].id] == prev[i];
    }
  }

  // ---------------------------------------------------------------------------
  // Properties of the available options
  // ---------------------------------------------------------------------------

  lemma MatchesIgnoresOwnFacet(f: FacetSets, r: Record, k: Facet, s: set<string>)
    ensures MatchesExcept(f.With(k, s), r, k) == MatchesExcept(f, r, k)
  {
  }

  /** A facet's available options never depend on that facet's own selection. */
  lemma AvailableIgnoresOwnFacet(catalog: seq<Record>, f: FacetSets, k: Facet, s: set<string>)
    ensures Available(catalog, f.With(k, s), k) == Available(catalog, f, k)
  {
    forall r ensures MatchesExcept(f.With(k, s), r, k) == MatchesExcept(f, r, k) {
      MatchesIgnoresOwnFacet(f, r, k, s);
    }
  }

  /** Every value the filtered view shows for facet k is an available option of k. */
  lemma FilteredValuesAvailable(catalog: seq<Record>, f: FacetSets, k: Facet)
    ensures forall r :: r in Filtered(catalog, f) ==> FacetValue(r, k) in Available(catalog, f, k)
  {
    forall r | r in Filtered(catalog, f) ensures FacetValue(r, k) in Available(catalog, f, k) {
      assert r in catalog && Matches(f, r);
      assert MatchesExcept(f, r, k);
    }
  }

  /** An available option always has a witness: a catalog record with that
      value that passes every other facet; and every such record's value is
      available. */
  lemma AvailableWitness(catalog: seq<Record>, f: FacetSets, k: Facet, v: string)
    ensures v in Available(catalog, f, k) <==>
            exists i :: 0 <= i < |catalog| && MatchesExcept(f, catalog[i], k) && FacetValue(catalog[i], k) == v
  {
    if v in Available(catalog, f, k) {
      var r :| r in catalog && MatchesExcept(f, r, k) && FacetValue(r, k) == v;
      var i :| 0 <= i < |catalog| && catalog[i] == r;
    }
  }

  /** Available options are always among the facet's listed values; with no
      constraint on any other facet they are all of them. */
  lemma AvailableBounds(catalog: seq<Record>, f: FacetSets, k: Facet)
    ensures Available(catalog, f, k) <= FacetValues(catalog, k)
    ensures (forall j :: j != k ==> f.Get(j) == {}) ==> Available(catalog, f, k) == FacetValues(catalog, k)
  {
    if forall j :: j != k ==> f.Get(j) == {} {
      forall v | v in FacetValues(catalog, k) ensures v in Available(catalog, f, k) {
        var r :| r in catalog && FacetValue(r, k) == v;
        assert MatchesExcept(f, r, k);
      }
    }
  }

  lemma AllowsEverything(catalog: seq<Record>, k: Facet, s: set<string>, r: Record)
    requires r in catalog
    ensures Allows(s + FacetValues(catalog, k), FacetValue(r, k))
  {
    assert FacetValue(r, k) in FacetValues(catalog, k);
  }

  /** "All" on a facet selects every listed value, so it filters exactly like
      "None" on that facet: the view and every facet's available options are
      the same (only the workflow's "some facet is active" flag differs). */
  lemma SelectAllFiltersLikeNone(catalog: seq<Record>, f: FacetSets, k: Facet, s: set<string>)
    ensures Filtered(catalog, f.With(k, s + FacetValues(catalog, k))) == Filtered(catalog, f.With(k, {}))
    ensures AvailableAll(catalog, f.With(k, s + FacetValues(catalog, k))) == AvailableAll(catalog, f.With(k, {}))
  {
    var all, none := f.With(k, s + FacetValues(catalog, k)), f.With(k, {});
    forall r | r in catalog ensures Matches(all, r) <==> Matches(none, r) {
      AllowsEverything(catalog, k, s, r);
    }
    SameTestsSameView(catalog, all, none);
    forall j ensures Available(catalog, all, j) == Available(catalog, none, j) {
      SelectAllSameAvailable(catalog, f, k, s, j);
    }
    FacetSetsExt(AvailableAll(catalog, all), AvailableAll(catalog, none));
  }

  lemma SelectAllSameAvailable(catalog: seq<Record>, f: FacetSets, k: Facet, s: set<string>, j: Facet)
    ensures Available(catalog, f.With(k, s + FacetValues(catalog, k)), j) == Available(catalog, f.With(k, {}), j)
  {
    forall r | r in catalog
      ensures MatchesExcept(f.With(k, s + FacetValues(catalog, k)), r, j) == MatchesExcept(f.With(k, {}), r, j)
    {
      AllowsEverything(catalog, k, s, r);
    }
  }

  lemma {:induction false} SameTestsSameView(catalog: seq<Record>, f: FacetSets, g: FacetSets)
    requires forall r :: r in catalog ==> (Matches(f, r) <==> Matches(g, r))
    ensures Filtered(catalog, f) == Filtered(catalog, g)
    decreases |catalog|
  {
    if catalog != [] {
      var init := catalog[..|catalog| - 1];
      assert forall r :: r in init ==> r in catalog;
      SameTestsSameView(init, f, g);
    }
  }
}
