// state.selectedIds is a JavaScript Set of record ids. A Set iterates in
// insertion order, and generateScript emits records in that order, so the set
// is modelled as a duplicate-free sequence in insertion order. This module
// gives Set.add / Set.delete on that representation, the loops js/app.js runs
// over the shown rows (select-all-shown, header uncheck), and the header
// checkbox's tri-state (updateHeaderCheckbox).

module Selection {

  predicate Distinct(s: seq<nat>) {
    forall i, j :: 0 <= i < j < |s| ==> s[i] != s[j]
  }

  /** Set.prototype.add: a new id goes to the end, a present one stays put. */
  function SetAdd(s: seq<nat>, x: nat): (r: seq<nat>)
    ensures Distinct(s) ==> Distinct(r)
    ensures forall y :: y in r <==> y in s || y == x
    ensures |s| <= |r| && r[..|s|] == s
  {
    if x in s then s else s + [x]
  }

  /** The elements of s outside xs, in their order in s. */
  function Without(s: seq<nat>, xs: set<nat>): (r: seq<nat>)
    ensures forall y :: y in r <==> y in s && y !in xs
    ensures Distinct(s) ==> Distinct(r)
    ensures |r| <= |s|
  {
    if s == [] then []
    else
      var init, last := s[..|s| - 1], s[|s| - 1];
      var prev := Without(init, xs);
      assert s == init + [last];
      assert forall y :: y in s <==> y in init || y == last;
      assert Distinct(s) ==> Distinct(init) && last !in init;
      if last in xs then prev else prev + [last]
  }

  /** Deleting from a concatenation deletes from each part in place, so the
      kept elements stay in their order. */
  lemma {:induction false} WithoutAppend(a: seq<nat>, b: seq<nat>, xs: set<nat>)
    ensures Without(a + b, xs) == Without(a, xs) + Without(b, xs)
    decreases |b|
  {
    if b == [] {
      assert a + b == a;
    } else {
      var init := b[..|b| - 1];
      assert (a + b)[..|a + b| - 1] == a + init;
      assert (a + b)[|a + b| - 1] == b[|b| - 1];
      WithoutAppend(a, init, xs);
    }
  }

  /** One element is kept exactly when it is not deleted. */
  lemma WithoutSingle(y: nat, xs: set<nat>)
    ensures Without([y], xs) == if y in xs then [] else [y]
  {
    assert [y][..0] == [];
  }

  /** Set.prototype.delete: only x leaves; everything else keeps its order. */
  function SetDelete(s: seq<nat>, x: nat): seq<nat> {
    Without(s, {x})
  }

  /** ids.forEach(id => set.add(id)). */
  function AddAll(s: seq<nat>, ids: seq<nat>): seq<nat>
  {
    if ids == [] then s else SetAdd(AddAll(s, ids[..|ids| - 1]), ids[|ids| - 1])
  }

  /** Adding ids one by one gives the old selection as a prefix, then the ids
      not yet there; exactly the old and the new ids are members, and a
      duplicate-free selection stays duplicate-free. */
  lemma {:induction false} AddAllSpec(s: seq<nat>, ids: seq<nat>)
    ensures forall y :: y in AddAll(s, ids) <==> y in s || y in ids
    ensures Distinct(s) ==> Distinct(AddAll(s, ids))
    ensures |s| <= |AddAll(s, ids)| && AddAll(s, ids)[..|s|] == s
    decreases |ids|
  {
    if ids != [] {
      var init, last := ids[..|ids| - 1], ids[|ids| - 1];
      AddAllSpec(s, init);
      var prev := AddAll(s, init);
      assert ids == init + [last];
      assert forall y :: y in ids <==> y in init || y == last;
      var r := SetAdd(prev, last);
      assert r[..|s|] == r[..|prev|][..|s|];
    }
  }

  /** ids.forEach(id => set.delete(id)). */
  function DeleteAll(s: seq<nat>, ids: seq<nat>): seq<nat>
  {
    if ids == [] then s else SetDelete(DeleteAll(s, ids[..|ids| - 1]), ids[|ids| - 1])
  }

  lemma {:induction false} WithoutTwice(s: seq<nat>, xs: set<nat>, ys: set<nat>)
    ensures Without(Without(s, xs), ys) == Without(s, xs + ys)
    decreases |s|
  {
    if s != [] {
      var init, last := s[..|s| - 1], s[|s| - 1];
      WithoutTwice(init, xs, ys);
      var p := Without(init, xs);
      if last !in xs {
        assert (p + [last])[..|p + [last]| - 1] == p;
      }
    }
  }

  lemma {:induction false} WithoutNothing(s: seq<nat>)
    ensures Without(s, {}) == s
    decreases |s|
  {
    if s != [] {
      WithoutNothing(s[..|s| - 1]);
      assert s == s[..|s| - 1] + [s[|s| - 1]];
    }
  }

  /** The ids of a sequence as a set. */
  function IdSet(ids: seq<nat>): (xs: set<nat>)
    ensures forall x :: x in xs <==> x in ids
  {
    if ids == [] then {}
    else
      assert ids == ids[..|ids| - 1] + [ids[|ids| - 1]];
      IdSet(ids[..|ids| - 1]) + {ids[|ids| - 1]}
  }

  /** Unchecking the header deletes exactly the shown ids: what stays is the
      old selection minus the shown ids, in its old order, so selections the
      filters hide survive. */
  lemma {:induction false} DeleteAllIsWithout(s: seq<nat>, ids: seq<nat>)
    ensures DeleteAll(s, ids) == Without(s, IdSet(ids))
    decreases |ids|
  {
    if ids == [] {
      WithoutNothing(s);
    } else {
      var init, last := ids[..|ids| - 1], ids[|ids| - 1];
      DeleteAllIsWithout(s, init);
      WithoutTwice(s, IdSet(init), {last});
    }
  }

  // ---------------------------------------------------------------------------
  // The header checkbox
  // ---------------------------------------------------------------------------

  /** shownIds.every(id => selectedIds.has(id)). */
  function Every(ids: seq<nat>, selected: seq<nat>): (b: bool)
    ensures b <==> forall x :: x in ids ==> x in selected
  {
    if ids == [] then true
    else
      assert forall x :: x in ids <==> x == ids[0] || x in ids[1..] by {
        assert ids == [ids[0]] + ids[1..];
      }
      ids[0] in selected && Every(ids[1..], selected)
  }

  /** shownIds.some(id => selectedIds.has(id)). */
  function Any(ids: seq<nat>, selected: seq<nat>): (b: bool)
    ensures b <==> exists x :: x in ids && x in selected
  {
    if ids == [] then false
    else
      assert forall x :: x in ids <==> x == ids[0] || x in ids[1..] by {
        assert ids == [ids[0]] + ids[1..];
      }
      ids[0] in selected || Any(ids[1..], selected)
  }

  datatype HeaderCheckbox = HeaderCheckbox(checked: bool, indeterminate: bool)

  /** The header checkbox for the shown ids and the selection. */
  function HeaderState(shown: seq<nat>, selected: seq<nat>): (h: HeaderCheckbox)
    ensures shown == [] ==> !h.checked && !h.indeterminate
    ensures shown != [] ==> (h.checked <==> forall x :: x in shown ==> x in selected)
    ensures h.indeterminate <==>
              (exists x :: x in shown && x in selected) && !(forall x :: x in shown ==> x in selected)
    ensures !(h.checked && h.indeterminate)
  {
    if shown == [] then HeaderCheckbox(false, false)
    else
      var all := Every(shown, selected);
      var some := Any(shown, selected);
      HeaderCheckbox(all, !all && some)
  }

  /** After "select all shown" (or checking the header) the header is checked. */
  lemma SelectAllShownChecksHeader(selected: seq<nat>, shown: seq<nat>)
    requires shown != []
    ensures HeaderState(shown, AddAll(selected, shown)) == HeaderCheckbox(true, false)
  {
    AddAllSpec(selected, shown);
  }

  /** After unchecking the header it is neither checked nor indeterminate. */
  lemma UncheckHeaderClearsHeader(selected: seq<nat>, shown: seq<nat>)
    ensures HeaderState(shown, DeleteAll(selected, shown)) == HeaderCheckbox(false, false)
  {
    DeleteAllIsWithout(selected, shown);
    if shown != [] {
      assert shown[0] in shown && shown[0] !in DeleteAll(selected, shown);
    }
  }
}
