// A stable sort by a total preorder: the behaviour js/app.js relies on when
// it calls Array.prototype.sort with a comparator (the ECMAScript sort is
// stable). `leq(a, b)` reads "the comparator does not put b strictly before a".

module Sorting {

  ghost predicate TotalPreorder<T(!new)>(leq: (T, T) -> bool) {
    && (forall a, b :: leq(a, b) || leq(b, a))
    && (forall a, b, c :: leq(a, b) && leq(b, c) ==> leq(a, c))
  }

  predicate Sorted<T>(s: seq<T>, leq: (T, T) -> bool) {
    forall i, j :: 0 <= i < j < |s| ==> leq(s[i], s[j])
  }

  /** Inserts x into t after every element that is not strictly greater. */
  function Insert<T>(t: seq<T>, x: T, leq: (T, T) -> bool): seq<T>
  {
    if t == [] then [x]
    else if !leq(t[|t| - 1], x) then Insert(t[..|t| - 1], x, leq) + [t[|t| - 1]]
    else t + [x]
  }

  /** The stable sort of s: insertion of each element in turn. */
  function Sort<T>(s: seq<T>, leq: (T, T) -> bool): seq<T>
  {
    if s == [] then [] else Insert(Sort(s[..|s| - 1], leq), s[|s| - 1], leq)
  }

  /** The elements of s that the preorder cannot tell from e, in order. */
  function Equivalents<T>(s: seq<T>, e: T, leq: (T, T) -> bool): seq<T>
  {
    if s == [] then []
    else
      var last := s[|s| - 1];
      Equivalents(s[..|s| - 1], e, leq) + (if leq(last, e) && leq(e, last) then [last] else [])
  }

  // ---------------------------------------------------------------------------
  // Insert
  // ---------------------------------------------------------------------------

  lemma {:induction false} InsertPermutes<T>(t: seq<T>, x: T, leq: (T, T) -> bool)
    ensures multiset(Insert(t, x, leq)) == multiset(t) + multiset{x}
    decreases |t|
  {
    if t != [] {
      var init, last := t[..|t| - 1], t[|t| - 1];
      assert t == init + [last];
      if !leq(last, x) {
        InsertPermutes(init, x, leq);
      }
    }
  }

  lemma {:induction false} InsertSorted<T(!new)>(t: seq<T>, x: T, leq: (T, T) -> bool)
    requires TotalPreorder(leq)
    requires Sorted(t, leq)
    ensures Sorted(Insert(t, x, leq), leq)
    decreases |t|
  {
    if t != [] {
      var init, last := t[..|t| - 1], t[|t| - 1];
      if !leq(last, x) {
        InsertSorted(init, x, leq);
        var u := Insert(init, x, leq);
        InsertPermutes(init, x, leq);
        forall i | 0 <= i < |u| ensures leq(u[i], last) {
          assert u[i] in multiset(u);
          if u[i] != x {
            assert u[i] in multiset(init);
            var j :| 0 <= j < |init| && init[j] == u[i];
            assert t[j] == u[i];
          }
        }
        var r := u + [last];
        forall i, j | 0 <= i < j < |r| ensures leq(r[i], r[j]) {
          if j < |u| {
            assert r[i] == u[i] && r[j] == u[j];
          }
        }
      } else {
        var r := t + [x];
        forall i, j | 0 <= i < j < |r| ensures leq(r[i], r[j]) {
          if j == |t| {
            assert leq(t[i], last) || i == |t| - 1;
          }
        }
      }
    }
  }

  lemma {:induction false} InsertEquivalents<T(!new)>(t: seq<T>, x: T, e: T, leq: (T, T) -> bool)
    requires TotalPreorder(leq)
    ensures Equivalents(Insert(t, x, leq), e, leq) ==
            Equivalents(t, e, leq) + (if leq(x, e) && leq(e, x) then [x] else [])
    decreases |t|
  {
    if t == [] {
      EquivalentsSnoc([], x, e, leq);
      assert [] + [x] == [x];
    } else {
      var init, last := t[..|t| - 1], t[|t| - 1];
      assert t == init + [last];
      EquivalentsSnoc(init, last, e, leq);
      if !leq(last, x) {
        InsertEquivalents(init, x, e, leq);
        var u := Insert(init, x, leq);
        EquivalentsSnoc(u, last, e, leq);
        // x and last are not both equivalent to e, since last is strictly above x
        assert !(leq(x, e) && leq(e, x) && leq(last, e) && leq(e, last));
      } else {
        EquivalentsSnoc(t, x, e, leq);
      }
    }
  }

  lemma EquivalentsSnoc<T>(t: seq<T>, y: T, e: T, leq: (T, T) -> bool)
    ensures Equivalents(t + [y], e, leq) == Equivalents(t, e, leq) + (if leq(y, e) && leq(e, y) then [y] else [])
  {
    assert (t + [y])[..|t + [y]| - 1] == t;
  }

  // ---------------------------------------------------------------------------
  // Sort
  // ---------------------------------------------------------------------------

  /** The result is a permutation of the input. */
  lemma {:induction false} SortPermutes<T>(s: seq<T>, leq: (T, T) -> bool)
    ensures multiset(Sort(s, leq)) == multiset(s)
    decreases |s|
  {
    if s != [] {
      var init := s[..|s| - 1];
      SortPermutes(init, leq);
      InsertPermutes(Sort(init, leq), s[|s| - 1], leq);
      assert s == init + [s[|s| - 1]];
    }
  }

  /** The result is ordered by leq. */
  lemma {:induction false} SortSorted<T(!new)>(s: seq<T>, leq: (T, T) -> bool)
    requires TotalPreorder(leq)
    ensures Sorted(Sort(s, leq), leq)
    decreases |s|
  {
    if s != [] {
      SortSorted(s[..|s| - 1], leq);
      InsertSorted(Sort(s[..|s| - 1], leq), s[|s| - 1], leq);
    }
  }

  /** Stability: records the comparator ranks equal keep their relative order. */
  lemma {:induction false} SortStable<T(!new)>(s: seq<T>, e: T, leq: (T, T) -> bool)
    requires TotalPreorder(leq)
    ensures Equivalents(Sort(s, leq), e, leq) == Equivalents(s, e, leq)
    decreases |s|
  {
    if s != [] {
      var init := s[..|s| - 1];
      SortStable(init, e, leq);
      InsertEquivalents(Sort(init, leq), s[|s| - 1], e, leq);
    }
  }

  lemma {:induction false} SortOfSorted<T(!new)>(s: seq<T>, leq: (T, T) -> bool)
    requires Sorted(s, leq)
    ensures Sort(s, leq) == s
    decreases |s|
  {
    if s != [] {
      var init := s[..|s| - 1];
      assert Sorted(init, leq);
      SortOfSorted(init, leq);
      if |init| > 0 {
        assert leq(init[|init| - 1], s[|s| - 1]);
      }
      assert init + [s[|s| - 1]] == s;
    }
  }

  /** Insertion sort on a sequence, element by element, each insertion
      scanning from the back past the strictly greater elements. */
  method InsertionSort<T>(s: seq<T>, leq: (T, T) -> bool) returns (r: seq<T>)
    ensures r == Sort(s, leq)
  {
    r := [];
    var i := 0;
    while i < |s|
      invariant 0 <= i <= |s|
      invariant r == Sort(s[..i], leq)
    {
      r := InsertFromBack(r, s[i], leq);
      assert s[..i + 1][..i] == s[..i];
      i := i + 1;
    }
    assert s[..i] == s;
  }

  /** One insertion: scan back past the elements strictly greater than x and
      put x right after the last one that is not. */
  method InsertFromBack<T>(r: seq<T>, x: T, leq: (T, T) -> bool) returns (u: seq<T>)
    ensures u == Insert(r, x, leq)
  {
    var k := |r|;
    assert r[..k] == r && r[k..] == [];
    while k > 0 && !leq(r[k - 1], x)
      invariant 0 <= k <= |r|
      invariant Insert(r, x, leq) == Insert(r[..k], x, leq) + r[k..]
    {
      InsertScanStep(r, x, k, Insert(r, x, leq), leq);
      k := k - 1;
    }
    InsertScanStop(r, x, k, Insert(r, x, leq), leq);
    u := r[..k] + [x] + r[k..];
  }

  lemma InsertScanStep<T>(r: seq<T>, x: T, k: nat, w: seq<T>, leq: (T, T) -> bool)
    requires 0 < k <= |r| && !leq(r[k - 1], x)
    requires w == Insert(r[..k], x, leq) + r[k..]
    ensures w == Insert(r[..k - 1], x, leq) + r[k - 1..]
  {
    var p := r[..k];
    assert p[|p| - 1] == r[k - 1] && p[..|p| - 1] == r[..k - 1];
    assert Insert(p, x, leq) == Insert(r[..k - 1], x, leq) + [r[k - 1]];
    assert r[k - 1..] == [r[k - 1]] + r[k..];
  }

  lemma InsertScanStop<T>(r: seq<T>, x: T, k: nat, w: seq<T>, leq: (T, T) -> bool)
    requires k <= |r| && (k == 0 || leq(r[k - 1], x))
    requires w == Insert(r[..k], x, leq) + r[k..]
    ensures w == r[..k] + [x] + r[k..]
  {
    var p := r[..k];
    if k == 0 {
      assert p == [];
    } else {
      assert p[|p| - 1] == r[k - 1];
      assert Insert(p, x, leq) == p + [x];
    }
  }
}
