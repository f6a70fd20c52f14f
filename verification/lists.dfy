/** List helpers: building a list without repeats under a caller-supplied
    equality, as the `add_shape` lambda of `get_variations` does with
    `std::find` and the shape's `operator ==`, and concatenating lists of
    lists in order. */
module Lists {

  /** `std::find(res.begin(), res.end(), x) != res.end()`. */
  predicate Found<T>(res: seq<T>, x: T, eq: (T, T) -> bool)
  {
    exists j :: 0 <= j < |res| && eq(res[j], x)
  }

  /** No two entries of the list are equal under `eq`. */
  predicate Distinct<T>(res: seq<T>, eq: (T, T) -> bool)
  {
    forall i, j :: 0 <= i < j < |res| ==> !eq(res[i], res[j])
  }

  /** Append `x` unless an equal entry is already present. */
  function AddNew<T>(res: seq<T>, x: T, eq: (T, T) -> bool): seq<T>
  {
    if Found(res, x, eq) then res else res + [x]
  }

  /** `AddNew` keeps the list free of repeats, only ever appends, and leaves
      `x` present. */
  lemma AddNewKeeps<T>(res: seq<T>, x: T, eq: (T, T) -> bool)
    requires Distinct(res, eq) && eq(x, x)
    ensures Distinct(AddNew(res, x, eq), eq)
    ensures Found(AddNew(res, x, eq), x, eq)
    ensures AddNew(res, x, eq) == res <==> Found(res, x, eq)
    ensures !Found(res, x, eq) ==> AddNew(res, x, eq) == res + [x]
  {
    if !Found(res, x, eq) {
      var r := res + [x];
      assert r[|res|] == x;
      assert |r| != |res|;
    }
  }

  /** What is found in a prefix is found in the whole list. */
  lemma FoundPrefix<T>(a: seq<T>, b: seq<T>, eq: (T, T) -> bool)
    requires |a| <= |b| && b[..|a|] == a
    ensures forall x :: Found(a, x, eq) ==> Found(b, x, eq)
  {
    forall x | Found(a, x, eq) ensures Found(b, x, eq) {
      var j :| 0 <= j < |a| && eq(a[j], x);
      assert b[j] == a[j];
    }
  }

  /** `AddNew` applied to each candidate in turn. */
  function AddAll<T(!new)>(res: seq<T>, cands: seq<T>, eq: (T, T) -> bool): (r: seq<T>)
    requires Distinct(res, eq)
    requires forall x :: eq(x, x)
    ensures Distinct(r, eq)
    ensures |res| <= |r| <= |res| + |cands|
    ensures r[..|res|] == res
    ensures forall i :: 0 <= i < |cands| ==> Found(r, cands[i], eq)
    ensures forall j :: |res| <= j < |r| ==> r[j] in cands
    ensures |cands| > 0 && !Found(res, cands[0], eq) ==> |r| > |res| && r[|res|] == cands[0]
    decreases |cands|
  {
    if cands == [] then res
    else
      var n := |cands| - 1;
      var prev := AddAll(res, cands[..n], eq);
      AddNewKeeps(prev, cands[n], eq);
      var r := AddNew(prev, cands[n], eq);
      assert r[..|prev|] == prev;
      assert r[..|res|] == prev[..|res|];
      FoundPrefix(prev, r, eq);
      assert forall i :: 0 <= i < n ==> cands[i] == cands[..n][i];
      assert forall j :: |res| <= j < |prev| ==> r[j] == prev[j] && prev[j] in cands[..n];
      assert n == 0 && !Found(res, cands[0], eq) ==> prev == res;
      assert n > 0 ==> cands[..n][0] == cands[0];
      r
  }

  /** Starting from the empty list, the first candidate always comes first,
      and every entry is one of the candidates. */
  lemma AddAllFromEmpty<T(!new)>(cands: seq<T>, eq: (T, T) -> bool)
    requires forall x :: eq(x, x)
    requires |cands| > 0
    ensures var r := AddAll([], cands, eq);
      && 1 <= |r| <= |cands| && r[0] == cands[0]
      && forall j :: 0 <= j < |r| ==> r[j] in cands
  {
    var r := AddAll([], cands, eq);
    assert !Found([], cands[0], eq);
  }

  /** The lists one after the other, in order. */
  function Flatten<T>(ls: seq<seq<T>>): seq<T>
  {
    if ls == [] then [] else Flatten(ls[..|ls| - 1]) + ls[|ls| - 1]
  }

  /** An entry of one of the lists is an entry of the concatenation. */
  lemma {:induction false} FlattenHas<T>(ls: seq<seq<T>>, i: int, x: T)
    requires 0 <= i < |ls| && x in ls[i]
    ensures x in Flatten(ls)
    decreases |ls|
  {
    var n := |ls| - 1;
    if i < n {
      assert ls[..n][i] == ls[i];
      FlattenHas(ls[..n], i, x);
    }
  }

  /** Every entry of the concatenation comes from one of the lists. */
  lemma {:induction false} FlattenFrom<T>(ls: seq<seq<T>>, x: T)
    requires x in Flatten(ls)
    ensures exists i :: 0 <= i < |ls| && x in ls[i]
    decreases |ls|
  {
    var n := |ls| - 1;
    if x !in ls[n] {
      FlattenFrom(ls[..n], x);
      var i :| 0 <= i < n && x in ls[..n][i];
      assert ls[i] == ls[..n][i];
    }
  }

  /** Every earlier entry is `less` than every later one. */
  predicate StrictlySorted<T>(a: seq<T>, less: (T, T) -> bool)
  {
    forall i, j :: 0 <= i < j < |a| ==> less(a[i], a[j])
  }

  /** Lists with the same entries are empty together. */
  lemma SameEntriesBothEmpty<T>(a: seq<T>, b: seq<T>)
    requires forall x :: x in a <==> x in b
    ensures a == [] <==> b == []
  {
    if a != [] { assert a[0] in a; }
    if b != [] { assert b[0] in b; }
  }

  /** Two lists strictly sorted by the same asymmetric order and holding the
      same entries are the same list. */
  lemma {:induction false} SortedUnique<T(!new)>(a: seq<T>, b: seq<T>, less: (T, T) -> bool)
    requires forall x, y :: less(x, y) ==> !less(y, x)
    requires StrictlySorted(a, less) && StrictlySorted(b, less)
    requires forall x :: x in a <==> x in b
    ensures a == b
    decreases |a|
  {
    SameEntriesBothEmpty(a, b);
    if a != [] {
      assert b[0] in a && a[0] in b;
      var k :| 0 <= k < |a| && a[k] == b[0];
      var m :| 0 <= m < |b| && b[m] == a[0];
      if k > 0 {
        assert false;
      }
      assert a[0] == b[0];
      forall x ensures x in a[1..] <==> x in b[1..] {
        if x in a[1..] {
          var i :| 0 <= i < |a| - 1 && a[1..][i] == x;
          assert less(a[0], a[i + 1]);
          assert x in b;
          var j :| 0 <= j < |b| && b[j] == x;
          assert j != 0;
          assert b[1..][j - 1] == x;
        }
        if x in b[1..] {
          var i :| 0 <= i < |b| - 1 && b[1..][i] == x;
          assert less(b[0], b[i + 1]);
          assert x in a;
          var j :| 0 <= j < |a| && a[j] == x;
          assert j != 0;
          assert a[1..][j - 1] == x;
        }
      }
      SortedUnique(a[1..], b[1..], less);
      assert a == [a[0]] + a[1..] && b == [b[0]] + b[1..];
    }
  }

  /** The entries of a list, as a set. */
  function Elements<T(!new)>(s: seq<T>): (r: set<T>)
    ensures forall x :: x in r <==> x in s
  {
    set x | x in s
  }

  /** A list without repeats has as many entries as its set of entries. */
  lemma {:induction false} DistinctCount<T(!new)>(s: seq<T>)
    requires forall i, j :: 0 <= i < j < |s| ==> s[i] != s[j]
    ensures |Elements(s)| == |s|
    decreases |s|
  {
    if s != [] {
      var n := |s| - 1;
      DistinctCount(s[..n]);
      assert Elements(s) == Elements(s[..n]) + {s[n]};
      assert s[n] !in s[..n];
    }
  }
}
