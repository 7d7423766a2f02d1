/** The depth sort of the star array (`Stars::sort`, which calls the standard
    library's stable `sort_by` with the comparison reversed): farthest star
    first. Modelled as a stable insertion sort on sequences. */
module DepthSort {
  import opened StarModel

  /** Non-increasing depth: index 0 is the farthest star. */
  predicate SortedByDepth(s: seq<Star>) {
    forall i, j :: 0 <= i < j < |s| ==> s[i].distance >= s[j].distance
  }

  /** Insert `x` into a depth-sorted sequence before every star that is not
      farther than it, keeping equal-depth stars in their original order. */
  function Insert(x: Star, ys: seq<Star>): (r: seq<Star>)
    ensures multiset(r) == multiset(ys) + multiset{x}
  {
    if ys == [] || x.distance >= ys[0].distance then
      [x] + ys
    else
      assert ys == [ys[0]] + ys[1..];
      [ys[0]] + Insert(x, ys[1..])
  }

  /** Inserting into a sorted sequence keeps it sorted. */
  lemma {:induction false} InsertSorted(x: Star, ys: seq<Star>)
    requires SortedByDepth(ys)
    ensures SortedByDepth(Insert(x, ys))
  {
    if ys != [] && x.distance < ys[0].distance {
      var rest := Insert(x, ys[1..]);
      InsertSorted(x, ys[1..]);
      forall j | 0 <= j < |rest| ensures rest[j].distance <= ys[0].distance {
        InsertMember(x, ys[1..], rest[j]);
        if rest[j] != x {
          var i :| 0 <= i < |ys[1..]| && ys[1..][i] == rest[j];
          assert ys[i + 1] == rest[j];
        }
      }
      SortedCons(ys[0], rest);
    }
  }

  /** Every star of an insertion is the inserted one or one of the old ones. */
  lemma InsertMember(x: Star, ys: seq<Star>, z: Star)
    requires z in Insert(x, ys)
    ensures z == x || z in ys
  {
    assert z in multiset(Insert(x, ys));
  }

  /** A star at least as far as every star of a sorted sequence can go first. */
  lemma SortedCons(h: Star, t: seq<Star>)
    requires SortedByDepth(t)
    requires forall j :: 0 <= j < |t| ==> t[j].distance <= h.distance
    ensures SortedByDepth([h] + t)
  {
    var r := [h] + t;
    forall i, j | 0 <= i < j < |r| ensures r[i].distance >= r[j].distance {
      assert r[j] == t[j - 1];
      if i > 0 { assert r[i] == t[i - 1]; }
    }
  }

  /** `Stars::sort`: the stars in non-increasing depth, a permutation of the input. */
  function SortByDepth(s: seq<Star>): (r: seq<Star>)
    ensures multiset(r) == multiset(s)
    ensures |r| == |s|
    ensures SortedByDepth(r)
  {
    if s == [] then []
    else
      assert s == [s[0]] + s[1..];
      var r := Insert(s[0], SortByDepth(s[1..]));
      InsertSorted(s[0], SortByDepth(s[1..]));
      assert |r| == |multiset(r)|;
      r
  }

  /** Sorting an already sorted (hence also a freshly sorted) array changes
      nothing, so `sort` is idempotent. */
  lemma {:induction false} SortSortedIsIdentity(s: seq<Star>)
    requires SortedByDepth(s)
    ensures SortByDepth(s) == s
  {
    if s != [] {
      assert SortedByDepth(s[1..]);
      SortSortedIsIdentity(s[1..]);
      assert s == [s[0]] + s[1..];
    }
  }

  lemma SortIdempotent(s: seq<Star>)
    ensures SortByDepth(SortByDepth(s)) == SortByDepth(s)
  {
    SortSortedIsIdentity(SortByDepth(s));
  }

  /** Sorting keeps every star, so a property of every star survives it. */
  lemma SortKeepsMembers(s: seq<Star>, x: Star)
    ensures x in SortByDepth(s) <==> x in s
  {
    assert x in SortByDepth(s) <==> x in multiset(SortByDepth(s));
  }
}
