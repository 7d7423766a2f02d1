/** Half-open index ranges over the star array and their coalescing
    (`Stars::merge_ranges` in crates/stars/src/lib.rs). */
module Ranges {

  /** A half-open range `[.0, .1)` of star indices (Rust `(usize, usize)`). */
  type Range = (nat, nat)

  /** Index `i` lies in some range of `rs`. */
  ghost predicate Covers(rs: seq<Range>, i: int) {
    exists r :: r in rs && r.0 <= i < r.1
  }

  /** Two lists of ranges cover the same indices. */
  ghost predicate SameCover(a: seq<Range>, b: seq<Range>) {
    forall i :: Covers(a, i) <==> Covers(b, i)
  }

  /** Every range is well-formed and within `[0, n]`. */
  predicate InBounds(rs: seq<Range>, n: nat) {
    forall r :: r in rs ==> r.0 <= r.1 <= n
  }

  predicate StartsSorted(rs: seq<Range>) {
    forall i, j :: 0 <= i < j < |rs| ==> rs[i].0 <= rs[j].0
  }

  /** Consecutive ranges are strictly apart: each ends before the next starts,
      so they neither overlap nor touch. */
  predicate Separated(rs: seq<Range>) {
    forall i :: 0 <= i < |rs| - 1 ==> rs[i].1 < rs[i + 1].0
  }

  function Max(a: nat, b: nat): nat { if a >= b then a else b }

  /** Insert `x` before the first range that starts later (stable). */
  function InsertByStart(x: Range, ys: seq<Range>): (r: seq<Range>)
    ensures multiset(r) == multiset(ys) + multiset{x}
  {
    if ys == [] || x.0 <= ys[0].0 then [x] + ys
    else
      assert ys == [ys[0]] + ys[1..];
      [ys[0]] + InsertByStart(x, ys[1..])
  }

  lemma {:induction false} InsertByStartSorted(x: Range, ys: seq<Range>)
    requires StartsSorted(ys)
    ensures StartsSorted(InsertByStart(x, ys))
  {
    if ys != [] && x.0 > ys[0].0 {
      var rest := InsertByStart(x, ys[1..]);
      InsertByStartSorted(x, ys[1..]);
      forall j | 0 <= j < |rest| ensures ys[0].0 <= rest[j].0 {
        InsertByStartMember(x, ys[1..], rest[j]);
        if rest[j] != x {
          var i :| 0 <= i < |ys[1..]| && ys[1..][i] == rest[j];
          assert ys[i + 1] == rest[j];
        }
      }
      StartsSortedCons(ys[0], rest);
    }
  }

  lemma InsertByStartMember(x: Range, ys: seq<Range>, z: Range)
    requires z in InsertByStart(x, ys)
    ensures z == x || z in ys
  {
    assert z in multiset(InsertByStart(x, ys));
  }

  lemma StartsSortedCons(h: Range, t: seq<Range>)
    requires StartsSorted(t)
    requires forall j :: 0 <= j < |t| ==> h.0 <= t[j].0
    ensures StartsSorted([h] + t)
  {
    var r := [h] + t;
    forall i, j | 0 <= i < j < |r| ensures r[i].0 <= r[j].0 {
      assert r[j] == t[j - 1];
      if i > 0 { assert r[i] == t[i - 1]; }
    }
  }

  /** `sort_by_key(|&(start, _)| start)`: a stable sort by start index. */
  function SortByStart(rs: seq<Range>): (r: seq<Range>)
    ensures multiset(r) == multiset(rs)
    ensures |r| == |rs|
    ensures StartsSorted(r)
  {
    if rs == [] then []
    else
      assert rs == [rs[0]] + rs[1..];
      var r := InsertByStart(rs[0], SortByStart(rs[1..]));
      InsertByStartSorted(rs[0], SortByStart(rs[1..]));
      assert |r| == |multiset(r)|;
      r
  }

  /** A list already sorted by start comes back unchanged: the sort is stable. */
  lemma {:induction false} SortByStartSortedIsIdentity(rs: seq<Range>)
    requires StartsSorted(rs)
    ensures SortByStart(rs) == rs
  {
    if rs != [] {
      assert StartsSorted(rs[1..]);
      SortByStartSortedIsIdentity(rs[1..]);
      assert rs == [rs[0]] + rs[1..];
    }
  }

  /** Reordering a list of ranges does not change what it covers. */
  lemma PermutationSameCover(a: seq<Range>, b: seq<Range>)
    requires multiset(a) == multiset(b)
    ensures SameCover(a, b)
  {
    forall r ensures r in a <==> r in b {
      assert r in a <==> r in multiset(a);
      assert r in b <==> r in multiset(b);
    }
  }

  /** `merge_ranges`: sort the ranges by start, then sweep, absorbing every
      range that starts at or before the end of the current one, and finally
      run the adjacency pass `JoinAdjacent`. Lists of at most one range come
      back unchanged. The result covers exactly the indices the input covers;
      it is sorted by start, its ranges are strictly apart, and well-formed
      inputs within `[0, n]` give well-formed outputs within `[0, n]`. A list
      that is already sorted and strictly apart comes back unchanged, so
      merging is idempotent (`MergeTwice`). */
  method MergeRanges(ranges: seq<Range>, starCount: nat) returns (result: seq<Range>)
    ensures |ranges| <= 1 ==> result == ranges
    ensures StartsSorted(ranges) && Separated(ranges) ==> result == ranges
    ensures |ranges| > 1 ==> 1 <= |result| <= |ranges| && StartsSorted(result) && Separated(result)
    ensures SameCover(result, ranges)
    ensures InBounds(ranges, starCount) ==> InBounds(result, starCount)
  {
    if |ranges| <= 1 {
      return ranges;
    }
    var sorted := SortByStart(ranges);
    PermutationSameCover(sorted, ranges);
    assert InBounds(ranges, starCount) ==> InBounds(sorted, starCount) by {
      forall r | r in sorted ensures r in ranges {
        assert r in multiset(sorted);
      }
    }
    if StartsSorted(ranges) {
      SortByStartSortedIsIdentity(ranges);
    }
    var swept := Sweep(sorted, starCount);
    result := JoinAdjacent(swept, starCount);
  }

  /** Merging the output of a merge changes nothing. */
  method MergeTwice(ranges: seq<Range>, starCount: nat) returns (once: seq<Range>, twice: seq<Range>)
    ensures twice == once
    ensures SameCover(once, ranges)
  {
    once := MergeRanges(ranges, starCount);
    twice := MergeRanges(once, starCount);
  }

  /** The sweep of `merge_ranges` over ranges sorted by start: keep a current
      range, extend its end over every range that starts at or before that
      end, and otherwise push it and start a new one. */
  method Sweep(sorted: seq<Range>, starCount: nat) returns (swept: seq<Range>)
    requires |sorted| > 0 && StartsSorted(sorted)
    ensures 1 <= |swept| <= |sorted|
    ensures StartsSorted(swept) && Separated(swept)
    ensures SameCover(swept, sorted)
    ensures InBounds(sorted, starCount) ==> InBounds(swept, starCount)
    ensures Separated(sorted) ==> swept == sorted
  {
    swept := [];
    var current := sorted[0];
    ghost var acc := [current];
    ghost var from := 0;
    ghost var sep := Separated(sorted);
    var k := 1;
    while k < |sorted|
      invariant 1 <= k <= |sorted|
      invariant acc == swept + [current] && |acc| <= k
      invariant from < k && current.0 == sorted[from].0
      invariant StartsSorted(acc) && Separated(acc)
      invariant SameCover(acc, sorted[..k])
      invariant InBounds(sorted, starCount) ==> InBounds(acc, starCount)
      invariant sep ==> acc == sorted[..k]
    {
      if sep {
        SweepIdentityStep(sorted, k, swept, current);
      }
      if sorted[k].0 > current.1 {
        from := k;
      }
      swept, current := SweepAdvance(swept, current, sorted[k]);
      SweepStep(acc, swept + [current], sorted[..k], sorted[k], starCount);
      acc := swept + [current];
      assert sorted[..k + 1] == sorted[..k] + [sorted[k]];
      k := k + 1;
    }
    swept := swept + [current];
    assert sorted[..k] == sorted;
  }

  /** The body of the sweep loop: a range starting at or before the current
      end extends it; any other range pushes the current one and replaces it. */
  method SweepAdvance(swept: seq<Range>, current: Range, next: Range)
    returns (swept': seq<Range>, current': Range)
    ensures next.0 <= current.1 ==> swept' == swept && current' == (current.0, Max(current.1, next.1))
    ensures current.1 < next.0 ==> swept' == swept + [current] && current' == next
  {
    var (start, end) := next;
    if start <= current.1 {
      swept', current' := swept, (current.0, Max(current.1, end));
    } else {
      swept', current' := swept + [current], (start, end);
    }
  }

  /** On strictly separated input the sweep never absorbs: the next range
      starts after the last one read ends, and is appended as it is. */
  lemma SweepIdentityStep(sorted: seq<Range>, k: nat, swept: seq<Range>, current: Range)
    requires Separated(sorted) && 1 <= k < |sorted| && swept + [current] == sorted[..k]
    ensures current.1 < sorted[k].0
    ensures (swept + [current]) + [sorted[k]] == sorted[..k + 1]
  {
    assert current == sorted[k - 1];
  }

  /** One sweep step: absorbing `next` into the last range or appending it. */
  lemma SweepStep(before: seq<Range>, after: seq<Range>, read: seq<Range>, next: Range, n: nat)
    requires |before| > 0 && StartsSorted(before) && Separated(before) && SameCover(before, read)
    requires before[|before| - 1].0 <= next.0
    requires var last := before[|before| - 1];
      || (next.0 <= last.1 && after == before[..|before| - 1] + [(last.0, Max(last.1, next.1))])
      || (last.1 < next.0 && after == before + [next])
    ensures StartsSorted(after) && Separated(after) && SameCover(after, read + [next])
    ensures InBounds(before, n) && InBounds([next], n) ==> InBounds(after, n)
  {
    var last := before[|before| - 1];
    if after != before + [next] {
      assert after == before[|before| - 1 := (last.0, Max(last.1, next.1))];
    }
    SweepStepShape(before, after, next, n);
    SweepStepCover(before, after, read, next);
  }

  /** One sweep step keeps the ranges sorted by start, strictly apart and in bounds. */
  lemma SweepStepShape(before: seq<Range>, after: seq<Range>, next: Range, n: nat)
    requires |before| > 0 && StartsSorted(before) && Separated(before)
    requires before[|before| - 1].0 <= next.0
    requires var last := before[|before| - 1];
      || (next.0 <= last.1 && after == before[|before| - 1 := (last.0, Max(last.1, next.1))])
      || (last.1 < next.0 && after == before + [next])
    ensures StartsSorted(after) && Separated(after)
    ensures InBounds(before, n) && next.0 <= next.1 <= n ==> InBounds(after, n)
  {
    var last := before[|before| - 1];
    if after == before + [next] {
      forall i, j | 0 <= i < j < |after| ensures after[i].0 <= after[j].0 {
        if j == |before| {
          assert after[i].0 <= last.0;
        }
      }
    } else {
      assert forall i :: 0 <= i < |before| - 1 ==> after[i] == before[i];
    }
    if InBounds(before, n) && next.0 <= next.1 <= n {
      assert last in before;
      forall r | r in after ensures r.0 <= r.1 <= n {
        var idx :| 0 <= idx < |after| && after[idx] == r;
        if idx < |before| - 1 { assert before[idx] in before; }
      }
    }
  }

  /** One sweep step keeps the covered set in step with the ranges read so far. */
  lemma SweepStepCover(before: seq<Range>, after: seq<Range>, read: seq<Range>, next: Range)
    requires |before| > 0 && SameCover(before, read)
    requires var last := before[|before| - 1];
      || (last.0 <= next.0 <= last.1 &&
          after == before[|before| - 1 := (last.0, Max(last.1, next.1))])
      || after == before + [next]
    ensures SameCover(after, read + [next])
  {
    var last := before[|before| - 1];
    forall i ensures Covers(after, i) <==> Covers(read + [next], i) {
      if after == before + [next] {
        if Covers(after, i) {
          var r :| r in after && r.0 <= i < r.1;
          if r == next { assert next in read + [next]; }
          else { assert r in before; assert Covers(read, i); var q :| q in read && q.0 <= i < q.1; assert q in read + [next]; }
        }
        if Covers(read + [next], i) {
          var r :| r in read + [next] && r.0 <= i < r.1;
          if r == next { assert next in after; }
          else { assert Covers(before, i); var q :| q in before && q.0 <= i < q.1; assert q in after; }
        }
      } else {
        var merged := (last.0, Max(last.1, next.1));
        var pre := before[..|before| - 1];
        assert before == pre + [last];
        assert after == pre + [merged];
        if Covers(after, i) {
          var r :| r in after && r.0 <= i < r.1;
          if r == merged {
            if i < last.1 { assert last in before; assert Covers(before, i); }
            else { assert next in read + [next]; }
          } else {
            assert r in before;
          }
          if !(next.0 <= i < next.1) {
            assert Covers(before, i);
            var q :| q in read && q.0 <= i < q.1;
            assert q in read + [next];
          } else {
            assert next in read + [next];
          }
        }
        if Covers(read + [next], i) {
          var r :| r in read + [next] && r.0 <= i < r.1;
          if r == next {
            assert merged in after;
          } else {
            assert Covers(read, i);
            var q :| q in before && q.0 <= i < q.1;
            if q == last { assert merged in after; } else { assert q in pre; assert q in after; }
          }
        }
      }
    }
  }

  /** The wrap-around pass of `merge_ranges`, as written: for `current` in
      `0..star_count` while a successor exists, a range that neither starts at
      0 nor ends at `star_count` and ends exactly where its successor starts is
      joined with it (and the successor removed). On the output of the sweep,
      whose ranges are strictly apart, the join test can never hold, so the
      pass returns its input unchanged. */
  method JoinAdjacent(merged: seq<Range>, starCount: nat) returns (result: seq<Range>)
    ensures |result| <= |merged|
    ensures |merged| < 2 ==> result == merged
    ensures Separated(merged) ==> result == merged
  {
    result := merged;
    if |result| >= 2 {
      var current := 0;
      while current < starCount
        invariant |result| <= |merged|
        invariant Separated(merged) ==> result == merged
      {
        var next := current + 1;
        if next >= |result| {
          break;
        }
        if result[current].0 == 0 || result[current].1 == starCount {
          current := current + 1;
          continue;
        }
        if result[current].1 == result[next].0 {
          result := result[current := (result[current].0, result[next].1)];
          result := result[..next] + result[next + 1..];
        }
        current := current + 1;
      }
    }
  }
}
