/** The tier scheduler (`Stars::get_update_ranges` in crates/stars/src/lib.rs):
    which circular index ranges of the depth-sorted star array are recomputed
    on a given frame. The floating-point `ceil` of the source is exact
    integer ceiling division here. */
module Scheduler {
  import opened Ranges
  import StarModel

  /** One row of `UPDATE_TIERS`: the percent band `[lo, hi)` counted back from
      the nearest-index cursor, and the frame interval at 60 fps. */
  datatype Tier = Tier(lo: nat, hi: nat, interval: nat)

  const UPDATE_TIERS: seq<Tier> :=
    [Tier(0, 10, 1), Tier(10, 30, 2), Tier(30, 60, 4), Tier(60, 100, 8)]

  predicate ValidTier(t: Tier) {
    t.lo <= t.hi <= 100 && t.interval >= 1
  }

  /** Ceiling of `a / b`. */
  function CeilDiv(a: nat, b: nat): (r: nat)
    requires b > 0
    ensures r * b >= a
    ensures r > 0 ==> (r - 1) * b < a
  {
    (a + b - 1) / b
  }

  lemma CeilDivMonotone(a1: nat, a2: nat, b: nat)
    requires b > 0 && a1 <= a2
    ensures CeilDiv(a1, b) <= CeilDiv(a2, b)
  {
    var r1, r2 := CeilDiv(a1, b), CeilDiv(a2, b);
    if r1 > r2 {
      assert (r1 - 1) * b >= r2 * b by {
        assert r1 - 1 >= r2;
        MulMonotone(r2, r1 - 1, b);
      }
    }
  }

  lemma MulMonotone(x: nat, y: nat, b: nat)
    requires x <= y
    ensures x * b <= y * b
  {
  }

  /** The frame interval of a tier at `fpsLimit`: `ceil(interval * fps / 60)`,
      so a tier keeps its number of redraws per wall-clock second. It is
      at least 1 whenever the fps limit is, so the `assert_ne!` never fails. */
  function FrameInterval(t: Tier, fpsLimit: nat): (r: nat)
    ensures r * StarModel.DEFAULT_MAX_FPS >= t.interval * fpsLimit
    ensures r > 0 ==> (r - 1) * StarModel.DEFAULT_MAX_FPS < t.interval * fpsLimit
    ensures t.interval >= 1 && fpsLimit >= 1 ==> r >= 1
  {
    CeilDiv(t.interval * fpsLimit, StarModel.DEFAULT_MAX_FPS)
  }

  /** A tier contributes on frames that are a multiple of its interval. */
  predicate Fires(t: Tier, frame: nat, fpsLimit: nat)
    requires t.interval >= 1 && fpsLimit >= 1
  {
    frame % FrameInterval(t, fpsLimit) == 0
  }

  /** `ceil(star_count * percent / 100)`. */
  function BandCount(n: nat, percent: nat): nat {
    CeilDiv(n * percent, 100)
  }

  /** How many places index `i` lies behind the cursor, counting circularly
      over `n` stars; the cursor's own index counts as a full turn `n`. */
  function Back(i: int, nearest: nat, n: nat): (b: int)
    requires n > 0
    ensures 1 <= b <= n
  {
    n - (i - nearest) % n
  }

  /** The band of tier `t`: the indices more than `ceil(n * lo / 100)` and at
      most `ceil(n * hi / 100)` places behind the cursor. */
  predicate InBand(i: int, t: Tier, nearest: nat, n: nat)
    requires n > 0
  {
    0 <= i < n && BandCount(n, t.lo) < Back(i, nearest, n) <= BandCount(n, t.hi)
  }

  /** The ranges one firing tier pushes, as the source writes them: the raw
      range from `(nearest - hi) mod n` to `(nearest - lo) mod n`, split in two
      when it wraps. The wrap test `start >= end && !(start == 0 && end == 0)`
      cannot tell an empty band from one that spans the whole array. */
  function TierRangesAsWritten(t: Tier, n: nat, nearest: nat): (r: seq<Range>)
    requires n > 0
    ensures InBounds(r, n) && 1 <= |r| <= 2
  {
    var start := (nearest - BandCount(n, t.hi)) % n;
    var end := (nearest - BandCount(n, t.lo)) % n;
    if start >= end && !(start == 0 && end == 0) then
      [(start, n)] + (if end > 0 then [(0, end)] else [])
    else
      [(start, end)]
  }

  /** The ranges one firing tier pushes, with the wrap test decided by the
      band width instead: an empty band yields the empty range `(start, start)`
      and a band as wide as the array yields all of it. */
  function TierRanges(t: Tier, n: nat, nearest: nat): (r: seq<Range>)
    requires n > 0
    ensures InBounds(r, n) && 1 <= |r| <= 2
  {
    var start := (nearest - BandCount(n, t.hi)) % n;
    var end := (nearest - BandCount(n, t.lo)) % n;
    if start >= end && BandCount(n, t.lo) != BandCount(n, t.hi) then
      [(start, n)] + (if end > 0 then [(0, end)] else [])
    else
      [(start, end)]
  }

  /** The source's scheduler panics when the fps limit is zero (the interval
      assertion) and when a tier fires on an empty star array (`% 0`). */
  predicate SchedulerDefined(tiers: seq<Tier>, frame: nat, fpsLimit: nat, n: nat) {
    && fpsLimit >= 1
    && (forall t :: t in tiers ==> ValidTier(t))
    && (n == 0 ==> forall t :: t in tiers ==> !Fires(t, frame, fpsLimit))
  }

  /** The ranges `get_update_ranges` collects before merging: every firing
      tier's ranges, in table order. */
  function Schedule(tiers: seq<Tier>, frame: nat, fpsLimit: nat, n: nat, nearest: nat): (r: seq<Range>)
    requires SchedulerDefined(tiers, frame, fpsLimit, n)
    ensures InBounds(r, n)
    ensures |r| <= 2 * |tiers|
  {
    if tiers == [] then []
    else
      var t := tiers[|tiers| - 1];
      assert t in tiers;
      Schedule(tiers[..|tiers| - 1], frame, fpsLimit, n, nearest)
        + (if Fires(t, frame, fpsLimit) then TierRanges(t, n, nearest) else [])
  }

  /** The tier loop of `get_update_ranges`: for each tier of `UPDATE_TIERS`
      whose interval divides the frame, push its ranges. The result lies in
      `[0, n]` and covers exactly the union of the bands of the firing tiers. */
  method ScheduleTiers(frame: nat, fpsLimit: nat, starCount: nat, nearest: nat)
    returns (ranges: seq<Range>)
    requires SchedulerDefined(UPDATE_TIERS, frame, fpsLimit, starCount)
    ensures ranges == Schedule(UPDATE_TIERS, frame, fpsLimit, starCount, nearest)
    ensures InBounds(ranges, starCount)
    ensures forall i :: Covers(ranges, i) <==> ScheduledIndex(UPDATE_TIERS, frame, fpsLimit, starCount, nearest, i)
  {
    ranges := [];
    var k := 0;
    while k < |UPDATE_TIERS|
      invariant 0 <= k <= |UPDATE_TIERS|
      invariant ranges == Schedule(UPDATE_TIERS[..k], frame, fpsLimit, starCount, nearest)
    {
      var t := UPDATE_TIERS[k];
      assert t in UPDATE_TIERS;
      var frameInterval := FrameInterval(t, fpsLimit);
      assert UPDATE_TIERS[..k + 1][..k] == UPDATE_TIERS[..k];
      assert Schedule(UPDATE_TIERS[..k + 1], frame, fpsLimit, starCount, nearest)
          == Schedule(UPDATE_TIERS[..k], frame, fpsLimit, starCount, nearest)
             + (if Fires(t, frame, fpsLimit) then TierRanges(t, starCount, nearest) else []);
      if frame % frameInterval == 0 {
        ranges := PushTierRanges(ranges, t, starCount, nearest);
      }
      k := k + 1;
    }
    assert UPDATE_TIERS[..k] == UPDATE_TIERS;
    ScheduleExact(UPDATE_TIERS, frame, fpsLimit, starCount, nearest);
  }

  /** The body of the tier loop for a firing tier: push `(start, end)`, or
      `(start, n)` and, if `end > 0`, `(0, end)` when the band wraps. The wrap
      is decided by the corrected test; `AsWrittenAgreesFrom4` shows the
      written test gives the same ranges from four stars on. */
  method PushTierRanges(ranges: seq<Range>, t: Tier, starCount: nat, nearest: nat)
    returns (pushed: seq<Range>)
    requires starCount > 0
    ensures pushed == ranges + TierRanges(t, starCount, nearest)
  {
    pushed := ranges;
    var start := (nearest - BandCount(starCount, t.hi)) % starCount;
    var end := (nearest - BandCount(starCount, t.lo)) % starCount;
    if start >= end && BandCount(starCount, t.lo) != BandCount(starCount, t.hi) {
      pushed := pushed + [(start, starCount)];
      if end > 0 {
        pushed := pushed + [(0, end)];
      }
    } else {
      pushed := pushed + [(start, end)];
    }
  }

  /** Index `i` lies in the band of some firing tier. */
  ghost predicate ScheduledIndex(tiers: seq<Tier>, frame: nat, fpsLimit: nat, n: nat, nearest: nat, i: int)
    requires SchedulerDefined(tiers, frame, fpsLimit, n)
  {
    exists t :: t in tiers && Fires(t, frame, fpsLimit) && n > 0 && InBand(i, t, nearest, n)
  }

  /** The collected ranges are in bounds and cover exactly the bands of the
      firing tiers. */
  lemma {:induction false} ScheduleExact(tiers: seq<Tier>, frame: nat, fpsLimit: nat, n: nat, nearest: nat)
    requires SchedulerDefined(tiers, frame, fpsLimit, n)
    ensures InBounds(Schedule(tiers, frame, fpsLimit, n, nearest), n)
    ensures forall i :: Covers(Schedule(tiers, frame, fpsLimit, n, nearest), i)
                 <==> ScheduledIndex(tiers, frame, fpsLimit, n, nearest, i)
  {
    if tiers != [] {
      var init := tiers[..|tiers| - 1];
      var t := tiers[|tiers| - 1];
      assert t in tiers;
      assert forall u :: u in init ==> u in tiers;
      ScheduleExact(init, frame, fpsLimit, n, nearest);
      var head := Schedule(init, frame, fpsLimit, n, nearest);
      var tail := if Fires(t, frame, fpsLimit) then TierRanges(t, n, nearest) else [];
      if Fires(t, frame, fpsLimit) {
        TierRangesExact(t, n, nearest);
      }
      forall i ensures Covers(head + tail, i) <==> ScheduledIndex(tiers, frame, fpsLimit, n, nearest, i) {
        CoversConcat(head, tail, i);
        if ScheduledIndex(tiers, frame, fpsLimit, n, nearest, i) {
          var u :| u in tiers && Fires(u, frame, fpsLimit) && n > 0 && InBand(i, u, nearest, n);
          if u != t {
            assert u in init;
            assert ScheduledIndex(init, frame, fpsLimit, n, nearest, i);
          }
        }
        if ScheduledIndex(init, frame, fpsLimit, n, nearest, i) {
          var u :| u in init && Fires(u, frame, fpsLimit) && n > 0 && InBand(i, u, nearest, n);
          assert u in tiers;
        }
      }
    }
  }

  lemma CoversConcat(a: seq<Range>, b: seq<Range>, i: int)
    ensures Covers(a + b, i) <==> Covers(a, i) || Covers(b, i)
  {
    if Covers(a + b, i) {
      var r :| r in a + b && r.0 <= i < r.1;
      assert r in a || r in b;
    }
    if Covers(a, i) {
      var r :| r in a && r.0 <= i < r.1;
      assert r in a + b;
    }
    if Covers(b, i) {
      var r :| r in b && r.0 <= i < r.1;
      assert r in a + b;
    }
  }

  // ---- modular arithmetic ----

  lemma ModUnique(x: int, n: int, k: int, r: int)
    requires n > 0 && 0 <= r < n && x == k * n + r
    ensures x % n == r
  {
    var q, m := x / n, x % n;
    assert x == q * n + m;
    assert (q - k) * n == r - m;
    if q - k >= 1 {
      MulMonotone(1, q - k, n);
    } else if k - q >= 1 {
      assert (k - q) * n == m - r;
      MulMonotone(1, k - q, n);
    }
  }

  /** Adding a multiple of `n` does not change a remainder. */
  lemma ModAddMultiple(x: int, k: int, n: int)
    requires n > 0
    ensures (x + k * n) % n == x % n
  {
    var y := x % n;
    assert x == (x / n) * n + y;
    assert x + k * n == (x / n + k) * n + y;
    ModUnique(x + k * n, n, x / n + k, y);
  }

  lemma ModSmall(x: int, n: int)
    requires n > 0 && -n <= x < n
    ensures x % n == if x >= 0 then x else x + n
  {
    if x >= 0 { ModUnique(x, n, 0, x); } else { ModUnique(x, n, -1, x + n); }
  }

  /** A firing tier's ranges lie in `[0, n]` and cover exactly its band. */
  lemma TierRangesExact(t: Tier, n: nat, nearest: nat)
    requires n > 0 && ValidTier(t)
    ensures InBounds(TierRanges(t, n, nearest), n)
    ensures forall i :: Covers(TierRanges(t, n, nearest), i) <==> InBand(i, t, nearest, n)
  {
    TierEnds(t, n, nearest);
    forall i ensures Covers(TierRanges(t, n, nearest), i) <==> InBand(i, t, nearest, n) {
      TierRangeAt(t, n, nearest, i);
    }
  }

  /** The band counts grow with the percentage and reach `n` at 100. */
  lemma BandCountsOrdered(n: nat, lo: nat, hi: nat)
    requires lo <= hi <= 100
    ensures BandCount(n, lo) <= BandCount(n, hi) <= n
    ensures BandCount(n, 100) == n
  {
    MulMonotone(lo, hi, n);
    MulMonotone(hi, 100, n);
    CeilDivMonotone(n * lo, n * hi, 100);
    CeilDivMonotone(n * hi, n * 100, 100);
    assert CeilDiv(n * 100, 100) == n;
  }

  /** `(x - c) mod n` computed with `x` reduced modulo `n` first. */
  lemma ModOffset(x: int, c: int, n: int)
    requires n > 0 && -n <= x % n - c < n
    ensures (x - c) % n == if x % n >= c then x % n - c else x % n - c + n
  {
    var q := x % n;
    assert x == (x / n) * n + q;
    ModAddMultiple(q - c, x / n, n);
    assert x - c == (q - c) + (x / n) * n;
    ModSmall(q - c, n);
  }

  /** The two ends of the raw range, written with the cursor reduced modulo `n`. */
  lemma TierEnds(t: Tier, n: nat, nearest: nat)
    requires n > 0 && ValidTier(t)
    ensures BandCount(n, t.lo) <= BandCount(n, t.hi) <= n
    ensures var q, L, H := nearest % n, BandCount(n, t.lo), BandCount(n, t.hi);
      && (nearest - H) % n == (if q >= H then q - H else q - H + n)
      && (nearest - L) % n == (if q >= L then q - L else q - L + n)
  {
    BandCountsOrdered(n, t.lo, t.hi);
    ModOffset(nearest, BandCount(n, t.hi), n);
    ModOffset(nearest, BandCount(n, t.lo), n);
  }

  /** `Back` with the cursor reduced modulo `n`. */
  lemma BackFormula(i: int, nearest: nat, n: nat)
    requires 0 <= i < n
    ensures var q := nearest % n;
      Back(i, nearest, n) == if i >= q then n - i + q else q - i
  {
    var q := nearest % n;
    ModAddMultiple(i - q, -(nearest / n), n);
    assert nearest == (nearest / n) * n + q;
    assert i - nearest == (i - q) + -(nearest / n) * n;
    ModSmall(i - q, n);
  }

  lemma TierRangeAt(t: Tier, n: nat, nearest: nat, i: int)
    requires n > 0 && ValidTier(t)
    ensures InBounds(TierRanges(t, n, nearest), n)
    ensures Covers(TierRanges(t, n, nearest), i) <==> InBand(i, t, nearest, n)
  {
    TierEnds(t, n, nearest);
    var L, H := BandCount(n, t.lo), BandCount(n, t.hi);
    var start := (nearest - H) % n;
    var end := (nearest - L) % n;
    var rs := TierRanges(t, n, nearest);
    var split := start >= end && L != H;
    assert rs == if split then [(start, n)] + (if end > 0 then [(0, end)] else []) else [(start, end)];
    var inRanges := if split then start <= i < n || 0 <= i < end else start <= i < end;
    if 0 <= i < n {
      BackFormula(i, nearest, n);
      BandArithmetic(i, n, nearest % n, L, H, start, end, Back(i, nearest, n));
    }
    assert Covers(rs, i) <==> inRanges by {
      if Covers(rs, i) {
        var r :| r in rs && r.0 <= i < r.1;
      }
      if inRanges {
        if split {
          if i >= start { assert (start, n) in rs; } else { assert (0, end) in rs; }
        } else {
          assert (start, end) in rs;
        }
      }
    }
  }

  /** The linear core of `TierRangesExact`: with the cursor reduced to `q`,
      the split ranges contain exactly the indices whose distance behind the
      cursor lies in `(L, H]`. */
  lemma BandArithmetic(i: int, n: int, q: int, L: int, H: int, start: int, end: int, back: int)
    requires 0 <= q < n && 0 <= L <= H <= n && 0 <= i < n
    requires start == if q >= H then q - H else q - H + n
    requires end == if q >= L then q - L else q - L + n
    requires back == if i >= q then n - i + q else q - i
    ensures (L < back <= H) <==>
      if start >= end && L != H then start <= i < n || 0 <= i < end else start <= i < end
  {
  }

  // ---- properties of the full table ----

  /** The bands of `UPDATE_TIERS` follow each other without gap from the
      cursor back to a full turn. */
  lemma UpdateTiersPartition(n: nat)
    ensures BandCount(n, 0) == 0 && BandCount(n, 100) == n
    ensures BandCount(n, 10) <= BandCount(n, 30) <= BandCount(n, 60) <= BandCount(n, 100)
    ensures forall t :: t in UPDATE_TIERS ==> ValidTier(t)
  {
    BandCountsOrdered(n, 0, 10);
    BandCountsOrdered(n, 10, 30);
    BandCountsOrdered(n, 30, 60);
    BandCountsOrdered(n, 60, 100);
  }

  /** On a frame where every tier fires (frame 0, as in the constructor), the
      scheduled ranges cover every star index. */
  lemma {:induction false} AllTiersCoverAll(frame: nat, fpsLimit: nat, n: nat, nearest: nat)
    requires n > 0 && fpsLimit >= 1
    requires forall t :: t in UPDATE_TIERS ==> t.interval >= 1 && Fires(t, frame, fpsLimit)
    ensures SchedulerDefined(UPDATE_TIERS, frame, fpsLimit, n)
    ensures forall i :: 0 <= i < n ==> Covers(Schedule(UPDATE_TIERS, frame, fpsLimit, n, nearest), i)
  {
    UpdateTiersPartition(n);
    ScheduleExact(UPDATE_TIERS, frame, fpsLimit, n, nearest);
    forall i | 0 <= i < n
      ensures ScheduledIndex(UPDATE_TIERS, frame, fpsLimit, n, nearest, i)
    {
      var b := Back(i, nearest, n);
      var t := if b <= BandCount(n, 10) then UPDATE_TIERS[0]
        else if b <= BandCount(n, 30) then UPDATE_TIERS[1]
        else if b <= BandCount(n, 60) then UPDATE_TIERS[2]
        else UPDATE_TIERS[3];
      assert t in UPDATE_TIERS && InBand(i, t, nearest, n);
    }
  }

  /** Every tier fires on frame 0. */
  lemma FrameZeroFiresAll(fpsLimit: nat)
    requires fpsLimit >= 1
    ensures forall t :: t in UPDATE_TIERS ==> t.interval >= 1 && Fires(t, 0, fpsLimit)
  {
  }

  /** Frame 0, with any cursor, schedules every star. */
  lemma FrameZeroSchedulesAll(fpsLimit: nat, n: nat, nearest: nat)
    requires n > 0 && fpsLimit >= 1
    ensures SchedulerDefined(UPDATE_TIERS, 0, fpsLimit, n)
    ensures forall i :: 0 <= i < n ==> ScheduledIndex(UPDATE_TIERS, 0, fpsLimit, n, nearest, i)
  {
    FrameZeroFiresAll(fpsLimit);
    AllTiersCoverAll(0, fpsLimit, n, nearest);
    ScheduleExact(UPDATE_TIERS, 0, fpsLimit, n, nearest);
  }

  /** At 60 fps the intervals are 1, 2, 4 and 8 frames, so every eighth frame
      refreshes every tier. */
  lemma Every8thFrameAt60(frame: nat)
    requires frame % 8 == 0
    ensures forall t :: t in UPDATE_TIERS ==> t.interval >= 1 && Fires(t, frame, 60)
  {
    assert FrameInterval(UPDATE_TIERS[0], 60) == 1;
    assert FrameInterval(UPDATE_TIERS[1], 60) == 2;
    assert FrameInterval(UPDATE_TIERS[2], 60) == 4;
    assert FrameInterval(UPDATE_TIERS[3], 60) == 8;
    var k := frame / 8;
    assert frame == k * 8;
    ModUnique(frame, 2, k * 4, 0);
    ModUnique(frame, 4, k * 2, 0);
  }

  /** With 100 stars and the cursor at 5, the nearest tier wraps into two
      ranges and the second tier's band is the single range `[75, 95)`: both
      are counted back from the cursor. These are the exact-ceiling band
      counts; in f32 the 30% count of 100 stars is 31, giving `[74, 95)`. */
  lemma WrapAroundExample()
    ensures TierRanges(UPDATE_TIERS[0], 100, 5) == [(95, 100), (0, 5)]
    ensures TierRanges(UPDATE_TIERS[1], 100, 5) == [(75, 95)]
  {
    assert BandCount(100, 0) == 0 && BandCount(100, 10) == 10 && BandCount(100, 30) == 30;
    ModSmall(-5, 100);
    ModSmall(-25, 100);
  }

  // ---- the wrap test as written ----

  /** With a single star every tier of `UPDATE_TIERS`, as written, yields the
      empty range `(0, 0)`: its first band spans the whole array, so `start`
      and `end` are both 0 and the range is dropped. The lone star is never
      scheduled outside keyframes. */
  lemma AsWrittenSingleStarUnscheduled(nearest: nat)
    ensures forall t :: t in UPDATE_TIERS ==> TierRangesAsWritten(t, 1, nearest) == [(0, 0)]
    ensures InBand(0, UPDATE_TIERS[0], nearest, 1)
  {
    forall x: int ensures x % 1 == 0 { ModUnique(x, 1, x, 0); }
  }

  /** With three stars and the cursor at 2, the band `[10, 30)` of
      `UPDATE_TIERS` is empty, yet as written it schedules every star. */
  lemma AsWrittenEmptyBandSchedulesAll()
    ensures forall i :: !InBand(i, UPDATE_TIERS[1], 2, 3)
    ensures TierRangesAsWritten(UPDATE_TIERS[1], 3, 2) == [(1, 3), (0, 1)]
  {
    assert BandCount(3, 10) == 1 && BandCount(3, 30) == 1;
    ModSmall(1, 3);
  }

  /** The two wrap tests agree except where `start == end`. */
  lemma AsWrittenAgreesAwayFromEqualEnds(t: Tier, n: nat, nearest: nat)
    requires n > 0 && ValidTier(t)
    requires (nearest - BandCount(n, t.hi)) % n != (nearest - BandCount(n, t.lo)) % n
    ensures TierRangesAsWritten(t, n, nearest) == TierRanges(t, n, nearest)
  {
  }

  /** From four stars on, every band of `UPDATE_TIERS` is non-empty and
      narrower than the array, so `start != end` and the written wrap test
      gives the same ranges as the corrected one. */
  lemma AsWrittenAgreesFrom4(n: nat, nearest: nat, k: nat)
    requires n >= 4 && k < |UPDATE_TIERS|
    ensures TierRangesAsWritten(UPDATE_TIERS[k], n, nearest) == TierRanges(UPDATE_TIERS[k], n, nearest)
  {
    var t := UPDATE_TIERS[k];
    UpdateTiersPartition(n);
    assert t in UPDATE_TIERS;
    TierEnds(t, n, nearest);
    var L, H := BandCount(n, t.lo), BandCount(n, t.hi);
    assert 0 < H - L < n;
    AsWrittenAgreesAwayFromEqualEnds(t, n, nearest);
  }

  /** With the corrected test, a single star is always scheduled on frames
      where the first tier fires. */
  lemma SingleStarScheduled(nearest: nat)
    ensures Covers(TierRanges(UPDATE_TIERS[0], 1, nearest), 0)
  {
    TierRangesExact(UPDATE_TIERS[0], 1, nearest);
  }
}
