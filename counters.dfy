/** The frame and time counters (`Counters` in src/counters.rs): a frame
    counter, a per-second snapshot refreshed every `MAX_FPS` frames, and a
    ring of the last `MAX_FPS` frame times. The clock reading is a parameter. */
module Counters {

  const MAX_FPS: nat := 60

  /** The last `k` elements of `s`. */
  function Latest(s: seq<real>, k: nat): seq<real>
    requires k <= |s|
  {
    s[|s| - k..]
  }

  function Min(a: nat, b: nat): nat { if a <= b then a else b }

  /** `push` onto a ring buffer of capacity `cap` (oldest sample first):
      below capacity the sample is appended; at capacity the oldest sample is
      overwritten. The result holds the latest samples of `ring + [x]`. */
  function RingPush(ring: seq<real>, x: real, cap: nat): (r: seq<real>)
    requires 0 < cap && |ring| <= cap
    ensures |r| == Min(|ring| + 1, cap)
    ensures r == Latest(ring + [x], |r|)
  {
    if |ring| < cap then ring + [x] else ring[1..] + [x]
  }

  /** A sequence of pushes, in order. */
  function PushAll(ring: seq<real>, xs: seq<real>, cap: nat): (r: seq<real>)
    requires 0 < cap && |ring| <= cap
    decreases |xs|
  {
    if xs == [] then ring else PushAll(RingPush(ring, xs[0], cap), xs[1..], cap)
  }

  /** Whatever was pushed, the ring holds exactly the latest
      `min(total, cap)` samples, so it never exceeds its capacity. */
  lemma {:induction false} RingKeepsLatest(ring: seq<real>, xs: seq<real>, cap: nat)
    requires 0 < cap && |ring| <= cap
    ensures |PushAll(ring, xs, cap)| == Min(|ring| + |xs|, cap) <= cap
    ensures PushAll(ring, xs, cap) == Latest(ring + xs, Min(|ring| + |xs|, cap))
    decreases |xs|
  {
    if xs != [] {
      var pushed := RingPush(ring, xs[0], cap);
      var a := |ring| + 1 - |pushed|;
      RingKeepsLatest(pushed, xs[1..], cap);
      PushedThenRest(ring, xs, a);
      LatestOfSuffix(ring + xs, a, Min(|ring| + |xs|, cap));
    }
  }

  /** The kept tail of `ring + [x]` followed by the rest of the samples is a
      suffix of everything pushed. */
  lemma PushedThenRest(ring: seq<real>, xs: seq<real>, a: nat)
    requires |xs| > 0 && a <= |ring| + 1
    ensures (ring + [xs[0]])[a..] + xs[1..] == (ring + xs)[a..]
  {
    var lhs := (ring + [xs[0]])[a..] + xs[1..];
    var rhs := (ring + xs)[a..];
    assert |lhs| == |rhs|;
    forall k | 0 <= k < |lhs| ensures lhs[k] == rhs[k] {
      if a + k < |ring| + 1 {
        assert lhs[k] == (ring + [xs[0]])[a + k];
      } else {
        assert lhs[k] == xs[1..][a + k - |ring| - 1];
      }
    }
  }

  /** The latest samples of a suffix are the latest samples of the whole. */
  lemma LatestOfSuffix(s: seq<real>, j: nat, k: nat)
    requires j <= |s| && k <= |s| - j
    ensures Latest(s[j..], k) == Latest(s, k)
  {
    assert s[j..][|s| - j - k..] == s[|s| - k..];
  }

  /** `l_frames` after `k` ticks from `start`. */
  function LazyFrames(k: nat): nat {
    if k == 0 then 0 else if k % MAX_FPS == 0 then k else LazyFrames(k - 1)
  }

  /** The snapshot frame is the last multiple of `MAX_FPS` reached: a
      multiple of 60 at most 59 frames behind, so `dframes` never underflows. */
  lemma {:induction false} LazyFramesExact(k: nat)
    ensures LazyFrames(k) == k - k % MAX_FPS
    ensures LazyFrames(k) % MAX_FPS == 0 && LazyFrames(k) <= k < LazyFrames(k) + MAX_FPS
  {
    if k > 0 && k % MAX_FPS != 0 {
      LazyFramesExact(k - 1);
      assert (k - 1) % MAX_FPS == k % MAX_FPS - 1;
    }
  }

  class Counters {
    var frames: nat
    var lFrames: nat
    var seconds: real
    var lSeconds: real
    /** The frame-time ring, oldest sample first. */
    var frameTimes: seq<real>

    /** The snapshot is the last multiple of `MAX_FPS` frames and the ring
        is within its capacity. */
    ghost predicate Valid()
      reads this
    {
      lFrames == frames - frames % MAX_FPS && |frameTimes| <= MAX_FPS
    }

    /** `Counters::start`: everything zero, the ring empty. */
    constructor Start()
      ensures Valid()
      ensures frames == 0 && lFrames == 0 && seconds == 0.0 && lSeconds == 0.0 && frameTimes == []
    {
      lFrames := 0;
      frames := 0;
      seconds := 0.0;
      lSeconds := 0.0;
      frameTimes := [];
    }

    /** `Counters::tick`: read the clock, count the frame, and on every
        `MAX_FPS`-th frame take the snapshot of frames and seconds together. */
    method Tick(clock: real)
      requires Valid()
      modifies this`frames, this`lFrames, this`seconds, this`lSeconds
      ensures Valid()
      ensures frames == old(frames) + 1 && seconds == clock
      ensures frames % MAX_FPS == 0 ==> lFrames == frames && lSeconds == clock
      ensures frames % MAX_FPS != 0 ==> lFrames == old(lFrames) && lSeconds == old(lSeconds)
    {
      seconds := clock;
      frames := frames + 1;
      if frames % MAX_FPS == 0 {
        lSeconds := seconds;
        lFrames := frames;
      } else {
        assert (frames - 1) % MAX_FPS == frames % MAX_FPS - 1;
      }
    }

    /** `dframes`: frames since the snapshot, always below `MAX_FPS`. */
    function DFrames(): (d: nat)
      reads this
      requires Valid()
      ensures lFrames + d == frames && d < MAX_FPS
    {
      frames - lFrames
    }

    /** `dseconds`: seconds since the snapshot. */
    function DSeconds(): (d: real)
      reads this
      ensures lSeconds + d == seconds
    {
      seconds - lSeconds
    }

    /** `fps`: `MAX_FPS` while no time has passed since the snapshot,
        otherwise frames per second since the snapshot. */
    function Fps(): (f: real)
      reads this
      requires Valid()
      ensures DSeconds() == 0.0 ==> f == MAX_FPS as real
      ensures DSeconds() != 0.0 ==> f * DSeconds() == DFrames() as real
    {
      if DSeconds() == 0.0 then MAX_FPS as real else DFrames() as real / DSeconds()
    }

    /** `tick_done`: push the time since the frame started, in milliseconds. */
    method TickDone(clock: real)
      requires Valid()
      modifies this`frameTimes
      ensures Valid()
      ensures frameTimes == RingPush(old(frameTimes), (clock - seconds) * 1000.0, MAX_FPS)
    {
      frameTimes := RingPush(frameTimes, (clock - seconds) * 1000.0, MAX_FPS);
    }
  }
}
