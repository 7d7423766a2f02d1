/** The starfield engine (`Stars` in crates/stars/src/lib.rs): the star array,
    its CPU-side vertex mirror, the speed and the sort/keyframe bookkeeping,
    driven one frame at a time. */
module Starfield {
  import opened Graphics
  import opened StarModel
  import opened DepthSort
  import opened Ranges
  import opened Scheduler

  const DEFAULT_SPEED: real := 0.8

  /** `f32::clamp`. */
  function Clamp(x: real, lo: real, hi: real): (r: real)
    requires lo <= hi
    ensures lo <= r <= hi
    ensures lo <= x <= hi ==> r == x
    ensures x < lo ==> r == lo
    ensures x > hi ==> r == hi
  {
    if x < lo then lo else if x > hi then hi else x
  }

  /** The speed after `adjust_speed(add, modifier, _)`: the step is ten times
      larger with the modifier, and the result is clamped to
      `±DEFAULT_MAX_FPS` (not to the fps limit). */
  function AdjustedSpeed(speed: real, add: real, modifier: bool): (r: real)
    ensures -(DEFAULT_MAX_FPS as real) <= r <= DEFAULT_MAX_FPS as real
    ensures var raw := speed + add * (if modifier then 10.0 else 1.0);
      -(DEFAULT_MAX_FPS as real) <= raw <= DEFAULT_MAX_FPS as real ==> r == raw
    ensures var raw := speed + add * (if modifier then 10.0 else 1.0);
      raw > DEFAULT_MAX_FPS as real ==> r == DEFAULT_MAX_FPS as real
    ensures var raw := speed + add * (if modifier then 10.0 else 1.0);
      raw < -(DEFAULT_MAX_FPS as real) ==> r == -(DEFAULT_MAX_FPS as real)
  {
    Clamp(speed + add * (if modifier then 10.0 else 1.0),
          -(DEFAULT_MAX_FPS as real), DEFAULT_MAX_FPS as real)
  }

  /** From the default speed 0.8, W then Shift+W gives 1.9; Shift+W at the
      bound 60 stays at 60. */
  lemma SpeedKeys()
    ensures AdjustedSpeed(AdjustedSpeed(DEFAULT_SPEED, 0.1, false), 0.1, true) == 1.9
    ensures AdjustedSpeed(60.0, 0.1, true) == 60.0
  {
  }

  /** `Stars::find_index_zero_distance`: the last index whose star is behind
      the camera plane (depth < 0) with that star, or `(0, None)` when there
      is none. */
  function FindIndexZeroDistance(stars: seq<Star>): (r: (nat, Option<Star>))
    ensures r.1.Some? <==> exists i :: 0 <= i < |stars| && stars[i].distance < 0.0
    ensures r.1.Some? ==> r.0 < |stars| && r.1.value == stars[r.0] && stars[r.0].distance < 0.0
    ensures r.1.Some? ==> forall j :: r.0 < j < |stars| ==> stars[j].distance >= 0.0
    ensures r.1.None? ==> r.0 == 0
  {
    if stars == [] then (0, None)
    else if stars[|stars| - 1].distance < 0.0 then (|stars| - 1, Some(stars[|stars| - 1]))
    else
      var r := FindIndexZeroDistance(stars[..|stars| - 1]);
      assert forall i :: 0 <= i < |stars| - 1 ==> stars[..|stars| - 1][i] == stars[i];
      r
  }

  /** On a depth-sorted array the stars behind the camera are the last ones,
      so the cursor is the last index as soon as any star is behind the camera. */
  lemma CursorOnSortedArray(stars: seq<Star>)
    requires SortedByDepth(stars)
    ensures FindIndexZeroDistance(stars).0 ==
      if exists i :: 0 <= i < |stars| && stars[i].distance < 0.0 then |stars| - 1 else 0
  {
    if exists i :: 0 <= i < |stars| && stars[i].distance < 0.0 {
      var i :| 0 <= i < |stars| && stars[i].distance < 0.0;
      assert stars[|stars| - 1].distance <= stars[i].distance;
    }
  }

  /** The per-star step of a frame applied to every star (the parallel chunk
      loop of `ComprehensiveElement::update`), with one respawn position per star. */
  function Advanced(stars: seq<Star>, speed: real, fpsLimit: nat, respawn: seq<Vec2>): (r: seq<Star>)
    requires fpsLimit > 0 && |respawn| == |stars|
    ensures |r| == |stars|
    ensures forall i :: 0 <= i < |r| ==> r[i] == StarModel.Update(stars[i], speed, fpsLimit, respawn[i])
  {
    seq(|stars|, i requires 0 <= i < |stars| => StarModel.Update(stars[i], speed, fpsLimit, respawn[i]))
  }

  /** Index of vertex `j` of star `k` in the vertex mirror: star `k` owns
      slots `[4k, 4k + 4)`. */
  function Slot(k: nat, j: nat): nat {
    4 * k + j
  }

  /** Every slot of a mirror of `4 * n` vertices belongs to exactly one star. */
  lemma SlotsPartitionMirror(v: nat, n: nat)
    requires v < 4 * n
    ensures v / 4 < n && v % 4 < 4 && Slot(v / 4, v % 4) == v
  {
  }

  /** The vertex the constructor starts every slot with: `Vertex::default()`
      with its colour set transparent. */
  const BLANK: Vertex := Vertex(Vec2(0.0, 0.0), TRANSPARENT, Vec2(0.0, 0.0))

  datatype Key = W | S | Space | OtherKey
  datatype Event = KeyPressed(code: Key, shift: bool) | OtherEvent

  class Stars {
    var stars: seq<Star>
    /** The CPU-side mirror of the GPU vertex buffer. */
    const vertices: array<Vertex>
    var speed: real
    var lastSortedFrame: nat
    var keyframe: bool
    const textureSize: Vec2
    /** The centre pixel of the star sprite. */
    const textureColor: Color
    /** Projected and rotated screen position of corner `j` of a star's quad
        (perspective division, `cos`/`sin` and the viewport: floating point,
        abstract in this model). */
    const corner: (Star, nat) -> Vec2

    ghost predicate Valid()
      reads this
    {
      vertices.Length == 4 * |stars| && forall s :: s in stars ==> Consistent(s)
    }

    /** What writing star `k` leaves in vertex `j` of its quad, given the old vertex. */
    function Quad(k: nat, j: nat, v: Vertex): Vertex
      reads this
      requires k < |stars| && j < 4
    {
      QuadVertex(stars[k], j, v, textureSize, textureColor, corner)
    }

    /** Star `k` is recomputed on this frame: on a keyframe every star is,
        otherwise those in the bands of the tiers that fire. */
    ghost predicate Scheduled(wasKeyframe: bool, frame: nat, fpsLimit: nat, k: nat)
      reads this
      requires wasKeyframe || SchedulerDefined(UPDATE_TIERS, frame, fpsLimit, |stars|)
    {
      wasKeyframe ||
      ScheduledIndex(UPDATE_TIERS, frame, fpsLimit, |stars|, FindIndexZeroDistance(stars).0, k)
    }

    /** `Stars::new` with the randomised stars given as `initial` (each active,
        with a depth in `[NEAR_PLANE, FAR_PLANE)`): sort, schedule frame 0
        with the cursor at `|stars|`, and fill the mirror. Frame 0 fires every
        tier, so every star's quad is written. */
    constructor (initial: seq<Star>, fpsLimit: nat, textureSize: Vec2, textureColor: Color,
                 corner: (Star, nat) -> Vec2)
      requires |initial| > 0 && fpsLimit >= 1
      requires forall s :: s in initial ==> s.active && NEAR_PLANE <= s.distance < FAR_PLANE
      ensures Valid() && fresh(vertices)
      ensures stars == SortByDepth(initial)
      ensures speed == DEFAULT_SPEED && lastSortedFrame == 0 && !keyframe
      ensures this.textureSize == textureSize && this.textureColor == textureColor && this.corner == corner
      ensures forall k, j :: 0 <= k < |stars| && 0 <= j < 4 ==> vertices[Slot(k, j)] == Quad(k, j, BLANK)
    {
      stars := initial;
      vertices := new Vertex[4 * |initial|](_ => BLANK);
      speed := DEFAULT_SPEED;
      lastSortedFrame := 0;
      keyframe := false;
      this.textureSize := textureSize;
      this.textureColor := textureColor;
      this.corner := corner;
      new;
      Sort(0);
      FrameZeroSchedulesAll(fpsLimit, |stars|, |stars|);
      var ranges := GetUpdateRanges(0, fpsLimit, |stars|);
      UpdateVertexRanges(ranges);
    }

    /** `Stars::sort`: reorder the stars by non-increasing depth (a
        permutation) and record the frame. */
    method Sort(frame: nat)
      requires Valid()
      modifies this`stars, this`lastSortedFrame
      ensures Valid()
      ensures stars == SortByDepth(old(stars)) && lastSortedFrame == frame
    {
      forall s | s in SortByDepth(stars) ensures s in stars {
        SortKeepsMembers(stars, s);
      }
      stars := SortByDepth(stars);
      lastSortedFrame := frame;
    }

    /** `Stars::adjust_speed`: add the (tenfold with the modifier) step,
        clamp, and when the speed is exactly zero set the keyframe flag and
        sort, recording `frame`. */
    method AdjustSpeed(addSpeed: real, modifier: bool, frame: nat)
      requires Valid()
      modifies this`speed, this`keyframe, this`stars, this`lastSortedFrame
      ensures Valid()
      ensures speed == AdjustedSpeed(old(speed), addSpeed, modifier)
      ensures keyframe == (old(keyframe) || speed == 0.0)
      ensures speed == 0.0 ==> stars == SortByDepth(old(stars)) && lastSortedFrame == frame
      ensures speed != 0.0 ==> stars == old(stars) && lastSortedFrame == old(lastSortedFrame)
    {
      speed := speed + addSpeed * if modifier then 10.0 else 1.0;
      speed := Clamp(speed, -(DEFAULT_MAX_FPS as real), DEFAULT_MAX_FPS as real);
      if speed == 0.0 {
        keyframe := true;
        Sort(frame);
      }
    }

    /** The star loop of a frame: `Star::update` on every star in index order. */
    method AdvanceStars(fpsLimit: nat, respawn: seq<Vec2>)
      requires Valid() && fpsLimit > 0 && |respawn| == |stars|
      modifies this`stars
      ensures Valid()
      ensures stars == Advanced(old(stars), speed, fpsLimit, respawn)
    {
      var i := 0;
      while i < |stars|
        invariant 0 <= i <= |stars| == |old(stars)|
        invariant forall m :: 0 <= m < i ==> stars[m] == StarModel.Update(old(stars)[m], speed, fpsLimit, respawn[m])
        invariant forall m :: i <= m < |stars| ==> stars[m] == old(stars)[m]
      {
        stars := stars[i := StarModel.Update(stars[i], speed, fpsLimit, respawn[i])];
        i := i + 1;
      }
      assert stars == Advanced(old(stars), speed, fpsLimit, respawn);
      forall s | s in stars ensures Consistent(s) {
        var m :| 0 <= m < |stars| && stars[m] == s;
      }
    }

    /** `Star::update_vertices` for star `k`: an inactive star turns its four
        vertices transparent; an active one writes colour, corner positions and
        texture coordinates. Only the star's own four slots change. */
    method UpdateVertices(k: nat)
      requires Valid() && k < |stars|
      modifies vertices
      ensures forall j :: 0 <= j < 4 ==> vertices[Slot(k, j)] == Quad(k, j, old(vertices[Slot(k, j)]))
      ensures forall m, j :: 0 <= m < |stars| && m != k && 0 <= j < 4 ==>
                vertices[Slot(m, j)] == old(vertices[Slot(m, j)])
    {
      var s := stars[k];
      if !s.active {
        for j := 0 to 4
          invariant forall i :: 0 <= i < j ==> vertices[Slot(k, i)] == old(vertices[Slot(k, i)]).(color := TRANSPARENT)
          invariant forall m, i :: 0 <= m < |stars| && 0 <= i < 4 && (m != k || i >= j) ==>
                      vertices[Slot(m, i)] == old(vertices[Slot(m, i)])
        {
          vertices[Slot(k, j)] := vertices[Slot(k, j)].(color := TRANSPARENT);
        }
        return;
      }
      var color := AdjustedColor(textureColor, s.distance);
      for j := 0 to 4
        invariant forall i :: 0 <= i < j ==>
                    vertices[Slot(k, i)] == Vertex(corner(s, i), color, TexCorner(textureSize, i))
        invariant forall m, i :: 0 <= m < |stars| && 0 <= i < 4 && (m != k || i >= j) ==>
                    vertices[Slot(m, i)] == old(vertices[Slot(m, i)])
      {
        vertices[Slot(k, j)] := Vertex(corner(s, j), color, TexCorner(textureSize, j));
      }
    }

    /** `Stars::update_vertex_ranges`: skip empty ranges and rewrite the quad
        of every star of every other range. Afterwards a star's four slots
        hold its freshly written quad if some range covers it, and are
        untouched otherwise. */
    method UpdateVertexRanges(ranges: seq<Range>)
      requires Valid()
      requires forall r :: r in ranges && r.0 < r.1 ==> r.1 <= |stars|
      modifies vertices
      ensures forall k, j :: 0 <= k < |stars| && 0 <= j < 4 ==>
                vertices[Slot(k, j)] == if Covers(ranges, k) then Quad(k, j, old(vertices[Slot(k, j)]))
                                        else old(vertices[Slot(k, j)])
    {
      var r := 0;
      while r < |ranges|
        invariant 0 <= r <= |ranges|
        invariant forall k, j :: 0 <= k < |stars| && 0 <= j < 4 ==>
                    vertices[Slot(k, j)] == if Covers(ranges[..r], k) then Quad(k, j, old(vertices[Slot(k, j)]))
                                            else old(vertices[Slot(k, j)])
      {
        var (start, end) := ranges[r];
        assert ranges[..r + 1] == ranges[..r] + [ranges[r]];
        forall k ensures Covers(ranges[..r + 1], k) <==> Covers(ranges[..r], k) || start <= k < end {
          CoversConcat(ranges[..r], [ranges[r]], k);
          if start <= k < end { assert ranges[r] in [ranges[r]]; }
        }
        if start < end {
          assert ranges[r] in ranges;
          var k := start;
          while k < end
            invariant start <= k <= end
            invariant forall m, j :: 0 <= m < |stars| && 0 <= j < 4 ==>
                        vertices[Slot(m, j)] == if Covers(ranges[..r], m) || start <= m < k
                                                then Quad(m, j, old(vertices[Slot(m, j)]))
                                                else old(vertices[Slot(m, j)])
          {
            UpdateVertices(k);
            forall j | 0 <= j < 4 ensures Quad(k, j, Quad(k, j, old(vertices[Slot(k, j)]))) == Quad(k, j, old(vertices[Slot(k, j)])) {
              QuadVertexIdempotent(stars[k], j, old(vertices[Slot(k, j)]), textureSize, textureColor, corner);
            }
            k := k + 1;
          }
        }
        r := r + 1;
      }
      assert ranges[..r] == ranges;
    }

    /** `Stars::get_update_ranges`: on a keyframe clear the flag and return
        the whole array; otherwise collect the ranges of the firing tiers
        (`ScheduleTiers`) and merge them. The result lies in `[0, n]`, is
        sorted and strictly apart, and covers exactly the scheduled bands. */
    method GetUpdateRanges(frame: nat, fpsLimit: nat, nearest: nat) returns (ranges: seq<Range>)
      requires Valid()
      requires keyframe || SchedulerDefined(UPDATE_TIERS, frame, fpsLimit, |stars|)
      modifies this`keyframe
      ensures !keyframe
      ensures old(keyframe) ==> ranges == [(0, |stars|)]
      ensures InBounds(ranges, |stars|)
      ensures !old(keyframe) ==> StartsSorted(ranges) && Separated(ranges)
      ensures !old(keyframe) ==> forall i :: Covers(ranges, i) <==>
                ScheduledIndex(UPDATE_TIERS, frame, fpsLimit, |stars|, nearest, i)
    {
      var starCount := |stars|;
      if keyframe {
        keyframe := false;
        return [(0, starCount)];
      }
      var collected := ScheduleTiers(frame, fpsLimit, starCount, nearest);
      ranges := MergeRanges(collected, starCount);
      assert InBounds(ranges, starCount);
    }

    /** `ComprehensiveElement::update` for the starfield, one frame: sort when
        the frame is a multiple of 6 and the speed is not zero, step every
        star, schedule with the cursor of the stepped array, and rewrite the
        scheduled quads. A star that is not scheduled keeps its four vertex
        slots exactly as they were. */
    method Update(frames: nat, fpsLimit: nat, respawn: seq<Vec2>)
      requires Valid() && fpsLimit >= 1 && |respawn| == |stars|
      requires keyframe || SchedulerDefined(UPDATE_TIERS, frames, fpsLimit, |stars|)
      modifies this`stars, this`lastSortedFrame, this`keyframe, vertices
      ensures Valid() && !keyframe && speed == old(speed)
      ensures var sortNow := frames % 6 == 0 && old(speed) != 0.0;
        && lastSortedFrame == (if sortNow then frames else old(lastSortedFrame))
        && stars == Advanced(if sortNow then SortByDepth(old(stars)) else old(stars), speed, fpsLimit, respawn)
      ensures forall k, j :: 0 <= k < |stars| && 0 <= j < 4 ==>
                vertices[Slot(k, j)] == if Scheduled(old(keyframe), frames, fpsLimit, k)
                                        then Quad(k, j, old(vertices[Slot(k, j)]))
                                        else old(vertices[Slot(k, j)])
    {
      if frames % 6 == 0 && speed != 0.0 {
        Sort(frames);
      }
      AdvanceStars(fpsLimit, respawn);
      var cursor := FindIndexZeroDistance(stars);
      var ranges := GetUpdateRanges(frames, fpsLimit, cursor.0);
      UpdateVertexRanges(ranges);
      forall k | 0 <= k < |stars|
        ensures Covers(ranges, k) <==> Scheduled(old(keyframe), frames, fpsLimit, k)
      {
        if old(keyframe) {
          assert (0, |stars|) in ranges;
        }
      }
    }

    /** `ComprehensiveElement::process_event` for the starfield: W and S
        adjust the speed by ±0.1 (tenfold with Shift), passing the fps limit
        as the frame to record if a sort happens; Shift+Space sets the speed
        to zero directly, without setting the keyframe flag or sorting; other
        events change nothing. */
    method ProcessEvent(event: Event, fpsLimit: nat)
      requires Valid()
      modifies this`speed, this`keyframe, this`stars, this`lastSortedFrame
      ensures Valid()
      ensures event.KeyPressed? && (event.code.W? || event.code.S?) ==>
        var add := if event.code.W? then 0.1 else -0.1;
        && speed == AdjustedSpeed(old(speed), add, event.shift)
        && keyframe == (old(keyframe) || speed == 0.0)
        && (speed == 0.0 ==> stars == SortByDepth(old(stars)) && lastSortedFrame == fpsLimit)
        && (speed != 0.0 ==> stars == old(stars) && lastSortedFrame == old(lastSortedFrame))
      ensures event == KeyPressed(Space, true) ==>
        speed == 0.0 && keyframe == old(keyframe) && stars == old(stars) && lastSortedFrame == old(lastSortedFrame)
      ensures !(event.KeyPressed? && (event.code.W? || event.code.S? || (event.code.Space? && event.shift))) ==>
        speed == old(speed) && keyframe == old(keyframe) && stars == old(stars) && lastSortedFrame == old(lastSortedFrame)
    {
      match event {
        case KeyPressed(W, shift) =>
          AdjustSpeed(0.1, shift, fpsLimit);
        case KeyPressed(S, shift) =>
          AdjustSpeed(-0.1, shift, fpsLimit);
        case KeyPressed(Space, true) =>
          speed := 0.0;
        case _ =>
      }
    }
  }
}
