/** One star of the starfield (`Star` in crates/stars/src/lib.rs): its depth
    step with wrap-around, its visibility test, its brightness, and the four
    vertices of its quad. */
module StarModel {
  import opened Graphics

  const FAR_PLANE: real := 2200.0
  const NEAR_PLANE: real := 5.5
  const BEHIND_CAMERA: real := 60.5
  /** The frame rate the speeds are expressed for. */
  const DEFAULT_MAX_FPS: nat := 60

  /** `Star`: world-space position, depth, active flag, rotation angle and
      rotation rate. */
  datatype Star = Star(position: Vec2, distance: real, active: bool,
                       rotation: real, rotationSpeed: real)

  /** The depth band every star stays in after a step. */
  predicate InDepthRange(distance: real) {
    -BEHIND_CAMERA <= distance <= FAR_PLANE
  }

  /** The star invariant kept by `Update`: in range, and `active` agrees with
      the visibility test. */
  predicate Consistent(s: Star) {
    InDepthRange(s.distance) && s.active == IsVisible(s.distance)
  }

  /** `Star::is_visible`: `NEAR_PLANE / distance > 0.001`. A distance of
      exactly zero is +0.0 in the source, whose quotient is +infinity, so it
      counts as visible. The test holds exactly for depths in
      `[0, 1000 * NEAR_PLANE)`. */
  function IsVisible(distance: real): (visible: bool)
    ensures visible <==> 0.0 <= distance < 1000.0 * NEAR_PLANE
  {
    if distance == 0.0 then true
    else
      var visible := NEAR_PLANE / distance > 0.001;
      VisibilityBound(distance);
      visible
  }

  lemma VisibilityBound(d: real)
    requires d != 0.0
    ensures NEAR_PLANE / d > 0.001 <==> 0.0 < d < 1000.0 * NEAR_PLANE
  {
    var q := NEAR_PLANE / d;
    assert q * d == NEAR_PLANE;
    if d > 0.0 {
      if q > 0.001 { assert q * d > 0.001 * d; }
      if d < 1000.0 * NEAR_PLANE { assert 0.001 * d < NEAR_PLANE; }
    } else {
      assert q < 0.0;
    }
  }

  /** The depth a star moves to before any wrap-around:
      `distance - speed * (DEFAULT_MAX_FPS / fps_limit)`. */
  function Moved(s: Star, speed: real, fpsLimit: nat): real
    requires fpsLimit > 0
  {
    s.distance - speed * (DEFAULT_MAX_FPS as real / fpsLimit as real)
  }

  /** `Star::update`: move the star, advance its rotation, respawn it at
      `respawn` when it leaves the depth range, and recompute `active`.
      A star that reaches `-BEHIND_CAMERA` reappears at `FAR_PLANE` and one
      that reaches `FAR_PLANE` reappears at `-BEHIND_CAMERA`; the new random
      position is the parameter `respawn`. */
  function Update(s: Star, speed: real, fpsLimit: nat, respawn: Vec2): (r: Star)
    requires fpsLimit > 0
    ensures Consistent(r)
    ensures r.rotation == s.rotation + s.rotationSpeed && r.rotationSpeed == s.rotationSpeed
    ensures Moved(s, speed, fpsLimit) <= -BEHIND_CAMERA ==>
              r.distance == FAR_PLANE && r.position == respawn
    ensures -BEHIND_CAMERA < Moved(s, speed, fpsLimit) && FAR_PLANE <= Moved(s, speed, fpsLimit) ==>
              r.distance == -BEHIND_CAMERA && r.position == respawn
    ensures -BEHIND_CAMERA < Moved(s, speed, fpsLimit) < FAR_PLANE ==>
              r.distance == Moved(s, speed, fpsLimit) && r.position == s.position
  {
    var d := Moved(s, speed, fpsLimit);
    var rotation := s.rotation + s.rotationSpeed;
    var (position, distance) :=
      if d <= -BEHIND_CAMERA then (respawn, FAR_PLANE)
      else if d >= FAR_PLANE then (respawn, -BEHIND_CAMERA)
      else (s.position, d);
    Star(position, distance, IsVisible(distance), rotation, s.rotationSpeed)
  }

  /** With speed zero a star strictly inside the depth range keeps its depth
      and position, turns by its rotation rate, and is active exactly when its
      depth is not negative. */
  lemma PausedUpdate(s: Star, fpsLimit: nat, respawn: Vec2)
    requires fpsLimit > 0
    requires -BEHIND_CAMERA < s.distance < FAR_PLANE
    ensures var r := Update(s, 0.0, fpsLimit, respawn);
      && r.distance == s.distance && r.position == s.position
      && r.rotation == s.rotation + s.rotationSpeed
      && (r.active <==> s.distance >= 0.0)
  {
    assert Moved(s, 0.0, fpsLimit) == s.distance;
  }

  /** `k` paused frames in a row (speed zero), with arbitrary respawn positions. */
  function PausedFrames(s: Star, k: nat, fpsLimit: nat, respawn: Vec2): Star
    requires fpsLimit > 0
  {
    if k == 0 then s else Update(PausedFrames(s, k - 1, fpsLimit, respawn), 0.0, fpsLimit, respawn)
  }

  /** Any number of paused frames leaves depth, position and active flag of a
      consistent star strictly inside the depth range unchanged, while the
      rotation advances by `k` times its rate. */
  lemma {:induction false} PausedFramesKeepDepth(s: Star, k: nat, fpsLimit: nat, respawn: Vec2)
    requires fpsLimit > 0
    requires Consistent(s) && -BEHIND_CAMERA < s.distance < FAR_PLANE
    ensures var r := PausedFrames(s, k, fpsLimit, respawn);
      && r.distance == s.distance && r.position == s.position && r.active == s.active
      && r.rotation == s.rotation + k as real * s.rotationSpeed
      && r.rotationSpeed == s.rotationSpeed
  {
    if k > 0 {
      PausedFramesKeepDepth(s, k - 1, fpsLimit, respawn);
      PausedUpdate(PausedFrames(s, k - 1, fpsLimit, respawn), fpsLimit, respawn);
    }
  }

  /** The `f32 as u8` cast: truncation toward zero, saturating at 0 and 255
      (NaN, which cannot arise from a real, would give 0). */
  function CastU8(v: real): (b: byte)
    ensures v <= 0.0 ==> b == 0
    ensures v >= 255.0 ==> b == 255
    ensures 0.0 < v < 255.0 ==> b as real <= v < b as real + 1.0
  {
    if v <= 0.0 then 0 else if v >= 255.0 then 255 else v.Floor as byte
  }

  /** Brightness of a star at depth `distance`:
      `((1 - (distance - NEAR) / (FAR - NEAR)) * 255) as u8`. Full at or in
      front of the near plane, black at or beyond the far plane. */
  function Brightness(distance: real): (b: byte)
    ensures distance <= NEAR_PLANE ==> b == 255
    ensures distance >= FAR_PLANE ==> b == 0
  {
    CastU8((1.0 - (distance - NEAR_PLANE) / (FAR_PLANE - NEAR_PLANE)) * 255.0)
  }

  /** Farther stars are never brighter: the brightness does not increase with depth.
      Stars at or in front of the near plane are at full brightness and
      stars at the far plane are black. */
  lemma BrightnessMonotone(d1: real, d2: real)
    requires d1 <= d2
    ensures Brightness(d2) <= Brightness(d1)
    ensures d1 <= NEAR_PLANE ==> Brightness(d1) == 255
    ensures Brightness(FAR_PLANE) == 0
  {
    var v1 := (1.0 - (d1 - NEAR_PLANE) / (FAR_PLANE - NEAR_PLANE)) * 255.0;
    var v2 := (1.0 - (d2 - NEAR_PLANE) / (FAR_PLANE - NEAR_PLANE)) * 255.0;
    assert v2 <= v1;
    CastMonotone(v2, v1);
  }

  lemma CastMonotone(v1: real, v2: real)
    requires v1 <= v2
    ensures CastU8(v1) <= CastU8(v2)
  {
    if 0.0 < v1 && v2 < 255.0 {
      assert v1.Floor <= v2.Floor;
    }
  }

  /** The star's colour: every RGB channel of the sprite's centre colour darkened
      by `255 - brightness` with saturating subtraction, fully opaque. */
  function AdjustedColor(base: Color, distance: real): (c: Color)
    ensures c.a == 255
    ensures c.r <= base.r && c.g <= base.g && c.b <= base.b
    ensures Brightness(distance) == 255 ==> c == Rgb(base.r, base.g, base.b)
    ensures Brightness(distance) == 0 ==> c == Rgb(0, 0, 0)
  {
    var darkness := 255 - Brightness(distance);
    Rgb(SaturatingSub(base.r, darkness), SaturatingSub(base.g, darkness),
        SaturatingSub(base.b, darkness))
  }

  /** Texture coordinates of corner `j` (top-left, top-right, bottom-right,
      bottom-left) of a quad showing a sprite of size `tex`. */
  function TexCorner(tex: Vec2, j: nat): Vec2
    requires j < 4
  {
    [Vec2(0.0, 0.0), Vec2(tex.x, 0.0), Vec2(tex.x, tex.y), Vec2(0.0, tex.y)][j]
  }

  /** What `Star::update_vertices` leaves in vertex `j` of the star's quad,
      given the vertex `v` that was there. An inactive star only turns the
      colour transparent and keeps position and texture coordinates; an active
      one overwrites all three: the projected, rotated corner `corner(s, j)`
      (floating-point projection, abstract here), its depth-darkened colour and
      the texture corner. */
  function QuadVertex(s: Star, j: nat, v: Vertex, tex: Vec2, base: Color,
                      corner: (Star, nat) -> Vec2): (r: Vertex)
    requires j < 4
    ensures !s.active ==> r.color == TRANSPARENT && r.position == v.position && r.texCoords == v.texCoords
    ensures s.active ==> r.position == corner(s, j) && r.color.a == 255
    ensures s.active ==> r.color.r <= base.r && r.color.g <= base.g && r.color.b <= base.b
    ensures s.active ==> r.texCoords == TexCorner(tex, j)
    ensures s.active ==> r.color == AdjustedColor(base, s.distance)
  {
    if !s.active then v.(color := TRANSPARENT)
    else Vertex(corner(s, j), AdjustedColor(base, s.distance), TexCorner(tex, j))
  }

  /** Writing a quad twice is the same as writing it once: the vertices of a
      star depend only on the star, so recomputing an already written star
      changes nothing. */
  lemma QuadVertexIdempotent(s: Star, j: nat, v: Vertex, tex: Vec2, base: Color,
                             corner: (Star, nat) -> Vec2)
    requires j < 4
    ensures QuadVertex(s, j, QuadVertex(s, j, v, tex, base, corner), tex, base, corner)
         == QuadVertex(s, j, v, tex, base, corner)
  {
  }
}
