/** The rounded-rectangle point source (`RectRoundShape` in
    src/shapes/rectround.rs): radius clamping, corner resolution, point count
    and the decomposition of a point index into corner and step. The angle
    and the `cos`/`sin` of each point are not modelled. */
module RectRound {
  import opened Graphics

  const DEFAULT_POINTS_PER_CORNER: nat := 8
  const MIN_POINTS_PER_CORNER: nat := 4
  /** The outline thickness `RectRoundShape::new` gives its `CustomShape`. */
  const SHAPE_OUTLINE_THICKNESS: real := 3.0

  datatype RectRoundShape = RectRoundShape(width: real, height: real, radius: real,
                                           pointsPerCorner: nat)

  /** The `CustomShape` returned by `RectRoundShape::new`: the point source
      and the outline thickness set on it. */
  datatype Shape = Shape(points: RectRoundShape, outlineThickness: real)

  function MinReal(a: real, b: real): (m: real)
    ensures m <= a && m <= b && (m == a || m == b)
  {
    if a <= b then a else b
  }

  /** `radius.min(width.min(height) / 2.0)`. */
  function ClampedRadius(width: real, height: real, radius: real): (r: real)
    ensures r <= radius && 2.0 * r <= width && 2.0 * r <= height
    ensures 2.0 * radius <= width && 2.0 * radius <= height ==> r == radius
    ensures r == radius || 2.0 * r == width || 2.0 * r == height
  {
    MinReal(radius, MinReal(width, height) / 2.0)
  }

  /** `RectRoundShape::basic_shape`: the given size, the clamped radius and
      the default corner resolution of 8. */
  function BasicShape(width: real, height: real, radius: real): (s: RectRoundShape)
    ensures s.width == width && s.height == height
    ensures s.radius <= radius && 2.0 * s.radius <= width && 2.0 * s.radius <= height
    ensures 2.0 * radius <= width && 2.0 * radius <= height ==> s.radius == radius
    ensures s.pointsPerCorner == DEFAULT_POINTS_PER_CORNER
  {
    RectRoundShape(width, height, ClampedRadius(width, height, radius), DEFAULT_POINTS_PER_CORNER)
  }

  /** `RectRoundShape::new`: the same point source as `basic_shape`, wrapped
      in a shape with outline thickness 3. */
  function New(width: real, height: real, radius: real): (s: Shape)
    ensures s.points == BasicShape(width, height, radius)
    ensures s.outlineThickness == SHAPE_OUTLINE_THICKNESS
  {
    Shape(RectRoundShape(width, height, ClampedRadius(width, height, radius), DEFAULT_POINTS_PER_CORNER),
          SHAPE_OUTLINE_THICKNESS)
  }

  /** `with_corner_points(points)`: the corner resolution becomes
      `points.max(4)`; size and radius are kept. */
  function WithCornerPoints(s: RectRoundShape, points: nat): (r: RectRoundShape)
    ensures r.width == s.width && r.height == s.height && r.radius == s.radius
    ensures r.pointsPerCorner >= MIN_POINTS_PER_CORNER
    ensures points >= MIN_POINTS_PER_CORNER ==> r.pointsPerCorner == points
    ensures points < MIN_POINTS_PER_CORNER ==> r.pointsPerCorner == MIN_POINTS_PER_CORNER
  {
    s.(pointsPerCorner := if points >= MIN_POINTS_PER_CORNER then points else MIN_POINTS_PER_CORNER)
  }

  /** `point_count`: four corners of `pointsPerCorner` points each. */
  function PointCount(s: RectRoundShape): (c: nat)
    ensures c % 4 == 0 && c / 4 == s.pointsPerCorner
    ensures Reachable(s) ==> c >= 4 * MIN_POINTS_PER_CORNER
  {
    s.pointsPerCorner * 4
  }

  /** Shapes built by `basic_shape` and refined by `with_corner_points`
      always have at least 4 points per corner. */
  predicate Reachable(s: RectRoundShape) {
    s.pointsPerCorner >= MIN_POINTS_PER_CORNER
  }

  /** Every shape the constructors build, refined any number of times, is
      `Reachable`, so the point count is a positive multiple of 4 of at least
      16 and the per-corner division in `point` never divides by zero. */
  lemma ConstructedShapesReachable(width: real, height: real, radius: real, points: seq<nat>)
    ensures Reachable(BasicShape(width, height, radius))
    ensures Reachable(Refined(BasicShape(width, height, radius), points))
    ensures PointCount(Refined(BasicShape(width, height, radius), points)) >= 4 * MIN_POINTS_PER_CORNER
  {
    RefinedReachable(BasicShape(width, height, radius), points);
  }

  /** A chain of `with_corner_points` calls. */
  function Refined(s: RectRoundShape, points: seq<nat>): RectRoundShape
    decreases |points|
  {
    if points == [] then s else Refined(WithCornerPoints(s, points[0]), points[1..])
  }

  lemma {:induction false} RefinedReachable(s: RectRoundShape, points: seq<nat>)
    requires Reachable(s)
    ensures Reachable(Refined(s, points))
    ensures Refined(s, points).width == s.width && Refined(s, points).height == s.height
    ensures Refined(s, points).radius == s.radius
    ensures points != [] ==>
              Refined(s, points).pointsPerCorner ==
                (if points[|points| - 1] >= MIN_POINTS_PER_CORNER then points[|points| - 1] else MIN_POINTS_PER_CORNER)
    decreases |points|
  {
    if points != [] {
      RefinedReachable(WithCornerPoints(s, points[0]), points[1..]);
      if |points| > 1 {
        assert points[1..][|points[1..]| - 1] == points[|points| - 1];
      }
    }
  }

  /** The index part of `point(index)`: `None` where the source panics
      (`index >= point_count`), otherwise the corner `quarter = index / ppc`
      and the step `i = index % ppc` within it. */
  function PointIndex(s: RectRoundShape, index: nat): (r: Option<(nat, nat)>)
    ensures r.None? <==> index >= PointCount(s)
    ensures r.Some? ==> r.value.0 < 4 && r.value.1 < s.pointsPerCorner
    ensures r.Some? ==> r.value.0 * s.pointsPerCorner + r.value.1 == index
  {
    if index >= PointCount(s) then None
    else
      var quarter := index / s.pointsPerCorner;
      var i := index % s.pointsPerCorner;
      QuarterBound(index, s.pointsPerCorner);
      Some((quarter, i))
  }

  /** Dividing an index below `4 * ppc` by `ppc` gives a corner below 4. */
  lemma QuarterBound(index: nat, ppc: nat)
    requires 0 < ppc && index < ppc * 4
    ensures index / ppc < 4 && index % ppc < ppc
    ensures (index / ppc) * ppc + index % ppc == index
  {
  }

  /** Centre of the quarter circle of corner `quarter` (top-left, top-right,
      bottom-right, bottom-left). */
  function Center(s: RectRoundShape, quarter: nat): Vec2
    requires quarter < 4
  {
    [Vec2(s.radius, s.radius),
     Vec2(s.width - s.radius, s.radius),
     Vec2(s.width - s.radius, s.height - s.radius),
     Vec2(s.radius, s.height - s.radius)][quarter]
  }

  /** What `point(index)` computes before the trigonometry: the corner, the
      step within it and the corner centre; `None` where it panics. */
  function PointParts(s: RectRoundShape, index: nat): (r: Option<(nat, nat, Vec2)>)
    ensures r.None? <==> index >= PointCount(s)
    ensures r.Some? ==> r.value.0 < 4 && r.value.1 < s.pointsPerCorner
    ensures r.Some? ==> r.value.0 * s.pointsPerCorner + r.value.1 == index
    ensures r.Some? ==> r.value.2 == Center(s, r.value.0)
  {
    match PointIndex(s, index)
    case None => None
    case Some((quarter, i)) => Some((quarter, i, Center(s, quarter)))
  }

  /** With a non-negative radius of at most half of each side, every corner
      centre lies inside the rectangle inset by the radius. */
  lemma CentersInside(s: RectRoundShape, quarter: nat)
    requires quarter < 4
    requires 0.0 <= s.radius && 2.0 * s.radius <= s.width && 2.0 * s.radius <= s.height
    ensures var c := Center(s, quarter);
      s.radius <= c.x <= s.width - s.radius && s.radius <= c.y <= s.height - s.radius
  {
  }

  /** For a shape from `basic_shape` with a non-negative radius and non-negative
      sides, every point's corner centre lies `radius` inside the rectangle. */
  lemma BasicShapeCentersInside(width: real, height: real, radius: real, index: nat)
    requires 0.0 <= radius && 0.0 <= width && 0.0 <= height
    requires index < PointCount(BasicShape(width, height, radius))
    ensures var s := BasicShape(width, height, radius);
      var p := PointParts(s, index);
      p.Some? && s.radius <= p.value.2.x <= s.width - s.radius && s.radius <= p.value.2.y <= s.height - s.radius
  {
    var s := BasicShape(width, height, radius);
    var p := PointParts(s, index);
    CentersInside(s, p.value.0);
  }
}
