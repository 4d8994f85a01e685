/**
 * The shape library of the swerve visualizer. Its rings of points are parallel arrays
 * of x and y coordinates with a separate point count, its segment test only checks the
 * parameter along the first segment (so the second acts as an infinite line), its
 * rectangle test compares half the coordinate with the full width, and its polygon test
 * reports an even number of crossings as inside. Coordinates are reals here.
 */
module VisualizerShapes {
  import opened Vectors
  import opened Segments
  import opened Wrappers
  import SwerveShapes

  /**
   * Whether segment (a, b) -> (c, d) meets the line through (p, q) and (r, s): the
   * determinant must be nonzero and the meeting point then lies on the first segment,
   * endpoints included.
   */
  function CoordinatesIntersect(a: real, b: real, c: real, d: real, p: real, q: real, r: real, s: real): (meets: bool)
    ensures meets ==> DetOf(a, b, c, d, p, q, r, s) != 0.0
  {
    var det := (a - c) * (q - s) - (b - d) * (p - r);
    if det == 0.0 then false
    else
      var lambda := (-q * r + b * (r - p) + a * (q - s) + p * s) / det;
      0.0 <= lambda && lambda <= 1.0
  }

  /** A segment meets a line only when their directions are not parallel, so neither is a single point. */
  function LinesIntersect(start0: Vec, end0: Vec, start1: Vec, end1: Vec): (meets: bool)
    ensures meets ==> Det(start0, end0, start1, end1) != 0.0 && start0 != end0 && start1 != end1
  {
    CoordinatesIntersect(start0.x, start0.y, end0.x, end0.y, start1.x, start1.y, end1.x, end1.y)
  }

  /** The determinant is the one of Cramer's rule and lambda the parameter along the first segment. */
  lemma ParametersOnComponents(a: real, b: real, c: real, d: real, p: real, q: real, r: real, s: real)
    ensures CoordinatesIntersect(a, b, c, d, p, q, r, s) <==>
      DetOf(a, b, c, d, p, q, r, s) != 0.0 && 0.0 <= MeetLOf(a, b, c, d, p, q, r, s) <= 1.0
  {
    var det := DetOf(a, b, c, d, p, q, r, s);
    assert (a - c) * (q - s) - (b - d) * (p - r) == det;
    assert -q * r + b * (r - p) + a * (q - s) + p * s == (p - a) * (s - q) - (q - b) * (r - p);
  }

  /**
   * The test holds exactly when the directions are not parallel and the line through
   * p and r meets the segment a -> c, endpoints included, wherever on that line.
   */
  lemma {:induction false} MeetingTheLine(a: Vec, c: Vec, p: Vec, r: Vec)
    ensures LinesIntersect(a, c, p, r) <==>
      Det(a, c, p, r) != 0.0 && exists l, t | 0.0 <= l <= 1.0 :: MeetAt(a, c, p, r, l, t)
  {
    ParametersOnComponents(a.x, a.y, c.x, c.y, p.x, p.y, r.x, r.y);
    if Det(a, c, p, r) != 0.0 {
      var l, t := MeetL(a, c, p, r), MeetT(a, c, p, r);
      MeetsExactlyAtCramer(a, c, p, r, l, t);
      if exists l', t' | 0.0 <= l' <= 1.0 :: MeetAt(a, c, p, r, l', t') {
        var l', t' :| 0.0 <= l' <= 1.0 && MeetAt(a, c, p, r, l', t');
        MeetsExactlyAtCramer(a, c, p, r, l', t');
      }
    }
  }

  /** Every crossing the swerve test accepts is accepted here too, but not the other way round. */
  lemma {:induction false} LooserThanSwerve(a: Vec, c: Vec, p: Vec, r: Vec)
    ensures SwerveShapes.LinesIntersect(a, c, p, r) ==> LinesIntersect(a, c, p, r)
    ensures LinesIntersect(Vec(0.0, 0.0), Vec(2.0, 0.0), Vec(1.0, 1.0), Vec(1.0, 2.0))
    ensures !SwerveShapes.LinesIntersect(Vec(0.0, 0.0), Vec(2.0, 0.0), Vec(1.0, 1.0), Vec(1.0, 2.0))
  {
    SwerveShapes.CrossingMeansMeeting(a, c, p, r);
    MeetingTheLine(a, c, p, r);
  }

  /** A ring of points given as parallel coordinate arrays and a count of points. */
  datatype Edges = Edges(xPoints: seq<real>, yPoints: seq<real>, nPoints: int)
  {
    /** Both arrays hold the counted points (a count of zero or less gives no segments). */
    predicate WellFormed()
    {
      nPoints <= |xPoints| && nPoints <= |yPoints|
    }

    /** The number of segments the loops visit. */
    function N(): nat
    {
      if nPoints < 0 then 0 else nPoints
    }

    /** The coordinates at any index, counted around the ring. */
    function X(i: nat): (x: real)
      requires WellFormed() && N() > 0
      ensures x in xPoints[..nPoints]
    {
      xPoints[i % nPoints]
    }

    function Y(i: nat): (y: real)
      requires WellFormed() && N() > 0
      ensures y in yPoints[..nPoints]
    {
      yPoints[i % nPoints]
    }

    function Point(i: nat): Vec
      requires WellFormed() && N() > 0
    {
      Vec(X(i), Y(i))
    }

    /** Segment i of this ring meets the line of segment j of the other, both untranslated. */
    predicate Crosses(other: Edges, i: nat, j: nat)
      requires WellFormed() && N() > 0 && other.WellFormed() && other.N() > 0
    {
      CoordinatesIntersect(X(i), Y(i), X(i + 1), Y(i + 1), other.X(j), other.Y(j), other.X(j + 1), other.Y(j + 1))
    }

    predicate CrossesAny(other: Edges)
      requires WellFormed() && other.WellFormed()
    {
      exists i: nat, j: nat | i < N() && j < other.N() :: Crosses(other, i, j)
    }

    /** Tries all pairs of segments, stopping at the first pair that meets. */
    method Intersects(other: Edges) returns (found: bool)
      requires WellFormed() && other.WellFormed()
      ensures found == CrossesAny(other)
    {
      for i := 0 to N()
        invariant forall i': nat, j': nat | i' < i && j' < other.N() :: !Crosses(other, i', j')
      {
        for j := 0 to other.N()
          invariant forall i': nat, j': nat | i' < i && j' < other.N() :: !Crosses(other, i', j')
          invariant forall j': nat | j' < j :: !Crosses(other, i, j')
        {
          var a, b, c, d := X(i), Y(i), X(i + 1), Y(i + 1);
          var p, q, r, s := other.X(j), other.Y(j), other.X(j + 1), other.Y(j + 1);
          if CoordinatesIntersect(a, b, c, d, p, q, r, s) {
            assert Crosses(other, i, j);
            return true;
          }
        }
      }
      return false;
    }

    /** The segment from (x - 1000, y - 1000) to (x, y) meets the line of segment i. */
    predicate RayCrosses(x: real, y: real, i: nat)
      requires WellFormed() && N() > 0
    {
      CoordinatesIntersect(x - 1000.0, y - 1000.0, x, y, X(i), Y(i), X(i + 1), Y(i + 1))
    }

    function RayCrossings(x: real, y: real): (crossed: set<nat>)
      requires WellFormed()
      ensures forall i: nat :: i in crossed <==> i < N() && RayCrosses(x, y, i)
    {
      set i: nat | i < N() && RayCrosses(x, y, i)
    }

    ghost function RayFlags(x: real, y: real): (flags: seq<bool>)
      requires WellFormed() && N() > 0
      ensures |flags| == N() && forall i | 0 <= i < N() :: flags[i] == RayCrosses(x, y, i)
      ensures Marked(flags, N()) == RayCrossings(x, y)
    {
      seq(N(), i requires 0 <= i < N() => RayCrosses(x, y, i))
    }

    /** Counts the segments whose lines the ray meets and reports whether the count is even. */
    method RayHit(x: real, y: real) returns (inside: bool)
      requires WellFormed()
      ensures inside <==> |RayCrossings(x, y)| % 2 == 0
    {
      if N() == 0 {
        assert RayCrossings(x, y) == {};
        return true;
      }
      ghost var flags := RayFlags(x, y);
      var a, b, c, d := x - 1000.0, y - 1000.0, x, y;
      var hits := 0;
      for i := 0 to N()
        invariant hits == |Marked(flags, i)|
      {
        MarkedStep(flags, i);
        var p, q, r, s := X(i), Y(i), X(i + 1), Y(i + 1);
        var intersect := CoordinatesIntersect(a, b, c, d, p, q, r, s);
        if intersect {
          hits := hits + 1;
        }
      }
      var evenNumberOfHits := hits % 2 == 0;
      return evenNumberOfHits;
    }
  }

  /** The four corners of a width-by-height rectangle centred on the origin, clockwise from the top left. */
  function Corners(width: real, height: real): (e: Edges)
    ensures e.WellFormed() && e.N() == 4
    ensures forall k | 0 <= k < 4 :: SwerveShapes.Corners(width, height).points[k] == Vec(e.xPoints[k], e.yPoints[k])
  {
    Edges([-width / 2.0, width / 2.0, width / 2.0, -width / 2.0],
          [height / 2.0, height / 2.0, -height / 2.0, -height / 2.0], 4)
  }

  function Abs(v: real): real
  {
    if v < 0.0 then -v else v
  }

  datatype Shape =
    | EdgesShape(edges: Edges)
    | Rectangle(width: real, height: real)
    | Polygon(polygonEdges: Edges)
  {
    predicate WellFormed()
    {
      match this
      case EdgesShape(edges) => edges.WellFormed()
      case Rectangle(_, _) => true
      case Polygon(polygonEdges) => polygonEdges.WellFormed()
    }

    function EdgesOf(): (e: Edges)
      requires WellFormed()
      ensures e.WellFormed()
    {
      match this
      case EdgesShape(edges) => edges
      case Rectangle(width, height) => Corners(width, height)
      case Polygon(polygonEdges) => polygonEdges
    }

    /**
     * Whether the point, relative to the centre, is inside: never for a ring; half of
     * each coordinate within the full width and height for a rectangle; after an even
     * number of crossings for a polygon.
     */
    predicate Inside(localX: real, localY: real)
      requires WellFormed()
    {
      match this
      case EdgesShape(_) => false
      case Rectangle(width, height) => Abs(localX) / 2.0 <= width && Abs(localY) / 2.0 <= height
      case Polygon(polygonEdges) => |polygonEdges.RayCrossings(localX, localY)| % 2 == 0
    }

    method Hit(localX: real, localY: real) returns (inside: bool)
      requires WellFormed()
      ensures inside == Inside(localX, localY)
    {
      match this
      case EdgesShape(_) =>
        inside := false;
      case Rectangle(width, height) =>
        inside := Abs(localX) / 2.0 <= width && Abs(localY) / 2.0 <= height;
      case Polygon(polygonEdges) =>
        inside := polygonEdges.RayHit(localX, localY);
    }

    /**
     * The shapes intersect when their edges meet, compared where they are defined
     * (the positions play no part in it), or when this shape's centre, taken relative
     * to the other's, is inside the other.
     */
    method Intersects(other: Shape, selfX: real, selfY: real, otherX: real, otherY: real) returns (intersect: bool)
      requires WellFormed() && other.WellFormed()
      ensures intersect == (EdgesOf().CrossesAny(other.EdgesOf()) || other.Inside(selfX - otherX, selfY - otherY))
    {
      var edgesIntersect := EdgesOf().Intersects(other.EdgesOf());
      var centerInside := other.Hit(selfX - otherX, selfY - otherY);
      return edgesIntersect || centerInside;
    }
  }

  /**
   * The rectangle test accepts twice the half-extent in each direction: the hit region
   * is the box |x| <= 2 width, |y| <= 2 height, four times as wide and high as the box its
   * corners span, so for instance (width, 0) is hit though it lies outside the corners.
   */
  lemma RectangleHitRegion(width: real, height: real, x: real, y: real)
    requires width > 0.0 && height >= 0.0
    ensures Rectangle(width, height).Inside(x, y) <==> Abs(x) <= 2.0 * width && Abs(y) <= 2.0 * height
    ensures Rectangle(width, height).Inside(width, 0.0) && width > Corners(width, height).xPoints[1]
  {
  }

  /** A polygon with no points has no crossings, so every point counts as inside it. */
  lemma EmptyPolygonContainsEverything(x: real, y: real)
    ensures Polygon(Edges([], [], 0)).Inside(x, y)
  {
    assert Edges([], [], 0).RayCrossings(x, y) == {};
  }

  /**
   * The ray to the origin meets the line of one edge of the triangle around it, so the
   * even-count test reports the origin outside, where the swerve test reports it inside.
   */
  lemma TriangleOriginOutside()
    ensures !Polygon(Edges([0.0, 1.0, -1.0], [-1.0, 1.0, 1.0], 3)).Inside(0.0, 0.0)
    ensures SwerveShapes.Polygon(SwerveShapes.Edges([Vec(0.0, -1.0), Vec(1.0, 1.0), Vec(-1.0, 1.0)])).Inside(0.0, 0.0)
  {
    var e := Edges([0.0, 1.0, -1.0], [-1.0, 1.0, 1.0], 3);
    assert !e.RayCrosses(0.0, 0.0, 0);
    assert !e.RayCrosses(0.0, 0.0, 1);
    assert e.RayCrosses(0.0, 0.0, 2);
    assert e.RayCrossings(0.0, 0.0) == {2};
    SwerveShapes.TriangleContainsOrigin();
  }

  /** The visualizer rectangle's corners are built on first use and kept. */
  class RectangleShape {
    const width: real
    const height: real
    var edges: Option<Edges>

    predicate Valid()
      reads this
    {
      edges == None || edges == Some(Corners(width, height))
    }

    constructor (width: real, height: real)
      ensures Valid() && this.width == width && this.height == height && edges == None
    {
      this.width := width;
      this.height := height;
      edges := None;
    }

    method GetEdges() returns (e: Edges)
      requires Valid()
      modifies this`edges
      ensures Valid() && e == Corners(width, height) && edges == Some(e)
    {
      if edges == None {
        edges := Some(Corners(width, height));
      }
      e := edges.value;
    }
  }
}
