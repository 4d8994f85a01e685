/**
 * The shape library of the swerve simulator. A shape is a closed ring of points (the
 * `Edges`), a line, a rectangle centred on the origin, or a polygon. Two shapes
 * intersect when an edge of one crosses an edge of the other (the other translated by
 * an offset) or when the offset point lies inside the first shape. Coordinates are
 * doubles in the source and reals here.
 */
module SwerveShapes {
  import opened Vectors
  import opened Segments
  import opened Wrappers

  /**
   * Whether segment (a, b) -> (c, d) crosses segment (p, q) -> (r, s): the
   * determinant of the two directions must be nonzero, and the crossing must lie
   * strictly inside both segments.
   */
  function CoordinatesIntersect(a: real, b: real, c: real, d: real, p: real, q: real, r: real, s: real): (crosses: bool)
    ensures crosses ==> DetOf(a, b, c, d, p, q, r, s) != 0.0
  {
    var det := (c - a) * (s - q) - (r - p) * (d - b);
    if det == 0.0 then false
    else
      var lambda := ((s - q) * (r - a) + (p - r) * (s - b)) / det;
      var gamma := ((b - d) * (r - a) + (c - a) * (s - b)) / det;
      (0.0 < lambda && lambda < 1.0) && (0.0 < gamma && gamma < 1.0)
  }

  /** Segments cross only when their directions are not parallel, so neither is a single point. */
  function LinesIntersect(start0: Vec, end0: Vec, start1: Vec, end1: Vec): (crosses: bool)
    ensures crosses ==> Det(start0, end0, start1, end1) != 0.0 && start0 != end0 && start1 != end1
  {
    CoordinatesIntersect(start0.x, start0.y, end0.x, end0.y, start1.x, start1.y, end1.x, end1.y)
  }

  /** lambda is the parameter of the crossing along the first segment, gamma one minus that along the second. */
  lemma LambdaGamma(a: Vec, c: Vec, p: Vec, r: Vec)
    requires Det(a, c, p, r) != 0.0
    ensures LinesIntersect(a, c, p, r) <==>
      0.0 < MeetL(a, c, p, r) < 1.0 && 0.0 < MeetT(a, c, p, r) < 1.0
  {
    ParametersOnComponents(a.x, a.y, c.x, c.y, p.x, p.y, r.x, r.y);
  }

  /** The same on the eight coordinates. */
  lemma ParametersOnComponents(a: real, b: real, c: real, d: real, p: real, q: real, r: real, s: real)
    requires DetOf(a, b, c, d, p, q, r, s) != 0.0
    ensures CoordinatesIntersect(a, b, c, d, p, q, r, s) <==>
      0.0 < MeetLOf(a, b, c, d, p, q, r, s) < 1.0 && 0.0 < MeetTOf(a, b, c, d, p, q, r, s) < 1.0
  {
    var det := DetOf(a, b, c, d, p, q, r, s);
    var tNum := (p - a) * (d - b) - (q - b) * (c - a);
    assert (c - a) * (s - q) - (r - p) * (d - b) == det;
    assert (s - q) * (r - a) + (p - r) * (s - b) == (p - a) * (s - q) - (q - b) * (r - p);
    assert (b - d) * (r - a) + (c - a) * (s - b) == det - tNum;
    OneMinusQuotient(tNum, det);
  }

  /** (d - n) / d == 1 - n / d for nonzero d. */
  lemma OneMinusQuotient(n: real, d: real)
    requires d != 0.0
    ensures (d - n) / d == 1.0 - n / d
  {
    assert (n / d) * d == n;
    assert ((d - n) / d) * d == d - n;
    assert (1.0 - n / d) * d == d - n;
    Cancel((d - n) / d, 1.0 - n / d, d);
  }

  /**
   * Two segments cross exactly when they are not parallel and meet at a point strictly
   * inside both: parallel segments, even overlapping ones, never count, and neither
   * does a meeting at an endpoint.
   */
  lemma {:induction false} CrossingMeansMeeting(a: Vec, c: Vec, p: Vec, r: Vec)
    ensures LinesIntersect(a, c, p, r) <==>
      Det(a, c, p, r) != 0.0 && exists l, t | 0.0 < l < 1.0 && 0.0 < t < 1.0 :: MeetAt(a, c, p, r, l, t)
  {
    if Det(a, c, p, r) != 0.0 {
      LambdaGamma(a, c, p, r);
      var l, t := MeetL(a, c, p, r), MeetT(a, c, p, r);
      MeetsExactlyAtCramer(a, c, p, r, l, t);
      if exists l', t' | 0.0 < l' < 1.0 && 0.0 < t' < 1.0 :: MeetAt(a, c, p, r, l', t') {
        var l', t' :| 0.0 < l' < 1.0 && 0.0 < t' < 1.0 && MeetAt(a, c, p, r, l', t');
        MeetsExactlyAtCramer(a, c, p, r, l', t');
      }
    } else {
      assert (c.x - a.x) * (r.y - p.y) - (r.x - p.x) * (c.y - a.y) == 0.0;
    }
  }

  /** The crossing test does not depend on which segment comes first, nor on their directions. */
  lemma {:induction false} CrossingIsSymmetric(a: Vec, c: Vec, p: Vec, r: Vec)
    ensures LinesIntersect(a, c, p, r) == LinesIntersect(p, r, a, c)
    ensures LinesIntersect(a, c, p, r) == LinesIntersect(c, a, p, r)
    ensures LinesIntersect(a, c, p, r) == LinesIntersect(a, c, r, p)
  {
    CrossingMeansMeeting(a, c, p, r);
    CrossingMeansMeeting(p, r, a, c);
    CrossingMeansMeeting(c, a, p, r);
    CrossingMeansMeeting(a, c, r, p);
    DetSigns(a, c, p, r);
    forall l, t | 0.0 < l < 1.0 && 0.0 < t < 1.0
      ensures MeetAt(a, c, p, r, l, t) == MeetAt(p, r, a, c, t, l)
      ensures MeetAt(a, c, p, r, l, t) == MeetAt(c, a, p, r, 1.0 - l, t)
      ensures MeetAt(a, c, p, r, l, t) == MeetAt(a, c, r, p, l, 1.0 - t)
    {
      Reversed(a, c, l);
      Reversed(p, r, t);
    }
    if exists l, t | 0.0 < l < 1.0 && 0.0 < t < 1.0 :: MeetAt(c, a, p, r, l, t) {
      var l, t :| 0.0 < l < 1.0 && 0.0 < t < 1.0 && MeetAt(c, a, p, r, l, t);
      Reversed(a, c, 1.0 - l);
      assert MeetAt(a, c, p, r, 1.0 - l, t);
    }
    if exists l, t | 0.0 < l < 1.0 && 0.0 < t < 1.0 :: MeetAt(a, c, r, p, l, t) {
      var l, t :| 0.0 < l < 1.0 && 0.0 < t < 1.0 && MeetAt(a, c, r, p, l, t);
      Reversed(p, r, 1.0 - t);
      assert MeetAt(a, c, p, r, l, 1.0 - t);
    }
  }

  /** Swapping the segments, or reversing one of them, only flips the sign of the determinant. */
  lemma DetSigns(a: Vec, c: Vec, p: Vec, r: Vec)
    ensures Det(p, r, a, c) == -Det(a, c, p, r)
    ensures Det(c, a, p, r) == -Det(a, c, p, r)
    ensures Det(a, c, r, p) == -Det(a, c, p, r)
  {
  }

  /** Walking a segment backwards: the point at l from a is the point at 1 - l from c. */
  lemma Reversed(a: Vec, c: Vec, l: real)
    ensures At(a, c, l) == At(c, a, 1.0 - l)
  {
  }

  /** Segments that only share an endpoint do not cross. */
  lemma {:induction false} SharedEndpointDoesNotCross(a: Vec, c: Vec, r: Vec)
    ensures !LinesIntersect(a, c, c, r)
  {
    CrossingMeansMeeting(a, c, c, r);
    if Det(a, c, c, r) != 0.0 {
      assert At(a, c, 1.0) == c;
      assert At(c, r, 0.0) == c;
      MeetsExactlyAtCramer(a, c, c, r, 1.0, 0.0);
      forall l, t | 0.0 < l < 1.0 && 0.0 < t < 1.0
        ensures !MeetAt(a, c, c, r, l, t)
      {
        MeetsExactlyAtCramer(a, c, c, r, l, t);
      }
    }
  }

  /** The two diagonals of the square (0, 0), (2, 2) cross; collinear overlapping segments do not. */
  lemma CrossingExamples()
    ensures LinesIntersect(Vec(0.0, 0.0), Vec(2.0, 2.0), Vec(0.0, 2.0), Vec(2.0, 0.0))
    ensures !LinesIntersect(Vec(0.0, 0.0), Vec(2.0, 0.0), Vec(1.0, 0.0), Vec(3.0, 0.0))
  {
  }

  /** A closed ring of points: point i is joined to point i + 1, and the last to the first. */
  datatype Edges = Edges(points: seq<Vec>)
  {
    function N(): nat
    {
      |points|
    }

    /** The point at any index, counted around the ring; empty rings have none. */
    function Point(i: nat): (p: Vec)
      requires |points| > 0
      ensures p in points
    {
      points[i % |points|]
    }

    /** Segment i of this ring crosses segment j of the other ring translated by the offset. */
    predicate Crosses(other: Edges, offset: Vec, i: nat, j: nat)
      requires |points| > 0 && |other.points| > 0
    {
      LinesIntersect(Point(i), Point(i + 1), other.Point(j).Plus(offset), other.Point(j + 1).Plus(offset))
    }

    /** Some segment of this ring crosses some segment of the other, translated by the offset. */
    predicate CrossesAny(other: Edges, offset: Vec)
    {
      exists i: nat, j: nat | i < N() && j < other.N() :: Crosses(other, offset, i, j)
    }

    /** Tries all N() * other.N() pairs of segments, stopping at the first pair that crosses. */
    method Intersects(other: Edges, otherX: real, otherY: real) returns (found: bool)
      ensures found == CrossesAny(other, Vec(otherX, otherY))
    {
      var localPosition := Vec(otherX, otherY);
      for i := 0 to N()
        invariant forall i': nat, j': nat | i' < i && j' < other.N() :: !Crosses(other, localPosition, i', j')
      {
        for j := 0 to other.N()
          invariant forall i': nat, j': nat | i' < i && j' < other.N() :: !Crosses(other, localPosition, i', j')
          invariant forall j': nat | j' < j :: !Crosses(other, localPosition, i, j')
        {
          var selfStart := Point(i);
          var selfEnd := Point(i + 1);
          var otherStart := other.Point(j).Plus(localPosition);
          var otherEnd := other.Point(j + 1).Plus(localPosition);
          if LinesIntersect(selfStart, selfEnd, otherStart, otherEnd) {
            assert Crosses(other, localPosition, i, j);
            return true;
          }
        }
      }
      return false;
    }

    /** The segment from the far point (x - 10000, y - 10000) to (x, y) crosses segment i. */
    predicate RayCrosses(x: real, y: real, i: nat)
      requires |points| > 0
    {
      LinesIntersect(Vec(x - 10000.0, y - 10000.0), Vec(x, y), Point(i), Point(i + 1))
    }

    /** The segments the ray to (x, y) crosses. */
    function RayCrossings(x: real, y: real): (crossed: set<nat>)
      ensures forall i: nat :: i in crossed <==> i < N() && RayCrosses(x, y, i)
    {
      set i: nat | i < N() && RayCrosses(x, y, i)
    }

    /** Whether the ray to (x, y) crosses each segment, in order. */
    ghost function RayFlags(x: real, y: real): (flags: seq<bool>)
      requires |points| > 0
      ensures |flags| == N() && forall i | 0 <= i < N() :: flags[i] == RayCrosses(x, y, i)
      ensures Marked(flags, N()) == RayCrossings(x, y)
    {
      seq(N(), i requires 0 <= i < N() => RayCrosses(x, y, i))
    }

    /** Counts the segments the ray crosses, one at a time, and reports whether the count is odd. */
    method RayHit(x: real, y: real) returns (inside: bool)
      ensures inside <==> |RayCrossings(x, y)| % 2 == 1
    {
      if N() == 0 {
        assert RayCrossings(x, y) == {};
        return false;
      }
      ghost var flags := RayFlags(x, y);
      var rayStart := Vec(x - 10000.0, y - 10000.0);
      var rayEnd := Vec(x, y);
      var hits := 0;
      for i := 0 to N()
        invariant hits == |Marked(flags, i)|
      {
        MarkedStep(flags, i);
        var start, end := Point(i), Point(i + 1);
        var intersect := LinesIntersect(rayStart, rayEnd, start, end);
        if intersect {
          hits := hits + 1;
        }
      }
      var oddNumberOfHits := hits % 2 == 1;
      return oddNumberOfHits;
    }
  }

  /** Going once around the ring comes back to the start; within the ring the points are the listed ones. */
  lemma RingCloses(e: Edges, i: nat)
    requires e.N() > 0
    ensures e.Point(i + e.N()) == e.Point(i)
    ensures e.Point(e.N()) == e.Point(0)
    ensures i < e.N() ==> e.Point(i) == e.points[i]
  {
    ModOfShifted(i, e.N());
  }

  /** Adding the modulus does not change the remainder. */
  lemma ModOfShifted(i: nat, n: nat)
    requires n > 0
    ensures (i + n) % n == i % n && n % n == 0
  {
    var q, r := i / n, i % n;
    var q', r' := (i + n) / n, (i + n) % n;
    assert (q' - q - 1) * n == r - r';
    if q' - q - 1 >= 1 {
      AtLeastOnce(q' - q - 1, n);
    } else if q' - q - 1 <= -1 {
      AtLeastOnce(q + 1 - q', n);
    }
  }

  lemma AtLeastOnce(k: int, n: int)
    requires k >= 1 && n > 0
    ensures k * n >= n
  {
    assert k * n == (k - 1) * n + n;
  }

  /** The four corners of a width-by-height rectangle centred on the origin, clockwise from the top left. */
  function Corners(width: real, height: real): (e: Edges)
    ensures e.N() == 4
    ensures forall k | 0 <= k < 4 :: Abs(e.points[k].x) == Abs(width) / 2.0 && Abs(e.points[k].y) == Abs(height) / 2.0
  {
    Edges([Vec(-width / 2.0, height / 2.0), Vec(width / 2.0, height / 2.0),
           Vec(width / 2.0, -height / 2.0), Vec(-width / 2.0, -height / 2.0)])
  }

  function Abs(v: real): real
  {
    if v < 0.0 then -v else v
  }

  datatype Shape =
    | EdgesShape(edges: Edges)
    | Line(start: Vec, end: Vec)
    | Rectangle(width: real, height: real)
    | Polygon(polygonEdges: Edges)
  {
    /** The boundary of the shape: a line is the two-point ring start, end. */
    function EdgesOf(): Edges
    {
      match this
      case EdgesShape(edges) => edges
      case Line(start, end) => Edges([start, end])
      case Rectangle(width, height) => Corners(width, height)
      case Polygon(polygonEdges) => polygonEdges
    }

    /**
     * Whether the point, relative to the shape's centre, is inside: never for a ring or
     * a line, within half the width and half the height (boundary included) for a
     * rectangle, and after an odd number of ray crossings for a polygon.
     */
    predicate Inside(localX: real, localY: real)
    {
      match this
      case EdgesShape(_) => false
      case Line(_, _) => false
      case Rectangle(width, height) => Abs(localX) <= width / 2.0 && Abs(localY) <= height / 2.0
      case Polygon(polygonEdges) => |polygonEdges.RayCrossings(localX, localY)| % 2 == 1
    }

    method Hit(localX: real, localY: real) returns (inside: bool)
      ensures inside == Inside(localX, localY)
    {
      match this
      case EdgesShape(_) =>
        inside := false;
      case Line(_, _) =>
        inside := false;
      case Rectangle(width, height) =>
        inside := Abs(localX) <= width / 2.0 && Abs(localY) <= height / 2.0;
      case Polygon(polygonEdges) =>
        inside := polygonEdges.RayHit(localX, localY);
    }

    /**
     * The shapes intersect when the edges cross, the other's translated by the offset,
     * or when the offset point is inside this shape (not the other one).
     */
    method Intersects(other: Shape, localX: real, localY: real) returns (intersect: bool)
      ensures intersect == (EdgesOf().CrossesAny(other.EdgesOf(), Vec(localX, localY)) || Inside(localX, localY))
    {
      var edgesIntersect := EdgesOf().Intersects(other.EdgesOf(), localX, localY);
      var centerInside := Hit(localX, localY);
      return edgesIntersect || centerInside;
    }
  }

  /** A rectangle's hit region is the closed box its corners span. */
  lemma RectangleIsBoxOfCorners(width: real, height: real, x: real, y: real)
    requires width >= 0.0 && height >= 0.0
    ensures var e := Corners(width, height);
      Rectangle(width, height).Inside(x, y) <==>
        e.points[0].x <= x <= e.points[1].x && e.points[2].y <= y <= e.points[0].y
  {
  }

  /** Two lines intersect as shapes exactly when the segments cross, the second translated by the offset. */
  lemma {:induction false} LinesAsShapes(s0: Vec, e0: Vec, s1: Vec, e1: Vec, x: real, y: real)
    ensures var offset := Vec(x, y);
      (Line(s0, e0).EdgesOf().CrossesAny(Line(s1, e1).EdgesOf(), offset) || Line(s0, e0).Inside(x, y))
        <==> LinesIntersect(s0, e0, s1.Plus(offset), e1.Plus(offset))
  {
    var offset := Vec(x, y);
    var e, f := Edges([s0, e0]), Edges([s1, e1]);
    var p, r := s1.Plus(offset), e1.Plus(offset);
    forall i: nat, j: nat | i < 2 && j < 2
      ensures e.Crosses(f, offset, i, j) == LinesIntersect(s0, e0, p, r)
    {
      assert e.Point(i) == (if i == 0 then s0 else e0);
      assert e.Point(i + 1) == (if i == 0 then e0 else s0);
      assert f.Point(j) == (if j == 0 then s1 else e1);
      assert f.Point(j + 1) == (if j == 0 then e1 else s1);
      CrossingIsSymmetric(s0, e0, p, r);
      CrossingIsSymmetric(e0, s0, p, r);
    }
    if LinesIntersect(s0, e0, p, r) {
      assert e.Crosses(f, offset, 0, 0);
    }
  }

  /** The ray to the origin crosses one edge of this triangle around it, so the origin is inside. */
  lemma TriangleContainsOrigin()
    ensures Polygon(Edges([Vec(0.0, -1.0), Vec(1.0, 1.0), Vec(-1.0, 1.0)])).Inside(0.0, 0.0)
  {
    var e := Edges([Vec(0.0, -1.0), Vec(1.0, 1.0), Vec(-1.0, 1.0)]);
    assert !e.RayCrosses(0.0, 0.0, 0);
    assert !e.RayCrosses(0.0, 0.0, 1);
    assert e.RayCrosses(0.0, 0.0, 2);
    assert e.RayCrossings(0.0, 0.0) == {2};
  }

  /**
   * The ray runs diagonally, so for a square polygon centred on the point it passes
   * exactly through a corner; a meeting at an endpoint is not a crossing, so no edge is
   * counted and the centre of the square is reported outside.
   */
  lemma SquareCentreMissed()
    ensures !Polygon(Corners(2.0, 2.0)).Inside(0.0, 0.0)
  {
    var e := Corners(2.0, 2.0);
    forall i: nat | i < 4
      ensures !e.RayCrosses(0.0, 0.0, i)
    {
      assert i == 0 || i == 1 || i == 2 || i == 3;
    }
    assert e.RayCrossings(0.0, 0.0) == {};
  }

  /**
   * The swerve rectangle's edges are built on first use and kept: every call returns
   * the same four corners.
   */
  class RectangleShape {
    const width: real
    const height: real
    var edges: Option<Edges>

    predicate Valid()
      reads this
    {
      edges == None || edges == Some(Corners(width, height))
    }

    constructor (width: real, height: real)
      ensures Valid() && this.width == width && this.height == height && edges == None
    {
      this.width := width;
      this.height := height;
      edges := None;
    }

    /** The corners of the rectangle, from the cache once it is filled. */
    method GetEdges() returns (e: Edges)
      requires Valid()
      modifies this`edges
      ensures Valid() && e == Corners(width, height) && edges == Some(e)
    {
      if edges == None {
        edges := Some(Corners(width, height));
      }
      e := edges.value;
    }

    function AsShape(): (s: Shape)
      reads this
      requires Valid()
      ensures s.EdgesOf() == Corners(width, height)
    {
      Rectangle(width, height)
    }
  }
}
