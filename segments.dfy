/**
 * Plane geometry of two segments A->C and P->R, shared by both shape libraries: the
 * points A + l (C - A) and P + t (R - P) on the two lines, and Cramer's rule, which
 * finds the unique l and t where the lines meet whenever their directions are not
 * parallel. Also the counting of flagged indices that both point-in-polygon tests use.
 */
module Segments {
  import opened Vectors

  /** The point at parameter l along the line from a to c. */
  function At(a: Vec, c: Vec, l: real): Vec
  {
    a.Plus(c.Minus(a).Times(l))
  }

  /** The line through a and c at parameter l meets the line through p and r at parameter t. */
  predicate MeetAt(a: Vec, c: Vec, p: Vec, r: Vec, l: real, t: real)
  {
    At(a, c, l) == At(p, r, t)
  }

  /** The cross product of the two directions; zero exactly when they are parallel or one is degenerate. */
  function Det(a: Vec, c: Vec, p: Vec, r: Vec): real
  {
    DetOf(a.x, a.y, c.x, c.y, p.x, p.y, r.x, r.y)
  }

  /** Where the lines meet, by Cramer's rule: the parameter along a->c ... */
  function MeetL(a: Vec, c: Vec, p: Vec, r: Vec): real
    requires Det(a, c, p, r) != 0.0
  {
    MeetLOf(a.x, a.y, c.x, c.y, p.x, p.y, r.x, r.y)
  }

  /** ... and the parameter along p->r. */
  function MeetT(a: Vec, c: Vec, p: Vec, r: Vec): real
    requires Det(a, c, p, r) != 0.0
  {
    MeetTOf(a.x, a.y, c.x, c.y, p.x, p.y, r.x, r.y)
  }

  /** Det, MeetL and MeetT on the coordinates of a = (ax, ay), c, p and r. */
  function DetOf(ax: real, ay: real, cx: real, cy: real, px: real, py: real, rx: real, ry: real): real
  {
    (cx - ax) * (ry - py) - (cy - ay) * (rx - px)
  }

  function MeetLOf(ax: real, ay: real, cx: real, cy: real, px: real, py: real, rx: real, ry: real): real
    requires DetOf(ax, ay, cx, cy, px, py, rx, ry) != 0.0
  {
    ((px - ax) * (ry - py) - (py - ay) * (rx - px)) / DetOf(ax, ay, cx, cy, px, py, rx, ry)
  }

  function MeetTOf(ax: real, ay: real, cx: real, cy: real, px: real, py: real, rx: real, ry: real): real
    requires DetOf(ax, ay, cx, cy, px, py, rx, ry) != 0.0
  {
    ((px - ax) * (cy - ay) - (py - ay) * (cx - ax)) / DetOf(ax, ay, cx, cy, px, py, rx, ry)
  }

  /** Two lines that are not parallel meet at exactly one pair of parameters, the one Cramer's rule gives. */
  lemma MeetsExactlyAtCramer(a: Vec, c: Vec, p: Vec, r: Vec, l: real, t: real)
    requires Det(a, c, p, r) != 0.0
    ensures MeetAt(a, c, p, r, l, t) <==> l == MeetL(a, c, p, r) && t == MeetT(a, c, p, r)
  {
    MeetAtComponents(a, c, p, r, l, t);
    CramerOnComponents(a, c, p, r, l, t);
  }

  /** Cramer's rule applied to the components of the two lines. */
  lemma CramerOnComponents(a: Vec, c: Vec, p: Vec, r: Vec, l: real, t: real)
    requires Det(a, c, p, r) != 0.0
    ensures (l * (c.x - a.x) - t * (r.x - p.x) == p.x - a.x && l * (c.y - a.y) - t * (r.y - p.y) == p.y - a.y)
      <==> l == MeetL(a, c, p, r) && t == MeetT(a, c, p, r)
  {
    Cramer(c.x - a.x, c.y - a.y, r.x - p.x, r.y - p.y, p.x - a.x, p.y - a.y, l, t);
  }

  /** The two lines meet at (l, t) exactly when l (c - a) - t (r - p) == p - a. */
  lemma MeetAtComponents(a: Vec, c: Vec, p: Vec, r: Vec, l: real, t: real)
    ensures MeetAt(a, c, p, r, l, t) <==>
      l * (c.x - a.x) - t * (r.x - p.x) == p.x - a.x && l * (c.y - a.y) - t * (r.y - p.y) == p.y - a.y
  {
  }

  /** Cramer's rule for l u - t v = w, written out on the components. */
  lemma Cramer(ux: real, uy: real, vx: real, vy: real, wx: real, wy: real, l: real, t: real)
    requires ux * vy - uy * vx != 0.0
    ensures (l * ux - t * vx == wx && l * uy - t * vy == wy) <==>
      (l == (wx * vy - wy * vx) / (ux * vy - uy * vx) && t == (wx * uy - wy * ux) / (ux * vy - uy * vx))
  {
    var det := ux * vy - uy * vx;
    if l * ux - t * vx == wx && l * uy - t * vy == wy {
      EliminateT(ux, uy, vx, vy, l, t);
      EliminateL(ux, uy, vx, vy, l, t);
      Quotient(wx * vy - wy * vx, l, det);
      Quotient(wx * uy - wy * ux, t, det);
    }
    if l == (wx * vy - wy * vx) / det && t == (wx * uy - wy * ux) / det {
      Quotient(wx * vy - wy * vx, l, det);
      Quotient(wx * uy - wy * ux, t, det);
      SolvesFirst(ux, uy, vx, vy, wx, wy, l, t);
      SolvesSecond(ux, uy, vx, vy, wx, wy, l, t);
    }
  }

  /** Crossing the equations with v eliminates t. */
  lemma EliminateT(ux: real, uy: real, vx: real, vy: real, l: real, t: real)
    ensures (l * ux - t * vx) * vy - (l * uy - t * vy) * vx == l * (ux * vy - uy * vx)
  {
  }

  /** Crossing them with u eliminates l. */
  lemma EliminateL(ux: real, uy: real, vx: real, vy: real, l: real, t: real)
    ensures (l * ux - t * vx) * uy - (l * uy - t * vy) * ux == t * (ux * vy - uy * vx)
  {
  }

  /** n / d == q exactly when n == q d, for d nonzero. */
  lemma Quotient(n: real, q: real, d: real)
    requires d != 0.0
    ensures n / d == q <==> n == q * d
  {
  }

  lemma SolvesFirst(ux: real, uy: real, vx: real, vy: real, wx: real, wy: real, l: real, t: real)
    requires l * (ux * vy - uy * vx) == wx * vy - wy * vx
    requires t * (ux * vy - uy * vx) == wx * uy - wy * ux
    requires ux * vy - uy * vx != 0.0
    ensures l * ux - t * vx == wx
  {
    var det := ux * vy - uy * vx;
    assert (l * ux - t * vx) * det == (l * det) * ux - (t * det) * vx;
    assert (wx * vy - wy * vx) * ux - (wx * uy - wy * ux) * vx == wx * det;
    Cancel(l * ux - t * vx, wx, det);
  }

  lemma SolvesSecond(ux: real, uy: real, vx: real, vy: real, wx: real, wy: real, l: real, t: real)
    requires l * (ux * vy - uy * vx) == wx * vy - wy * vx
    requires t * (ux * vy - uy * vx) == wx * uy - wy * ux
    requires ux * vy - uy * vx != 0.0
    ensures l * uy - t * vy == wy
  {
    var det := ux * vy - uy * vx;
    assert (l * uy - t * vy) * det == (l * det) * uy - (t * det) * vy;
    assert (wx * vy - wy * vx) * uy - (wx * uy - wy * ux) * vy == wy * det;
    Cancel(l * uy - t * vy, wy, det);
  }

  /** A nonzero factor cancels. */
  lemma Cancel(x: real, y: real, d: real)
    requires d != 0.0 && x * d == y * d
    ensures x == y
  {
    assert (x - y) * d == 0.0;
  }

  /** The indices below k whose flag is set. */
  function Marked(flags: seq<bool>, k: nat): (marked: set<nat>)
    requires k <= |flags|
    ensures forall i: nat :: i in marked <==> i < k && flags[i]
  {
    set i: nat | i < k && flags[i]
  }

  /** One more flag adds one index exactly when it is set. */
  lemma MarkedStep(flags: seq<bool>, k: nat)
    requires k < |flags|
    ensures |Marked(flags, k + 1)| == |Marked(flags, k)| + (if flags[k] then 1 else 0)
  {
    if flags[k] {
      assert Marked(flags, k + 1) == Marked(flags, k) + {k};
    } else {
      assert Marked(flags, k + 1) == Marked(flags, k);
    }
  }
}
