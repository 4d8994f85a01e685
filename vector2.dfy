/**
 * Two-dimensional vectors over the reals: the componentwise operations (each returning
 * a new vector and leaving its operands alone), the dot product, the z component of the
 * cross product and the quarter turn `NinetyCounterClockwise`; and the mutable `Vector2`
 * object whose `Update` and `PlusEquals` change it in place.
 */
module Vectors {
  datatype Vec = Vec(x: real, y: real)
  {
    /** The additive inverse. */
    function UnaryMinus(): (r: Vec)
      ensures r.Plus(this) == Zero
    {
      Vec(-x, -y)
    }

    /** The dot product; a vector's product with itself, its squared length, is never negative. */
    function Dot(other: Vec): (r: real)
      ensures other == this ==> r >= 0.0
    {
      Square(x);
      Square(y);
      x * other.x + y * other.y
    }

    /** The sum, which subtracting the addend undoes. */
    function Plus(other: Vec): (r: Vec)
      ensures r.Minus(other) == this
    {
      Vec(x + other.x, y + other.y)
    }

    /** The difference, zero exactly for equal vectors. */
    function Minus(other: Vec): (r: Vec)
      ensures r == Zero <==> this == other
    {
      Vec(x - other.x, y - other.y)
    }

    /** Scaling; by 1 it is the identity, by 0 it gives the zero vector. */
    function Times(scalar: real): (r: Vec)
      ensures scalar == 1.0 ==> r == this
      ensures scalar == 0.0 ==> r == Zero
    {
      Vec(x * scalar, y * scalar)
    }

    /** Division by a nonzero scalar, which scaling by that scalar undoes. */
    function Divide(scalar: real): (r: Vec)
      requires scalar != 0.0
      ensures r.Times(scalar) == this
    {
      Vec(x / scalar, y / scalar)
    }

    /** The z component of the cross product: zero for a vector and itself, and the dot product with the other turned. */
    function CrossZ(other: Vec): (r: real)
      ensures other == this ==> r == 0.0
      ensures r == Dot(other.NinetyCounterClockwise())
    {
      x * other.y - y * other.x
    }

    /** The quarter turn: orthogonal to this vector and of the same length. */
    function NinetyCounterClockwise(): (r: Vec)
      ensures r.Dot(this) == 0.0 && r.Dot(r) == Dot(this)
    {
      Vec(y, -x)
    }
  }

  const Zero := Vec(0.0, 0.0)

  /** Subtraction undoes addition, and is addition of the negated vector. */
  lemma MinusUndoesPlus(a: Vec, b: Vec)
    ensures a.Plus(b).Minus(b) == a && a.Minus(b).Plus(b) == a
    ensures a.Minus(b) == a.Plus(b.UnaryMinus())
  {
  }

  /** Dividing by a nonzero scalar undoes multiplying by it; negation is scaling by -1. */
  lemma DivideUndoesTimes(a: Vec, scalar: real)
    requires scalar != 0.0
    ensures a.Times(scalar).Divide(scalar) == a && a.Divide(scalar).Times(scalar) == a
    ensures a.UnaryMinus() == a.Times(-1.0)
  {
  }

  /** Scaling distributes over addition: v + v * k is v * (1 + k). */
  lemma TimesDistributes(a: Vec, k: real)
    ensures a.Plus(a.Times(k)) == a.Times(1.0 + k)
  {
  }

  /** The dot product is symmetric; the cross product is antisymmetric and vanishes on a vector and itself. */
  lemma ProductSymmetries(a: Vec, b: Vec)
    ensures a.Dot(b) == b.Dot(a)
    ensures a.CrossZ(b) == -b.CrossZ(a)
    ensures a.CrossZ(a) == 0.0
  {
  }

  /**
   * The quarter turn is orthogonal to its argument, twice it negates, four times it is
   * the identity, and the cross product is the dot product with the turned vector.
   */
  lemma QuarterTurn(a: Vec, b: Vec)
    ensures a.Dot(a.NinetyCounterClockwise()) == 0.0
    ensures a.NinetyCounterClockwise().NinetyCounterClockwise() == a.UnaryMinus()
    ensures a.NinetyCounterClockwise().NinetyCounterClockwise().NinetyCounterClockwise().NinetyCounterClockwise() == a
    ensures a.CrossZ(b) == a.Dot(b.NinetyCounterClockwise())
  {
  }

  /**
   * Despite its name the quarter turn is clockwise: it takes the x axis to the negative
   * y axis, and every nonzero vector to one on its clockwise side (negative cross product).
   */
  lemma QuarterTurnIsClockwise(a: Vec)
    ensures Vec(1.0, 0.0).NinetyCounterClockwise() == Vec(0.0, -1.0)
    ensures a != Zero ==> a.CrossZ(a.NinetyCounterClockwise()) < 0.0
  {
    if a != Zero {
      assert a.x != 0.0 || a.y != 0.0;
      SumOfSquaresPositive(a.x, a.y);
      var t := a.NinetyCounterClockwise();
      assert t.x == a.y && t.y == -a.x;
      assert a.x * t.y == a.x * (-a.x) && a.y * t.x == a.y * a.y;
      assert a.CrossZ(t) == a.x * (-a.x) - a.y * a.y;
      assert a.CrossZ(t) < 0.0;
    }
  }

  /** Minus a sum of two squares, not both zero, is negative. */
  lemma SumOfSquaresPositive(u: real, v: real)
    requires u != 0.0 || v != 0.0
    ensures u * (-u) - v * v < 0.0
  {
    assert u * (-u) - v * v == -(u * u + v * v);
    Square(u);
    Square(v);
  }

  /** A square is never negative, and positive unless zero. */
  lemma Square(v: real)
    ensures v * v >= 0.0 && (v != 0.0 ==> v * v > 0.0)
  {
    if v < 0.0 {
      assert v * v == (-v) * (-v);
    }
  }

  /** A mutable vector; the cached angle is left out, only its dirty flag is kept. */
  class Vector2 {
    var x: real
    var y: real
    var angleDirty: bool

    function Value(): Vec
      reads this
    {
      Vec(x, y)
    }

    constructor (x: real, y: real)
      ensures Value() == Vec(x, y) && angleDirty
    {
      this.x := x;
      this.y := y;
      angleDirty := true;
    }

    /** Overwrites both components, which makes the cached angle stale. */
    method Update(x: real, y: real)
      modifies this
      ensures Value() == Vec(x, y) && angleDirty
    {
      this.x := x;
      this.y := y;
      angleDirty := true;
    }

    /** Adds `other` in place and returns this same object; `other` may be this object. */
    method PlusEquals(other: Vector2) returns (r: Vector2)
      modifies this
      ensures r == this && Value() == old(Value()).Plus(old(other.Value())) && angleDirty
    {
      Update(x + other.x, y + other.y);
      r := this;
    }
  }
}
