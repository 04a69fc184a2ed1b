/** The grid cell value type: a (row, col) pair compared by coordinates, with Java's
    fixed hash formula and its "(row, col)" rendering. */
module Points {
  import opened Decimal

  datatype Point = Point(row: int, col: int)

  /** The argument of Java's `equals(Object)`: null, a `Point`, or an object of another class. */
  datatype Obj = Null | PointObj(point: Point) | OtherClass

  /** `Point.equals`: true for a point with the same row and column, false for null and for other classes. */
  function Equals(p: Point, obj: Obj): (r: bool)
    ensures obj.PointObj? ==> (r <==> obj.point == p)
    ensures !obj.PointObj? ==> !r
  {
    match obj
    case PointObj(q) => p.row == q.row && p.col == q.col
    case _ => false
  }

  const TWO_POW_32: int := 0x1_0000_0000
  const INT_MIN: int := -0x8000_0000
  const INT_MAX: int := 0x7FFF_FFFF

  /** Reduction of a mathematical integer to Java's 32-bit two's-complement `int`. */
  function Wrap32(x: int): (r: int)
    ensures INT_MIN <= r <= INT_MAX
    ensures (x - r) % TWO_POW_32 == 0
    ensures INT_MIN <= x <= INT_MAX ==> r == x
  {
    (x - INT_MIN) % TWO_POW_32 + INT_MIN
  }

  /** `Point.hashCode`: `row * 1000 + col` in 32-bit arithmetic. */
  function HashCode(p: Point): (h: int)
    ensures INT_MIN <= h <= INT_MAX
    ensures INT_MIN <= p.row * 1000 + p.col <= INT_MAX ==> h == p.row * 1000 + p.col
  {
    Wrap32(p.row * 1000 + p.col)
  }

  /** Equal points (in the sense of `equals`) have equal hash codes. */
  lemma EqualsConsistentWithHash(p: Point, q: Point)
    requires Equals(p, PointObj(q))
    ensures HashCode(p) == HashCode(q)
  {
  }

  /** The formula is not injective: (0, 1000) and (1, 0) are different points with one hash code. */
  lemma HashCollision()
    ensures !Equals(Point(0, 1000), PointObj(Point(1, 0)))
    ensures HashCode(Point(0, 1000)) == HashCode(Point(1, 0))
  {
  }

  /** On grids with fewer than 1000 columns (and rows small enough not to overflow) the hash is injective. */
  lemma HashInjectiveOnNarrowGrids(p: Point, q: Point)
    requires 0 <= p.col < 1000 && 0 <= q.col < 1000
    requires 0 <= p.row <= 2147482 && 0 <= q.row <= 2147482
    ensures HashCode(p) == HashCode(q) ==> p == q
  {
    if p.row < q.row {
      assert p.row * 1000 + p.col < (p.row + 1) * 1000 <= q.row * 1000;
    } else if q.row < p.row {
      assert q.row * 1000 + q.col < (q.row + 1) * 1000 <= p.row * 1000;
    }
  }

  /** `Point.toString`: "(row, col)". */
  function ToString(p: Point): (s: string)
    ensures |s| >= 6 && s[0] == '(' && s[|s| - 1] == ')'
  {
    "(" + IntToString(p.row) + ", " + IntToString(p.col) + ")"
  }

  /** Distinct points render differently, so the rendering identifies the point. */
  lemma ToStringInjective(p: Point, q: Point)
    requires ToString(p) == ToString(q)
    ensures p == q
  {
    var cp, cq := IntToString(p.col), IntToString(q.col);
    ToStringPieces(p);
    ToStringPieces(q);
    IntSplit(p.row, ", " + cp + ")", q.row, ", " + cq + ")");
    IntSplit(p.col, ")", q.col, ")");
  }

  /** What follows the opening parenthesis is the row, then ", " and the column and ")". */
  lemma ToStringPieces(p: Point)
    ensures ToString(p)[1..] == IntToString(p.row) + (", " + IntToString(p.col) + ")")
    ensures (", " + IntToString(p.col) + ")")[2..] == IntToString(p.col) + ")"
  {
    var r, c := IntToString(p.row), IntToString(p.col);
    assert ToString(p) == "(" + (r + (", " + c + ")"));
  }
}
