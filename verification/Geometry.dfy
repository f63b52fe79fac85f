/**
 Where the straight line between two cell centres runs.  The code decides
 everything from the signs of integer cross products; this module ties those
 signs to points of the real plane.
 */
module Geometry {
  import opened Grid

  // ---------- the integer arithmetic of the code ----------

  function CrossProduct(x1: int, y1: int, x2: int, y2: int, x3: int, y3: int): int {
    (x2 - x1) * (y3 - y1) - (y2 - y1) * (x3 - x1)
  }

  /** The cross product at a corner of `cell`; i and j pick the corner. */
  function Corner(start: Pos, target: Pos, cell: Pos, i: int, j: int): int {
    CrossProduct(2 * start.row + 1, 2 * start.col + 1, 2 * target.row + 1, 2 * target.col + 1,
                 2 * (cell.row + i), 2 * (cell.col + j))
  }

  /** How far the centre of `cell` lies off the line, and how far a square reaches. */
  function Offset(start: Pos, target: Pos, cell: Pos): int {
    2 * ((target.row - start.row) * (cell.col - start.col) - (target.col - start.col) * (cell.row - start.row))
  }

  function Reach(start: Pos, target: Pos): nat {
    Abs(target.row - start.row) + Abs(target.col - start.col)
  }

  function Collision(start: Pos, target: Pos, cell: Pos): int {
    if Abs(Offset(start, target, cell)) < Reach(start, target) then 1
    else if Abs(Offset(start, target, cell)) == Reach(start, target) then 0
    else -1
  }

  lemma MulDistributes(a: int, x: int, y: int)
    ensures a * (x + y) == a * x + a * y
  {
  }

  lemma CornerValue(start: Pos, target: Pos, cell: Pos, i: int, j: int)
    ensures Corner(start, target, cell, i, j)
            == 2 * (Offset(start, target, cell) + (target.row - start.row) * (2 * j - 1)
                    - (target.col - start.col) * (2 * i - 1))
  {
    var dr, dc := target.row - start.row, target.col - start.col;
    var y, x := cell.col - start.col, cell.row - start.row;
    assert Corner(start, target, cell, i, j) == (2 * dr) * (2 * y + (2 * j - 1)) - (2 * dc) * (2 * x + (2 * i - 1));
    MulDistributes(2 * dr, 2 * y, 2 * j - 1);
    MulDistributes(2 * dc, 2 * x, 2 * i - 1);
    assert (2 * dr) * (2 * y) == 4 * (dr * y);
    assert (2 * dc) * (2 * x) == 4 * (dc * x);
    assert (2 * dr) * (2 * j - 1) == 2 * (dr * (2 * j - 1));
    assert (2 * dc) * (2 * i - 1) == 2 * (dc * (2 * i - 1));
  }

  /** With an axis-parallel line the offset is an even multiple of the reach, so it cannot equal it. */
  lemma NotAlongAnEdge(start: Pos, target: Pos, cell: Pos)
    requires start != target
    requires start.row == target.row || start.col == target.col
    ensures Abs(Offset(start, target, cell)) != Reach(start, target)
  {
    var d := if start.row == target.row then target.col - start.col else target.row - start.row;
    var k := if start.row == target.row then -(cell.row - start.row) else cell.col - start.col;
    assert Offset(start, target, cell) == 2 * (d * k);
    if k >= 1 {
      assert Abs(d * k) >= Abs(d);
    } else if k <= -1 {
      assert Abs(d * k) >= Abs(d);
    } else {
      assert d * k == 0;
    }
  }

  /** Four values in the corners of a rectangle around 2 * w. */
  lemma RectangleSigns(w: int, dr: int, dc: int, l: int, c00: int, c01: int, c10: int, c11: int)
    requires l == Abs(dr) + Abs(dc)
    requires c00 == 2 * (w - dr + dc) && c01 == 2 * (w + dr + dc) && c10 == 2 * (w - dr - dc) && c11 == 2 * (w + dr - dc)
    ensures (c00 < 0 || c01 < 0 || c10 < 0 || c11 < 0) <==> w < l
    ensures (c00 > 0 || c01 > 0 || c10 > 0 || c11 > 0) <==> w + l > 0
    ensures Abs(w) == l ==> c00 == 0 || c01 == 0 || c10 == 0 || c11 == 0
    ensures Abs(w) > l ==> c00 != 0 && c01 != 0 && c10 != 0 && c11 != 0
  {
  }

  /** The four corner signs, read off the offset. */
  lemma CornerSigns(start: Pos, target: Pos, cell: Pos)
    ensures var w, l := Offset(start, target, cell), Reach(start, target);
            var c00, c01 := Corner(start, target, cell, 0, 0), Corner(start, target, cell, 0, 1);
            var c10, c11 := Corner(start, target, cell, 1, 0), Corner(start, target, cell, 1, 1);
            && ((c00 < 0 || c01 < 0 || c10 < 0 || c11 < 0) <==> w < l)
            && ((c00 > 0 || c01 > 0 || c10 > 0 || c11 > 0) <==> w + l > 0)
            && (Abs(w) == l ==> c00 == 0 || c01 == 0 || c10 == 0 || c11 == 0)
            && (Abs(w) > l ==> c00 != 0 && c01 != 0 && c10 != 0 && c11 != 0)
  {
    CornerValue(start, target, cell, 0, 0);
    CornerValue(start, target, cell, 0, 1);
    CornerValue(start, target, cell, 1, 0);
    CornerValue(start, target, cell, 1, 1);
    RectangleSigns(Offset(start, target, cell), target.row - start.row, target.col - start.col, Reach(start, target),
                   Corner(start, target, cell, 0, 0), Corner(start, target, cell, 0, 1),
                   Corner(start, target, cell, 1, 0), Corner(start, target, cell, 1, 1));
  }

  /** squareCollision: the scan over the corners of the cell square. */
  method SquareCollision(start: Pos, target: Pos, cell: Pos) returns (state: int)
    ensures state == Collision(start, target, cell)
  {
    var hasNegative, hasPositive, hasZero := false, false, false;
    var i := 0;
    while i <= 1
      invariant 0 <= i <= 2
      invariant hasNegative <==> (exists a, b | 0 <= a < i && 0 <= b < 2 :: Corner(start, target, cell, a, b) < 0)
      invariant hasPositive <==> (exists a, b | 0 <= a < i && 0 <= b < 2 :: Corner(start, target, cell, a, b) > 0)
      invariant hasZero <==> (exists a, b | 0 <= a < i && 0 <= b < 2 :: Corner(start, target, cell, a, b) == 0)
    {
      var j := 0;
      while j <= 1
        invariant 0 <= j <= 2
        invariant hasNegative <==> (exists a, b | 0 <= a <= i && 0 <= b < (if a == i then j else 2) :: Corner(start, target, cell, a, b) < 0)
        invariant hasPositive <==> (exists a, b | 0 <= a <= i && 0 <= b < (if a == i then j else 2) :: Corner(start, target, cell, a, b) > 0)
        invariant hasZero <==> (exists a, b | 0 <= a <= i && 0 <= b < (if a == i then j else 2) :: Corner(start, target, cell, a, b) == 0)
      {
        var crossProduct := Corner(start, target, cell, i, j);
        if crossProduct < 0 {
          hasNegative := true;
        } else if crossProduct > 0 {
          hasPositive := true;
        } else {
          hasZero := true;
        }
        j := j + 1;
      }
      i := i + 1;
    }
    CornerSigns(start, target, cell);
    if hasNegative && hasPositive {
      return 1;
    }
    if hasZero {
      return 0;
    }
    return -1;
  }

  // ---------- the plane ----------

  /** Cell (r, c) is the unit square between (r, c) and (r + 1, c + 1). */
  datatype Point = Point(x: real, y: real)

  /** The point at parameter k of the line through both centres; 0 is the start, 1 the target. */
  function OnLine(start: Pos, target: Pos, k: real): Point {
    Point(start.row as real + 0.5 + k * (target.row - start.row) as real,
          start.col as real + 0.5 + k * (target.col - start.col) as real)
  }

  /** In the square of `cell`, without its boundary when `open`. */
  predicate InSquare(p: Point, cell: Pos, open: bool) {
    && Between(cell.row as real, p.x, (cell.row + 1) as real, open)
    && Between(cell.col as real, p.y, (cell.col + 1) as real, open)
  }

  predicate Between(lo: real, x: real, hi: real, open: bool) {
    if open then lo < x < hi else lo <= x <= hi
  }

  predicate IsCorner(p: Point, cell: Pos) {
    && (p.x == cell.row as real || p.x == (cell.row + 1) as real)
    && (p.y == cell.col as real || p.y == (cell.col + 1) as real)
  }

  ghost predicate LineMeets(start: Pos, target: Pos, cell: Pos, open: bool) {
    exists k: real :: InSquare(OnLine(start, target, k), cell, open)
  }

  ghost predicate SegmentMeets(start: Pos, target: Pos, cell: Pos, open: bool) {
    exists k: real :: 0.0 <= k <= 1.0 && InSquare(OnLine(start, target, k), cell, open)
  }

  // ---------- coordinates that grow towards the target ----------

  /** Rows (columns) advanced from the start in the direction of the target. */
  function Along(from: int, to: int, at: int): int {
    if to >= from then at - from else from - at
  }

  /** Between start and target in both coordinates. */
  predicate InBox(start: Pos, target: Pos, cell: Pos) {
    && 0 <= Along(start.row, target.row, cell.row) <= Abs(target.row - start.row)
    && 0 <= Along(start.col, target.col, cell.col) <= Abs(target.col - start.col)
  }

  /** The offset in those coordinates; it only changes sign with the quadrant. */
  function Skew(start: Pos, target: Pos, cell: Pos): int {
    2 * (Abs(target.row - start.row) * Along(start.col, target.col, cell.col)
         - Abs(target.col - start.col) * Along(start.row, target.row, cell.row))
  }

  lemma SkewIsOffset(start: Pos, target: Pos, cell: Pos)
    ensures Abs(Skew(start, target, cell)) == Abs(Offset(start, target, cell))
  {
    var dr, dc := target.row - start.row, target.col - start.col;
    var x, y := cell.row - start.row, cell.col - start.col;
    assert (-dr) * y == -(dr * y) && dr * (-y) == -(dr * y) && (-dr) * (-y) == dr * y;
    assert (-dc) * x == -(dc * x) && dc * (-x) == -(dc * x) && (-dc) * (-x) == dc * x;
  }

  /** In one coordinate, with a cells to go and the cell u cells along: how far the point is from the centre. */
  function Gap(a: nat, u: int, k: real): real {
    k * a as real - u as real
  }

  predicate Near(a: nat, u: int, k: real, open: bool) {
    Between(-0.5, Gap(a, u, k), 0.5, open)
  }

  lemma SideByGap(from: int, to: int, at: int, k: real, open: bool)
    ensures Between(at as real, from as real + 0.5 + k * (to - from) as real, (at + 1) as real, open)
            <==> Near(Abs(to - from), Along(from, to, at), k, open)
  {
    assert k * (-(to - from)) as real == -(k * (to - from) as real);
  }

  lemma SquareByGaps(start: Pos, target: Pos, cell: Pos, k: real, open: bool)
    ensures InSquare(OnLine(start, target, k), cell, open)
            <==> Near(Abs(target.row - start.row), Along(start.row, target.row, cell.row), k, open)
                 && Near(Abs(target.col - start.col), Along(start.col, target.col, cell.col), k, open)
  {
    SideByGap(start.row, target.row, cell.row, k, open);
    SideByGap(start.col, target.col, cell.col, k, open);
  }

  lemma BoundedProduct(c: real, d: real, open: bool)
    requires c >= 0.0 && Between(-0.5, d, 0.5, open)
    ensures -0.5 * c <= c * d <= 0.5 * c
    ensures open && c > 0.0 ==> -0.5 * c < c * d < 0.5 * c
  {
    assert c * (0.5 - d) >= 0.0 && c * (0.5 + d) >= 0.0;
    if open && c > 0.0 {
      assert c * (0.5 - d) > 0.0 && c * (0.5 + d) > 0.0;
    }
  }

  lemma SumOfHalves(a: real, b: real, p: real, q: real, open: bool)
    requires a >= 0.0 && b >= 0.0 && a + b > 0.0
    requires -0.5 * b <= p <= 0.5 * b && (open && b > 0.0 ==> -0.5 * b < p < 0.5 * b)
    requires -0.5 * a <= q <= 0.5 * a && (open && a > 0.0 ==> -0.5 * a < q < 0.5 * a)
    ensures Between(-(a + b), 2.0 * (p - q), a + b, open)
  {
  }

  lemma BoundedDifference(a: real, b: real, gr: real, gc: real, open: bool)
    requires a >= 0.0 && b >= 0.0 && a + b > 0.0
    requires Between(-0.5, gr, 0.5, open) && Between(-0.5, gc, 0.5, open)
    ensures Between(-(a + b), 2.0 * (b * gr - a * gc), a + b, open)
  {
    BoundedProduct(b, gr, open);
    BoundedProduct(a, gc, open);
    SumOfHalves(a, b, b * gr, a * gc, open);
  }

  /** Half the skew is what remains of the gaps when the parameter is eliminated. */
  lemma SkewFromGaps(a: nat, b: nat, u: int, v: int, k: real)
    ensures (2 * (a * v - b * u)) as real == 2.0 * (b as real * Gap(a, u, k) - a as real * Gap(b, v, k))
  {
    var ra, rb, ru, rv := a as real, b as real, u as real, v as real;
    assert rb * (k * ra - ru) == rb * (k * ra) - rb * ru;
    assert ra * (k * rb - rv) == ra * (k * rb) - ra * rv;
    assert rb * (k * ra) == ra * (k * rb);
    assert (a * v) as real == ra * rv && (b * u) as real == rb * ru;
  }

  predicate OffBy(w: int, l: nat, open: bool) {
    if open then Abs(w) < l else Abs(w) <= l
  }

  lemma RealOffBy(w: int, l: nat, x: real, open: bool)
    requires x == w as real && Between(-(l as real), x, l as real, open)
    ensures OffBy(w, l, open)
  {
  }

  lemma NearBoundsSkew(a: nat, b: nat, u: int, v: int, k: real, open: bool)
    requires a + b > 0
    requires Near(a, u, k, open) && Near(b, v, k, open)
    ensures OffBy(2 * (a * v - b * u), a + b, open)
  {
    var x := 2.0 * (b as real * Gap(a, u, k) - a as real * Gap(b, v, k));
    assert Between(-((a + b) as real), x, (a + b) as real, open) by {
      BoundedDifference(a as real, b as real, Gap(a, u, k), Gap(b, v, k), open);
    }
    assert x == (2 * (a * v - b * u)) as real by {
      SkewFromGaps(a, b, u, v, k);
    }
    RealOffBy(2 * (a * v - b * u), a + b, x, open);
  }

  /** The parameter u + v over a + b brings both gaps to half the skew over a + b. */
  lemma GapsAtNearest(a: nat, b: nat, u: int, v: int, k: real)
    requires a + b > 0 && k == (u + v) as real / (a + b) as real
    ensures (a + b) as real * Gap(a, u, k) == 0.5 * (2 * (a * v - b * u)) as real
    ensures (a + b) as real * Gap(b, v, k) == -0.5 * (2 * (a * v - b * u)) as real
  {
    var ra, rb, ru, rv, l := a as real, b as real, u as real, v as real, (a + b) as real;
    assert l * k == ru + rv;
    assert l * (k * ra - ru) == (l * k) * ra - l * ru;
    assert l * (k * rb - rv) == (l * k) * rb - l * rv;
    assert (ru + rv) * ra == ra * ru + ra * rv && (ru + rv) * rb == rb * ru + rb * rv;
    assert l * ru == ra * ru + rb * ru && l * rv == ra * rv + rb * rv;
    assert (a * v) as real == ra * rv && (b * u) as real == rb * ru;
  }

  lemma DivideBound(l: real, g: real, h: real, open: bool)
    requires l > 0.0 && l * g == h
    requires Between(-0.5 * l, h, 0.5 * l, open)
    ensures Between(-0.5, g, 0.5, open)
  {
    assert g >= 0.5 ==> l * (g - 0.5) >= 0.0;
    assert g <= -0.5 ==> l * (-0.5 - g) >= 0.0;
    assert g > 0.5 ==> l * (g - 0.5) > 0.0;
    assert g < -0.5 ==> l * (-0.5 - g) > 0.0;
  }

  lemma DivideOffBy(w: int, l: nat, g: real, open: bool)
    requires l > 0 && OffBy(w, l, open)
    requires l as real * g == 0.5 * w as real || l as real * g == -0.5 * w as real
    ensures Between(-0.5, g, 0.5, open)
  {
    DivideBound(l as real, g, if l as real * g == 0.5 * w as real then 0.5 * w as real else -0.5 * w as real, open);
  }

  lemma SkewGivesNear(a: nat, b: nat, u: int, v: int, k: real, open: bool)
    requires a + b > 0 && k == (u + v) as real / (a + b) as real
    requires OffBy(2 * (a * v - b * u), a + b, open)
    ensures Near(a, u, k, open) && Near(b, v, k, open)
  {
    GapsAtNearest(a, b, u, v, k);
    DivideOffBy(2 * (a * v - b * u), a + b, Gap(a, u, k), open);
    DivideOffBy(2 * (a * v - b * u), a + b, Gap(b, v, k), open);
  }

  function Nearest(start: Pos, target: Pos, cell: Pos): real
    requires start != target
  {
    (Along(start.row, target.row, cell.row) + Along(start.col, target.col, cell.col)) as real
    / Reach(start, target) as real
  }

  predicate Meets(start: Pos, target: Pos, cell: Pos, open: bool) {
    OffBy(Offset(start, target, cell), Reach(start, target), open)
  }

  /** A point of the line inside the square bounds the offset of the cell. */
  lemma PointBoundsOffset(start: Pos, target: Pos, cell: Pos, k: real, open: bool)
    requires start != target
    requires InSquare(OnLine(start, target, k), cell, open)
    ensures Meets(start, target, cell, open)
  {
    SquareByGaps(start, target, cell, k, open);
    SkewIsOffset(start, target, cell);
    NearBoundsSkew(Abs(target.row - start.row), Abs(target.col - start.col),
                   Along(start.row, target.row, cell.row), Along(start.col, target.col, cell.col), k, open);
  }

  /** Conversely a small offset puts the nearest point inside the square. */
  lemma NearestInSquare(start: Pos, target: Pos, cell: Pos, open: bool)
    requires start != target && Meets(start, target, cell, open)
    ensures InSquare(OnLine(start, target, Nearest(start, target, cell)), cell, open)
  {
    SkewIsOffset(start, target, cell);
    SkewGivesNear(Abs(target.row - start.row), Abs(target.col - start.col),
                  Along(start.row, target.row, cell.row), Along(start.col, target.col, cell.col),
                  Nearest(start, target, cell), open);
    SquareByGaps(start, target, cell, Nearest(start, target, cell), open);
  }

  lemma LineMeetsByOffset(start: Pos, target: Pos, cell: Pos, open: bool)
    requires start != target
    ensures LineMeets(start, target, cell, open) <==> Meets(start, target, cell, open)
  {
    if Meets(start, target, cell, open) {
      NearestInSquare(start, target, cell, open);
    }
    if LineMeets(start, target, cell, open) {
      var k: real :| InSquare(OnLine(start, target, k), cell, open);
      PointBoundsOffset(start, target, cell, k, open);
    }
  }

  // ---------- main results ----------

  /** squareCollision is exact: 1 when the line meets the open square, -1 when it misses the closed one. */
  lemma CollisionIsExact(start: Pos, target: Pos, cell: Pos)
    requires start != target
    ensures Collision(start, target, cell) == 1 <==> LineMeets(start, target, cell, true)
    ensures Collision(start, target, cell) == -1 <==> !LineMeets(start, target, cell, false)
  {
    LineMeetsByOffset(start, target, cell, true);
    LineMeetsByOffset(start, target, cell, false);
  }

  lemma ExtremeHalves(a: real, b: real, p: real, q: real, w: real)
    requires (w == a + b || w == -(a + b)) && w == 2.0 * (p - q)
    requires -0.5 * b <= p <= 0.5 * b && -0.5 * a <= q <= 0.5 * a
    ensures if w == a + b then p == 0.5 * b && q == -0.5 * a else p == -0.5 * b && q == 0.5 * a
  {
  }

  lemma CancelFactor(c: real, d: real, h: real)
    requires c > 0.0 && c * d == h * c
    ensures d == h
  {
    assert c * (d - h) == 0.0;
  }

  lemma ExtremeFactors(a: real, b: real, gr: real, gc: real, w: real)
    requires a > 0.0 && b > 0.0 && (w == a + b || w == -(a + b)) && w == 2.0 * (b * gr - a * gc)
    requires Between(-0.5, gr, 0.5, false) && Between(-0.5, gc, 0.5, false)
    ensures if w == a + b then gr == 0.5 && gc == -0.5 else gr == -0.5 && gc == 0.5
  {
    BoundedProduct(b, gr, false);
    BoundedProduct(a, gc, false);
    ExtremeHalves(a, b, b * gr, a * gc, w);
    CancelFactor(b, gr, if w == a + b then 0.5 else -0.5);
    CancelFactor(a, gc, if w == a + b then -0.5 else 0.5);
  }

  predicate HalfGap(a: nat, u: int, k: real, up: bool) {
    Gap(a, u, k) == if up then 0.5 else -0.5
  }

  /** With the skew at its extreme, a touching point has both gaps at exactly a half. */
  lemma ExtremeGaps(a: nat, b: nat, u: int, v: int, k: real)
    requires a > 0 && b > 0 && Abs(2 * (a * v - b * u)) == a + b
    requires Near(a, u, k, false) && Near(b, v, k, false)
    ensures var up := 2 * (a * v - b * u) == a + b; HalfGap(a, u, k, up) && HalfGap(b, v, k, !up)
  {
    var x := 2.0 * (b as real * Gap(a, u, k) - a as real * Gap(b, v, k));
    assert x == (2 * (a * v - b * u)) as real by {
      SkewFromGaps(a, b, u, v, k);
    }
    ExtremeFactors(a as real, b as real, Gap(a, u, k), Gap(b, v, k), x);
  }

  lemma HalfGapIsEdge(from: int, to: int, at: int, k: real, up: bool)
    requires HalfGap(Abs(to - from), Along(from, to, at), k, up)
    ensures var x := from as real + 0.5 + k * (to - from) as real; x == at as real || x == (at + 1) as real
  {
    assert k * (-(to - from)) as real == -(k * (to - from) as real);
  }

  lemma SameGapSameParameter(a: nat, u: int, j: real, k: real, up: bool)
    requires a > 0 && HalfGap(a, u, j, up) && HalfGap(a, u, k, up)
    ensures j == k
  {
    CancelFactor(a as real, j, k);
  }

  /** Both gaps at a half, with opposite signs. */
  predicate AtCorner(start: Pos, target: Pos, cell: Pos, k: real, up: bool) {
    && HalfGap(Abs(target.row - start.row), Along(start.row, target.row, cell.row), k, up)
    && HalfGap(Abs(target.col - start.col), Along(start.col, target.col, cell.col), k, !up)
  }

  lemma TouchIsAtCorner(start: Pos, target: Pos, cell: Pos, k: real)
    requires start.row != target.row && start.col != target.col && Collision(start, target, cell) == 0
    requires InSquare(OnLine(start, target, k), cell, false)
    ensures AtCorner(start, target, cell, k, Skew(start, target, cell) == Reach(start, target))
  {
    SkewIsOffset(start, target, cell);
    SquareByGaps(start, target, cell, k, false);
    ExtremeGaps(Abs(target.row - start.row), Abs(target.col - start.col),
                Along(start.row, target.row, cell.row), Along(start.col, target.col, cell.col), k);
  }

  lemma AtCornerIsCorner(start: Pos, target: Pos, cell: Pos, k: real, up: bool)
    requires AtCorner(start, target, cell, k, up)
    ensures IsCorner(OnLine(start, target, k), cell)
  {
    HalfGapIsEdge(start.row, target.row, cell.row, k, up);
    HalfGapIsEdge(start.col, target.col, cell.col, k, !up);
  }

  /** State 0: the line has exactly one point in common with the square, and it is a corner. */
  lemma CollisionZeroIsOneCorner(start: Pos, target: Pos, cell: Pos)
    requires start != target && Collision(start, target, cell) == 0
    ensures exists k: real :: InSquare(OnLine(start, target, k), cell, false) && IsCorner(OnLine(start, target, k), cell)
    ensures forall j: real, k: real ::
              InSquare(OnLine(start, target, j), cell, false) && InSquare(OnLine(start, target, k), cell, false) ==> j == k
  {
    if start.row == target.row || start.col == target.col {
      NotAlongAnEdge(start, target, cell);
    }
    var n, up := Nearest(start, target, cell), Skew(start, target, cell) == Reach(start, target);
    NearestInSquare(start, target, cell, false);
    TouchIsAtCorner(start, target, cell, n);
    AtCornerIsCorner(start, target, cell, n, up);
    forall j: real, k: real | InSquare(OnLine(start, target, j), cell, false) && InSquare(OnLine(start, target, k), cell, false)
      ensures j == k
    {
      TouchIsAtCorner(start, target, cell, j);
      TouchIsAtCorner(start, target, cell, k);
      SameGapSameParameter(Abs(target.row - start.row), Along(start.row, target.row, cell.row), j, k, up);
    }
  }

  lemma RatioInUnit(n: int, l: nat)
    requires l > 0 && 0 <= n <= l
    ensures 0.0 <= n as real / l as real <= 1.0
  {
    var k := n as real / l as real;
    assert k * l as real == n as real;
    assert k < 0.0 ==> k * l as real < 0.0;
    assert k > 1.0 ==> (k - 1.0) * l as real > 0.0;
  }

  lemma ScaleByUnit(k: real, c: real)
    requires 0.0 <= k <= 1.0 && 0.0 <= c
    ensures 0.0 <= k * c <= c
  {
    assert (1.0 - k) * c >= 0.0;
  }

  lemma NearInRange(a: nat, u: int, k: real)
    requires 0.0 <= k <= 1.0 && Near(a, u, k, false)
    ensures 0 <= u <= a
  {
    ScaleByUnit(k, a as real);
  }

  /** Restricted to the segment, the integer test is the bounding box and the offset. */
  lemma SegmentByOffset(start: Pos, target: Pos, cell: Pos, open: bool)
    requires start != target
    ensures SegmentMeets(start, target, cell, open) <==> InBox(start, target, cell) && Meets(start, target, cell, open)
  {
    if InBox(start, target, cell) && Meets(start, target, cell, open) {
      RatioInUnit(Along(start.row, target.row, cell.row) + Along(start.col, target.col, cell.col), Reach(start, target));
      NearestInSquare(start, target, cell, open);
    }
    if SegmentMeets(start, target, cell, open) {
      var k: real :| 0.0 <= k <= 1.0 && InSquare(OnLine(start, target, k), cell, open);
      PointBoundsOffset(start, target, cell, k, open);
      SquareByGaps(start, target, cell, k, open);
      NearInRange(Abs(target.row - start.row), Along(start.row, target.row, cell.row), k);
      NearInRange(Abs(target.col - start.col), Along(start.col, target.col, cell.col), k);
    }
  }
}
