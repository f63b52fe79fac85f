/**
 Ray tracing over the board: the depth-first walk of the code, the chain of
 cells it follows, and what that chain means in the plane.
 */
module Ray {
  import opened Grid
  import opened Geometry

  // ---------- the chain of cells from start to target ----------

  function Sign(from: int, to: int): int {
    if to >= from then 1 else -1
  }

  /** In the bounding box, with the open square on the line. */
  predicate OnRay(start: Pos, target: Pos, cell: Pos) {
    cell == target || (InBox(start, target, cell) && Meets(start, target, cell, true))
  }

  /** Cells advanced from the start, counting rows and columns together. */
  function Progress(start: Pos, target: Pos, cell: Pos): int {
    Along(start.row, target.row, cell.row) + Along(start.col, target.col, cell.col)
  }

  datatype Exit = RowSide | ColSide | AtVertex

  /** Through which part of its border the line leaves the cell, going to the target. */
  function ExitOf(start: Pos, target: Pos, cell: Pos): Exit {
    var bias := Abs(target.col - start.col) - Abs(target.row - start.row);
    if Skew(start, target, cell) > bias then RowSide
    else if Skew(start, target, cell) < bias then ColSide
    else AtVertex
  }

  /** The next cell whose open square the line enters. */
  function Advance(start: Pos, target: Pos, cell: Pos): Pos {
    var row, col := cell.row + Sign(start.row, target.row), cell.col + Sign(start.col, target.col);
    match ExitOf(start, target, cell)
    case RowSide => Pos(row, cell.col)
    case ColSide => Pos(cell.row, col)
    case AtVertex => Pos(row, col)
  }

  /** The step to the next cell is free: no wall there, nor beside the vertex it passes through. */
  predicate Clear(m: Map, start: Pos, target: Pos, cell: Pos) {
    var next := Advance(start, target, cell);
    && !m.IsWall(next)
    && (ExitOf(start, target, cell) == AtVertex ==>
          !m.IsWall(Pos(next.row, cell.col)) && !m.IsWall(Pos(cell.row, next.col)))
  }

  /** The cells from `cell` on, up to the target or the first step that is not free. */
  function Trail(m: Map, start: Pos, target: Pos, cell: Pos): seq<Pos>
    requires OnRay(start, target, cell)
    decreases Reach(start, target) - Progress(start, target, cell)
  {
    if cell == target || !Clear(m, start, target, cell) then [cell]
    else
      AdvanceStaysOnRay(start, target, cell);
      [cell] + Trail(m, start, target, Advance(start, target, cell))
  }

  /** The part of the trail after its first cell. */
  function Beyond(m: Map, start: Pos, target: Pos, cell: Pos): seq<Pos>
    requires OnRay(start, target, cell)
  {
    Trail(m, start, target, cell)[1..]
  }

  lemma TrailBegins(m: Map, start: Pos, target: Pos, cell: Pos)
    requires OnRay(start, target, cell)
    ensures Trail(m, start, target, cell) == [cell] + Beyond(m, start, target, cell)
  {
  }

  // ---------- one step ----------

  lemma MulAtLeast(a: nat, k: int)
    requires k >= 1
    ensures a * k >= a
  {
    MulDistributes(a, 1, k - 1);
  }

  /** On the last row (column) of the box the skew leans towards the columns (rows). */
  lemma EdgeSkew(a: nat, b: nat, at: nat)
    requires at < b
    ensures 2 * (a * at - b * a) <= -2 * a
    ensures 2 * (a * b - a * at) >= 2 * a
  {
    MulDistributes(a, at, b - at);
    MulAtLeast(a, b - at);
  }

  /** The bookkeeping of one step, in advanced rows u and columns v. */
  lemma StepArithmetic(a: nat, b: nat, u: nat, v: nat, w: int)
    requires u <= a && v <= b && !(u == a && v == b) && Abs(w) < a + b
    requires (u == a ==> w <= -2 * a) && (v == b ==> w >= 2 * b)
    ensures w > b - a ==> u < a && Abs(w - 2 * b) < a + b
    ensures w < b - a ==> v < b && Abs(w + 2 * a) < a + b
    ensures w == b - a ==> u < a && v < b && Abs(w + 2 * a - 2 * b) < a + b
  {
  }

  /** How a move of i rows and j columns forward changes the skew. */
  lemma SkewShift(start: Pos, target: Pos, cell: Pos, i: int, j: int)
    ensures var next := Pos(cell.row + i * Sign(start.row, target.row), cell.col + j * Sign(start.col, target.col));
            && Along(start.row, target.row, next.row) == Along(start.row, target.row, cell.row) + i
            && Along(start.col, target.col, next.col) == Along(start.col, target.col, cell.col) + j
            && Skew(start, target, next)
               == Skew(start, target, cell) + 2 * (Abs(target.row - start.row) * j) - 2 * (Abs(target.col - start.col) * i)
  {
    MulDistributes(Abs(target.row - start.row), Along(start.col, target.col, cell.col), j);
    MulDistributes(Abs(target.col - start.col), Along(start.row, target.row, cell.row), i);
  }

  /** A move of one cell forward, back or not at all in each coordinate. */
  lemma SkewUnit(start: Pos, target: Pos, cell: Pos, i: int, j: int)
    requires -1 <= i <= 1 && -1 <= j <= 1
    ensures var next := Pos(cell.row + i * Sign(start.row, target.row), cell.col + j * Sign(start.col, target.col));
            var a, b := Abs(target.row - start.row), Abs(target.col - start.col);
            && Along(start.row, target.row, next.row) == Along(start.row, target.row, cell.row) + i
            && Along(start.col, target.col, next.col) == Along(start.col, target.col, cell.col) + j
            && Skew(start, target, next)
               == Skew(start, target, cell) + (if j == 1 then 2 * a else if j == -1 then -2 * a else 0)
                  - (if i == 1 then 2 * b else if i == -1 then -2 * b else 0)
  {
    SkewShift(start, target, cell, i, j);
  }

  lemma MeetsBySkew(start: Pos, target: Pos, cell: Pos, open: bool)
    ensures Meets(start, target, cell, open) <==> OffBy(Skew(start, target, cell), Reach(start, target), open)
  {
    SkewIsOffset(start, target, cell);
  }

  lemma AdvanceArithmetic(start: Pos, target: Pos, cell: Pos)
    requires InBox(start, target, cell) && cell != target
    requires OffBy(Skew(start, target, cell), Reach(start, target), true)
    ensures var a, b := Abs(target.row - start.row), Abs(target.col - start.col);
            var u, v := Along(start.row, target.row, cell.row), Along(start.col, target.col, cell.col);
            var w := Skew(start, target, cell);
            && (w > b - a ==> u < a && OffBy(w - 2 * b, a + b, true))
            && (w < b - a ==> v < b && OffBy(w + 2 * a, a + b, true))
            && (w == b - a ==> u < a && v < b && OffBy(w + 2 * a - 2 * b, a + b, true))
  {
    var a, b := Abs(target.row - start.row), Abs(target.col - start.col);
    var u, v := Along(start.row, target.row, cell.row), Along(start.col, target.col, cell.col);
    if v < b { EdgeSkew(a, b, v); }
    if u < a { EdgeSkew(b, a, u); }
    StepArithmetic(a, b, u, v, Skew(start, target, cell));
  }

  /** A step keeps to the ray where the arithmetic of its exit allows it. */
  predicate StepsOn(start: Pos, target: Pos, cell: Pos, next: Pos) {
    && InBox(start, target, next) && OffBy(Skew(start, target, next), Reach(start, target), true)
    && Progress(start, target, cell) < Progress(start, target, next) <= Reach(start, target)
  }

  lemma AdvanceByRow(start: Pos, target: Pos, cell: Pos)
    requires InBox(start, target, cell) && cell != target && ExitOf(start, target, cell) == RowSide
    requires OffBy(Skew(start, target, cell), Reach(start, target), true)
    ensures StepsOn(start, target, cell, Advance(start, target, cell))
  {
    AdvanceArithmetic(start, target, cell);
    SkewUnit(start, target, cell, 1, 0);
  }

  lemma AdvanceByCol(start: Pos, target: Pos, cell: Pos)
    requires InBox(start, target, cell) && cell != target && ExitOf(start, target, cell) == ColSide
    requires OffBy(Skew(start, target, cell), Reach(start, target), true)
    ensures StepsOn(start, target, cell, Advance(start, target, cell))
  {
    AdvanceArithmetic(start, target, cell);
    SkewUnit(start, target, cell, 0, 1);
  }

  lemma AdvanceByVertex(start: Pos, target: Pos, cell: Pos)
    requires InBox(start, target, cell) && cell != target && ExitOf(start, target, cell) == AtVertex
    requires OffBy(Skew(start, target, cell), Reach(start, target), true)
    ensures StepsOn(start, target, cell, Advance(start, target, cell))
  {
    AdvanceArithmetic(start, target, cell);
    SkewUnit(start, target, cell, 1, 1);
  }

  lemma AdvanceByExit(start: Pos, target: Pos, cell: Pos)
    requires InBox(start, target, cell) && cell != target
    requires OffBy(Skew(start, target, cell), Reach(start, target), true)
    ensures StepsOn(start, target, cell, Advance(start, target, cell))
  {
    match ExitOf(start, target, cell)
    case RowSide => AdvanceByRow(start, target, cell);
    case ColSide => AdvanceByCol(start, target, cell);
    case AtVertex => AdvanceByVertex(start, target, cell);
  }

  lemma AdvanceStaysOnRay(start: Pos, target: Pos, cell: Pos)
    requires OnRay(start, target, cell) && cell != target
    ensures var next := Advance(start, target, cell);
            && InBox(start, target, next) && Meets(start, target, next, true)
            && Progress(start, target, cell) < Progress(start, target, next) <= Reach(start, target)
  {
    MeetsBySkew(start, target, cell, true);
    AdvanceByExit(start, target, cell);
    MeetsBySkew(start, target, Advance(start, target, cell), true);
  }

  // ---------- what the walk sees around a cell ----------

  predicate IsCloser(current: Pos, target: Pos, next: Pos) {
    Manhattan(next, target) <= Manhattan(current, target)
  }

  function RowNext(start: Pos, target: Pos, cell: Pos): Pos {
    Pos(cell.row + Sign(start.row, target.row), cell.col)
  }

  function ColNext(start: Pos, target: Pos, cell: Pos): Pos {
    Pos(cell.row, cell.col + Sign(start.col, target.col))
  }

  lemma CollisionBySkew(start: Pos, target: Pos, cell: Pos)
    ensures Collision(start, target, cell)
            == if Abs(Skew(start, target, cell)) < Reach(start, target) then 1
               else if Abs(Skew(start, target, cell)) == Reach(start, target) then 0 else -1
  {
    SkewIsOffset(start, target, cell);
  }

  lemma RowNextState(start: Pos, target: Pos, cell: Pos)
    requires OffBy(Skew(start, target, cell), Reach(start, target), true)
    ensures Collision(start, target, RowNext(start, target, cell))
            == match ExitOf(start, target, cell) case RowSide => 1 case AtVertex => 0 case ColSide => -1
  {
    SkewUnit(start, target, cell, 1, 0);
    CollisionBySkew(start, target, RowNext(start, target, cell));
  }

  lemma ColNextState(start: Pos, target: Pos, cell: Pos)
    requires OffBy(Skew(start, target, cell), Reach(start, target), true)
    ensures Collision(start, target, ColNext(start, target, cell))
            == match ExitOf(start, target, cell) case RowSide => -1 case AtVertex => 0 case ColSide => 1
  {
    SkewUnit(start, target, cell, 0, 1);
    CollisionBySkew(start, target, ColNext(start, target, cell));
  }

  /** The orthogonal neighbours that are not farther from the target are the ones ahead. */
  lemma CloserIsAhead(start: Pos, target: Pos, cell: Pos, d: Direction)
    requires InBox(start, target, cell)
    ensures var next := Neighbour(cell, d);
            IsCloser(cell, target, next) <==>
            || (next == RowNext(start, target, cell) && cell.row != target.row)
            || (next == ColNext(start, target, cell) && cell.col != target.col)
  {
  }

  /** An orthogonal neighbour ahead: entered, touched at the vertex, or missed. */
  lemma OrthogonalState(start: Pos, target: Pos, cell: Pos, d: Direction)
    requires OnRay(start, target, cell) && cell != target && IsCloser(cell, target, Neighbour(cell, d))
    ensures var next, state := Neighbour(cell, d), Collision(start, target, Neighbour(cell, d));
            && InBox(start, target, next) && Progress(start, target, next) == Progress(start, target, cell) + 1
            && (state == 1 <==> next == Advance(start, target, cell))
            && (state == 0 <==> ExitOf(start, target, cell) == AtVertex)
            && (next == RowNext(start, target, cell) || next == ColNext(start, target, cell))
  {
    MeetsBySkew(start, target, cell, true);
    CloserIsAhead(start, target, cell, d);
    RowNextState(start, target, cell);
    ColNextState(start, target, cell);
  }

  lemma AheadDiagonalState(start: Pos, target: Pos, cell: Pos)
    requires OnRay(start, target, cell) && cell != target && ExitOf(start, target, cell) == AtVertex
    ensures Collision(start, target, Advance(start, target, cell)) == 1
  {
    AdvanceStaysOnRay(start, target, cell);
  }

  /** Forward in one coordinate and back in the other leaves the line. */
  lemma CrossDiagonalState(start: Pos, target: Pos, cell: Pos, p: int)
    requires OffBy(Skew(start, target, cell), Reach(start, target), true) && (p == 1 || p == -1)
    ensures Collision(start, target, Pos(cell.row + p * Sign(start.row, target.row), cell.col - p * Sign(start.col, target.col))) == -1
  {
    var next := Pos(cell.row + p * Sign(start.row, target.row), cell.col - p * Sign(start.col, target.col));
    SkewUnit(start, target, cell, p, -p);
    CollisionBySkew(start, target, next);
  }

  /** A diagonal neighbour that is not farther is either the next cell or off the line altogether. */
  lemma DiagonalState(start: Pos, target: Pos, cell: Pos, i: int, j: int)
    requires OnRay(start, target, cell) && cell != target && ExitOf(start, target, cell) == AtVertex
    requires (i == 1 || i == -1) && (j == 1 || j == -1)
    requires IsCloser(cell, target, Pos(cell.row + i, cell.col + j))
    ensures var next := Pos(cell.row + i, cell.col + j);
            Collision(start, target, next) == if next == Advance(start, target, cell) then 1 else -1
  {
    MeetsBySkew(start, target, cell, true);
    AheadDiagonalState(start, target, cell);
    CrossDiagonalState(start, target, cell, 1);
    CrossDiagonalState(start, target, cell, -1);
  }

  // ---------- the walk ----------

  lemma BoxInMap(m: Map, start: Pos, target: Pos, cell: Pos)
    requires m.InMap(start) && m.InMap(target) && InBox(start, target, cell)
    ensures m.InMap(cell)
  {
  }

  /** What the first loop has established after looking at the first k directions. */
  predicate Scanned(m: Map, start: Pos, target: Pos, current: Pos, k: nat)
    requires k <= 4
  {
    forall j | 0 <= j < k && IsCloser(current, target, Neighbour(current, DIRECTIONS[j])) ::
      && Neighbour(current, DIRECTIONS[j]) != Advance(start, target, current)
      && (ExitOf(start, target, current) == AtVertex ==> !m.IsWall(Neighbour(current, DIRECTIONS[j])))
  }

  lemma ScanStep(m: Map, start: Pos, target: Pos, current: Pos, k: nat, state: int)
    requires k < 4 && OnRay(start, target, current) && InBox(start, target, current)
    requires IsCloser(current, target, Neighbour(current, DIRECTIONS[k]))
    requires state == Collision(start, target, Neighbour(current, DIRECTIONS[k]))
    ensures current != target
    ensures (state == 0 || state == 1) && m.IsWall(Neighbour(current, DIRECTIONS[k])) ==> !Clear(m, start, target, current)
    ensures state == 1 && !m.IsWall(Neighbour(current, DIRECTIONS[k])) ==>
              Clear(m, start, target, current) && Neighbour(current, DIRECTIONS[k]) == Advance(start, target, current)
    ensures state != 1 && !(state == 0 && m.IsWall(Neighbour(current, DIRECTIONS[k]))) && Scanned(m, start, target, current, k)
            ==> Scanned(m, start, target, current, k + 1)
  {
    OrthogonalState(start, target, current, DIRECTIONS[k]);
  }

  /** After all four directions only the vertex is left, and its two flanks are free. */
  lemma ScannedAll(m: Map, start: Pos, target: Pos, current: Pos)
    requires OnRay(start, target, current) && InBox(start, target, current) && current != target
    requires Scanned(m, start, target, current, 4)
    ensures ExitOf(start, target, current) == AtVertex
    ensures Clear(m, start, target, current) <==> !m.IsWall(Advance(start, target, current))
  {
    AdvanceStaysOnRay(start, target, current);
    var r, c := RowNext(start, target, current), ColNext(start, target, current);
    assert r == Neighbour(current, DIRECTIONS[0]) || r == Neighbour(current, DIRECTIONS[1]);
    assert c == Neighbour(current, DIRECTIONS[2]) || c == Neighbour(current, DIRECTIONS[3]);
  }

  /** The order in which the diagonals are tried: rows outer, columns inner. */
  const DIAGONALS: seq<Pos> := [Pos(-1, -1), Pos(-1, 1), Pos(1, -1), Pos(1, 1)]

  function Diagonal(cell: Pos, k: nat): Pos
    requires k < 4
  {
    Pos(cell.row + DIAGONALS[k].row, cell.col + DIAGONALS[k].col)
  }

  /** The index under which the second loop meets the next cell. */
  function AheadDiagonal(start: Pos, target: Pos): (k: nat)
    ensures k < 4
  {
    (if Sign(start.row, target.row) == 1 then 2 else 0) + (if Sign(start.col, target.col) == 1 then 1 else 0)
  }

  /** Past the first loop, the second one enters the next cell and no other. */
  lemma DiagonalStep(start: Pos, target: Pos, current: Pos, k: nat)
    requires k < 4 && OnRay(start, target, current) && InBox(start, target, current) && current != target
    requires ExitOf(start, target, current) == AtVertex
    ensures k == AheadDiagonal(start, target) <==> Diagonal(current, k) == Advance(start, target, current)
    ensures k == AheadDiagonal(start, target) ==> IsCloser(current, target, Diagonal(current, k))
    ensures IsCloser(current, target, Diagonal(current, k)) ==>
              Collision(start, target, Diagonal(current, k)) == if k == AheadDiagonal(start, target) then 1 else -1
  {
    if k == AheadDiagonal(start, target) {
      AdvanceStaysOnRay(start, target, current);
    }
    if IsCloser(current, target, Diagonal(current, k)) {
      DiagonalState(start, target, current, DIAGONALS[k].row, DIAGONALS[k].col);
    }
  }

  /** The orthogonal neighbours of the walk are inside the map and not seen yet. */
  lemma AheadIsFresh(start: Pos, target: Pos, current: Pos, d: Direction)
    requires OnRay(start, target, current) && InBox(start, target, current)
    requires IsCloser(current, target, Neighbour(current, d))
    ensures InBox(start, target, Neighbour(current, d))
    ensures Progress(start, target, Neighbour(current, d)) > Progress(start, target, current)
  {
    CloserIsAhead(start, target, current, d);
  }

  class RayWalk {
    const m: Map
    var isSeen: set<Pos>
    var path: seq<Pos>

    constructor (m: Map)
      ensures this.m == m && isSeen == {} && path == []
    {
      this.m := m;
      isSeen := {};
      path := [];
    }

    /** The walk; the argument that should let it pierce walls is only handed on. */
    method Dfs(current: Pos, start: Pos, target: Pos, wallPiercing: bool)
      requires m.InMap(start) && m.InMap(target)
      requires InBox(start, target, current) && OnRay(start, target, current)
      requires forall x | x in isSeen :: Progress(start, target, x) < Progress(start, target, current)
      modifies this
      decreases Reach(start, target) - Progress(start, target, current), 1
      ensures path == old(path) + Trail(m, start, target, current)
    {
      isSeen := isSeen + {current};
      path := path + [current];
      TrailBegins(m, start, target, current);
      var done := DfsSides(current, start, target, wallPiercing);
      if !done {
        DfsCorners(current, start, target, wallPiercing);
      }
    }

    /** The first half of the walk: the orthogonal neighbours; whether the walk is over. */
    method DfsSides(current: Pos, start: Pos, target: Pos, wallPiercing: bool) returns (done: bool)
      requires m.InMap(start) && m.InMap(target)
      requires InBox(start, target, current) && OnRay(start, target, current)
      requires forall x | x in isSeen :: Progress(start, target, x) <= Progress(start, target, current)
      modifies this
      decreases Reach(start, target) - Progress(start, target, current), 0
      ensures done ==> path == old(path) + Beyond(m, start, target, current)
      ensures !done ==> isSeen == old(isSeen) && path == old(path) && Scanned(m, start, target, current, 4)
    {
      for k := 0 to 4
        invariant isSeen == old(isSeen) && path == old(path)
        invariant Scanned(m, start, target, current, k)
      {
        var next := Neighbour(current, DIRECTIONS[k]);
        if IsCloser(current, target, next) {
          AheadIsFresh(start, target, current, DIRECTIONS[k]);
          BoxInMap(m, start, target, next);
        }
        if m.InMap(next) && next !in isSeen && IsCloser(current, target, next) {
          var collisionState := SquareCollision(start, target, next);
          ScanStep(m, start, target, current, k, collisionState);
          if (collisionState == 0 || collisionState == 1) && m.IsWall(next) {
            return true;
          }
          if collisionState == 1 {
            AdvanceStaysOnRay(start, target, current);
            Dfs(next, start, target, wallPiercing);
            return true;
          }
        }
      }
      return false;
    }

    /** The second half of the walk: the diagonal neighbours. */
    method DfsCorners(current: Pos, start: Pos, target: Pos, wallPiercing: bool)
      requires m.InMap(start) && m.InMap(target)
      requires InBox(start, target, current) && OnRay(start, target, current)
      requires forall x | x in isSeen :: Progress(start, target, x) <= Progress(start, target, current)
      requires Scanned(m, start, target, current, 4)
      modifies this
      decreases Reach(start, target) - Progress(start, target, current), 0
      ensures path == old(path) + Beyond(m, start, target, current)
    {
      ghost var ahead := AheadDiagonal(start, target);
      if current != target {
        ScannedAll(m, start, target, current);
        AdvanceStaysOnRay(start, target, current);
        BoxInMap(m, start, target, Advance(start, target, current));
      }
      for k := 0 to 4
        invariant current == target || k <= ahead ==> isSeen == old(isSeen) && path == old(path)
        invariant current != target && ahead < k ==> path == old(path) + Beyond(m, start, target, current)
      {
        var next := Diagonal(current, k);
        if current != target {
          DiagonalStep(start, target, current, k);
        }
        if m.InMap(next) && next !in isSeen && IsCloser(current, target, next) {
          var collisionState := SquareCollision(start, target, next);
          if collisionState == 0 || (collisionState == 1 && m.IsWall(next)) {
            return;
          }
          if collisionState == 1 {
            Dfs(next, start, target, wallPiercing);
          }
        }
      }
    }
  }
}
