/**
 What a traced ray means: the cells the segment crosses, where a wall cuts it,
 and when one cell sees another.
 */
module Vision {
  import opened Wrappers
  import opened Grid
  import opened Heroes
  import opened Geometry
  import opened Ray

  const OPEN_FIELD := Map(0, 0, {})

  lemma EndsOnRay(start: Pos, target: Pos)
    requires start != target
    ensures InBox(start, target, start) && OnRay(start, target, start)
    ensures InBox(start, target, target) && Meets(start, target, target, true)
  {
    SkewIsOffset(start, target, start);
    SkewIsOffset(start, target, target);
  }

  /** x is not behind the cell in either coordinate. */
  predicate AtOrPast(start: Pos, target: Pos, cell: Pos, x: Pos) {
    && Along(start.row, target.row, x.row) >= Along(start.row, target.row, cell.row)
    && Along(start.col, target.col, x.col) >= Along(start.col, target.col, cell.col)
  }

  lemma StraightAheadRow(start: Pos, target: Pos, cell: Pos, k: int)
    requires k >= 1
    ensures Skew(start, target, Pos(cell.row + k * Sign(start.row, target.row), cell.col))
            <= Skew(start, target, cell) - 2 * Abs(target.col - start.col)
  {
    SkewShift(start, target, cell, k, 0);
    MulAtLeast(Abs(target.col - start.col), k);
  }

  lemma StraightAheadCol(start: Pos, target: Pos, cell: Pos, k: int)
    requires k >= 1
    ensures Skew(start, target, Pos(cell.row, cell.col + k * Sign(start.col, target.col)))
            >= Skew(start, target, cell) + 2 * Abs(target.row - start.row)
  {
    SkewShift(start, target, cell, 0, k);
    MulAtLeast(Abs(target.row - start.row), k);
  }

  /** No cell of the ray is skipped between a cell and the next one. */
  lemma NoneSkipped(start: Pos, target: Pos, cell: Pos, x: Pos)
    requires OffBy(Skew(start, target, cell), Reach(start, target), true)
    requires OffBy(Skew(start, target, x), Reach(start, target), true)
    requires AtOrPast(start, target, cell, x) && x != cell
    ensures AtOrPast(start, target, Advance(start, target, cell), x)
  {
    var k := Along(start.row, target.row, x.row) - Along(start.row, target.row, cell.row);
    var j := Along(start.col, target.col, x.col) - Along(start.col, target.col, cell.col);
    if k == 0 {
      StraightAheadCol(start, target, cell, j);
    } else if j == 0 {
      StraightAheadRow(start, target, cell, k);
    }
  }

  /** The unobstructed trail visits exactly the cells of the ray from its first cell on. */
  lemma {:induction false} TrailCovers(start: Pos, target: Pos, cell: Pos, x: Pos)
    requires start != target && OnRay(start, target, cell) && InBox(start, target, cell)
    ensures x in Trail(OPEN_FIELD, start, target, cell)
            <==> InBox(start, target, x) && Meets(start, target, x, true) && AtOrPast(start, target, cell, x)
    decreases Reach(start, target) - Progress(start, target, cell)
  {
    EndsOnRay(start, target);
    if cell != target {
      AdvanceStaysOnRay(start, target, cell);
      TrailCovers(start, target, Advance(start, target, cell), x);
      MeetsBySkew(start, target, cell, true);
      MeetsBySkew(start, target, x, true);
      if InBox(start, target, x) && Meets(start, target, x, true) && AtOrPast(start, target, cell, x) && x != cell {
        NoneSkipped(start, target, cell, x);
      }
    }
  }

  predicate KingStep(p: Pos, q: Pos) {
    p != q && Abs(p.row - q.row) <= 1 && Abs(p.col - q.col) <= 1
  }

  /** From cell to cell the trail makes king steps onto free cells. */
  lemma {:induction false} TrailSteps(m: Map, start: Pos, target: Pos, cell: Pos, i: nat)
    requires OnRay(start, target, cell) && i + 1 < |Trail(m, start, target, cell)|
    ensures var t := Trail(m, start, target, cell); KingStep(t[i], t[i + 1]) && !m.IsWall(t[i + 1])
    decreases i
  {
    AdvanceStaysOnRay(start, target, cell);
    if i > 0 {
      TrailSteps(m, start, target, Advance(start, target, cell), i - 1);
    }
  }

  /** Along the trail every cell is farther on than its first one. */
  lemma {:induction false} TrailGoesOn(m: Map, start: Pos, target: Pos, cell: Pos, j: nat)
    requires OnRay(start, target, cell) && j < |Trail(m, start, target, cell)|
    ensures Progress(start, target, Trail(m, start, target, cell)[j]) >= Progress(start, target, cell) + j
    decreases j
  {
    if j > 0 {
      AdvanceStaysOnRay(start, target, cell);
      TrailGoesOn(m, start, target, Advance(start, target, cell), j - 1);
    }
  }

  lemma {:induction false} TrailDistinct(m: Map, start: Pos, target: Pos, cell: Pos, i: nat, j: nat)
    requires OnRay(start, target, cell) && i < j < |Trail(m, start, target, cell)|
    ensures Trail(m, start, target, cell)[i] != Trail(m, start, target, cell)[j]
    decreases i
  {
    if i == 0 {
      TrailGoesOn(m, start, target, cell, j);
    } else {
      AdvanceStaysOnRay(start, target, cell);
      TrailDistinct(m, start, target, Advance(start, target, cell), i - 1, j - 1);
    }
  }

  /** Walls only cut the trail short, at a step that is not free. */
  lemma {:induction false} TrailIsPrefix(m: Map, start: Pos, target: Pos, cell: Pos)
    requires OnRay(start, target, cell)
    ensures var t := Trail(m, start, target, cell);
            && t <= Trail(OPEN_FIELD, start, target, cell)
            && OnRay(start, target, t[|t| - 1])
            && (t[|t| - 1] == target || !Clear(m, start, target, t[|t| - 1]))
            && Trail(OPEN_FIELD, start, target, cell)[|Trail(OPEN_FIELD, start, target, cell)| - 1] == target
    decreases Reach(start, target) - Progress(start, target, cell)
  {
    if cell != target {
      AdvanceStaysOnRay(start, target, cell);
      TrailIsPrefix(m, start, target, Advance(start, target, cell));
    }
  }

  // ---------- walls ----------

  lemma SideCellsTouched(start: Pos, target: Pos, cell: Pos)
    requires OnRay(start, target, cell) && InBox(start, target, cell) && cell != target
    requires ExitOf(start, target, cell) == AtVertex
    ensures var r, c := RowNext(start, target, cell), ColNext(start, target, cell);
            && InBox(start, target, r) && Meets(start, target, r, false)
            && InBox(start, target, c) && Meets(start, target, c, false)
  {
    MeetsBySkew(start, target, cell, true);
    AdvanceStaysOnRay(start, target, cell);
    RowNextState(start, target, cell);
    ColNextState(start, target, cell);
  }

  lemma FirstRowSkew(start: Pos, target: Pos, x: Pos)
    requires InBox(start, target, x)
    ensures Along(start.row, target.row, x.row) == 0 ==> Skew(start, target, x) >= 0
    ensures Along(start.col, target.col, x.col) == 0 ==> Skew(start, target, x) <= 0
  {
    var a, b := Abs(target.row - start.row), Abs(target.col - start.col);
    assert a * Along(start.col, target.col, x.col) >= 0;
    assert b * Along(start.row, target.row, x.row) >= 0;
  }

  predicate AtVertexBeside(start: Pos, target: Pos, cell: Pos) {
    && InBox(start, target, cell) && cell != target && ExitOf(start, target, cell) == AtVertex
    && OffBy(Skew(start, target, cell), Reach(start, target), true)
  }

  lemma FlankOfRow(start: Pos, target: Pos, x: Pos)
    requires start.row != target.row && start.col != target.col && InBox(start, target, x)
    requires Skew(start, target, x) + Reach(start, target) == 0
    ensures AtVertexBeside(start, target, Pos(x.row - Sign(start.row, target.row), x.col))
  {
    FirstRowSkew(start, target, x);
    SkewUnit(start, target, x, -1, 0);
  }

  lemma FlankOfCol(start: Pos, target: Pos, x: Pos)
    requires start.row != target.row && start.col != target.col && InBox(start, target, x)
    requires Skew(start, target, x) == Reach(start, target)
    ensures AtVertexBeside(start, target, Pos(x.row, x.col - Sign(start.col, target.col)))
  {
    FirstRowSkew(start, target, x);
    SkewUnit(start, target, x, 0, -1);
  }

  /** A cell touched in a corner only lies beside a vertex the line passes through. */
  lemma TouchedCornerIsFlank(start: Pos, target: Pos, x: Pos) returns (cell: Pos)
    requires start != target && InBox(start, target, x) && Collision(start, target, x) == 0
    ensures AtVertexBeside(start, target, cell) && Meets(start, target, cell, true)
    ensures x == RowNext(start, target, cell) || x == ColNext(start, target, cell)
  {
    if start.row == target.row || start.col == target.col {
      NotAlongAnEdge(start, target, x);
    }
    SkewIsOffset(start, target, x);
    if Skew(start, target, x) < 0 {
      FlankOfRow(start, target, x);
      cell := Pos(x.row - Sign(start.row, target.row), x.col);
    } else {
      FlankOfCol(start, target, x);
      cell := Pos(x.row, x.col - Sign(start.col, target.col));
    }
    MeetsBySkew(start, target, cell, true);
  }

  /** x lies in the map as a wall and the segment reaches its closed square. */
  ghost predicate Obstructs(m: Map, start: Pos, target: Pos, x: Pos) {
    x != start && m.IsWall(x) && SegmentMeets(start, target, x, false)
  }

  /** An unfree step of the ray shows an obstructing wall, no further on than the next cell. */
  lemma StopShowsWall(m: Map, start: Pos, target: Pos, cell: Pos) returns (x: Pos)
    requires start != target && InBox(start, target, cell) && OnRay(start, target, cell) && cell != target
    requires !Clear(m, start, target, cell)
    ensures Obstructs(m, start, target, x)
    ensures Progress(start, target, x) <= Progress(start, target, Advance(start, target, cell))
  {
    var next := Advance(start, target, cell);
    AdvanceStaysOnRay(start, target, cell);
    if m.IsWall(next) {
      x := next;
    } else {
      SideCellsTouched(start, target, cell);
      x := if m.IsWall(Pos(next.row, cell.col)) then Pos(next.row, cell.col) else Pos(cell.row, next.col);
    }
    SegmentByOffset(start, target, x, false);
  }

  // ---------- exactly which cells are on the ray ----------

  /** Of two cells of the unobstructed trail the one further on belongs to the trail from the other. */
  lemma {:induction false} TrailFrom(start: Pos, target: Pos, cell: Pos, c: Pos, x: Pos)
    requires OnRay(start, target, cell)
    requires c in Trail(OPEN_FIELD, start, target, cell) && x in Trail(OPEN_FIELD, start, target, cell)
    requires Progress(start, target, c) <= Progress(start, target, x)
    ensures OnRay(start, target, c) && x in Trail(OPEN_FIELD, start, target, c)
    decreases Reach(start, target) - Progress(start, target, cell)
  {
    if c != cell {
      AdvanceStaysOnRay(start, target, cell);
      NotBehind(start, target, Advance(start, target, cell), c);
      TrailFrom(start, target, Advance(start, target, cell), c, x);
    }
  }

  lemma NotBehind(start: Pos, target: Pos, cell: Pos, x: Pos)
    requires OnRay(start, target, cell) && x in Trail(OPEN_FIELD, start, target, cell)
    ensures Progress(start, target, x) >= Progress(start, target, cell)
  {
    var t := Trail(OPEN_FIELD, start, target, cell);
    var j :| 0 <= j < |t| && t[j] == x;
    TrailGoesOn(OPEN_FIELD, start, target, cell, j);
  }

  /** The step from a cell of the trail does not overtake a cell further on. */
  lemma StepsUpTo(start: Pos, target: Pos, cell: Pos, c: Pos, x: Pos)
    requires OnRay(start, target, cell)
    requires c in Trail(OPEN_FIELD, start, target, cell) && x in Trail(OPEN_FIELD, start, target, cell)
    requires Progress(start, target, c) < Progress(start, target, x)
    ensures c != target && OnRay(start, target, c)
    ensures Progress(start, target, Advance(start, target, c)) <= Progress(start, target, x)
  {
    TrailFrom(start, target, cell, c, x);
    if c != target {
      AdvanceStaysOnRay(start, target, c);
      NotBehind(start, target, Advance(start, target, c), x);
    }
  }

  /** Every cell of the unobstructed trail but the first is the next one of another. */
  lemma {:induction false} Predecessor(start: Pos, target: Pos, cell: Pos, x: Pos) returns (c: Pos)
    requires OnRay(start, target, cell) && x in Trail(OPEN_FIELD, start, target, cell) && x != cell
    ensures c in Trail(OPEN_FIELD, start, target, cell) && c != target && Advance(start, target, c) == x
    ensures Progress(start, target, c) < Progress(start, target, x)
    decreases Reach(start, target) - Progress(start, target, cell)
  {
    AdvanceStaysOnRay(start, target, cell);
    if x == Advance(start, target, cell) {
      c := cell;
    } else {
      c := Predecessor(start, target, Advance(start, target, cell), x);
    }
  }

  ghost predicate ClearUpTo(m: Map, start: Pos, target: Pos, cell: Pos, x: Pos)
    requires OnRay(start, target, cell)
  {
    forall c | c in Trail(OPEN_FIELD, start, target, cell) && Progress(start, target, c) < Progress(start, target, x) ::
      Clear(m, start, target, c)
  }

  /** With walls the trail reaches a cell exactly if all steps before it are free. */
  lemma {:induction false} TrailReaches(m: Map, start: Pos, target: Pos, cell: Pos, x: Pos)
    requires OnRay(start, target, cell) && x in Trail(OPEN_FIELD, start, target, cell)
    ensures x in Trail(m, start, target, cell) <==> ClearUpTo(m, start, target, cell, x)
    decreases Reach(start, target) - Progress(start, target, cell)
  {
    if x == cell {
      forall c | c in Trail(OPEN_FIELD, start, target, cell) ensures Progress(start, target, c) >= Progress(start, target, x) {
        NotBehind(start, target, cell, c);
      }
    } else {
      AdvanceStaysOnRay(start, target, cell);
      NotBehind(start, target, Advance(start, target, cell), x);
      TrailReaches(m, start, target, Advance(start, target, cell), x);
    }
  }

  /** Every obstructing wall is further on than the cell, in rows and columns counted together. */
  ghost predicate WallsBeyond(m: Map, start: Pos, target: Pos, x: Pos) {
    forall y: Pos :: Obstructs(m, start, target, y) ==> Progress(start, target, y) > Progress(start, target, x)
  }

  /** An obstructing wall makes a step in front of it unfree. */
  lemma WallStops(m: Map, start: Pos, target: Pos, y: Pos) returns (c: Pos)
    requires start != target && OnRay(start, target, start) && Obstructs(m, start, target, y)
    ensures c in Trail(OPEN_FIELD, start, target, start) && !Clear(m, start, target, c)
    ensures Progress(start, target, c) < Progress(start, target, y)
  {
    EndsOnRay(start, target);
    SegmentByOffset(start, target, y, false);
    if Collision(start, target, y) == 1 {
      TrailCovers(start, target, start, y);
      c := Predecessor(start, target, start, y);
    } else {
      c := TouchedCornerIsFlank(start, target, y);
      TrailCovers(start, target, start, c);
    }
  }

  lemma ClearUpToWalls(m: Map, start: Pos, target: Pos, x: Pos)
    requires start != target && OnRay(start, target, start) && x in Trail(OPEN_FIELD, start, target, start)
    ensures ClearUpTo(m, start, target, start, x) <==> WallsBeyond(m, start, target, x)
  {
    EndsOnRay(start, target);
    if ClearUpTo(m, start, target, start, x) {
      forall y: Pos | Obstructs(m, start, target, y) ensures Progress(start, target, y) > Progress(start, target, x) {
        var c := WallStops(m, start, target, y);
      }
    }
    if WallsBeyond(m, start, target, x) {
      forall c | c in Trail(OPEN_FIELD, start, target, start) && Progress(start, target, c) < Progress(start, target, x)
        ensures Clear(m, start, target, c)
      {
        StepsUpTo(start, target, start, c, x);
        TrailCovers(start, target, start, c);
        if !Clear(m, start, target, c) {
          var y := StopShowsWall(m, start, target, c);
        }
      }
    }
  }

  /**
   The ray on any board: a chain of king steps without repetition over free cells, holding exactly the
   cells whose open square the segment crosses and that lie before every wall the segment touches.
   */
  lemma RayIsExact(m: Map, start: Pos, target: Pos)
    requires start != target
    ensures OnRay(start, target, start)
    ensures var ray := Trail(m, start, target, start);
            && ray[0] == start
            && (forall i | 0 <= i < |ray| - 1 :: KingStep(ray[i], ray[i + 1]))
            && (forall i | 0 < i < |ray| :: !m.IsWall(ray[i]))
            && (forall i, j | 0 <= i < j < |ray| :: ray[i] != ray[j])
            && (forall x: Pos :: x in ray <==> SegmentMeets(start, target, x, true) && WallsBeyond(m, start, target, x))
  {
    EndsOnRay(start, target);
    var ray := Trail(m, start, target, start);
    forall i | 0 <= i < |ray| - 1 ensures KingStep(ray[i], ray[i + 1]) {
      TrailSteps(m, start, target, start, i);
    }
    forall i | 0 < i < |ray| ensures !m.IsWall(ray[i]) {
      TrailSteps(m, start, target, start, i - 1);
    }
    forall i, j | 0 <= i < j < |ray| ensures ray[i] != ray[j] {
      TrailDistinct(m, start, target, start, i, j);
    }
    forall x: Pos
      ensures x in ray <==> SegmentMeets(start, target, x, true) && WallsBeyond(m, start, target, x)
    {
      CellOnRay(m, start, target, x);
    }
  }

  lemma CellOnRay(m: Map, start: Pos, target: Pos, x: Pos)
    requires start != target && OnRay(start, target, start)
    ensures x in Trail(m, start, target, start)
            <==> SegmentMeets(start, target, x, true) && WallsBeyond(m, start, target, x)
  {
    EndsOnRay(start, target);
    TrailCovers(start, target, start, x);
    SegmentByOffset(start, target, x, true);
    TrailIsPrefix(m, start, target, start);
    if x in Trail(OPEN_FIELD, start, target, start) {
      TrailReaches(m, start, target, start, x);
      ClearUpToWalls(m, start, target, x);
    }
  }

  /** The trail reaches the target exactly when no wall obstructs the segment. */
  lemma ThroughIffUnobstructed(m: Map, start: Pos, target: Pos)
    requires start != target && OnRay(start, target, start)
    ensures var t := Trail(m, start, target, start);
            && (t[|t| - 1] == target <==> target in t)
            && (target in t <==> forall x: Pos :: !Obstructs(m, start, target, x))
  {
    EndsOnRay(start, target);
    if target in Trail(m, start, target, start) { TargetIsLast(m, start, target, start); }
    CellOnRay(m, start, target, target);
    SegmentByOffset(start, target, target, true);
    forall y: Pos | Obstructs(m, start, target, y) ensures Progress(start, target, y) <= Progress(start, target, target) {
      SegmentByOffset(start, target, y, false);
    }
  }

  lemma {:induction false} TargetIsLast(m: Map, start: Pos, target: Pos, cell: Pos)
    requires OnRay(start, target, cell) && target in Trail(m, start, target, cell)
    ensures Trail(m, start, target, cell)[|Trail(m, start, target, cell)| - 1] == target
    decreases Reach(start, target) - Progress(start, target, cell)
  {
    if cell != target {
      AdvanceStaysOnRay(start, target, cell);
      TargetIsLast(m, start, target, Advance(start, target, cell));
    }
  }

  // ---------- the queries of the code ----------

  /** getRayCells; None stands for the null cell.  Whether walls are to be pierced makes no difference. */
  method GetRayCells(m: Map, start: Option<Pos>, end: Option<Pos>, wallPiercing: bool) returns (path: seq<Pos>)
    requires start.Some? ==> m.InMap(start.value)
    requires end.Some? ==> m.InMap(end.value)
    ensures start.None? || end.None? ==> path == []
    ensures start.Some? && end.Some? ==> OnRay(start.value, end.value, start.value)
                                         && path == Trail(m, start.value, end.value, start.value)
  {
    if start.None? || end.None? {
      return [];
    }
    if start.value != end.value {
      EndsOnRay(start.value, end.value);
    }
    var walk := new RayWalk(m);
    walk.Dfs(start.value, start.value, end.value, wallPiercing);
    path := walk.path;
  }

  lemma PointMeetsItself(p: Pos, x: Pos)
    requires x != p
    ensures !SegmentMeets(p, p, x, false)
  {
    forall k: real
      ensures !InSquare(OnLine(p, p, k), x, false)
    {
      assert OnLine(p, p, k) == Point(p.row as real + 0.5, p.col as real + 0.5);
    }
  }

  /** isInVision: both cells are free and the ray arrives. */
  method IsInVision(m: Map, start: Option<Pos>, end: Option<Pos>) returns (visible: bool)
    requires start.Some? ==> m.InMap(start.value)
    requires end.Some? ==> m.InMap(end.value)
    ensures visible <==> start.Some? && end.Some? && Sees(m, start.value, end.value)
  {
    if start.None? || end.None? || m.IsWall(start.value) || m.IsWall(end.value) {
      return false;
    }
    var rayCells := GetRayCells(m, start, end, false);
    visible := rayCells[|rayCells| - 1] == end.value;
    if start.value != end.value {
      ThroughIffUnobstructed(m, start.value, end.value);
    } else {
      forall x: Pos | x != start.value
        ensures !Obstructs(m, start.value, start.value, x)
      {
        PointMeetsItself(start.value, x);
      }
    }
  }

  /** One cell sees another when both are free and the segment touches no wall, not even in a corner. */
  ghost predicate Sees(m: Map, start: Pos, end: Pos) {
    && !m.IsWall(start) && !m.IsWall(end)
    && forall x: Pos :: !Obstructs(m, start, end, x)
  }

  lemma SegmentReverses(start: Pos, target: Pos, cell: Pos, open: bool)
    requires SegmentMeets(start, target, cell, open)
    ensures SegmentMeets(target, start, cell, open)
  {
    var k: real :| 0.0 <= k <= 1.0 && InSquare(OnLine(start, target, k), cell, open);
    assert OnLine(target, start, 1.0 - k) == OnLine(start, target, k);
  }

  /** Vision is mutual. */
  lemma VisionIsSymmetric(m: Map, p: Pos, q: Pos)
    ensures Sees(m, p, q) <==> Sees(m, q, p)
  {
    forall x: Pos | m.IsWall(x) && !m.IsWall(p) && !m.IsWall(q)
      ensures Obstructs(m, p, q, x) <==> Obstructs(m, q, p, x)
    {
      if Obstructs(m, p, q, x) { SegmentReverses(p, q, x, false); }
      if Obstructs(m, q, p, x) { SegmentReverses(q, p, x, false); }
    }
  }

  // ---------- where an ability lands ----------

  /** Whether a hero the ability is meant for stands on the cell. */
  predicate Struck(ability: Ability, mine: set<Pos>, theirs: set<Pos>, p: Pos) {
    (p in theirs && ability.kind != Defensive) || (p in mine && ability.kind == Defensive)
  }

  /** The leading cells of the ray that are in range. */
  function InRange(ability: Ability, start: Pos, ray: seq<Pos>): (reached: seq<Pos>)
    ensures reached <= ray
    ensures forall p | p in reached :: Manhattan(start, p) <= ability.range
    ensures |reached| < |ray| ==> Manhattan(start, ray[|reached|]) > ability.range
  {
    if ray == [] || Manhattan(start, ray[0]) > ability.range then []
    else [ray[0]] + InRange(ability, start, ray[1..])
  }

  function StruckCells(ability: Ability, mine: set<Pos>, theirs: set<Pos>, cells: seq<Pos>): (struck: seq<Option<Pos>>)
    ensures forall p: Pos :: Some(p) in struck <==> p in cells && Struck(ability, mine, theirs, p)
  {
    if cells == [] then []
    else if Struck(ability, mine, theirs, cells[|cells| - 1]) then
      StruckCells(ability, mine, theirs, cells[..|cells| - 1]) + [Some(cells[|cells| - 1])]
    else
      StruckCells(ability, mine, theirs, cells[..|cells| - 1])
  }

  /** What the cells in range amount to: for a lobbed ability all struck ones, else the first, then the last reached. */
  ghost predicate LandsOn(ability: Ability, mine: set<Pos>, theirs: set<Pos>, reached: seq<Pos>,
                          impact: seq<Option<Pos>>) {
    if reached == [] then impact == [None]
    else if ability.lobbing then
      var last := reached[|reached| - 1];
      impact == StruckCells(ability, mine, theirs, reached)
                + (if Struck(ability, mine, theirs, last) then [] else [Some(last)])
    else
      exists i :: 0 <= i < |reached| && impact == [Some(reached[i])]
                  && (forall j | 0 <= j < i :: !Struck(ability, mine, theirs, reached[j]))
                  && (i < |reached| - 1 ==> Struck(ability, mine, theirs, reached[i]))
  }

  lemma NoneStruck(ability: Ability, mine: set<Pos>, theirs: set<Pos>, cells: seq<Pos>, k: nat)
    requires k <= |cells| && StruckCells(ability, mine, theirs, cells[..k]) == []
    ensures forall j | 0 <= j < k :: !Struck(ability, mine, theirs, cells[j])
  {
    forall j | 0 <= j < k
      ensures !Struck(ability, mine, theirs, cells[j])
    {
      assert cells[j] == cells[..k][j];
      assert Some(cells[j]) !in StruckCells(ability, mine, theirs, cells[..k]);
    }
  }

  /** Those an ability is meant for: one's own heroes if it is defensive, the opponent's otherwise. */
  function MeantFor(ability: Ability, mine: set<Pos>, theirs: set<Pos>): set<Pos> {
    match ability.kind
    case Defensive => mine
    case Offensive => theirs
    case Dodge => theirs
  }

  /**
   Where an ability lands: lobbed, on the heroes it is meant for and on the last cell; else past everybody else
   up to the first of those heroes, or to the last cell.
   */
  ghost predicate LandsAmong(lobbing: bool, meant: set<Pos>, reached: seq<Pos>, impact: seq<Option<Pos>>)
    requires reached != []
  {
    if lobbing then
      && (forall p: Pos :: Some(p) in impact <==> p in reached && (p in meant || p == reached[|reached| - 1]))
      && None !in impact
    else
      exists i :: 0 <= i < |reached| && impact == [Some(reached[i])]
                  && (forall j | 0 <= j < i :: reached[j] !in meant)
                  && (i < |reached| - 1 ==> reached[i] in meant)
  }

  lemma {:induction false} OnlyCells(ability: Ability, mine: set<Pos>, theirs: set<Pos>, cells: seq<Pos>)
    ensures None !in StruckCells(ability, mine, theirs, cells)
    decreases |cells|
  {
    if cells != [] { OnlyCells(ability, mine, theirs, cells[..|cells| - 1]); }
  }

  lemma LandsByKind(ability: Ability, mine: set<Pos>, theirs: set<Pos>, reached: seq<Pos>, impact: seq<Option<Pos>>)
    requires reached != [] && LandsOn(ability, mine, theirs, reached, impact)
    ensures LandsAmong(ability.lobbing, MeantFor(ability, mine, theirs), reached, impact)
  {
    if ability.lobbing {
      OnlyCells(ability, mine, theirs, reached);
    } else {
      var i :| 0 <= i < |reached| && impact == [Some(reached[i])]
               && (forall j | 0 <= j < i :: !Struck(ability, mine, theirs, reached[j]))
               && (i < |reached| - 1 ==> Struck(ability, mine, theirs, reached[i]));
    }
  }

  method FollowRay(ability: Ability, mine: set<Pos>, theirs: set<Pos>, start: Pos, rayCells: seq<Pos>)
    returns (impact: seq<Option<Pos>>)
    ensures LandsOn(ability, mine, theirs, InRange(ability, start, rayCells), impact)
  {
    impact := [];
    ghost var reached := InRange(ability, start, rayCells);
    var lastCell: Option<Pos> := None;
    var k := 0;
    while k < |rayCells|
      invariant 0 <= k <= |reached|
      invariant impact == StruckCells(ability, mine, theirs, reached[..k])
      invariant !ability.lobbing ==> impact == []
      invariant lastCell == if k == 0 then None else Some(reached[k - 1])
    {
      var cell := rayCells[k];
      if Manhattan(start, cell) > ability.range {
        break;
      }
      assert k < |reached| && reached[..k + 1][..k] == reached[..k];
      lastCell := Some(cell);
      if Struck(ability, mine, theirs, cell) {
        impact := impact + [Some(cell)];
        if !ability.lobbing {
          NoneStruck(ability, mine, theirs, reached, k);
          return;
        }
      }
      k := k + 1;
    }
    assert k == |reached| && reached[..k] == reached;
    if lastCell !in impact {
      impact := impact + [lastCell];
    }
    NoneStruckAtEnd(ability, mine, theirs, reached);
  }

  lemma NoneStruckAtEnd(ability: Ability, mine: set<Pos>, theirs: set<Pos>, reached: seq<Pos>)
    ensures reached != [] && StruckCells(ability, mine, theirs, reached) == [] ==>
              forall j | 0 <= j < |reached| :: !Struck(ability, mine, theirs, reached[j])
  {
    assert reached[..|reached|] == reached;
    if StruckCells(ability, mine, theirs, reached) == [] {
      NoneStruck(ability, mine, theirs, reached, |reached|);
    }
  }

  /** Nothing to trace: a null argument, the same cell, or a direct shot out of a wall. */
  predicate NoFlight(m: Map, ability: Option<Ability>, start: Option<Pos>, target: Option<Pos>) {
    || start.None? || target.None? || ability.None?
    || (!ability.value.lobbing && m.IsWall(start.value)) || start == target
  }

  // ---------- when a shot lands on its target ----------

  lemma {:induction false} AllInRange(ability: Ability, start: Pos, cells: seq<Pos>)
    requires forall p | p in cells :: Manhattan(start, p) <= ability.range
    ensures InRange(ability, start, cells) == cells
  {
    if cells != [] {
      assert cells[0] in cells;
      AllInRange(ability, start, cells[1..]);
      assert cells == [cells[0]] + cells[1..];
    }
  }

  /** What of the ray is in range: all of it if it arrives in range, and never the target otherwise. */
  lemma ReachedCells(m: Map, ability: Ability, start: Pos, target: Pos)
    requires start != target && OnRay(start, target, start)
    ensures var ray := Trail(m, start, target, start);
            var reached := InRange(ability, start, ray);
            if target in ray && Manhattan(start, target) <= ability.range then reached == ray && ray[|ray| - 1] == target
            else target !in reached
  {
    var ray := Trail(m, start, target, start);
    RayIsExact(m, start, target);
    ThroughIffUnobstructed(m, start, target);
    if target in ray && Manhattan(start, target) <= ability.range {
      forall p | p in ray ensures Manhattan(start, p) <= ability.range {
        SegmentByOffset(start, target, p, true);
      }
      AllInRange(ability, start, ray);
    }
  }

  /** No hero the ability is meant for stands on a cell the segment crosses, the target apart. */
  ghost predicate NoneBefore(ability: Ability, mine: set<Pos>, theirs: set<Pos>, start: Pos, target: Pos) {
    forall x: Pos | x != target && Struck(ability, mine, theirs, x) :: !SegmentMeets(start, target, x, true)
  }

  /** The shot is free to fly, arrives in range past no wall and, unless lobbed, past no hero it would strike. */
  ghost predicate HitsTarget(m: Map, ability: Ability, mine: set<Pos>, theirs: set<Pos>, start: Pos, target: Pos) {
    start == target
    || (&& (ability.lobbing || !m.IsWall(start))
        && Manhattan(start, target) <= ability.range
        && (forall x: Pos :: !Obstructs(m, start, target, x))
        && (ability.lobbing || NoneBefore(ability, mine, theirs, start, target)))
  }

  /** The last cell of what a list of reached cells amounts to. */
  lemma LastImpact(ability: Ability, mine: set<Pos>, theirs: set<Pos>, reached: seq<Pos>, impact: seq<Option<Pos>>)
    requires LandsOn(ability, mine, theirs, reached, impact)
    ensures impact != []
    ensures var last := impact[|impact| - 1];
            && (reached == [] ==> last == None)
            && (reached != [] && ability.lobbing ==> last == Some(reached[|reached| - 1]))
            && (reached != [] && !ability.lobbing ==>
                  exists i :: 0 <= i < |reached| && last == Some(reached[i])
                              && (forall j | 0 <= j < i :: !Struck(ability, mine, theirs, reached[j]))
                              && (i < |reached| - 1 ==> Struck(ability, mine, theirs, reached[i])))
  {
  }

  /** On a ray that arrives: nothing is struck before its end exactly if nothing stands where the segment crosses. */
  lemma NoneStruckBefore(m: Map, ability: Ability, mine: set<Pos>, theirs: set<Pos>, start: Pos, target: Pos)
    requires start != target && OnRay(start, target, start) && forall x: Pos :: !Obstructs(m, start, target, x)
    ensures var ray := Trail(m, start, target, start);
            NoneBefore(ability, mine, theirs, start, target)
            <==> forall j | 0 <= j < |ray| - 1 :: !Struck(ability, mine, theirs, ray[j])
  {
    var ray := Trail(m, start, target, start);
    RayIsExact(m, start, target);
    ThroughIffUnobstructed(m, start, target);
    if NoneBefore(ability, mine, theirs, start, target) {
      forall j | 0 <= j < |ray| - 1 ensures !Struck(ability, mine, theirs, ray[j]) {
        assert ray[j] in ray && ray[j] != ray[|ray| - 1];
      }
    } else {
      var x: Pos :| x != target && Struck(ability, mine, theirs, x) && SegmentMeets(start, target, x, true);
      assert x in ray;
    }
  }

  /** The last impact cell is the target exactly when the shot hits it. */
  lemma ImpactIsTarget(m: Map, ability: Ability, mine: set<Pos>, theirs: set<Pos>, start: Pos, target: Pos,
                       impact: seq<Option<Pos>>)
    requires start != target && (ability.lobbing || !m.IsWall(start)) && OnRay(start, target, start)
    requires LandsOn(ability, mine, theirs, InRange(ability, start, Trail(m, start, target, start)), impact)
    ensures impact != []
    ensures impact[|impact| - 1] == Some(target) <==> HitsTarget(m, ability, mine, theirs, start, target)
  {
    var ray := Trail(m, start, target, start);
    var reached := InRange(ability, start, ray);
    LastImpact(ability, mine, theirs, reached, impact);
    ReachedCells(m, ability, start, target);
    ThroughIffUnobstructed(m, start, target);
    if target in ray && Manhattan(start, target) <= ability.range && !ability.lobbing {
      NoneStruckBefore(m, ability, mine, theirs, start, target);
      RayIsExact(m, start, target);
    }
  }

  /** getImpactCells. */
  method GetImpactCells(m: Map, ability: Option<Ability>, mine: set<Pos>, theirs: set<Pos>,
                        start: Option<Pos>, target: Option<Pos>) returns (impact: seq<Option<Pos>>)
    requires start.Some? ==> m.InMap(start.value)
    requires target.Some? ==> m.InMap(target.value)
    ensures NoFlight(m, ability, start, target) ==> impact == [start]
    ensures !NoFlight(m, ability, start, target) ==>
              && OnRay(start.value, target.value, start.value)
              && Lands(m, ability.value, mine, theirs, start.value, target.value, impact)
    ensures impact != []
    ensures start.Some? && target.Some? && ability.Some? ==>
              (impact[|impact| - 1] == target
               <==> HitsTarget(m, ability.value, mine, theirs, start.value, target.value))
  {
    if NoFlight(m, ability, start, target) {
      return [start];
    }
    impact := Trace(m, ability.value, mine, theirs, start.value, target.value);
    ImpactIsTarget(m, ability.value, mine, theirs, start.value, target.value, impact);
  }

  /** What a flight amounts to: on the cells of the ray in range, in their order, by the heroes who stand there. */
  ghost predicate Lands(m: Map, ability: Ability, mine: set<Pos>, theirs: set<Pos>, start: Pos, target: Pos,
                        impact: seq<Option<Pos>>)
    requires OnRay(start, target, start)
  {
    var reached := InRange(ability, start, Trail(m, start, target, start));
    && LandsOn(ability, mine, theirs, reached, impact)
    && (reached != [] ==> LandsAmong(ability.lobbing, MeantFor(ability, mine, theirs), reached, impact))
  }

  method Trace(m: Map, ability: Ability, mine: set<Pos>, theirs: set<Pos>, start: Pos, target: Pos)
    returns (impact: seq<Option<Pos>>)
    requires m.InMap(start) && m.InMap(target)
    ensures OnRay(start, target, start) && Lands(m, ability, mine, theirs, start, target, impact)
  {
    var rayCells := GetRayCells(m, Some(start), Some(target), ability.lobbing);
    impact := FollowRay(ability, mine, theirs, start, rayCells);
    ghost var reached := InRange(ability, start, rayCells);
    if reached != [] {
      LandsByKind(ability, mine, theirs, reached, impact);
    }
  }
}
