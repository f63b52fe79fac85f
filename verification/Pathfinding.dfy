/**
 Breadth-first search for a shortest way around walls and avoided cells.
 Cells are objects in the program: the parent table is keyed by address, while
 the tests for start and end compare coordinates.  A caller may pass a copy of
 a cell as the start, so an address is modelled apart from its position.
 */
module Pathfinding {
  import opened FiniteSets
  import opened Grid

  datatype CellPtr = MapCell(pos: Pos) | CopyCell(pos: Pos)

  datatype CellRef = NullCell | Cell(ptr: CellPtr, isWall: bool)

  /** A parent-table entry: the cell one came from and the direction taken. */
  datatype Move = Root | From(parent: CellPtr, dir: Direction)

  // ---------- what a path is ----------

  predicate Walkable(m: Map, avoiding: seq<Pos>, p: Pos) {
    m.InMap(p) && !m.IsWall(p) && p !in avoiding
  }

  function End(start: Pos, dirs: seq<Direction>): Pos {
    if dirs == [] then start
    else Neighbour(End(start, dirs[..|dirs| - 1]), dirs[|dirs| - 1])
  }

  /** Every cell entered along the way is walkable. */
  predicate Legal(m: Map, avoiding: seq<Pos>, start: Pos, dirs: seq<Direction>) {
    dirs == [] || (Legal(m, avoiding, start, dirs[..|dirs| - 1]) && Walkable(m, avoiding, End(start, dirs)))
  }

  ghost predicate IsPath(m: Map, avoiding: seq<Pos>, start: Pos, dirs: seq<Direction>, end: Pos) {
    Legal(m, avoiding, start, dirs) && End(start, dirs) == end
  }

  /** One step in a direction, by the change of row and column. */
  predicate Moves(p: Pos, q: Pos, d: Direction) {
    match d
    case Up => q.row == p.row - 1 && q.col == p.col
    case Down => q.row == p.row + 1 && q.col == p.col
    case Left => q.row == p.row && q.col == p.col - 1
    case Right => q.row == p.row && q.col == p.col + 1
  }

  /** Step number i of the way goes to the cell that lies in its direction, on the map, free and not avoided. */
  predicate StepsRight(m: Map, avoiding: seq<Pos>, cells: seq<Pos>, dirs: seq<Direction>, i: nat)
    requires i < |dirs| && |cells| == |dirs| + 1
  {
    var to := cells[i + 1];
    && Moves(cells[i], to, dirs[i])
    && 0 <= to.row < m.rows && 0 <= to.col < m.cols
    && to !in m.walls && to !in avoiding
  }

  /** The cells passed on the way in these directions, the first one included. */
  ghost predicate Passes(m: Map, avoiding: seq<Pos>, cells: seq<Pos>, dirs: seq<Direction>) {
    |cells| == |dirs| + 1 && forall i | 0 <= i < |dirs| :: StepsRight(m, avoiding, cells, dirs, i)
  }

  /** There is a way in these directions. */
  ghost predicate Leads(m: Map, avoiding: seq<Pos>, start: Pos, dirs: seq<Direction>, end: Pos) {
    exists cells: seq<Pos> :: Passes(m, avoiding, cells, dirs) && cells[0] == start && cells[|dirs|] == end
  }

  /** No way is shorter. */
  ghost predicate IsShortest(m: Map, avoiding: seq<Pos>, start: Pos, dirs: seq<Direction>, end: Pos) {
    && Leads(m, avoiding, start, dirs, end)
    && forall ds: seq<Direction> | Leads(m, avoiding, start, ds, end) :: |dirs| <= |ds|
  }

  ghost predicate Unreachable(m: Map, avoiding: seq<Pos>, start: Pos, end: Pos) {
    forall ds: seq<Direction> :: !Leads(m, avoiding, start, ds, end)
  }

  lemma {:induction false} CellsOf(m: Map, avoiding: seq<Pos>, start: Pos, dirs: seq<Direction>)
    returns (cells: seq<Pos>)
    requires Legal(m, avoiding, start, dirs)
    ensures Passes(m, avoiding, cells, dirs) && cells[0] == start && cells[|dirs|] == End(start, dirs)
    decreases |dirs|
  {
    if dirs == [] {
      cells := [start];
    } else {
      var before := CellsOf(m, avoiding, start, dirs[..|dirs| - 1]);
      cells := before + [End(start, dirs)];
      forall i | 0 <= i < |dirs| ensures StepsRight(m, avoiding, cells, dirs, i) {
        if i < |dirs| - 1 { assert StepsRight(m, avoiding, before, dirs[..|dirs| - 1], i); }
      }
    }
  }

  lemma PassesUpTo(m: Map, avoiding: seq<Pos>, cells: seq<Pos>, dirs: seq<Direction>, k: nat)
    requires Passes(m, avoiding, cells, dirs) && k <= |dirs|
    ensures Passes(m, avoiding, cells[..k + 1], dirs[..k])
  {
    var part, way := cells[..k + 1], dirs[..k];
    forall i | 0 <= i < k ensures StepsRight(m, avoiding, part, way, i) {
      assert StepsRight(m, avoiding, cells, dirs, i);
    }
  }

  lemma {:induction false} PassesIsLegal(m: Map, avoiding: seq<Pos>, cells: seq<Pos>, dirs: seq<Direction>)
    requires Passes(m, avoiding, cells, dirs)
    ensures Legal(m, avoiding, cells[0], dirs) && End(cells[0], dirs) == cells[|dirs|]
    decreases |dirs|
  {
    if dirs != [] {
      var k := |dirs| - 1;
      assert StepsRight(m, avoiding, cells, dirs, k);
      PassesUpTo(m, avoiding, cells, dirs, k);
      PassesIsLegal(m, avoiding, cells[..k + 1], dirs[..k]);
    }
  }

  /** Paths by replaying directions are ways by rows and columns. */
  lemma PathIsWay(m: Map, avoiding: seq<Pos>, start: Pos, dirs: seq<Direction>, end: Pos)
    ensures IsPath(m, avoiding, start, dirs, end) <==> Leads(m, avoiding, start, dirs, end)
  {
    if IsPath(m, avoiding, start, dirs, end) {
      var cells := CellsOf(m, avoiding, start, dirs);
    }
    forall cells: seq<Pos> | Passes(m, avoiding, cells, dirs) && cells[0] == start && cells[|dirs|] == end
      ensures IsPath(m, avoiding, start, dirs, end)
    {
      PassesIsLegal(m, avoiding, cells, dirs);
    }
  }

  /** No way is shorter than the distance by rows and columns. */
  lemma {:induction false} AtLeastDistance(m: Map, avoiding: seq<Pos>, cells: seq<Pos>, dirs: seq<Direction>)
    requires Passes(m, avoiding, cells, dirs)
    ensures Manhattan(cells[0], cells[|dirs|]) <= |dirs|
    decreases |dirs|
  {
    if dirs != [] {
      var k := |dirs| - 1;
      assert StepsRight(m, avoiding, cells, dirs, k);
      PassesUpTo(m, avoiding, cells, dirs, k);
      AtLeastDistance(m, avoiding, cells[..k + 1], dirs[..k]);
    }
  }

  /** Without walls a step towards the goal is always possible. */
  lemma {:induction false} StraightWay(m: Map, p: Pos, q: Pos) returns (cells: seq<Pos>, dirs: seq<Direction>)
    requires m.walls == {} && m.InMap(p) && m.InMap(q)
    ensures Passes(m, [], cells, dirs) && cells[0] == p && cells[|dirs|] == q && |dirs| == Manhattan(p, q)
    decreases Manhattan(p, q)
  {
    if p == q {
      cells, dirs := [p], [];
    } else {
      var d := if q.row < p.row then Up else if q.row > p.row then Down else if q.col < p.col then Left else Right;
      var back := if d == Up then Pos(q.row + 1, q.col) else if d == Down then Pos(q.row - 1, q.col)
                  else if d == Left then Pos(q.row, q.col + 1) else Pos(q.row, q.col - 1);
      var cells', dirs' := StraightWay(m, p, back);
      cells, dirs := cells' + [q], dirs' + [d];
      forall i | 0 <= i < |dirs| ensures StepsRight(m, [], cells, dirs, i) {
        if i < |dirs'| { assert StepsRight(m, [], cells', dirs', i); }
      }
    }
  }

  /** On a map without walls, with no cell to avoid, a shortest way has as many steps as the cells are apart. */
  lemma ShortestIsDistance(m: Map, p: Pos, dirs: seq<Direction>, q: Pos)
    requires m.walls == {} && m.InMap(p) && m.InMap(q)
    ensures IsShortest(m, [], p, dirs, q) ==> |dirs| == Manhattan(p, q)
  {
    if IsShortest(m, [], p, dirs, q) {
      var cells: seq<Pos> :| Passes(m, [], cells, dirs) && cells[0] == p && cells[|dirs|] == q;
      AtLeastDistance(m, [], cells, dirs);
      var cells', dirs' := StraightWay(m, p, q);
      assert Leads(m, [], p, dirs', q);
    }
  }

  lemma {:induction false} Prepend(m: Map, avoiding: seq<Pos>, start: Pos, d: Direction, dirs: seq<Direction>)
    requires Walkable(m, avoiding, Neighbour(start, d)) && Legal(m, avoiding, Neighbour(start, d), dirs)
    ensures Legal(m, avoiding, start, [d] + dirs) && End(start, [d] + dirs) == End(Neighbour(start, d), dirs)
  {
    if dirs == [] {
      assert [d] + dirs == [d] && [d][..0] == [];
      assert Legal(m, avoiding, start, [d][..0]) && End(start, [d]) == Neighbour(start, d);
    } else {
      assert ([d] + dirs)[..|dirs|] == [d] + dirs[..|dirs| - 1];
      Prepend(m, avoiding, start, d, dirs[..|dirs| - 1]);
    }
  }

  function Reversed(dirs: seq<Direction>): seq<Direction> {
    if dirs == [] then [] else [dirs[|dirs| - 1]] + Reversed(dirs[..|dirs| - 1])
  }

  // ---------- the search state ----------

  /** The queue so far, the parent table, and (ghost) the number of steps to each enqueued cell. */
  datatype Search = Search(queue: seq<CellPtr>, info: map<CellPtr, Move>, steps: map<CellPtr, nat>)

  ghost predicate Linked(m: Map, avoiding: seq<Pos>, s: Search, start: CellPtr, c: CellPtr)
    requires c in s.info && s.info.Keys == s.steps.Keys
  {
    if c == start then s.steps[c] == 0
    else
      && s.info[c].From? && s.info[c].parent in s.steps
      && s.steps[c] == s.steps[s.info[c].parent] + 1
      && c == MapCell(Neighbour(s.info[c].parent.pos, s.info[c].dir))
      && Walkable(m, avoiding, c.pos)
  }

  ghost predicate Valid(m: Map, avoiding: seq<Pos>, s: Search, start: CellPtr) {
    && |s.queue| == |s.info| && |s.queue| > 0 && s.queue[0] == start
    && s.info.Keys == s.steps.Keys
    && (forall i | 0 <= i < |s.queue| :: s.queue[i] in s.info)
    && (forall c | c in s.info :: c in s.queue)
    && (forall c | c in s.info :: Linked(m, avoiding, s, start, c))
    && Ordered(s)
  }

  /** Cells are queued by increasing number of steps. */
  ghost predicate Ordered(s: Search) {
    && (forall i | 0 <= i < |s.queue| :: s.queue[i] in s.steps)
    && (forall i, j | 0 <= i <= j < |s.queue| :: s.steps[s.queue[i]] <= s.steps[s.queue[j]])
  }

  /** The neighbours of a cell have been enqueued, at most one step later. */
  ghost predicate Expanded(m: Map, avoiding: seq<Pos>, s: Search, c: CellPtr, k: nat)
    requires k <= 4 && s.info.Keys == s.steps.Keys && c in s.info
  {
    forall i | 0 <= i < k && Walkable(m, avoiding, Neighbour(c.pos, DIRECTIONS[i])) ::
      MapCell(Neighbour(c.pos, DIRECTIONS[i])) in s.steps
      && s.steps[MapCell(Neighbour(c.pos, DIRECTIONS[i]))] <= s.steps[c] + 1
  }

  function Enqueue(s: Search, next: CellPtr, parent: CellPtr, d: Direction): Search
    requires parent in s.steps
  {
    Search(s.queue + [next], s.info[next := From(parent, d)], s.steps[next := s.steps[parent] + 1])
  }

  /** No enqueued cell is more than one step beyond `current`. */
  ghost predicate Near(s: Search, current: CellPtr) {
    && current in s.steps && (forall i | 0 <= i < |s.queue| :: s.queue[i] in s.steps)
    && forall i | 0 <= i < |s.queue| :: s.steps[s.queue[i]] <= s.steps[current] + 1
  }

  /** A later state of the same search. */
  ghost predicate Extends(s: Search, t: Search) {
    && s.queue <= t.queue && s.info.Keys == s.steps.Keys && t.info.Keys == t.steps.Keys
    && forall c | c in s.steps :: c in t.steps && t.steps[c] == s.steps[c]
  }

  lemma ExpandedStays(m: Map, avoiding: seq<Pos>, s: Search, t: Search, c: CellPtr)
    requires Extends(s, t) && c in s.info && Expanded(m, avoiding, s, c, 4)
    ensures Expanded(m, avoiding, t, c, 4)
  {
  }

  lemma EnqueueKeepsOrder(s: Search, next: CellPtr, parent: CellPtr, d: Direction)
    requires Ordered(s) && parent in s.steps && next !in s.queue
    requires Near(s, parent)
    ensures Ordered(Enqueue(s, next, parent, d))
  {
  }

  lemma EnqueueKeepsLinks(m: Map, avoiding: seq<Pos>, s: Search, start: CellPtr, next: CellPtr, parent: CellPtr,
                          d: Direction,
                          c: CellPtr)
    requires Valid(m, avoiding, s, start) && parent in s.info && next !in s.info && c in Enqueue(s, next, parent, d).info
    requires next == MapCell(Neighbour(parent.pos, d)) && Walkable(m, avoiding, next.pos)
    ensures c in Enqueue(s, next, parent, d).queue && Linked(m, avoiding, Enqueue(s, next, parent, d), start, c)
  {
    if c == next {
      assert start in s.info;
      assert Enqueue(s, next, parent, d).queue[|s.queue|] == next;
    } else {
      assert Linked(m, avoiding, s, start, c);
    }
  }

  lemma EnqueueKeepsValid(m: Map, avoiding: seq<Pos>, s: Search, start: CellPtr, next: CellPtr, parent: CellPtr,
                          d: Direction)
    requires Valid(m, avoiding, s, start) && parent in s.info && next !in s.info
    requires Near(s, parent)
    requires next == MapCell(Neighbour(parent.pos, d)) && Walkable(m, avoiding, next.pos)
    ensures Valid(m, avoiding, Enqueue(s, next, parent, d), start)
  {
    var t := Enqueue(s, next, parent, d);
    EnqueueKeepsOrder(s, next, parent, d);
    forall c | c in t.info
      ensures c in t.queue && Linked(m, avoiding, t, start, c)
    {
      EnqueueKeepsLinks(m, avoiding, s, start, next, parent, d, c);
    }
  }

  /** Queue entry i has been dequeued: it is not the end, and its neighbours are in. */
  ghost predicate Done(m: Map, avoiding: seq<Pos>, s: Search, i: nat, end: Pos) {
    && i < |s.queue| && s.info.Keys == s.steps.Keys && s.queue[i] in s.info
    && Expanded(m, avoiding, s, s.queue[i], 4) && s.queue[i].pos != end
  }

  // ---------- no path is shorter ----------

  /** Every legal path of at most `bound` steps ends in a cell enqueued within that many steps. */
  lemma {:induction false} PathsAreCovered(m: Map, avoiding: seq<Pos>, s: Search, start: CellPtr, head: nat, bound: nat,
                                           end: Pos, dirs: seq<Direction>) returns (i: nat)
    requires Valid(m, avoiding, s, start) && head <= |s.queue|
    requires forall i | 0 <= i < head :: Done(m, avoiding, s, i, end)
    requires forall i | head <= i < |s.queue| :: s.steps[s.queue[i]] >= bound
    requires Legal(m, avoiding, start.pos, dirs) && |dirs| <= bound
    ensures i < |s.queue| && s.queue[i].pos == End(start.pos, dirs) && s.steps[s.queue[i]] <= |dirs|
    ensures i >= head || Done(m, avoiding, s, i, end)
  {
    if dirs == [] {
      assert start in s.info && Linked(m, avoiding, s, start, start);
      return 0;
    }
    var j := PathsAreCovered(m, avoiding, s, start, head, bound, end, dirs[..|dirs| - 1]);
    var d := dirs[|dirs| - 1];
    assert Done(m, avoiding, s, j, end);
    assert d == DIRECTIONS[0] || d == DIRECTIONS[1] || d == DIRECTIONS[2] || d == DIRECTIONS[3];
    var next := MapCell(Neighbour(s.queue[j].pos, d));
    assert next in s.queue;
    i :| 0 <= i < |s.queue| && s.queue[i] == next;
  }

  lemma NoShorterPath(m: Map, avoiding: seq<Pos>, s: Search, start: CellPtr, head: nat, bound: nat,
                      end: Pos, dirs: seq<Direction>)
    requires Valid(m, avoiding, s, start) && head <= |s.queue|
    requires forall i | 0 <= i < head :: Done(m, avoiding, s, i, end)
    requires forall i | head <= i < |s.queue| :: s.steps[s.queue[i]] >= bound
    requires IsPath(m, avoiding, start.pos, dirs, end)
    ensures |dirs| >= bound
  {
    if |dirs| < bound {
      var i := PathsAreCovered(m, avoiding, s, start, head, bound, end, dirs);
    }
  }

  // ---------- how many cells can be enqueued ----------

  function RowCells(r: int, cols: nat): (s: set<CellPtr>)
    ensures |s| == cols
    ensures forall c :: c in s <==> c.MapCell? && c.pos.row == r && 0 <= c.pos.col < cols
  {
    if cols == 0 then {} else RowCells(r, cols - 1) + {MapCell(Pos(r, cols - 1))}
  }

  function GridCells(rows: nat, cols: nat): (s: set<CellPtr>)
    ensures |s| == rows * cols
    ensures forall c :: c in s <==> c.MapCell? && 0 <= c.pos.row < rows && 0 <= c.pos.col < cols
  {
    if rows == 0 then {}
    else
      assert GridCells(rows - 1, cols) !! RowCells(rows - 1, cols);
      GridCells(rows - 1, cols) + RowCells(rows - 1, cols)
  }

  /** Each address is enqueued at most once, so the array never runs out, copied start included. */
  lemma QueueFits(m: Map, avoiding: seq<Pos>, s: Search, start: CellPtr)
    requires Valid(m, avoiding, s, start)
    ensures |s.queue| <= m.rows * m.cols + 1
  {
    var cells := GridCells(m.rows, m.cols);
    forall c | c in s.info
      ensures c in cells + {start}
    {
      assert Linked(m, avoiding, s, start, c);
    }
    SubsetSize(s.info.Keys, cells + {start});
    assert |cells + {start}| <= |cells| + 1;
  }

  // ---------- the algorithm ----------

  /** The cases in which no search is made. */
  predicate Refused(start: CellRef, end: CellRef, avoiding: seq<Pos>) {
    || start.NullCell? || end.NullCell? || start.ptr.pos == end.ptr.pos || start.isWall || end.isWall
    || start.ptr.pos in avoiding || end.ptr.pos in avoiding
  }

  /** One step back along the parent table. */
  lemma BackOne(m: Map, avoiding: seq<Pos>, s: Search, start: CellPtr, current: CellPtr, directions: seq<Direction>,
                end: Pos)
    requires Valid(m, avoiding, s, start) && current in s.info && current.pos != start.pos
    requires Legal(m, avoiding, current.pos, Reversed(directions)) && End(current.pos, Reversed(directions)) == end
    ensures s.info[current].From?
    ensures var parent, back := s.info[current].parent, Reversed(directions + [s.info[current].dir]);
            && parent in s.info && s.steps[current] == s.steps[parent] + 1
            && Legal(m, avoiding, parent.pos, back) && End(parent.pos, back) == end
  {
    assert Linked(m, avoiding, s, start, current);
    var d := s.info[current].dir;
    Prepend(m, avoiding, s.info[current].parent.pos, d, Reversed(directions));
    assert (directions + [d])[..|directions|] == directions;
  }

  lemma {:induction false} ReversedLength(dirs: seq<Direction>)
    ensures |Reversed(dirs)| == |dirs|
  {
    if dirs != [] {
      ReversedLength(dirs[..|dirs| - 1]);
    }
  }

  /** The inner loop after k directions, having begun in state s. */
  ghost predicate Expanding(m: Map, avoiding: seq<Pos>, s: Search, t: Search, start: CellPtr, current: CellPtr, k: nat)
    requires k <= 4
  {
    Valid(m, avoiding, t, start) && Extends(s, t) && Near(t, current) && Expanded(m, avoiding, t, current, k)
  }

  lemma ExpandSkip(m: Map, avoiding: seq<Pos>, s: Search, t: Search, start: CellPtr, current: CellPtr, k: nat)
    requires k < 4 && Expanding(m, avoiding, s, t, start, current, k)
    requires var next := Neighbour(current.pos, DIRECTIONS[k]); !Walkable(m, avoiding, next) || MapCell(next) in t.info
    ensures Expanding(m, avoiding, s, t, start, current, k + 1)
  {
    var next := MapCell(Neighbour(current.pos, DIRECTIONS[k]));
    if next in t.info {
      var i :| 0 <= i < |t.queue| && t.queue[i] == next;
      assert t.steps[t.queue[i]] <= t.steps[current] + 1;
    }
  }

  lemma EnqueueExtends(s: Search, t: Search, next: CellPtr, parent: CellPtr, d: Direction)
    requires Extends(s, t) && parent in t.steps && next !in t.steps
    ensures Extends(s, Enqueue(t, next, parent, d))
  {
  }

  lemma EnqueueStaysNear(t: Search, next: CellPtr, current: CellPtr, d: Direction)
    requires Near(t, current) && next !in t.steps
    ensures Near(Enqueue(t, next, current, d), current)
  {
  }

  lemma EnqueueExpands(m: Map, avoiding: seq<Pos>, t: Search, current: CellPtr, k: nat, next: CellPtr)
    requires t.info.Keys == t.steps.Keys && current in t.info && k < 4 && Expanded(m, avoiding, t, current, k)
    requires next == MapCell(Neighbour(current.pos, DIRECTIONS[k])) && next !in t.info
    ensures Expanded(m, avoiding, Enqueue(t, next, current, DIRECTIONS[k]), current, k + 1)
  {
  }

  lemma ExpandEnqueue(m: Map, avoiding: seq<Pos>, s: Search, t: Search, start: CellPtr, current: CellPtr, k: nat,
                      next: CellPtr)
    requires k < 4 && Expanding(m, avoiding, s, t, start, current, k)
    requires next == MapCell(Neighbour(current.pos, DIRECTIONS[k])) && Walkable(m, avoiding, next.pos) && next !in t.info
    ensures Expanding(m, avoiding, s, Enqueue(t, next, current, DIRECTIONS[k]), start, current, k + 1)
  {
    EnqueueKeepsValid(m, avoiding, t, start, next, current, DIRECTIONS[k]);
    EnqueueExtends(s, t, next, current, DIRECTIONS[k]);
    EnqueueStaysNear(t, next, current, DIRECTIONS[k]);
    EnqueueExpands(m, avoiding, t, current, k, next);
  }

  method PushBack(bfsQueue: array<CellPtr>, tail: nat, next: CellPtr)
    requires tail < bfsQueue.Length
    modifies bfsQueue
    ensures bfsQueue[..tail + 1] == old(bfsQueue[..tail]) + [next]
  {
    bfsQueue[tail] := next;
  }

  /** The outer loop with the first `head` cells done and none of them the end. */
  ghost predicate Explored(m: Map, avoiding: seq<Pos>, s: Search, start: CellPtr, head: nat, end: Pos) {
    && Valid(m, avoiding, s, start) && head <= |s.queue|
    && (forall i | 0 <= i < head :: Done(m, avoiding, s, i, end))
    && (head < |s.queue| ==> Near(s, s.queue[head]))
  }

  lemma DoneStays(m: Map, avoiding: seq<Pos>, s: Search, t: Search, i: nat, end: Pos)
    requires Done(m, avoiding, s, i, end) && Extends(s, t)
    ensures Done(m, avoiding, t, i, end)
  {
    ExpandedStays(m, avoiding, s, t, s.queue[i]);
  }

  lemma NextIsNear(s: Search, current: CellPtr, head: nat)
    requires Ordered(s) && Near(s, current) && head + 1 < |s.queue| && s.queue[head] == current
    ensures Near(s, s.queue[head + 1])
  {
    assert s.steps[s.queue[head]] <= s.steps[s.queue[head + 1]];
  }

  lemma ExploreOne(m: Map, avoiding: seq<Pos>, s: Search, t: Search, start: CellPtr, head: nat, end: Pos)
    requires Explored(m, avoiding, s, start, head, end) && head < |s.queue| && s.queue[head].pos != end
    requires Expanding(m, avoiding, s, t, start, s.queue[head], 4)
    ensures Explored(m, avoiding, t, start, head + 1, end)
  {
    forall i | 0 <= i < head + 1
      ensures Done(m, avoiding, t, i, end)
    {
      if i < head {
        DoneStays(m, avoiding, s, t, i, end);
      }
    }
    if head + 1 < |t.queue| {
      NextIsNear(t, s.queue[head], head);
    }
  }

  /** The inner loop: enqueue the walkable neighbours of a cell that have no parent entry yet. */
  method Expand(m: Map, avoiding: seq<Pos>, bfsQueue: array<CellPtr>, currentCell: CellPtr, tail: nat,
                moveInfo: map<CellPtr, Move>, ghost start: CellPtr, ghost s: Search,
                ghost head: nat, ghost end: Pos)
    returns (queueTail: nat, lastMoveInfo: map<CellPtr, Move>, ghost t: Search)
    requires bfsQueue.Length == m.rows * m.cols + 10 && tail <= bfsQueue.Length
    requires Explored(m, avoiding, s, start, head, end) && head < |s.queue|
    requires s.queue[head] == currentCell && currentCell.pos != end
    requires s.queue == bfsQueue[..tail] && s.info == moveInfo
    modifies bfsQueue
    ensures queueTail <= bfsQueue.Length && t.queue == bfsQueue[..queueTail] && t.info == lastMoveInfo
    ensures Explored(m, avoiding, t, start, head + 1, end) && Extends(s, t)
  {
    queueTail, lastMoveInfo, t := tail, moveInfo, s;
    for k := 0 to 4
      invariant queueTail <= bfsQueue.Length && t.queue == bfsQueue[..queueTail] && t.info == lastMoveInfo
      invariant Expanding(m, avoiding, s, t, start, currentCell, k)
    {
      var nextCell := MapCell(Neighbour(currentCell.pos, DIRECTIONS[k]));
      if m.InMap(nextCell.pos) && !m.IsWall(nextCell.pos) && nextCell !in lastMoveInfo && nextCell.pos !in avoiding {
        QueueFits(m, avoiding, t, start);
        ExpandEnqueue(m, avoiding, s, t, start, currentCell, k, nextCell);
        lastMoveInfo := lastMoveInfo[nextCell := From(currentCell, DIRECTIONS[k])];
        PushBack(bfsQueue, queueTail, nextCell);
        queueTail := queueTail + 1;
        t := Enqueue(t, nextCell, currentCell, DIRECTIONS[k]);
      } else {
        ExpandSkip(m, avoiding, s, t, start, currentCell, k);
      }
    }
    ExploreOne(m, avoiding, s, t, start, head, end);
  }

  lemma FoundIsShortest(m: Map, avoiding: seq<Pos>, s: Search, start: CellPtr, head: nat, end: Pos,
                        dirs: seq<Direction>)
    requires Explored(m, avoiding, s, start, head, end) && head < |s.queue|
    requires IsPath(m, avoiding, start.pos, dirs, end) && |dirs| <= s.steps[s.queue[head]]
    ensures IsShortest(m, avoiding, start.pos, dirs, end)
  {
    PathIsWay(m, avoiding, start.pos, dirs, end);
    forall ds: seq<Direction> | Leads(m, avoiding, start.pos, ds, end)
      ensures |dirs| <= |ds|
    {
      PathIsWay(m, avoiding, start.pos, ds, end);
      NoShorterPath(m, avoiding, s, start, head, s.steps[s.queue[head]], end, ds);
    }
  }

  lemma ExhaustedMeansNone(m: Map, avoiding: seq<Pos>, s: Search, start: CellPtr, end: Pos)
    requires Explored(m, avoiding, s, start, |s.queue|, end)
    ensures Unreachable(m, avoiding, start.pos, end)
  {
    forall ds: seq<Direction>
      ensures !Leads(m, avoiding, start.pos, ds, end)
    {
      PathIsWay(m, avoiding, start.pos, ds, end);
      if IsPath(m, avoiding, start.pos, ds, end) {
        NoShorterPath(m, avoiding, s, start, |s.queue|, |ds| + 1, end, ds);
      }
    }
  }

  /** Follow the parent table back to the start and reverse the directions met. */
  method Backtrack(m: Map, avoiding: seq<Pos>, info: map<CellPtr, Move>, start: CellPtr, found: CellPtr,
                   ghost s: Search, ghost head: nat)
    returns (directions: seq<Direction>)
    requires Explored(m, avoiding, s, start, head, found.pos) && head < |s.queue| && s.queue[head] == found
    requires s.info == info
    ensures IsShortest(m, avoiding, start.pos, directions, found.pos)
  {
    directions := [];
    var current := found;
    while current.pos != start.pos
      invariant current in info
      invariant Legal(m, avoiding, current.pos, Reversed(directions))
      invariant End(current.pos, Reversed(directions)) == found.pos
      invariant |directions| + s.steps[current] == s.steps[found]
      decreases s.steps[current]
    {
      BackOne(m, avoiding, s, start, current, directions, found.pos);
      directions := directions + [info[current].dir];
      current := info[current].parent;
    }
    ReversedLength(directions);
    directions := Reversed(directions);
    FoundIsShortest(m, avoiding, s, start, head, found.pos, directions);
  }

  lemma StartIsExplored(m: Map, avoiding: seq<Pos>, s: Search, start: CellPtr, end: Pos)
    requires s == Search([start], map[start := Root], map[start := 0])
    ensures Explored(m, avoiding, s, start, 0, end)
  {
  }

  /** getPathMoveDirections. */
  method GetPathMoveDirections(m: Map, start: CellRef, end: CellRef,
                               avoiding: seq<Pos>) returns (directions: seq<Direction>)
    ensures directions != [] ==>
              start.Cell? && end.Cell? && IsShortest(m, avoiding, start.ptr.pos, directions, end.ptr.pos)
    ensures directions == [] <==>
              || start.NullCell? || end.NullCell? || start.ptr.pos == end.ptr.pos || start.isWall || end.isWall
              || start.ptr.pos in avoiding || end.ptr.pos in avoiding
              || Unreachable(m, avoiding, start.ptr.pos, end.ptr.pos)
  {
    if Refused(start, end, avoiding) {
      return [];
    }
    var bfsQueue := new CellPtr[m.rows * m.cols + 10];
    var lastMoveInfo := map[start.ptr := Root];
    var queueHead, queueTail := 0, 1;
    bfsQueue[0] := start.ptr;
    ghost var s := Search([start.ptr], lastMoveInfo, map[start.ptr := 0]);
    StartIsExplored(m, avoiding, s, start.ptr, end.ptr.pos);
    while queueHead != queueTail
      invariant bfsQueue.Length == m.rows * m.cols + 10 && 0 <= queueTail <= bfsQueue.Length
      invariant s.queue == bfsQueue[..queueTail] && s.info == lastMoveInfo
      invariant Explored(m, avoiding, s, start.ptr, queueHead, end.ptr.pos)
      decreases bfsQueue.Length - queueHead
    {
      var currentCell := bfsQueue[queueHead];
      if currentCell.pos == end.ptr.pos {
        directions := Backtrack(m, avoiding, lastMoveInfo, start.ptr, currentCell, s, queueHead);
        return;
      }
      queueTail, lastMoveInfo, s :=
        Expand(m, avoiding, bfsQueue, currentCell, queueTail, lastMoveInfo, start.ptr, s, queueHead, end.ptr.pos);
      queueHead := queueHead + 1;
    }
    ExhaustedMeansNone(m, avoiding, s, start.ptr, end.ptr.pos);
    directions := [];
  }
}
