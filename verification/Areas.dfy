/** Diamonds: the cells within some Manhattan distance of a centre, and sets of cells with the heroes they concern. */
module Areas {
  import opened Wrappers
  import opened Grid

  /** All cells of the map. */
  function Cells(m: Map): (s: set<Pos>)
    ensures forall p :: p in s <==> m.InMap(p)
  {
    set r, c | 0 <= r < m.rows && 0 <= c < m.cols :: Pos(r, c)
  }

  function Diamond(m: Map, centre: Pos, radius: int): (s: set<Pos>)
    ensures forall p :: p in s <==> m.InMap(p) && Manhattan(centre, p) <= radius
  {
    set p | p in Cells(m) && Manhattan(centre, p) <= radius
  }

  /** Copied whenever it is assigned, hence a value. */
  datatype Intersection = Intersection(members: set<int>, cells: set<Pos>) {
    function AddCell(m: Map, p: Pos): Intersection {
      if m.InMap(p) then Intersection(members, cells + {p}) else this
    }

    function AddMember(id: int): Intersection {
      Intersection(members + {id}, cells)
    }

    predicate IsEmpty() {
      cells == {}
    }
  }

  /** The four mirror images of an offset that createArea visits at once. */
  predicate Mirrored(centre: Pos, i: int, j: int, p: Pos) {
    Abs(p.row - centre.row) == i && Abs(p.col - centre.col) == j
  }

  /** The body of the loops of createArea. */
  method AddMirrored(m: Map, centre: Pos, i: int, j: int, area: Intersection) returns (ans: Intersection)
    requires 0 <= i && 0 <= j
    ensures ans.members == area.members
    ensures forall p :: p in ans.cells <==> p in area.cells || (m.InMap(p) && Mirrored(centre, i, j, p))
  {
    ans := area.AddCell(m, Pos(centre.row + i, centre.col + j));
    ans := ans.AddCell(m, Pos(centre.row + i, centre.col - j));
    ans := ans.AddCell(m, Pos(centre.row - i, centre.col + j));
    ans := ans.AddCell(m, Pos(centre.row - i, centre.col - j));
  }

  /** What the loops have visited before the turn for i and j. */
  predicate Visited(centre: Pos, i: int, j: int, p: Pos) {
    Abs(p.row - centre.row) < i || (Abs(p.row - centre.row) == i && Abs(p.col - centre.col) < j)
  }

  /** createArea. */
  method CreateArea(m: Map, centre: Pos, radius: int) returns (ans: Intersection)
    ensures ans == Intersection({}, Diamond(m, centre, radius))
  {
    ans := Intersection({}, {});
    var i := 0;
    while i <= radius
      invariant 0 <= i && (radius >= 0 ==> i <= radius + 1) && ans.members == {}
      invariant forall p :: p in ans.cells <==> p in Diamond(m, centre, radius) && Visited(centre, i, 0, p)
    {
      var j := 0;
      while j <= radius - i
        invariant 0 <= j <= radius - i + 1 && ans.members == {}
        invariant forall p :: p in ans.cells <==> p in Diamond(m, centre, radius) && Visited(centre, i, j, p)
      {
        ans := AddMirrored(m, centre, i, j, ans);
        j := j + 1;
      }
      i := i + 1;
    }
  }

  /** Row by row, and from left to right. */
  predicate Before(p: Pos, q: Pos) {
    p.row < q.row || (p.row == q.row && p.col < q.col)
  }

  /** getCellsInAOE; None stands for the null cell. */
  method GetCellsInAOE(m: Map, impactCell: Option<Pos>, aoe: int) returns (cells: seq<Pos>)
    ensures forall p :: p in cells <==> impactCell.Some? && p in Diamond(m, impactCell.value, aoe)
    ensures forall i, j | 0 <= i < j < |cells| :: Before(cells[i], cells[j])
  {
    cells := [];
    if impactCell.None? {
      return;
    }
    var centre := impactCell.value;
    var row := centre.row - aoe;
    while row <= centre.row + aoe
      invariant centre.row - aoe <= row && (aoe >= 0 ==> row <= centre.row + aoe + 1)
      invariant forall p :: p in cells <==> p in Diamond(m, centre, aoe) && p.row < row
      invariant forall i, j | 0 <= i < j < |cells| :: Before(cells[i], cells[j])
    {
      var col := centre.col - aoe;
      while col <= centre.col + aoe
        invariant centre.col - aoe <= col <= centre.col + aoe + 1
        invariant forall p :: p in cells <==> p in Diamond(m, centre, aoe) && (p.row < row || (p.row == row && p.col < col))
        invariant forall i, j | 0 <= i < j < |cells| :: Before(cells[i], cells[j])
      {
        if m.InMap(Pos(row, col)) {
          if Manhattan(centre, Pos(row, col)) <= aoe {
            assert forall p | p in cells :: Before(p, Pos(row, col));
            cells := cells + [Pos(row, col)];
          }
        }
        col := col + 1;
      }
      row := row + 1;
    }
  }

  /** A cell at most r steps from p and at most s steps from q, on a shortest way that goes along the rows first. */
  function Between(p: Pos, q: Pos, r: nat): Pos {
    var rows := Abs(q.row - p.row);
    if r <= rows then Pos(if q.row >= p.row then p.row + r else p.row - r, p.col)
    else if r - rows <= Abs(q.col - p.col) then
      Pos(q.row, if q.col >= p.col then p.col + (r - rows) else p.col - (r - rows))
    else q
  }

  /** Diamonds around cells of a rectangular map meet exactly when their centres are no further apart than the radii together. */
  lemma DiamondsMeet(m: Map, p: Pos, r: nat, q: Pos, s: nat)
    requires m.InMap(p) && m.InMap(q)
    ensures Diamond(m, p, r) * Diamond(m, q, s) != {} <==> Manhattan(p, q) <= r + s
  {
    if Manhattan(p, q) <= r + s {
      assert Between(p, q, r) in Diamond(m, p, r) * Diamond(m, q, s);
    }
    if Diamond(m, p, r) * Diamond(m, q, s) != {} {
      var x :| x in Diamond(m, p, r) * Diamond(m, q, s);
    }
  }

  /** getIntersection. */
  function GetIntersection(a: Intersection, b: Intersection): Intersection {
    Intersection(a.members + b.members, a.cells * b.cells)
  }

  predicate IsIntersected(a: Intersection, b: Intersection) {
    a.cells * b.cells != {}
  }
}
