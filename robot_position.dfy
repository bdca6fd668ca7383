// Grid geometry of the robot-localisation model: a position is a cell
// (x, y) of a rows x cols grid together with a heading. The x coordinate
// runs along the columns and the y coordinate along the rows; NORTH
// decreases y and EAST increases x.

module RobotPosition {

  const North := 0
  const South := 1
  const East := 2
  const West := 3

  /** A cell of the grid and a heading. */
  datatype Pose = Pose(x: int, y: int, h: int)

  /** Whether `h` is one of the four compass headings. */
  predicate IsHeading(h: int)
  {
    North <= h <= West
  }

  /** Index of the first of the `head` states of this cell in the state vector. */
  function StateIndex(pos: Pose, rows: int, cols: int, head: int): int
  {
    head * (cols * pos.x + pos.y)
  }

  /** The cell lies on the grid: x below the width, y below the height. */
  predicate IsInBounds(pos: Pose, rows: int, cols: int)
  {
    0 <= pos.x && pos.x < cols && 0 <= pos.y && pos.y < rows
  }

  /** The cell one step away in the pose's own heading (the pose itself for a non-compass heading). */
  function Step(pos: Pose): (q: Pose)
    ensures q.h == pos.h
  {
    if pos.h == North then Pose(pos.x, pos.y - 1, pos.h)
    else if pos.h == South then Pose(pos.x, pos.y + 1, pos.h)
    else if pos.h == East then Pose(pos.x + 1, pos.y, pos.h)
    else if pos.h == West then Pose(pos.x - 1, pos.y, pos.h)
    else pos
  }

  /** The in-bounds von Neumann neighbours, in the order up, down, right, left, each carrying the heading that leads to it. */
  function DirectNeighbours(pos: Pose, rows: int, cols: int): (r: seq<Pose>)
    ensures |r| <= 4
    ensures forall i :: 0 <= i < |r| ==> IsInBounds(r[i], rows, cols)
  {
    var up := Pose(pos.x, pos.y - 1, North);
    var down := Pose(pos.x, pos.y + 1, South);
    var right := Pose(pos.x + 1, pos.y, East);
    var left := Pose(pos.x - 1, pos.y, West);
    (if IsInBounds(up, rows, cols) then [up] else [])
    + (if IsInBounds(down, rows, cols) then [down] else [])
    + (if IsInBounds(right, rows, cols) then [right] else [])
    + (if IsInBounds(left, rows, cols) then [left] else [])
  }

  /** The heading points off the edge of the grid. */
  predicate FacesWall(pos: Pose, rows: int, cols: int)
  {
    (pos.x < cols && pos.y == 0 && pos.h == North)
    || (pos.x < cols && pos.y == rows - 1 && pos.h == South)
    || (pos.x == cols - 1 && pos.y < rows && pos.h == East)
    || (pos.x == 0 && pos.y < rows && pos.h == West)
  }

  /** Squared Euclidean distance between two cells. */
  function Dist2(a: Pose, b: Pose): int
  {
    (a.x - b.x) * (a.x - b.x) + (a.y - b.y) * (a.y - b.y)
  }

  /** `prev` (the earlier pose) moves onto `pos` by one step in its own heading. */
  predicate IsReachable(pos: Pose, prev: Pose)
  {
    (prev.x == pos.x && prev.y - 1 == pos.y && prev.h == North)
    || (prev.x == pos.x && prev.y + 1 == pos.y && prev.h == South)
    || (prev.x + 1 == pos.x && prev.y == pos.y && prev.h == East)
    || (prev.x - 1 == pos.x && prev.y == pos.y && prev.h == West)
  }

  /** As IsReachable, except for the clause of the WEST heading. */
  predicate IsReachableFrom(pos: Pose, prev: Pose)
  {
    (prev.x == pos.x && prev.y - 1 == pos.y && prev.h == North)
    || (prev.x == pos.x && prev.y + 1 == pos.y && prev.h == South)
    || (prev.x + 1 == pos.x && prev.y == pos.y && prev.h == East)
    || (prev.x - 1 == pos.x - 1 && prev.y - 1 == pos.y && prev.h == West)
  }

  /** `pt` is one step from `pos` in the heading of `pos`; the heading of `pt` plays no part. */
  predicate WillReachXY(pos: Pose, pt: Pose)
  {
    (pt.x == pos.x && pt.y == pos.y - 1 && pos.h == North)
    || (pt.x == pos.x && pt.y == pos.y + 1 && pos.h == South)
    || (pt.x == pos.x + 1 && pt.y == pos.y && pos.h == East)
    || (pt.x == pos.x - 1 && pt.y == pos.y && pos.h == West)
  }

  /** WillReachXY under the (row, column) reading of the coordinates. */
  predicate WillReach(pos: Pose, pt: Pose)
  {
    (pt.x == pos.x - 1 && pt.y == pos.y && pos.h == North)
    || (pt.x == pos.x + 1 && pt.y == pos.y && pos.h == South)
    || (pt.x == pos.x && pt.y == pos.y + 1 && pos.h == East)
    || (pt.x == pos.x && pt.y == pos.y - 1 && pos.h == West)
  }

  /** Same cell, whatever the headings. */
  predicate CompareTo(pos: Pose, other: Pose)
  {
    pos.x == other.x && pos.y == other.y
  }

  /** Same cell and same heading. */
  predicate Equals(pos: Pose, other: Pose)
  {
    pos.x == other.x && pos.y == other.y && pos.h == other.h
  }

  // ---------------------------------------------------------------------------
  // The two rings of the 5 x 5 window
  // ---------------------------------------------------------------------------

  /**
   * Whether window cell (i, j) joins the immediate ring (`inner`) or the
   * outer ring of `pos`. The source compares Euclidean distances: d < 2 and
   * d > 0.01 for the immediate ring, 2 <= d < 3 for the outer one; on integer
   * offsets these are the comparisons of the squared distance below.
   */
  predicate InRing(pos: Pose, rows: int, cols: int, i: int, j: int, inner: bool)
  {
    var temp := Pose(i, j, pos.h);
    var d2 := Dist2(pos, temp);
    IsInBounds(temp, rows, cols) && !CompareTo(pos, temp)
    && (if inner then d2 < 4 && d2 > 0 else !(d2 < 4 && d2 > 0) && d2 >= 4 && d2 < 9)
  }

  /** Ring cells of window row i with column below j, in visiting order. */
  function RowRing(pos: Pose, rows: int, cols: int, i: int, j: int, inner: bool): seq<Pose>
    requires pos.y - 2 <= j <= pos.y + 3
    decreases j - (pos.y - 2)
  {
    if j == pos.y - 2 then []
    else RowRing(pos, rows, cols, i, j - 1, inner)
         + (if InRing(pos, rows, cols, i, j - 1, inner) then [Pose(i, j - 1, pos.h)] else [])
  }

  /** Ring cells of the window rows below i, in visiting order. */
  function WindowRing(pos: Pose, rows: int, cols: int, i: int, inner: bool): seq<Pose>
    requires pos.x - 2 <= i <= pos.x + 3
    decreases i - (pos.x - 2)
  {
    if i == pos.x - 2 then []
    else WindowRing(pos, rows, cols, i - 1, inner) + RowRing(pos, rows, cols, i - 1, pos.y + 3, inner)
  }

  /** The whole immediate (`inner`) or outer ring, in the order the window is scanned. */
  function Ring(pos: Pose, rows: int, cols: int, inner: bool): seq<Pose>
  {
    WindowRing(pos, rows, cols, pos.x + 3, inner)
  }

  lemma {:induction false} RowRingMembers(pos: Pose, rows: int, cols: int, i: int, j: int, inner: bool, q: Pose)
    requires pos.y - 2 <= j <= pos.y + 3
    ensures q in RowRing(pos, rows, cols, i, j, inner) <==>
      q.x == i && pos.y - 2 <= q.y < j && q.h == pos.h && InRing(pos, rows, cols, q.x, q.y, inner)
    decreases j - (pos.y - 2)
  {
    if j > pos.y - 2 {
      RowRingMembers(pos, rows, cols, i, j - 1, inner, q);
    }
  }

  lemma {:induction false} WindowRingMembers(pos: Pose, rows: int, cols: int, i: int, inner: bool, q: Pose)
    requires pos.x - 2 <= i <= pos.x + 3
    ensures q in WindowRing(pos, rows, cols, i, inner) <==>
      pos.x - 2 <= q.x < i && pos.y - 2 <= q.y <= pos.y + 2 && q.h == pos.h && InRing(pos, rows, cols, q.x, q.y, inner)
    decreases i - (pos.x - 2)
  {
    if i > pos.x - 2 {
      WindowRingMembers(pos, rows, cols, i - 1, inner, q);
      RowRingMembers(pos, rows, cols, i - 1, pos.y + 3, inner, q);
    }
  }

  lemma SmallSquare(d: int)
    requires d * d <= 8
    ensures -2 <= d <= 2
  {
  }

  lemma SquareInWindow(d: int)
    requires -2 <= d <= 2
    ensures d * d in {0, 1, 4}
  {
    if d == -2 {
    } else if d == -1 {
    } else if d == 0 {
    } else if d == 1 {
    } else {
    }
  }

  /** The squared distance of a cell of the 5 x 5 window is 0, 1, 2, 4, 5 or 8; one of at most 8 lies in the window. */
  lemma WindowDistances(pos: Pose, q: Pose)
    ensures pos.x - 2 <= q.x <= pos.x + 2 && pos.y - 2 <= q.y <= pos.y + 2 ==> Dist2(pos, q) in {0, 1, 2, 4, 5, 8}
    ensures Dist2(pos, q) <= 8 ==> pos.x - 2 <= q.x <= pos.x + 2 && pos.y - 2 <= q.y <= pos.y + 2
  {
    var dx, dy := pos.x - q.x, pos.y - q.y;
    assert Dist2(pos, q) == dx * dx + dy * dy;
    assert 0 <= dx * dx && 0 <= dy * dy;
    if Dist2(pos, q) <= 8 {
      SmallSquare(dx);
      SmallSquare(dy);
    }
    if -2 <= dx <= 2 && -2 <= dy <= 2 {
      SquareInWindow(dx);
      SquareInWindow(dy);
    }
  }

  /** The immediate ring holds, with the heading of `pos`, exactly the in-bounds cells at squared distance 1 or 2. */
  lemma ImmediateRingMembers(pos: Pose, rows: int, cols: int, q: Pose)
    ensures q in Ring(pos, rows, cols, true) <==>
      q.h == pos.h && IsInBounds(q, rows, cols) && Dist2(pos, q) in {1, 2}
  {
    WindowRingMembers(pos, rows, cols, pos.x + 3, true, q);
    WindowDistances(pos, q);
  }

  /** The outer ring holds, with the heading of `pos`, exactly the in-bounds cells at squared distance 4, 5 or 8. */
  lemma OuterRingMembers(pos: Pose, rows: int, cols: int, q: Pose)
    ensures q in Ring(pos, rows, cols, false) <==>
      q.h == pos.h && IsInBounds(q, rows, cols) && Dist2(pos, q) in {4, 5, 8}
  {
    WindowRingMembers(pos, rows, cols, pos.x + 3, false, q);
    WindowDistances(pos, q);
  }

  /** No cell is on both rings. */
  lemma RingsDisjoint(pos: Pose, rows: int, cols: int, q: Pose)
    ensures !(q in Ring(pos, rows, cols, true) && q in Ring(pos, rows, cols, false))
  {
    ImmediateRingMembers(pos, rows, cols, q);
    OuterRingMembers(pos, rows, cols, q);
  }

  /** A position never lists its own cell among its neighbours. */
  lemma RingsExcludeOwnCell(pos: Pose, rows: int, cols: int, q: Pose)
    requires CompareTo(pos, q)
    ensures q !in Ring(pos, rows, cols, true) && q !in Ring(pos, rows, cols, false)
  {
    ImmediateRingMembers(pos, rows, cols, q);
    OuterRingMembers(pos, rows, cols, q);
  }

  /** A position with its two neighbour lists, which updateNeighbours extends. */
  class Position {
    const pose: Pose
    var immediateNeighbours: seq<Pose>
    var outerNeighbours: seq<Pose>

    constructor (x: int, y: int, h: int)
      ensures pose == Pose(x, y, h)
      ensures immediateNeighbours == [] && outerNeighbours == []
    {
      pose := Pose(x, y, h);
      immediateNeighbours := [];
      outerNeighbours := [];
    }

    /** Appends the rings of the 5 x 5 window around this cell; nothing is cleared. */
    method UpdateNeighbours(rows: int, cols: int)
      modifies this
      ensures immediateNeighbours == old(immediateNeighbours) + Ring(pose, rows, cols, true)
      ensures outerNeighbours == old(outerNeighbours) + Ring(pose, rows, cols, false)
    {
      var i := pose.x - 2;
      while i <= pose.x + 2
        invariant pose.x - 2 <= i <= pose.x + 3
        invariant immediateNeighbours == old(immediateNeighbours) + WindowRing(pose, rows, cols, i, true)
        invariant outerNeighbours == old(outerNeighbours) + WindowRing(pose, rows, cols, i, false)
      {
        var j := pose.y - 2;
        while j <= pose.y + 2
          invariant pose.y - 2 <= j <= pose.y + 3
          invariant immediateNeighbours
            == old(immediateNeighbours) + WindowRing(pose, rows, cols, i, true) + RowRing(pose, rows, cols, i, j, true)
          invariant outerNeighbours
            == old(outerNeighbours) + WindowRing(pose, rows, cols, i, false) + RowRing(pose, rows, cols, i, j, false)
        {
          var temp := Pose(i, j, pose.h);
          if IsInBounds(temp, rows, cols) && !CompareTo(pose, temp) {
            var dist2 := Dist2(pose, temp);
            if dist2 < 4 && dist2 > 0 {
              immediateNeighbours := immediateNeighbours + [temp];
            } else if dist2 >= 4 && dist2 < 9 {
              outerNeighbours := outerNeighbours + [temp];
            }
          }
          j := j + 1;
        }
        i := i + 1;
      }
    }
  }

  // ---------------------------------------------------------------------------
  // Properties of the predicates
  // ---------------------------------------------------------------------------

  /** `p.isReachable(pt)` is `pt.willReachXY(p)`. */
  lemma IsReachableIsWillReachXY(pos: Pose, prev: Pose)
    ensures IsReachable(pos, prev) <==> WillReachXY(prev, pos)
  {
  }

  /** WillReachXY holds exactly for the cell one step ahead in a compass heading. */
  lemma WillReachXYIsStep(pos: Pose, pt: Pose)
    ensures WillReachXY(pos, pt) <==> IsHeading(pos.h) && pt.x == Step(pos).x && pt.y == Step(pos).y
  {
  }

  /** IsReachableFrom agrees with IsReachable except when the earlier pose heads WEST, where it asks for the cell below instead. */
  lemma IsReachableFromDiffers(pos: Pose, prev: Pose)
    ensures prev.h != West ==> (IsReachableFrom(pos, prev) <==> IsReachable(pos, prev))
    ensures prev.h == West ==> (IsReachableFrom(pos, prev) <==> prev.x == pos.x && prev.y == pos.y + 1)
    ensures prev.h == West ==> (IsReachable(pos, prev) <==> prev.x == pos.x + 1 && prev.y == pos.y)
  {
  }

  /** WillReach is WillReachXY with the two coordinates swapped. */
  lemma WillReachIsTransposed(pos: Pose, pt: Pose)
    ensures WillReach(pos, pt) <==> WillReachXY(Pose(pos.y, pos.x, pos.h), Pose(pt.y, pt.x, pt.h))
  {
  }

  /** Equality with heading implies equality of the cells, and is equality of poses. */
  lemma EqualsImpliesCompareTo(pos: Pose, other: Pose)
    ensures Equals(pos, other) ==> CompareTo(pos, other)
    ensures Equals(pos, other) <==> pos == other
    ensures CompareTo(pos, other) && pos.h == other.h ==> Equals(pos, other)
  {
  }

  /** For a pose on the grid with a compass heading, facing a wall means the step ahead leaves the grid. */
  lemma FacesWallIffStepLeaves(pos: Pose, rows: int, cols: int)
    requires IsInBounds(pos, rows, cols) && IsHeading(pos.h)
    ensures FacesWall(pos, rows, cols) <==> !IsInBounds(Step(pos), rows, cols)
  {
  }

  /** The neighbour list holds exactly the in-bounds cells one step away, each with the heading of that step. */
  lemma DirectNeighboursMembers(pos: Pose, rows: int, cols: int, q: Pose)
    ensures q in DirectNeighbours(pos, rows, cols) <==>
      IsHeading(q.h) && IsInBounds(q, rows, cols) && WillReachXY(Pose(pos.x, pos.y, q.h), q)
  {
  }

  /** A cell of a grid at least two cells wide and high has at least two neighbours, one along each axis. */
  lemma DirectNeighboursAtLeastTwo(pos: Pose, rows: int, cols: int)
    requires IsInBounds(pos, rows, cols) && rows >= 2 && cols >= 2
    ensures |DirectNeighbours(pos, rows, cols)| >= 2
  {
  }

  /** The cases exercised on an 8 x 8 grid. */
  lemma PositionExamples(h: int)
    ensures DirectNeighbours(Pose(0, 0, h), 8, 8) == [Pose(0, 1, South), Pose(1, 0, East)]
    ensures |DirectNeighbours(Pose(3, 3, h), 8, 8)| == 4
    ensures FacesWall(Pose(0, 0, North), 8, 8)
    ensures !IsInBounds(Pose(-1, -1, h), 8, 8)
    ensures IsReachable(Pose(1, 0, h), Pose(1, 1, North))
  {
  }

  /** Window cell (i, j) as a list of zero or one ring entries. */
  function RingCell(pos: Pose, rows: int, cols: int, i: int, j: int, inner: bool): seq<Pose>
  {
    if InRing(pos, rows, cols, i, j, inner) then [Pose(i, j, pos.h)] else []
  }

  /** Number of ring entries in window row i. */
  function RowCount(pos: Pose, rows: int, cols: int, i: int, inner: bool): int
  {
    |RingCell(pos, rows, cols, i, pos.y - 2, inner)| + |RingCell(pos, rows, cols, i, pos.y - 1, inner)|
    + |RingCell(pos, rows, cols, i, pos.y, inner)| + |RingCell(pos, rows, cols, i, pos.y + 1, inner)|
    + |RingCell(pos, rows, cols, i, pos.y + 2, inner)|
  }

  lemma RowRingLength(pos: Pose, rows: int, cols: int, i: int, inner: bool)
    ensures |RowRing(pos, rows, cols, i, pos.y + 3, inner)| == RowCount(pos, rows, cols, i, inner)
  {
    var y := pos.y;
    assert RowRing(pos, rows, cols, i, y - 2, inner) == [];
    assert RowRing(pos, rows, cols, i, y - 1, inner) == RowRing(pos, rows, cols, i, y - 2, inner) + RingCell(pos, rows, cols, i, y - 2, inner);
    assert RowRing(pos, rows, cols, i, y, inner) == RowRing(pos, rows, cols, i, y - 1, inner) + RingCell(pos, rows, cols, i, y - 1, inner);
    assert RowRing(pos, rows, cols, i, y + 1, inner) == RowRing(pos, rows, cols, i, y, inner) + RingCell(pos, rows, cols, i, y, inner);
    assert RowRing(pos, rows, cols, i, y + 2, inner) == RowRing(pos, rows, cols, i, y + 1, inner) + RingCell(pos, rows, cols, i, y + 1, inner);
    assert RowRing(pos, rows, cols, i, y + 3, inner) == RowRing(pos, rows, cols, i, y + 2, inner) + RingCell(pos, rows, cols, i, y + 2, inner);
  }

  /** The length of a ring, row by row. */
  lemma RingRows(pos: Pose, rows: int, cols: int, inner: bool)
    ensures |Ring(pos, rows, cols, inner)| ==
      |RowRing(pos, rows, cols, pos.x - 2, pos.y + 3, inner)| + |RowRing(pos, rows, cols, pos.x - 1, pos.y + 3, inner)|
      + |RowRing(pos, rows, cols, pos.x, pos.y + 3, inner)| + |RowRing(pos, rows, cols, pos.x + 1, pos.y + 3, inner)|
      + |RowRing(pos, rows, cols, pos.x + 2, pos.y + 3, inner)|
  {
    WindowRingStep(pos, rows, cols, pos.x - 2, inner);
    WindowRingStep(pos, rows, cols, pos.x - 1, inner);
    WindowRingStep(pos, rows, cols, pos.x, inner);
    WindowRingStep(pos, rows, cols, pos.x + 1, inner);
    WindowRingStep(pos, rows, cols, pos.x + 2, inner);
  }

  lemma WindowRingStep(pos: Pose, rows: int, cols: int, i: int, inner: bool)
    requires pos.x - 2 <= i <= pos.x + 2
    ensures |WindowRing(pos, rows, cols, i + 1, inner)|
      == |WindowRing(pos, rows, cols, i, inner)| + |RowRing(pos, rows, cols, i, pos.y + 3, inner)|
  {
  }

  /** Whether the window offset (k, l) falls on the immediate (`inner`) or the outer ring. */
  predicate OffsetInRing(k: int, l: int, inner: bool)
  {
    var d2 := k * k + l * l;
    if inner then 0 < d2 < 4 else 4 <= d2 < 9
  }

  /** Ring entries in window row k of a cell whose whole window lies on the grid. */
  function OffsetCount(k: int, inner: bool): int
  {
    (if OffsetInRing(k, -2, inner) then 1 else 0) + (if OffsetInRing(k, -1, inner) then 1 else 0)
    + (if OffsetInRing(k, 0, inner) then 1 else 0) + (if OffsetInRing(k, 1, inner) then 1 else 0)
    + (if OffsetInRing(k, 2, inner) then 1 else 0)
  }

  lemma InteriorCell(pos: Pose, rows: int, cols: int, k: int, l: int, inner: bool)
    requires 2 <= pos.x <= cols - 3 && 2 <= pos.y <= rows - 3
    requires -2 <= k <= 2 && -2 <= l <= 2
    ensures |RingCell(pos, rows, cols, pos.x + k, pos.y + l, inner)| == if OffsetInRing(k, l, inner) then 1 else 0
  {
    assert Dist2(pos, Pose(pos.x + k, pos.y + l, pos.h)) == k * k + l * l;
  }

  lemma InteriorRow(pos: Pose, rows: int, cols: int, k: int, inner: bool)
    requires 2 <= pos.x <= cols - 3 && 2 <= pos.y <= rows - 3
    requires -2 <= k <= 2
    ensures |RowRing(pos, rows, cols, pos.x + k, pos.y + 3, inner)| == OffsetCount(k, inner)
  {
    RowRingLength(pos, rows, cols, pos.x + k, inner);
    InteriorCell(pos, rows, cols, k, -2, inner);
    InteriorCell(pos, rows, cols, k, -1, inner);
    InteriorCell(pos, rows, cols, k, 0, inner);
    InteriorCell(pos, rows, cols, k, 1, inner);
    InteriorCell(pos, rows, cols, k, 2, inner);
  }

  /** Away from the edges the immediate ring has 8 cells and the outer ring 16. */
  lemma InteriorRingSizes(pos: Pose, rows: int, cols: int, inner: bool)
    requires 2 <= pos.x <= cols - 3 && 2 <= pos.y <= rows - 3
    ensures |Ring(pos, rows, cols, inner)| == if inner then 8 else 16
  {
    RingRows(pos, rows, cols, inner);
    InteriorRow(pos, rows, cols, -2, inner);
    InteriorRow(pos, rows, cols, -1, inner);
    InteriorRow(pos, rows, cols, 0, inner);
    InteriorRow(pos, rows, cols, 1, inner);
    InteriorRow(pos, rows, cols, 2, inner);
  }

  /** Ring entries per window row for the cell (0, 0). */
  function CornerRowSize(k: int, inner: bool): int
  {
    if inner then (if k == 0 then 1 else if k == 1 then 2 else 0)
    else (if k == 0 || k == 1 then 1 else if k == 2 then 3 else 0)
  }

  lemma CornerRow(h: int, rows: int, cols: int, k: int, inner: bool)
    requires rows >= 3 && cols >= 3
    requires -2 <= k <= 2
    ensures |RowRing(Pose(0, 0, h), rows, cols, k, 3, inner)| == CornerRowSize(k, inner)
  {
    RowRingLength(Pose(0, 0, h), rows, cols, k, inner);
  }

  /** In the corner (0, 0) of a grid at least 3 x 3 the immediate ring has 3 cells and the outer ring 5. */
  lemma CornerRingSizes(h: int, rows: int, cols: int, inner: bool)
    requires rows >= 3 && cols >= 3
    ensures |Ring(Pose(0, 0, h), rows, cols, inner)| == if inner then 3 else 5
  {
    RingRows(Pose(0, 0, h), rows, cols, inner);
    CornerRow(h, rows, cols, -2, inner);
    CornerRow(h, rows, cols, -1, inner);
    CornerRow(h, rows, cols, 0, inner);
    CornerRow(h, rows, cols, 1, inner);
    CornerRow(h, rows, cols, 2, inner);
  }
}
