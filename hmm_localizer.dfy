// The table construction of the grid localiser: the layout of the state
// vector, the uniform prior, the transition table T built from the movement
// predicates of RobotPosition, and the sensor tables. Probabilities are exact
// reals.

module RobotLocalizer {
  import opened RobotPosition

  /** A value, or the ArrayIndexOutOfBoundsException a read past an array raises. */
  datatype Option<T> = None | Some(value: T)

  // ---------------------------------------------------------------------------
  // State layout
  // ---------------------------------------------------------------------------

  /** The state at index k of the state vector: `head` headings per cell, cells row after row. */
  function StateOf(cols: int, head: int, k: int): Pose
    requires cols > 0 && head > 0
  {
    Pose((k / head) / cols, (k / head) % cols, k % head)
  }

  /** Cell (i, j) lies on the grid as the state layout reads it: i below the row count, j below the column count. */
  predicate OnGrid(p: Pose, rows: int, cols: int)
  {
    0 <= p.x < rows && 0 <= p.y < cols
  }

  lemma MulLe(a: int, b: int, d: int)
    requires a <= b && 0 <= d
    ensures a * d <= b * d
  {
    assert b * d == a * d + (b - a) * d;
  }

  lemma MulStep(a: int, d: int)
    ensures (a + 1) * d == a * d + d
  {
  }

  lemma DivModUnique(k: int, d: int, q: int, r: int)
    requires d > 0 && 0 <= r < d && k == q * d + r
    ensures k / d == q && k % d == r
  {
    var q', r' := k / d, k % d;
    assert k == q' * d + r';
    if q' < q {
      MulStep(q', d);
      MulLe(q' + 1, q, d);
      assert false;
    } else if q < q' {
      MulStep(q, d);
      MulLe(q + 1, q', d);
      assert false;
    }
  }

  lemma DivBelow(k: int, d: int, m: int)
    requires d > 0 && 0 <= k < d * m
    ensures 0 <= k / d < m
  {
    var q := k / d;
    assert k == q * d + k % d;
    MulLe(0, d, d);
    if q >= m {
      MulLe(m, q, d);
      assert false;
    } else if q < 0 {
      MulStep(q, d);
      MulLe(q + 1, 0, d);
      assert false;
    }
  }

  /** The state of cell (i, j) with heading h sits at index head * (i * cols + j) + h. */
  lemma StateOfIndex(cols: int, head: int, i: int, j: int, h: int)
    requires 0 <= j < cols && 0 <= h < head
    ensures StateOf(cols, head, head * (i * cols + j) + h) == Pose(i, j, h)
  {
    var c := i * cols + j;
    DivModUnique(head * c + h, head, c, h);
    DivModUnique(c, cols, i, j);
  }

  /** Every index of a grid state lies inside the state vector. */
  lemma StateIndexBounds(rows: int, cols: int, head: int, i: int, j: int, h: int)
    requires 0 <= i < rows && 0 <= j < cols && 0 <= h < head
    ensures 0 <= head * (i * cols + j) + h < rows * cols * head
  {
    var c := i * cols + j;
    MulLe(0, i, cols);
    MulLe(i, rows - 1, cols);
    MulStep(rows - 1, cols);
    assert 0 <= c < rows * cols;
    MulLe(0, c, head);
    MulLe(c, rows * cols - 1, head);
    MulStep(rows * cols - 1, head);
  }

  /** Index of the state of cell (i, j) with heading h. */
  function LayoutIndex(cols: int, head: int, i: int, j: int, h: int): int
  {
    head * (i * cols + j) + h
  }

  /** The arithmetic of walking the layout one heading, one cell and one row at a time. */
  lemma LayoutSteps(rows: int, cols: int, head: int, i: int, j: int)
    ensures LayoutIndex(cols, head, i, j, head) == LayoutIndex(cols, head, i, j + 1, 0)
    ensures LayoutIndex(cols, head, i, cols, 0) == LayoutIndex(cols, head, i + 1, 0, 0)
    ensures LayoutIndex(cols, head, rows, 0, 0) == rows * cols * head
    ensures LayoutIndex(cols, head, 0, 0, 0) == 0
    ensures 0 <= rows && 0 <= cols && 0 <= head ==> 0 <= rows * cols * head
  {
    MulStep(i, cols);
    if 0 <= rows && 0 <= cols && 0 <= head {
      MulLe(0, rows, cols);
      MulLe(0, rows * cols, head);
    }
  }

  lemma LayoutStep(cols: int, head: int, i: int, j: int, h: int)
    ensures LayoutIndex(cols, head, i, j, h) + 1 == LayoutIndex(cols, head, i, j, h + 1)
    ensures LayoutIndex(cols, head, i, j, h) == head * (i * cols + j) + h
  {
  }

  /** Each state of the vector is a cell of the grid with a heading below `head`. */
  lemma StateOfOnGrid(rows: int, cols: int, head: int, k: int)
    requires cols > 0 && head > 0 && 0 <= k < rows * cols * head
    ensures OnGrid(StateOf(cols, head, k), rows, cols) && 0 <= StateOf(cols, head, k).h < head
  {
    assert rows * cols * head == head * (rows * cols);
    DivBelow(k, head, rows * cols);
    assert rows * cols == cols * rows;
    DivBelow(k / head, cols, rows);
  }

  /** Distinct (cell, heading) triples occupy distinct indices. */
  lemma StateIndexInjective(cols: int, head: int, i: int, j: int, h: int, i': int, j': int, h': int)
    requires 0 <= j < cols && 0 <= h < head && 0 <= j' < cols && 0 <= h' < head
    requires head * (i * cols + j) + h == head * (i' * cols + j') + h'
    ensures i == i' && j == j' && h == h'
  {
    StateOfIndex(cols, head, i, j, h);
    StateOfIndex(cols, head, i', j', h');
  }

  // ---------------------------------------------------------------------------
  // Table entries
  // ---------------------------------------------------------------------------

  /** Double division, except that a zero divisor gives 0 where Java gives an infinity. */
  function Quotient(a: real, n: int): (q: real)
    ensures n != 0 ==> q * n as real == a
  {
    if n == 0 then 0.0 else a / n as real
  }

  /** Entry T[current][other] of the transition table. */
  function Transition(rows: int, cols: int, current: Pose, other: Pose): real
  {
    if WillReachXY(current, other) then
      var len := |DirectNeighbours(current, rows, cols)|;
      if FacesWall(current, rows, cols) then Quotient(1.0, len)
      else if current.h == other.h then 0.7
      else Quotient(0.3, len - 1)
    else 0.0
  }

  /** The cells a sensor list names (i, j), whatever the heading. */
  predicate Covers(list: seq<Pose>, i: int, j: int)
  {
    exists p :: p in list && p.x == i && p.y == j
  }

  /** Entry (i, j) of the observation table for a reading with the given neighbour lists; later writes win. */
  function Observation(reading: Pose, immediate: seq<Pose>, outer: seq<Pose>, i: int, j: int): real
  {
    if Covers(outer, i, j) then 0.025
    else if Covers(immediate, i, j) then 0.05
    else if reading.x == i && reading.y == j then 0.1
    else 0.0
  }

  /** Entry (i, j) of the table of the sensor reporting nothing. */
  function NothingProb(rows: int, cols: int, i: int, j: int): real
  {
    var pos := Pose(i, j, -1);
    1.0 - (0.1 + 0.05 * |Ring(pos, rows, cols, true)| as real + 0.025 * |Ring(pos, rows, cols, false)| as real)
  }

  /** Sum of a sequence of probabilities, added left to right. */
  function Sum(s: seq<real>): real
  {
    if |s| == 0 then 0.0 else Sum(s[..|s| - 1]) + s[|s| - 1]
  }

  lemma {:induction false} SumConstant(s: seq<real>, u: real)
    requires forall k :: 0 <= k < |s| ==> s[k] == u
    ensures Sum(s) == |s| as real * u
  {
    if |s| > 0 {
      SumConstant(s[..|s| - 1], u);
    }
  }

  // ---------------------------------------------------------------------------
  // The localiser
  // ---------------------------------------------------------------------------

  class HMMLocalizer {
    const rows: int
    const cols: int
    const head: int
    var states: array<Pose>
    var f: array<real>
    var T: array2<real>

    /** Number of states: one per cell and heading. */
    function Size(): int
    {
      rows * cols * head
    }

    predicate ValidDims()
    {
      0 <= rows && 0 <= cols && 0 <= head
    }

    /** Index of the first state of cell (x, y): the cell's `head` states lie inside the state vector. */
    function GetStateIndex(x: int, y: int): (idx: int)
      ensures 0 <= x < rows && 0 <= y < cols && 0 < head ==> 0 <= idx && idx + head <= Size()
    {
      if 0 <= x < rows && 0 <= y < cols && 0 < head then
        StateIndexBounds(rows, cols, head, x, y, head - 1);
        head * (x * cols + y)
      else head * (x * cols + y)
    }

    /** The localiser's index agrees with the one a position computes for itself. */
    lemma StateIndicesAgree(pos: Pose)
      ensures GetStateIndex(pos.x, pos.y) == StateIndex(pos, rows, cols, head)
    {
      assert pos.x * cols == cols * pos.x;
    }

    constructor (rows: int, cols: int, head: int)
      requires 0 <= rows && 0 <= cols && 0 <= head
      ensures this.rows == rows && this.cols == cols && this.head == head
      ensures states.Length == Size() && f.Length == Size()
      ensures forall k :: 0 <= k < Size() ==> 0 < cols && 0 < head && states[k] == StateOf(cols, head, k)
      ensures forall k :: 0 <= k < Size() ==> f[k] == 1.0 / Size() as real
      ensures T.Length0 == Size() && T.Length1 == Size()
      ensures forall i, j :: 0 <= i < Size() && 0 <= j < Size() ==> T[i, j] == Transition(rows, cols, states[i], states[j])
    {
      this.rows := rows;
      this.cols := cols;
      this.head := head;
      states := new Pose[0];
      f := new real[0];
      T := new real[0, 0];
      new;
      InitForwardFiltering();
      T := InitTransitionMatrix();
    }

    /** Lays out all states, cell by cell and heading by heading, with a uniform prior. */
    method InitForwardFiltering()
      requires ValidDims()
      modifies this
      ensures fresh(states) && fresh(f) && T == old(T)
      ensures states.Length == Size() && f.Length == Size()
      ensures forall k :: 0 <= k < Size() ==> 0 < cols && 0 < head && states[k] == StateOf(cols, head, k)
      ensures forall k :: 0 <= k < Size() ==> f[k] == 1.0 / Size() as real
    {
      var size := rows * cols * head;
      LayoutSteps(rows, cols, head, 0, 0);
      var st := new Pose[size];
      var fv := new real[size];
      var count := 0;
      for i := 0 to rows
        modifies st, fv
        invariant count == LayoutIndex(cols, head, i, 0, 0)
        invariant 0 <= count <= size
        invariant forall k :: 0 <= k < count ==> 0 < cols && 0 < head && st[k] == StateOf(cols, head, k)
        invariant forall k :: 0 <= k < count ==> fv[k] == 1.0 / size as real
      {
        for j := 0 to cols
          modifies st, fv
          invariant count == LayoutIndex(cols, head, i, j, 0)
          invariant 0 <= count <= size
          invariant forall k :: 0 <= k < count ==> 0 < cols && 0 < head && st[k] == StateOf(cols, head, k)
          invariant forall k :: 0 <= k < count ==> fv[k] == 1.0 / size as real
        {
          for h := 0 to head
            modifies st, fv
            invariant count == LayoutIndex(cols, head, i, j, h)
            invariant 0 <= count <= size
            invariant forall k :: 0 <= k < count ==> 0 < cols && 0 < head && st[k] == StateOf(cols, head, k)
            invariant forall k :: 0 <= k < count ==> fv[k] == 1.0 / size as real
          {
            StateIndexBounds(rows, cols, head, i, j, h);
            StateOfIndex(cols, head, i, j, h);
            LayoutStep(cols, head, i, j, h);
            st[count] := Pose(i, j, h);
            fv[count] := 1.0 / size as real;
            count := count + 1;
          }
          LayoutSteps(rows, cols, head, i, j);
        }
        LayoutSteps(rows, cols, head, i, cols);
      }
      states := st;
      f := fv;
    }

    /** Builds the transition table from the movement predicates of the states. */
    method InitTransitionMatrix() returns (temp: array2<real>)
      requires states.Length == Size()
      ensures fresh(temp) && temp.Length0 == Size() && temp.Length1 == Size()
      ensures forall i, j :: 0 <= i < Size() && 0 <= j < Size() ==> temp[i, j] == Transition(rows, cols, states[i], states[j])
    {
      var size := rows * cols * head;
      temp := new real[size, size];
      for i := 0 to size
        invariant forall a, b :: 0 <= a < i && 0 <= b < size ==> temp[a, b] == Transition(rows, cols, states[a], states[b])
      {
        var current := states[i];
        for j := 0 to size
          invariant forall a, b :: 0 <= a < i && 0 <= b < size ==> temp[a, b] == Transition(rows, cols, states[a], states[b])
          invariant forall b :: 0 <= b < j ==> temp[i, b] == Transition(rows, cols, states[i], states[b])
        {
          var other := states[j];
          if WillReachXY(current, other) {
            var len := |DirectNeighbours(current, rows, cols)|;
            if FacesWall(current, rows, cols) {
              temp[i, j] := Quotient(1.0, len);
            } else if current.h == other.h {
              temp[i, j] := 0.7;
            } else {
              temp[i, j] := Quotient(0.3, len - 1);
            }
          } else {
            temp[i, j] := 0.0;
          }
        }
      }
    }

    /** The table of the sensor reporting nothing: one minus the chance of any reading. */
    method InitObservationMatrix() returns (temp: array2<real>)
      requires ValidDims()
      ensures fresh(temp) && temp.Length0 == rows && temp.Length1 == cols
      ensures forall i, j :: 0 <= i < rows && 0 <= j < cols ==> temp[i, j] == NothingProb(rows, cols, i, j)
    {
      temp := new real[rows, cols];
      for i := 0 to rows
        invariant forall a, b :: 0 <= a < i && 0 <= b < cols ==> temp[a, b] == NothingProb(rows, cols, a, b)
      {
        for j := 0 to cols
          invariant forall a, b :: 0 <= a < i && 0 <= b < cols ==> temp[a, b] == NothingProb(rows, cols, a, b)
          invariant forall b :: 0 <= b < j ==> temp[i, b] == NothingProb(rows, cols, i, b)
        {
          var state := new Position(i, j, -1);
          state.UpdateNeighbours(rows, cols);
          var nLs := |state.immediateNeighbours|;
          var nLs2 := |state.outerNeighbours|;
          temp[i, j] := 1.0 - (0.1 + 0.05 * nLs as real + 0.025 * nLs2 as real);
        }
      }
    }

    /** The observation table for a sensor reading; the reading's neighbour lists are extended first. */
    method UpdateObservationMatrix(reading: Position) returns (temp: array2<real>)
      requires ValidDims()
      modifies reading
      ensures fresh(temp) && temp.Length0 == rows && temp.Length1 == cols
      ensures reading.immediateNeighbours == old(reading.immediateNeighbours) + Ring(reading.pose, rows, cols, true)
      ensures reading.outerNeighbours == old(reading.outerNeighbours) + Ring(reading.pose, rows, cols, false)
      ensures forall i, j :: 0 <= i < rows && 0 <= j < cols ==>
        temp[i, j] == Observation(reading.pose, reading.immediateNeighbours, reading.outerNeighbours, i, j)
    {
      temp := new real[rows, cols];
      reading.UpdateNeighbours(rows, cols);
      var immediate, outer := reading.immediateNeighbours, reading.outerNeighbours;
      for i := 0 to rows
        modifies temp
        invariant forall a, b :: 0 <= a < i && 0 <= b < cols ==> temp[a, b] == Observation(reading.pose, immediate, outer, a, b)
      {
        for j := 0 to cols
          modifies temp
          invariant forall a, b :: 0 <= a < i && 0 <= b < cols ==> temp[a, b] == Observation(reading.pose, immediate, outer, a, b)
          invariant forall b :: 0 <= b < j ==> temp[i, b] == Observation(reading.pose, immediate, outer, i, b)
        {
          UpdateCell(temp, reading.pose, immediate, outer, i, j);
        }
      }
    }

    /** Fills entry (i, j): the reading's own cell, then the immediate list, then the outer list. */
    static method UpdateCell(temp: array2<real>, reading: Pose, immediate: seq<Pose>, outer: seq<Pose>, i: int, j: int)
      requires 0 <= i < temp.Length0 && 0 <= j < temp.Length1
      modifies temp
      ensures temp[i, j] == Observation(reading, immediate, outer, i, j)
      ensures forall a, b :: 0 <= a < temp.Length0 && 0 <= b < temp.Length1 && (a, b) != (i, j) ==> temp[a, b] == old(temp[a, b])
    {
      if reading.x == i && reading.y == j {
        temp[i, j] := 0.1;
      } else {
        temp[i, j] := 0.0;
      }
      for k := 0 to |immediate|
        invariant temp[i, j] == if Covers(immediate[..k], i, j) then 0.05 else if reading.x == i && reading.y == j then 0.1 else 0.0
        invariant forall a, b :: 0 <= a < temp.Length0 && 0 <= b < temp.Length1 && (a, b) != (i, j) ==> temp[a, b] == old(temp[a, b])
      {
        assert immediate[..k + 1] == immediate[..k] + [immediate[k]];
        var p := immediate[k];
        if p.x == i && p.y == j {
          temp[i, j] := 0.05;
        }
      }
      assert immediate[..|immediate|] == immediate;
      for k := 0 to |outer|
        invariant temp[i, j] == if Covers(outer[..k], i, j) then 0.025
          else if Covers(immediate, i, j) then 0.05 else if reading.x == i && reading.y == j then 0.1 else 0.0
        invariant forall a, b :: 0 <= a < temp.Length0 && 0 <= b < temp.Length1 && (a, b) != (i, j) ==> temp[a, b] == old(temp[a, b])
      {
        assert outer[..k + 1] == outer[..k] + [outer[k]];
        var p := outer[k];
        if p.x == i && p.y == j {
          temp[i, j] := 0.025;
        }
      }
      assert outer[..|outer|] == outer;
    }

    /** Probability of cell (x, y): the four consecutive entries of f from the
        cell's first state, or None where a read falls outside f. */
    method GetCurrentProb(x: int, y: int) returns (ret: Option<real>)
      ensures ret.None? <==> !(0 <= GetStateIndex(x, y) && GetStateIndex(x, y) + 4 <= f.Length)
      ensures ret.Some? ==> ret.value == Sum(f[GetStateIndex(x, y)..GetStateIndex(x, y) + 4])
    {
      var sum := 0.0;
      var idx := GetStateIndex(x, y);
      for i := 0 to 4
        invariant 0 < i ==> 0 <= idx && idx + i <= f.Length
        invariant 0 < i ==> sum == Sum(f[idx..idx + i])
        invariant i == 0 ==> sum == 0.0
      {
        if idx + i < 0 || idx + i >= f.Length {
          return None;
        }
        assert f[idx..idx + i + 1][..i] == f[idx..idx + i];
        sum := sum + f[idx + i];
      }
      return Some(sum);
    }
  }

  // ---------------------------------------------------------------------------
  // Properties of the tables
  // ---------------------------------------------------------------------------

  /**
   * Between two states of a square grid, T is 0 unless the second lies one
   * step ahead of the first; then it is 0.7 when the headings agree and
   * 0.3 / (len - 1) otherwise, with len >= 2 the number of neighbours of the
   * first state's cell. The wall branch is never taken: a state facing a
   * wall reaches no cell of the grid.
   */
  lemma TransitionOnGrid(rows: int, cols: int, current: Pose, other: Pose)
    requires rows == cols && OnGrid(current, rows, cols) && OnGrid(other, rows, cols)
    ensures WillReachXY(current, other) ==>
      !FacesWall(current, rows, cols) && |DirectNeighbours(current, rows, cols)| >= 2
    ensures Transition(rows, cols, current, other) ==
      if !WillReachXY(current, other) then 0.0
      else if current.h == other.h then 0.7
      else 0.3 / (|DirectNeighbours(current, rows, cols)| - 1) as real
  {
    if WillReachXY(current, other) {
      WillReachXYIsStep(current, other);
      FacesWallIffStepLeaves(current, rows, cols);
      DirectNeighboursAtLeastTwo(current, rows, cols);
    }
  }

  /** A state facing a wall has an all-zero row in T. */
  lemma TransitionWallRowZero(rows: int, cols: int, current: Pose, other: Pose)
    requires rows == cols && OnGrid(current, rows, cols) && OnGrid(other, rows, cols)
    requires FacesWall(current, rows, cols)
    ensures Transition(rows, cols, current, other) == 0.0
  {
    TransitionOnGrid(rows, cols, current, other);
  }

  /** Off the square, the wall branch is reached: on a grid of one row and two
      columns, the state (0, 0) heading SOUTH faces a wall, yet reaches the grid
      state (0, 1), and its entry is 1 / len with a single neighbour. */
  lemma TransitionWallOffSquare(h: int)
    requires 0 <= h < 4
    ensures OnGrid(Pose(0, 0, South), 1, 2) && OnGrid(Pose(0, 1, h), 1, 2)
    ensures FacesWall(Pose(0, 0, South), 1, 2)
    ensures Transition(1, 2, Pose(0, 0, South), Pose(0, 1, h)) == 1.0
  {
    assert DirectNeighbours(Pose(0, 0, South), 1, 2) == [Pose(1, 0, East)];
  }

  /** Away from the edges, the four headings of the cell ahead share a mass of exactly 1. */
  lemma TransitionMassInterior(rows: int, cols: int, current: Pose)
    requires 1 <= current.x <= cols - 2 && 1 <= current.y <= rows - 2 && IsHeading(current.h)
    ensures var s := Step(current);
      Transition(rows, cols, current, Pose(s.x, s.y, North)) + Transition(rows, cols, current, Pose(s.x, s.y, South))
      + Transition(rows, cols, current, Pose(s.x, s.y, East)) + Transition(rows, cols, current, Pose(s.x, s.y, West)) == 1.0
  {
    var s := Step(current);
    assert |DirectNeighbours(current, rows, cols)| == 4;
    FacesWallIffStepLeaves(current, rows, cols);
    forall h | IsHeading(h)
      ensures WillReachXY(current, Pose(s.x, s.y, h))
    {
      WillReachXYIsStep(current, Pose(s.x, s.y, h));
    }
  }

  /**
   * For a fresh reading on a square grid, the observation table is the
   * sensor model: 0.1 at the reading, 0.05 at squared distance 1 or 2, 0.025
   * at squared distance 4, 5 or 8, and 0 elsewhere.
   */
  lemma ObservationIsSensorModel(rows: int, cols: int, reading: Pose, i: int, j: int)
    requires rows == cols && 0 <= i < rows && 0 <= j < cols
    ensures var q := Pose(i, j, reading.h);
      Observation(reading, Ring(reading, rows, cols, true), Ring(reading, rows, cols, false), i, j) ==
        if Dist2(reading, q) == 0 then 0.1
        else if Dist2(reading, q) in {1, 2} then 0.05
        else if Dist2(reading, q) in {4, 5, 8} then 0.025
        else 0.0
  {
    var q := Pose(i, j, reading.h);
    var immediate, outer := Ring(reading, rows, cols, true), Ring(reading, rows, cols, false);
    ImmediateRingMembers(reading, rows, cols, q);
    OuterRingMembers(reading, rows, cols, q);
    CoversRing(rows, cols, reading, i, j, true);
    CoversRing(rows, cols, reading, i, j, false);
    Dist2Zero(reading, q);
  }

  lemma Dist2Zero(p: Pose, q: Pose)
    ensures Dist2(p, q) == 0 <==> p.x == q.x && p.y == q.y
  {
    var dx, dy := p.x - q.x, p.y - q.y;
    if dx > 0 {
      MulLe(1, dx, dx);
    } else if dx < 0 {
      MulLe(dx, -1, -dx);
    }
    if dy > 0 {
      MulLe(1, dy, dy);
    } else if dy < 0 {
      MulLe(dy, -1, -dy);
    }
  }

  /** A ring names cell (i, j) exactly when it holds that cell with the reading's heading. */
  lemma CoversRing(rows: int, cols: int, reading: Pose, i: int, j: int, inner: bool)
    ensures Covers(Ring(reading, rows, cols, inner), i, j) <==> Pose(i, j, reading.h) in Ring(reading, rows, cols, inner)
  {
    var ring := Ring(reading, rows, cols, inner);
    if Covers(ring, i, j) {
      var p :| p in ring && p.x == i && p.y == j;
      ImmediateRingMembers(reading, rows, cols, p);
      OuterRingMembers(reading, rows, cols, p);
      assert p == Pose(i, j, reading.h);
    }
  }

  /** Away from the edges the sensor reports nothing with probability 0.1; in a corner of a grid at least 3 x 3, 0.625. */
  lemma NothingProbExamples(rows: int, cols: int, i: int, j: int)
    requires 2 <= i <= cols - 3 && 2 <= j <= rows - 3
    ensures NothingProb(rows, cols, i, j) == 0.1
    ensures NothingProb(rows, cols, 0, 0) == 0.625
  {
    InteriorRingSizes(Pose(i, j, -1), rows, cols, true);
    InteriorRingSizes(Pose(i, j, -1), rows, cols, false);
    CornerRingSizes(-1, rows, cols, true);
    CornerRingSizes(-1, rows, cols, false);
  }

  /** Under the uniform prior, a cell of a four-heading grid has probability 4 / (rows * cols * 4), and its four entries are its own four states. */
  lemma CurrentProbUniform(rows: int, cols: int, f: seq<real>, x: int, y: int)
    requires 0 <= x < rows && 0 <= y < cols && |f| == rows * cols * 4
    requires forall k :: 0 <= k < |f| ==> f[k] == 1.0 / |f| as real
    ensures 0 <= 4 * (x * cols + y) && 4 * (x * cols + y) + 4 <= |f|
    ensures Sum(f[4 * (x * cols + y)..4 * (x * cols + y) + 4]) == 4.0 / |f| as real
    ensures forall h :: 0 <= h < 4 ==> StateOf(cols, 4, 4 * (x * cols + y) + h) == Pose(x, y, h)
  {
    StateIndexBounds(rows, cols, 4, x, y, 3);
    var idx := 4 * (x * cols + y);
    SumConstant(f[idx..idx + 4], 1.0 / |f| as real);
    forall h | 0 <= h < 4
      ensures StateOf(cols, 4, idx + h) == Pose(x, y, h)
    {
      StateOfIndex(cols, 4, x, y, h);
    }
  }

  /** The four summed entries are a fixed count: with fewer than four headings they run into the next cell's states. */
  lemma CurrentProbOverreach(cols: int, head: int, x: int, y: int)
    requires 0 < head < 4 && 0 <= y && y + 1 < cols
    ensures StateOf(cols, head, head * (x * cols + y) + head) == Pose(x, y + 1, 0)
  {
    LayoutSteps(0, cols, head, x, y);
    StateOfIndex(cols, head, x, y + 1, 0);
  }
}
