/** The Reversi rules of 1-Reversi/game.py stated as pure functions of the
    contents of the 8x8 board. The class ReversiGame.Game, which mutates its
    board in place as the Python engine does, is proved against these
    definitions, and the search of ReversiSearch is specified with them. */
module ReversiRules {

  /** The two disc colours, 'X' and 'O'. */
  datatype Side = X | O

  /** A board cell: '' (or any value other than 'X'/'O') is Empty. */
  datatype Cell = Empty | Disc(side: Side)

  /** The side that is not `s`: `change_side` and the opponent computations. */
  function Other(s: Side): (r: Side)
    ensures r != s
    ensures r == X <==> s == O
  {
    if s == O then X else O
  }

  lemma OtherInvolutive(s: Side)
    ensures Other(Other(s)) == s
  {
  }

  predicate IsGrid(g: seq<seq<Cell>>) {
    |g| == 8 && forall i :: 0 <= i < 8 ==> |g[i]| == 8
  }

  /** The contents of the board: row index first, as in `board[x][y]`. */
  type Grid = g: seq<seq<Cell>> | IsGrid(g) witness seq(8, _ => seq(8, _ => Empty))

  type Coord = (int, int)

  /** `Game.on_board`. */
  predicate OnBoard(x: int, y: int) {
    0 <= x <= 7 && 0 <= y <= 7
  }

  function At(g: Grid, c: Coord): Cell
    requires OnBoard(c.0, c.1)
  {
    g[c.0][c.1]
  }

  /** `g` with cell `c` set to `v`: `place_disc`. */
  function Place(g: Grid, c: Coord, v: Cell): (r: Grid)
    requires OnBoard(c.0, c.1)
    ensures At(r, c) == v
    ensures forall x, y :: OnBoard(x, y) && (x, y) != c ==> r[x][y] == g[x][y]
  {
    g[c.0 := g[c.0][c.1 := v]]
  }

  lemma GridExt(g: Grid, h: Grid)
    requires forall x, y :: 0 <= x < 8 && 0 <= y < 8 ==> g[x][y] == h[x][y]
    ensures g == h
  {
    forall x | 0 <= x < 8
      ensures g[x] == h[x]
    {
    }
  }

  // ---------------------------------------------------------------------------
  // Directions and rays
  // ---------------------------------------------------------------------------

  /** The eight scan directions, in the order `check_is_valid_move` tries them. */
  const Directions: seq<(int, int)> :=
    [(0, 1), (1, 1), (1, 0), (1, -1), (0, -1), (-1, -1), (-1, 0), (-1, 1)]

  predicate IsDirection(d: (int, int)) {
    -1 <= d.0 <= 1 && -1 <= d.1 <= 1 && d != (0, 0)
  }

  lemma DirectionsAreDirections()
    ensures |Directions| == 8
    ensures forall k :: 0 <= k < 8 ==> IsDirection(Directions[k])
    ensures forall i, j :: 0 <= i < j < 8 ==> Directions[i] != Directions[j]
  {
  }

  /** k times a direction component in {-1, 0, 1}, without multiplication. */
  function Scale(k: int, s: int): int {
    if s > 0 then k else if s < 0 then -k else 0
  }

  /** The cell k steps from p in direction d. */
  function Ray(p: Coord, d: (int, int), k: int): Coord {
    (p.0 + Scale(k, d.0), p.1 + Scale(k, d.1))
  }

  /** How many steps along d the cell c lies from p (meaningful when c is on that ray). */
  function StepsAlong(p: Coord, d: (int, int), c: Coord): int {
    if d.0 != 0 then Scale(c.0 - p.0, d.0) else Scale(c.1 - p.1, d.1)
  }

  lemma StepsAlongRay(p: Coord, d: (int, int), k: int)
    requires IsDirection(d)
    ensures StepsAlong(p, d, Ray(p, d, k)) == k
  {
  }

  /** A ray from a cell of the board leaves the board within seven steps. */
  lemma RayBound(p: Coord, d: (int, int), k: int)
    requires OnBoard(p.0, p.1) && IsDirection(d) && k >= 0
    requires OnBoard(Ray(p, d, k).0, Ray(p, d, k).1)
    ensures k <= 7
  {
  }

  /** Rays in two different directions share no cell but their origin. */
  lemma RaysDisjoint(p: Coord, d1: (int, int), k1: int, d2: (int, int), k2: int)
    requires IsDirection(d1) && IsDirection(d2) && k1 >= 1 && k2 >= 1
    requires Ray(p, d1, k1) == Ray(p, d2, k2)
    ensures d1 == d2 && k1 == k2
  {
  }

  /** One more step along d. */
  lemma RayStep(p: Coord, d: (int, int), k: int)
    requires IsDirection(d)
    ensures Ray(p, d, k + 1) == (Ray(p, d, k).0 + d.0, Ray(p, d, k).1 + d.1)
  {
  }

  lemma RayLeavesOrigin(p: Coord, d: (int, int), k: int)
    requires IsDirection(d) && k != 0
    ensures Ray(p, d, k) != p
  {
  }

  // ---------------------------------------------------------------------------
  // Flanking runs
  // ---------------------------------------------------------------------------

  /** The first step k' >= k along d at which the board holds no `opp` disc
      (or the ray has left the board): the while loop of
      `check_is_valid_move` stops there. */
  function RunEnd(g: Grid, opp: Side, p: Coord, d: (int, int), k: int): (r: int)
    requires 1 <= k <= 8
    ensures k <= r <= 8
    decreases 8 - k
  {
    var c := Ray(p, d, k);
    if k == 8 || !OnBoard(c.0, c.1) || At(g, c) != Disc(opp) then k
    else RunEnd(g, opp, p, d, k + 1)
  }

  /** Where the run goes on and where it ends, one step at a time. */
  lemma RunEndHere(g: Grid, opp: Side, p: Coord, d: (int, int), k: int)
    requires 1 <= k <= 8
    ensures var c := Ray(p, d, k);
      k < 8 && OnBoard(c.0, c.1) && At(g, c) == Disc(opp) ==> RunEnd(g, opp, p, d, k) == RunEnd(g, opp, p, d, k + 1)
    ensures var c := Ray(p, d, k);
      !OnBoard(c.0, c.1) || At(g, c) != Disc(opp) ==> RunEnd(g, opp, p, d, k) == k
  {
  }

  /** A direction whose first step leaves the board has an empty run. */
  lemma RunEndOffBoard(g: Grid, opp: Side, p: Coord, d: (int, int))
    requires IsDirection(d) && !OnBoard(p.0 + d.0, p.1 + d.1)
    ensures RunEnd(g, opp, p, d, 1) == 1
  {
    assert Ray(p, d, 1) == (p.0 + d.0, p.1 + d.1);
  }

  /** Every cell before the end of the run is an opponent disc on the board,
      and the cell at the end is not one. */
  lemma {:induction false} RunEndSpan(g: Grid, opp: Side, p: Coord, d: (int, int), k: int, i: int)
    requires OnBoard(p.0, p.1) && IsDirection(d) && 1 <= k <= 8
    requires k <= i < RunEnd(g, opp, p, d, k)
    ensures OnBoard(Ray(p, d, i).0, Ray(p, d, i).1) && At(g, Ray(p, d, i)) == Disc(opp)
    decreases 8 - k
  {
    if i > k {
      RunEndSpan(g, opp, p, d, k + 1, i);
    }
  }

  lemma {:induction false} RunEndStops(g: Grid, opp: Side, p: Coord, d: (int, int), k: int)
    requires OnBoard(p.0, p.1) && IsDirection(d) && 1 <= k <= 8
    ensures var e := RunEnd(g, opp, p, d, k);
      !OnBoard(Ray(p, d, e).0, Ray(p, d, e).1) || At(g, Ray(p, d, e)) != Disc(opp)
    decreases 8 - k
  {
    var c := Ray(p, d, k);
    if k == 8 {
      if OnBoard(c.0, c.1) {
        RayBound(p, d, k);
      }
    } else if OnBoard(c.0, c.1) && At(g, c) == Disc(opp) {
      RunEndStops(g, opp, p, d, k + 1);
    }
  }

  /** A scan that has kept the run's end and stands on a cell outside the
      run has reached that end, and every cell it passed is on the board. */
  lemma RunEndReached(g: Grid, opp: Side, p: Coord, d: (int, int), s: int)
    requires OnBoard(p.0, p.1) && IsDirection(d) && 1 <= s <= 8
    requires RunEnd(g, opp, p, d, 1) == RunEnd(g, opp, p, d, s)
    requires !OnBoard(Ray(p, d, s).0, Ray(p, d, s).1) || At(g, Ray(p, d, s)) != Disc(opp)
    ensures RunEnd(g, opp, p, d, 1) == s
    ensures forall i :: 1 <= i < s ==> OnBoard(Ray(p, d, i).0, Ray(p, d, i).1)
  {
    RunEndHere(g, opp, p, d, s);
    forall i | 1 <= i < s
      ensures OnBoard(Ray(p, d, i).0, Ray(p, d, i).1)
    {
      RunEndSpan(g, opp, p, d, 1, i);
    }
  }

  /** The run depends only on the cells of its own ray. */
  lemma {:induction false} RunEndReadsRay(g: Grid, h: Grid, opp: Side, p: Coord, d: (int, int), k: int)
    requires 1 <= k <= 8
    requires forall i :: k <= i <= 8 && OnBoard(Ray(p, d, i).0, Ray(p, d, i).1) ==>
      At(g, Ray(p, d, i)) == At(h, Ray(p, d, i))
    ensures RunEnd(g, opp, p, d, k) == RunEnd(h, opp, p, d, k)
    decreases 8 - k
  {
    var c := Ray(p, d, k);
    if k < 8 && OnBoard(c.0, c.1) && At(g, c) == Disc(opp) {
      RunEndReadsRay(g, h, opp, p, d, k + 1);
    }
  }

  /** Direction d from p holds one or more opponent discs followed by a disc
      of `side`: the test at game.py line 151. */
  predicate Brackets(g: Grid, side: Side, p: Coord, d: (int, int)) {
    var e := RunEnd(g, Other(side), p, d, 1);
    var c := Ray(p, d, e);
    e >= 2 && OnBoard(c.0, c.1) && At(g, c) == Disc(side)
  }

  lemma BracketsReadsRay(g: Grid, h: Grid, side: Side, p: Coord, d: (int, int))
    requires forall i :: 1 <= i <= 8 && OnBoard(Ray(p, d, i).0, Ray(p, d, i).1) ==>
      At(g, Ray(p, d, i)) == At(h, Ray(p, d, i))
    ensures RunEnd(g, Other(side), p, d, 1) == RunEnd(h, Other(side), p, d, 1)
    ensures Brackets(g, side, p, d) == Brackets(h, side, p, d)
  {
    RunEndReadsRay(g, h, Other(side), p, d, 1);
  }

  /** Some of the first n directions brackets. */
  predicate AnyBracket(g: Grid, side: Side, p: Coord, n: int)
    requires 0 <= n <= 8
  {
    n > 0 && (AnyBracket(g, side, p, n - 1) || Brackets(g, side, p, Directions[n - 1]))
  }

  /** The value `check_is_valid_move(x, y)` returns for the side to move. */
  predicate IsValidMove(g: Grid, side: Side, p: Coord)
    requires OnBoard(p.0, p.1)
  {
    !At(g, p).Disc? && AnyBracket(g, side, p, 8)
  }

  lemma {:induction false} AnyBracketWitness(g: Grid, side: Side, p: Coord, n: int) returns (k: int)
    requires 0 <= n <= 8 && AnyBracket(g, side, p, n)
    ensures 0 <= k < n && Brackets(g, side, p, Directions[k])
  {
    if Brackets(g, side, p, Directions[n - 1]) {
      k := n - 1;
    } else {
      k := AnyBracketWitness(g, side, p, n - 1);
    }
  }

  lemma {:induction false} AnyBracketFrom(g: Grid, side: Side, p: Coord, n: int, k: int)
    requires 0 <= k < n <= 8 && Brackets(g, side, p, Directions[k])
    ensures AnyBracket(g, side, p, n)
  {
    if k < n - 1 {
      AnyBracketFrom(g, side, p, n - 1, k);
    }
  }

  /** `[x, y]` is in `starting_locations` and holds no disc: `check_is_starting_move`. */
  predicate IsStartingMove(g: Grid, p: Coord)
    requires OnBoard(p.0, p.1)
  {
    !At(g, p).Disc? && p in [(3, 3), (3, 4), (4, 3), (4, 4)]
  }

  /** The starting moves are exactly the empty cells of the centre 2x2 block. */
  lemma StartingMoveIsEmptyCentre(g: Grid, p: Coord)
    requires OnBoard(p.0, p.1)
    ensures IsStartingMove(g, p) <==> At(g, p) == Empty && 3 <= p.0 <= 4 && 3 <= p.1 <= 4
  {
  }

  // ---------------------------------------------------------------------------
  // Flipping
  // ---------------------------------------------------------------------------

  /** c is the k-th cell of the ray along d for some lo <= k < hi. */
  predicate Between(p: Coord, d: (int, int), lo: int, hi: int, c: Coord) {
    var k := StepsAlong(p, d, c);
    lo <= k < hi && c == Ray(p, d, k)
  }

  /** Lowering the bottom of the range by one adds exactly the cell at that step. */
  lemma BetweenExtend(p: Coord, d: (int, int), lo: int, hi: int, c: Coord)
    requires IsDirection(d) && lo <= hi
    ensures Between(p, d, lo - 1, hi, c) <==> Between(p, d, lo, hi, c) || c == Ray(p, d, lo - 1)
  {
    StepsAlongRay(p, d, lo - 1);
  }

  /** c lies strictly between p and the e-th cell of the ray along d. */
  predicate OnSegment(p: Coord, d: (int, int), e: int, c: Coord) {
    Between(p, d, 1, e, c)
  }

  /** The cells at steps hi - 1 down to lo along d: the list `flip_discs` collects. */
  function Walk(p: Coord, d: (int, int), lo: int, hi: int): (r: seq<Coord>)
    ensures |r| == if lo <= hi then hi - lo else 0
    decreases hi - lo
  {
    if lo >= hi then [] else [Ray(p, d, hi - 1)] + Walk(p, d, lo, hi - 1)
  }

  lemma {:induction false} WalkExtend(p: Coord, d: (int, int), lo: int, hi: int)
    requires lo < hi
    ensures Walk(p, d, lo, hi) == Walk(p, d, lo + 1, hi) + [Ray(p, d, lo)]
    decreases hi - lo
  {
    if lo + 1 < hi {
      WalkExtend(p, d, lo, hi - 1);
    }
  }

  lemma {:induction false} WalkAt(p: Coord, d: (int, int), lo: int, hi: int, i: int)
    requires 0 <= i < hi - lo
    ensures Walk(p, d, lo, hi)[i] == Ray(p, d, hi - 1 - i)
    decreases hi - lo
  {
    if i > 0 {
      WalkAt(p, d, lo, hi - 1, i - 1);
    }
  }

  /** A walk over on-board ray cells stays on the board. */
  lemma WalkOnBoard(p: Coord, d: (int, int), lo: int, hi: int)
    requires forall i :: lo <= i < hi ==> OnBoard(Ray(p, d, i).0, Ray(p, d, i).1)
    ensures forall j :: 0 <= j < |Walk(p, d, lo, hi)| ==> OnBoard(Walk(p, d, lo, hi)[j].0, Walk(p, d, lo, hi)[j].1)
  {
    forall j | 0 <= j < |Walk(p, d, lo, hi)|
      ensures OnBoard(Walk(p, d, lo, hi)[j].0, Walk(p, d, lo, hi)[j].1)
    {
      WalkAt(p, d, lo, hi, j);
    }
  }

  /** g with every cell of cs set to v, in list order. */
  function PlaceAll(g: Grid, cs: seq<Coord>, v: Cell): Grid
    requires forall j :: 0 <= j < |cs| ==> OnBoard(cs[j].0, cs[j].1)
  {
    if |cs| == 0 then g else Place(PlaceAll(g, cs[..|cs| - 1], v), cs[|cs| - 1], v)
  }

  /** Setting the cells of a walk one by one sets the run it walks over. */
  lemma {:induction false} PlaceAllWalk(g: Grid, p: Coord, d: (int, int), lo: int, hi: int, v: Cell)
    requires forall i :: lo <= i < hi ==> OnBoard(Ray(p, d, i).0, Ray(p, d, i).1)
    ensures forall j :: 0 <= j < |Walk(p, d, lo, hi)| ==> OnBoard(Walk(p, d, lo, hi)[j].0, Walk(p, d, lo, hi)[j].1)
    ensures PlaceAll(g, Walk(p, d, lo, hi), v) == SetRun(g, p, d, lo, hi, v)
    decreases hi - lo
  {
    WalkOnBoard(p, d, lo, hi);
    if lo < hi {
      PlaceAllWalk(g, p, d, lo + 1, hi, v);
      WalkExtend(p, d, lo, hi);
      var w := Walk(p, d, lo, hi);
      assert w[..|w| - 1] == Walk(p, d, lo + 1, hi);
    }
  }

  /** c is flipped by the run in direction d: it lies strictly between the
      move and the bracketing disc. */
  predicate InSegment(g: Grid, side: Side, p: Coord, d: (int, int), c: Coord) {
    Brackets(g, side, p, d) && OnSegment(p, d, RunEnd(g, Other(side), p, d, 1), c)
  }

  /** c is flipped by one of the first n directions. */
  predicate FlippedBy(g: Grid, side: Side, p: Coord, c: Coord, n: int)
    requires 0 <= n <= 8
  {
    n > 0 && (FlippedBy(g, side, p, c, n - 1) || InSegment(g, side, p, Directions[n - 1], c))
  }

  /** The board after the directions before n have been scanned, each
      bracketed run turned over in its turn: the direction loop of
      `check_is_valid_move` with `flip_disc=True`. */
  function FlipUpTo(g: Grid, side: Side, p: Coord, n: int): Grid
    requires 0 <= n <= 8
  {
    if n == 0 then g
    else
      var prev, d := FlipUpTo(g, side, p, n - 1), Directions[n - 1];
      if Brackets(g, side, p, d) then SetRun(prev, p, d, 1, RunEnd(g, Other(side), p, d, 1), Disc(side))
      else prev
  }

  /** The board after `check_is_valid_move(x, y, flip_disc=True)`: nothing
      changes on an occupied cell, otherwise every bracketed run turns to `side`. */
  function AfterFlips(g: Grid, side: Side, p: Coord): Grid
    requires OnBoard(p.0, p.1)
  {
    if At(g, p).Disc? then g else FlipUpTo(g, side, p, 8)
  }

  lemma {:induction false} FlippedByWitness(g: Grid, side: Side, p: Coord, c: Coord, n: int) returns (k: int)
    requires 0 <= n <= 8 && FlippedBy(g, side, p, c, n)
    ensures 0 <= k < n && InSegment(g, side, p, Directions[k], c)
  {
    if InSegment(g, side, p, Directions[n - 1], c) {
      k := n - 1;
    } else {
      k := FlippedByWitness(g, side, p, c, n - 1);
    }
  }

  /** The flips of the directions before k leave the ray of direction k as it was. */
  lemma FlipUpToOffRay(g: Grid, side: Side, p: Coord, k: int)
    requires 0 <= k < 8
    ensures forall i :: 1 <= i <= 8 && OnBoard(Ray(p, Directions[k], i).0, Ray(p, Directions[k], i).1) ==>
      At(FlipUpTo(g, side, p, k), Ray(p, Directions[k], i)) == At(g, Ray(p, Directions[k], i))
  {
    DirectionsAreDirections();
    FlipUpToSpec(g, side, p, k);
    forall i | 1 <= i <= 8 && OnBoard(Ray(p, Directions[k], i).0, Ray(p, Directions[k], i).1)
      ensures !FlippedBy(g, side, p, Ray(p, Directions[k], i), k)
    {
      var c := Ray(p, Directions[k], i);
      if FlippedBy(g, side, p, c, k) {
        var j := FlippedByWitness(g, side, p, c, k);
        RaysDisjoint(p, Directions[j], StepsAlong(p, Directions[j], c), Directions[k], i);
      }
    }
  }

  /** g with the cells at steps lo .. hi - 1 along d that are on the board
      set to v, the farthest first; with lo = 1 and hi the bracketing step
      this is the effect of `flip_discs`. */
  function SetRun(g: Grid, p: Coord, d: (int, int), lo: int, hi: int, v: Cell): Grid
    decreases hi - lo
  {
    if lo >= hi then g
    else
      var r, c := SetRun(g, p, d, lo + 1, hi, v), Ray(p, d, lo);
      if OnBoard(c.0, c.1) then Place(r, c, v) else r
  }

  /** The cells SetRun changes are exactly those of the range. */
  lemma {:induction false} SetRunAt(g: Grid, p: Coord, d: (int, int), lo: int, hi: int, v: Cell, x: int, y: int)
    requires IsDirection(d) && OnBoard(x, y)
    ensures SetRun(g, p, d, lo, hi, v)[x][y] == if Between(p, d, lo, hi, (x, y)) then v else g[x][y]
    decreases hi - lo
  {
    if lo < hi {
      SetRunAt(g, p, d, lo + 1, hi, v, x, y);
      BetweenExtend(p, d, lo + 1, hi, (x, y));
    }
  }

  /** A cell ends up turned exactly when one of the first n directions flips it. */
  lemma {:induction false} FlipUpToAt(g: Grid, side: Side, p: Coord, n: int, x: int, y: int)
    requires 0 <= n <= 8 && OnBoard(x, y)
    ensures FlipUpTo(g, side, p, n)[x][y] == if FlippedBy(g, side, p, (x, y), n) then Disc(side) else g[x][y]
  {
    if n > 0 {
      FlipUpToAt(g, side, p, n - 1, x, y);
      DirectionsAreDirections();
      var d := Directions[n - 1];
      if Brackets(g, side, p, d) {
        SetRunAt(FlipUpTo(g, side, p, n - 1), p, d, 1, RunEnd(g, Other(side), p, d, 1), Disc(side), x, y);
      }
    }
  }

  lemma FlipUpToSpec(g: Grid, side: Side, p: Coord, n: int)
    requires 0 <= n <= 8
    ensures forall x, y :: OnBoard(x, y) ==>
      FlipUpTo(g, side, p, n)[x][y] == if FlippedBy(g, side, p, (x, y), n) then Disc(side) else g[x][y]
  {
    forall x, y | OnBoard(x, y)
      ensures FlipUpTo(g, side, p, n)[x][y] == if FlippedBy(g, side, p, (x, y), n) then Disc(side) else g[x][y]
    {
      FlipUpToAt(g, side, p, n, x, y);
    }
  }

  /** Before direction k is scanned, its ray still reads as on the original board. */
  lemma DirectionReadsOriginal(g: Grid, side: Side, p: Coord, k: int, cur: Grid)
    requires 0 <= k < 8
    requires cur == g || cur == FlipUpTo(g, side, p, k)
    ensures RunEnd(cur, Other(side), p, Directions[k], 1) == RunEnd(g, Other(side), p, Directions[k], 1)
    ensures Brackets(cur, side, p, Directions[k]) == Brackets(g, side, p, Directions[k])
  {
    if cur != g {
      FlipUpToOffRay(g, side, p, k);
    }
    BracketsReadsRay(cur, g, side, p, Directions[k]);
  }

  /** One pass of the direction loop of `check_is_valid_move`: on the board
      as it stands before direction k (the original, or the original with the
      earlier runs flipped), direction k brackets exactly when it does on the
      original, and it adds its own run to the flips. */
  lemma DirectionStep(g: Grid, side: Side, p: Coord, k: int, cur: Grid)
    requires 0 <= k < 8
    requires cur == g || cur == FlipUpTo(g, side, p, k)
    ensures IsDirection(Directions[k])
    ensures AnyBracket(g, side, p, k + 1) == (AnyBracket(g, side, p, k) || Brackets(cur, side, p, Directions[k]))
    ensures !OnBoard(p.0 + Directions[k].0, p.1 + Directions[k].1) ==> !Brackets(cur, side, p, Directions[k])
    ensures FlipUpTo(g, side, p, k + 1) ==
      if Brackets(cur, side, p, Directions[k])
      then SetRun(FlipUpTo(g, side, p, k), p, Directions[k], 1, RunEnd(cur, Other(side), p, Directions[k], 1), Disc(side))
      else FlipUpTo(g, side, p, k)
  {
    DirectionsAreDirections();
    DirectionReadsOriginal(g, side, p, k, cur);
    var d := Directions[k];
    if !OnBoard(p.0 + d.0, p.1 + d.1) {
      RunEndOffBoard(g, Other(side), p, d);
    }
  }

  /** A flipped cell was an opponent disc strictly between the move and a disc of `side`. */
  lemma FlippedCellWasOpponent(g: Grid, side: Side, p: Coord, c: Coord, n: int)
    requires OnBoard(p.0, p.1) && 0 <= n <= 8 && FlippedBy(g, side, p, c, n)
    ensures OnBoard(c.0, c.1) && c != p && At(g, c) == Disc(Other(side))
  {
    var k := FlippedByWitness(g, side, p, c, n);
    DirectionsAreDirections();
    var d := Directions[k];
    var i := StepsAlong(p, d, c);
    RunEndSpan(g, Other(side), p, d, 1, i);
    RayLeavesOrigin(p, d, i);
  }

  /** `flip_disc=True` changes only opponent discs, each into a disc of `side`,
      and never fills the move cell itself. */
  lemma AfterFlipsChanges(g: Grid, side: Side, p: Coord)
    requires OnBoard(p.0, p.1)
    ensures At(AfterFlips(g, side, p), p) == At(g, p)
    ensures forall x, y :: OnBoard(x, y) && AfterFlips(g, side, p)[x][y] != g[x][y] ==>
      g[x][y] == Disc(Other(side)) && AfterFlips(g, side, p)[x][y] == Disc(side)
  {
    var r := AfterFlips(g, side, p);
    if !At(g, p).Disc? {
      FlipUpToSpec(g, side, p, 8);
      if FlippedBy(g, side, p, p, 8) {
        FlippedCellWasOpponent(g, side, p, p, 8);
      }
    }
    forall x, y | OnBoard(x, y) && r[x][y] != g[x][y]
      ensures g[x][y] == Disc(Other(side)) && r[x][y] == Disc(side)
    {
      FlippedCellWasOpponent(g, side, p, (x, y), 8);
    }
  }

  /** Flipping changes the board exactly when the move is valid. */
  lemma AfterFlipsChangesIffValid(g: Grid, side: Side, p: Coord)
    requires OnBoard(p.0, p.1)
    ensures AfterFlips(g, side, p) != g <==> IsValidMove(g, side, p)
  {
    if IsValidMove(g, side, p) {
      ValidMoveFlipsFirstCell(g, side, p);
    } else if AfterFlips(g, side, p) != g {
      ChangeNeedsValidMove(g, side, p);
    }
  }

  /** A valid move flips at least the cell next to it in a bracketing direction. */
  lemma ValidMoveFlipsFirstCell(g: Grid, side: Side, p: Coord)
    requires OnBoard(p.0, p.1) && IsValidMove(g, side, p)
    ensures AfterFlips(g, side, p) != g
  {
    DirectionsAreDirections();
    var r := AfterFlips(g, side, p);
    var k := AnyBracketWitness(g, side, p, 8);
    var d := Directions[k];
    var c := Ray(p, d, 1);
    StepsAlongRay(p, d, 1);
    assert InSegment(g, side, p, d, c);
    FlippedByFrom(g, side, p, c, 8, k);
    RunEndSpan(g, Other(side), p, d, 1, 1);
    FlipUpToAt(g, side, p, 8, c.0, c.1);
    assert r[c.0][c.1] != g[c.0][c.1];
  }

  /** A board that changes was changed by some bracketing direction. */
  lemma ChangeNeedsValidMove(g: Grid, side: Side, p: Coord)
    requires OnBoard(p.0, p.1) && AfterFlips(g, side, p) != g
    ensures IsValidMove(g, side, p)
  {
    var r := AfterFlips(g, side, p);
    assert !At(g, p).Disc?;
    var x, y :| 0 <= x < 8 && 0 <= y < 8 && r[x][y] != g[x][y] by {
      if forall x, y :: 0 <= x < 8 && 0 <= y < 8 ==> r[x][y] == g[x][y] {
        GridExt(r, g);
      }
    }
    FlipUpToAt(g, side, p, 8, x, y);
    var k := FlippedByWitness(g, side, p, (x, y), 8);
    AnyBracketFrom(g, side, p, 8, k);
  }

  lemma {:induction false} FlippedByFrom(g: Grid, side: Side, p: Coord, c: Coord, n: int, k: int)
    requires 0 <= k < n <= 8 && InSegment(g, side, p, Directions[k], c)
    ensures FlippedBy(g, side, p, c, n)
  {
    if k < n - 1 {
      FlippedByFrom(g, side, p, c, n - 1, k);
    }
  }

  // ---------------------------------------------------------------------------
  // Counting discs
  // ---------------------------------------------------------------------------

  /** The number of cells equal to v among the first n cells in row-major order. */
  function CountOf(g: Grid, v: Cell, n: int): (r: nat)
    requires 0 <= n <= 64
    ensures r <= n
  {
    if n == 0 then 0
    else CountOf(g, v, n - 1) + (if g[(n - 1) / 8][(n - 1) % 8] == v then 1 else 0)
  }

  /** Cell (i, j) is the (8i + j)-th in row-major order. */
  lemma RowMajor(i: int, j: int)
    requires OnBoard(i, j)
    ensures 0 <= 8 * i + j < 64 && (8 * i + j) / 8 == i && (8 * i + j) % 8 == j
  {
  }

  /** Counting one more cell, the n-th, which is (i, j). */
  lemma CountOfStep(g: Grid, v: Cell, i: int, j: int, n: int)
    requires OnBoard(i, j) && n == 8 * i + j
    ensures 0 <= n < 64
    ensures CountOf(g, v, n + 1) == CountOf(g, v, n) + (if g[i][j] == v then 1 else 0)
  {
    RowMajor(i, j);
  }

  /** The number of discs of one side on the board: an entry of `calc_score`. */
  function Score(g: Grid, s: Side): (n: nat)
    ensures n <= 64
  {
    CountOf(g, Disc(s), 64)
  }

  lemma {:induction false} CountPartition(g: Grid, n: int)
    requires 0 <= n <= 64
    ensures CountOf(g, Disc(X), n) + CountOf(g, Disc(O), n) + CountOf(g, Empty, n) == n
  {
    if n > 0 {
      CountPartition(g, n - 1);
      var c := g[(n - 1) / 8][(n - 1) % 8];
      match c
      case Empty =>
      case Disc(s) => assert s == X || s == O;
    }
  }

  /** The two scores never exceed the 64 cells together. */
  lemma ScoreBound(g: Grid)
    ensures Score(g, X) + Score(g, O) + CountOf(g, Empty, 64) == 64
    ensures Score(g, X) + Score(g, O) <= 64
  {
    CountPartition(g, 64);
  }

  lemma {:induction false} CountEmptyAgree(g: Grid, h: Grid, n: int)
    requires 0 <= n <= 64
    requires forall x, y :: OnBoard(x, y) ==> (g[x][y] == Empty <==> h[x][y] == Empty)
    ensures CountOf(g, Empty, n) == CountOf(h, Empty, n)
  {
    if n > 0 {
      CountEmptyAgree(g, h, n - 1);
    }
  }

  /** The total number of discs on the board. */
  function DiscCount(g: Grid): nat {
    Score(g, X) + Score(g, O)
  }

  /** Flipping never creates or removes a disc. */
  lemma AfterFlipsKeepsDiscCount(g: Grid, side: Side, p: Coord)
    requires OnBoard(p.0, p.1)
    ensures DiscCount(AfterFlips(g, side, p)) == DiscCount(g)
  {
    var r := AfterFlips(g, side, p);
    AfterFlipsChanges(g, side, p);
    CountEmptyAgree(r, g, 64);
    ScoreBound(g);
    ScoreBound(r);
  }

  // ---------------------------------------------------------------------------
  // Move generation
  // ---------------------------------------------------------------------------

  /** The n-th cell in row-major order. */
  function CellAt(n: int): Coord
    requires 0 <= n < 64
  {
    (n / 8, n % 8)
  }

  /** The test `get_valid_moves` applies to a cell. */
  predicate Accepts(g: Grid, side: Side, isInitialMove: bool, isOthello: bool, c: Coord)
    requires OnBoard(c.0, c.1)
  {
    IsValidMove(g, side, c) || (isInitialMove && !isOthello && IsStartingMove(g, c))
  }

  /** The accepted cells among the first n, in row-major order. */
  function MovesUpTo(g: Grid, side: Side, isInitialMove: bool, isOthello: bool, n: int): seq<Coord>
    requires 0 <= n <= 64
  {
    if n == 0 then []
    else
      MovesUpTo(g, side, isInitialMove, isOthello, n - 1)
      + (if Accepts(g, side, isInitialMove, isOthello, CellAt(n - 1)) then [CellAt(n - 1)] else [])
  }

  /** Visiting one more cell, the n-th, which is (i, j). */
  lemma MovesUpToStep(g: Grid, side: Side, isInitialMove: bool, isOthello: bool, i: int, j: int, n: int)
    requires OnBoard(i, j) && n == 8 * i + j
    ensures 0 <= n < 64
    ensures MovesUpTo(g, side, isInitialMove, isOthello, n + 1) ==
      MovesUpTo(g, side, isInitialMove, isOthello, n)
      + (if Accepts(g, side, isInitialMove, isOthello, (i, j)) then [(i, j)] else [])
  {
    RowMajor(i, j);
  }

  /** The list `get_valid_moves` returns. */
  function ValidMoves(g: Grid, side: Side, isInitialMove: bool, isOthello: bool): seq<Coord> {
    MovesUpTo(g, side, isInitialMove, isOthello, 64)
  }

  function Index(c: Coord): int {
    8 * c.0 + c.1
  }

  /** Distinct cells have distinct row-major indices. */
  lemma IndexInjective(a: Coord, b: Coord)
    requires OnBoard(a.0, a.1) && OnBoard(b.0, b.1) && Index(a) == Index(b)
    ensures a == b
  {
  }

  lemma {:induction false} MovesUpToMembers(g: Grid, side: Side, isInitialMove: bool, isOthello: bool, n: int)
    requires 0 <= n <= 64
    ensures forall c :: c in MovesUpTo(g, side, isInitialMove, isOthello, n) <==>
      OnBoard(c.0, c.1) && Index(c) < n && Accepts(g, side, isInitialMove, isOthello, c)
  {
    if n > 0 {
      MovesUpToMembers(g, side, isInitialMove, isOthello, n - 1);
      var c := CellAt(n - 1);
      assert Index(c) == n - 1;
      forall c': Coord | OnBoard(c'.0, c'.1) && Index(c') == n - 1
        ensures c' == c
      {
        IndexInjective(c, c');
      }
    }
  }

  lemma {:induction false} MovesUpToOrdered(g: Grid, side: Side, isInitialMove: bool, isOthello: bool, n: int)
    requires 0 <= n <= 64
    ensures forall i, j :: 0 <= i < j < |MovesUpTo(g, side, isInitialMove, isOthello, n)| ==>
      Index(MovesUpTo(g, side, isInitialMove, isOthello, n)[i]) < Index(MovesUpTo(g, side, isInitialMove, isOthello, n)[j])
  {
    if n > 0 {
      MovesUpToOrdered(g, side, isInitialMove, isOthello, n - 1);
      MovesUpToMembers(g, side, isInitialMove, isOthello, n - 1);
      var ms := MovesUpTo(g, side, isInitialMove, isOthello, n - 1);
      assert Index(CellAt(n - 1)) == n - 1;
      var c := CellAt(n - 1);
      if Accepts(g, side, isInitialMove, isOthello, c) {
        var ms' := ms + [c];
        forall i, j | 0 <= i < j < |ms'|
          ensures Index(ms'[i]) < Index(ms'[j])
        {
          assert ms'[i] == ms[i] && ms[i] in ms;
          assert Index(ms[i]) < n - 1;
          if j < |ms| {
            assert ms'[j] == ms[j] && Index(ms[i]) < Index(ms[j]);
          } else {
            assert ms'[j] == c;
          }
        }
        assert MovesUpTo(g, side, isInitialMove, isOthello, n) == ms';
      } else {
        assert MovesUpTo(g, side, isInitialMove, isOthello, n) == ms + [];
        assert ms + [] == ms;
      }
    }
  }

  lemma MovesUpToSpec(g: Grid, side: Side, isInitialMove: bool, isOthello: bool, n: int)
    requires 0 <= n <= 64
    ensures var ms := MovesUpTo(g, side, isInitialMove, isOthello, n);
      && (forall c :: c in ms <==>
            OnBoard(c.0, c.1) && Index(c) < n && Accepts(g, side, isInitialMove, isOthello, c))
      && (forall i, j :: 0 <= i < j < |ms| ==> Index(ms[i]) < Index(ms[j]))
  {
    MovesUpToMembers(g, side, isInitialMove, isOthello, n);
    MovesUpToOrdered(g, side, isInitialMove, isOthello, n);
  }

  /** Every move get_valid_moves lists can be played on the board. */
  lemma ValidMovesOnBoard(g: Grid, side: Side, isInitialMove: bool, isOthello: bool)
    ensures var ms := ValidMoves(g, side, isInitialMove, isOthello);
      forall j :: 0 <= j < |ms| ==> OnBoard(ms[j].0, ms[j].1)
  {
    ValidMovesSpec(g, side, isInitialMove, isOthello);
    var ms := ValidMoves(g, side, isInitialMove, isOthello);
    forall j | 0 <= j < |ms|
      ensures OnBoard(ms[j].0, ms[j].1)
    {
      assert ms[j] in ms;
    }
  }

  /** `get_valid_moves` lists exactly the accepted cells, each once, in row-major order. */
  lemma ValidMovesSpec(g: Grid, side: Side, isInitialMove: bool, isOthello: bool)
    ensures var ms := ValidMoves(g, side, isInitialMove, isOthello);
      && (forall c :: c in ms <==> OnBoard(c.0, c.1) && Accepts(g, side, isInitialMove, isOthello, c))
      && (forall i, j :: 0 <= i < j < |ms| ==> Index(ms[i]) < Index(ms[j]))
      && (forall c :: c in ms ==> At(g, c) == Empty)
  {
    MovesUpToSpec(g, side, isInitialMove, isOthello, 64);
  }

  // ---------------------------------------------------------------------------
  // The opening position
  // ---------------------------------------------------------------------------

  /** The board `reset_board` leaves: the four centre discs under Othello rules, empty otherwise. */
  function InitialGrid(isOthello: bool): Grid {
    seq(8, x requires 0 <= x < 8 =>
      seq(8, y requires 0 <= y < 8 =>
        if !isOthello then Empty
        else if (x, y) == (3, 3) || (x, y) == (4, 4) then Disc(O)
        else if (x, y) == (3, 4) || (x, y) == (4, 3) then Disc(X)
        else Empty))
  }

  /** `set_initial_discs` under Othello rules. */
  function WithCentreDiscs(g: Grid): Grid {
    Place(Place(Place(Place(g, (3, 3), Disc(O)), (3, 4), Disc(X)), (4, 3), Disc(X)), (4, 4), Disc(O))
  }

  lemma InitialGridIsCentreOnEmpty()
    ensures InitialGrid(true) == WithCentreDiscs(InitialGrid(false))
  {
    GridExt(InitialGrid(true), WithCentreDiscs(InitialGrid(false)));
  }

  lemma {:induction false} InitialCounts(n: int)
    requires 0 <= n <= 64
    ensures CountOf(InitialGrid(true), Disc(X), n) == (if n > 28 then 1 else 0) + (if n > 35 then 1 else 0)
    ensures CountOf(InitialGrid(true), Disc(O), n) == (if n > 27 then 1 else 0) + (if n > 36 then 1 else 0)
    ensures CountOf(InitialGrid(false), Disc(X), n) == 0 && CountOf(InitialGrid(false), Disc(O), n) == 0
  {
    if n > 0 {
      InitialCounts(n - 1);
    }
  }

  /** Othello rules open at 2-2 with (3,3)=O, (3,4)=X, (4,3)=X, (4,4)=O; classic rules on an empty board. */
  lemma InitialScores()
    ensures Score(InitialGrid(true), X) == 2 && Score(InitialGrid(true), O) == 2
    ensures At(InitialGrid(true), (3, 3)) == Disc(O) && At(InitialGrid(true), (3, 4)) == Disc(X)
    ensures At(InitialGrid(true), (4, 3)) == Disc(X) && At(InitialGrid(true), (4, 4)) == Disc(O)
    ensures Score(InitialGrid(false), X) == 0 && Score(InitialGrid(false), O) == 0
  {
    InitialCounts(64);
  }
}
