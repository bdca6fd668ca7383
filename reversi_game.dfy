/** The game engine of 1-Reversi/game.py: class Game owns a mutable 8x8
    board, which its methods update in place. The ghost field `cells` is the
    board's contents as a value; every method is proved against the pure
    rules of ReversiRules in terms of it. */
module ReversiGame {
  import opened ReversiRules

  class Game {
    var board: array2<Cell>
    var currentSide: Side
    var isOthello: bool
    var isInitialMove: bool
    ghost var cells: Grid

    /** The board is 8x8 and `cells` is its contents. */
    ghost predicate Valid()
      reads this, board
    {
      && board.Length0 == 8 && board.Length1 == 8
      && forall x, y {:trigger board[x, y]} :: 0 <= x < 8 && 0 <= y < 8 ==> board[x, y] == cells[x][y]
    }

    /** `Game(is_othello, None, ...)`: a new game on an empty board. */
    constructor (isOthello: bool, currentSide: Side, isInitialMove: bool)
      ensures Valid() && fresh(board)
      ensures cells == InitialGrid(false)
      ensures this.isOthello == isOthello && this.currentSide == currentSide
      ensures this.isInitialMove == isInitialMove
    {
      board := new Cell[8, 8]((x, y) => Empty);
      cells := InitialGrid(false);
      this.isOthello := isOthello;
      this.currentSide := currentSide;
      this.isInitialMove := isInitialMove;
    }

    /** `Game(is_othello, copy.deepcopy(other.board), ...)`: a new game on a
        private copy of another game's board. */
    constructor Copy(isOthello: bool, other: Game, currentSide: Side, isInitialMove: bool)
      requires other.Valid()
      ensures Valid() && fresh(board)
      ensures cells == other.cells
      ensures this.isOthello == isOthello && this.currentSide == currentSide
      ensures this.isInitialMove == isInitialMove
    {
      var src := other.board;
      board := new Cell[8, 8]((x, y) reads src requires 0 <= x < 8 && 0 <= y < 8 => src[x, y]);
      cells := other.cells;
      this.isOthello := isOthello;
      this.currentSide := currentSide;
      this.isInitialMove := isInitialMove;
    }

    /** `calc_score`: the number of discs of each side. */
    method CalcScore() returns (sidesScores: map<Side, nat>)
      requires Valid()
      ensures sidesScores == map[X := Score(cells, X), O := Score(cells, O)]
    {
      ghost var n := 0;
      var xs, os := 0, 0;
      for i := 0 to 8
        invariant n == 8 * i
        invariant xs == CountOf(cells, Disc(X), n) && os == CountOf(cells, Disc(O), n)
      {
        for j := 0 to 8
          invariant n == 8 * i + j
          invariant xs == CountOf(cells, Disc(X), n) && os == CountOf(cells, Disc(O), n)
        {
          CountOfStep(cells, Disc(X), i, j, n);
          CountOfStep(cells, Disc(O), i, j, n);
          if board[i, j] == Disc(X) {
            xs := xs + 1;
          } else if board[i, j] == Disc(O) {
            os := os + 1;
          }
          n := n + 1;
        }
      }
      sidesScores := map[X := xs, O := os];
    }

    /** `change_side`: hand the turn to the other side. */
    method ChangeSide()
      modifies this`currentSide
      ensures currentSide == Other(old(currentSide))
    {
      currentSide := if currentSide == O then X else O;
    }

    /** `place_disc`: set one cell, whatever it held. */
    method PlaceDisc(x: int, y: int, value: Cell)
      requires Valid() && OnBoard(x, y)
      modifies board, this`cells
      ensures Valid()
      ensures cells == Place(old(cells), (x, y), value)
    {
      board[x, y] := value;
      cells := Place(cells, (x, y), value);
    }

    /** `set_initial_discs`: the four centre discs, under Othello rules only. */
    method SetInitialDiscs()
      requires Valid()
      modifies board, this`cells
      ensures Valid()
      ensures cells == if isOthello then WithCentreDiscs(old(cells)) else old(cells)
    {
      if isOthello {
        PlaceDisc(3, 3, Disc(O));
        PlaceDisc(3, 4, Disc(X));
        PlaceDisc(4, 3, Disc(X));
        PlaceDisc(4, 4, Disc(O));
      }
    }

    /** `reset_board`: a new empty board, then the starting discs. */
    method ResetBoard()
      requires Valid()
      modifies this`board, this`cells
      ensures Valid() && fresh(board)
      ensures cells == InitialGrid(isOthello)
    {
      board := new Cell[8, 8]((x, y) => Empty);
      cells := InitialGrid(false);
      SetInitialDiscs();
      InitialGridIsCentreOnEmpty();
    }

    /** `check_is_starting_move`: an empty cell of the centre four. */
    predicate CheckIsStartingMove(x: int, y: int)
      requires Valid() && OnBoard(x, y)
      reads this, board
      ensures CheckIsStartingMove(x, y) <==> IsStartingMove(cells, (x, y))
    {
      !board[x, y].Disc? && (x, y) in [(3, 3), (3, 4), (4, 3), (4, 4)]
    }

    /** The first loop of `flip_discs`: from the bracketing disc at step e,
        walk back towards the move and list the cells passed. */
    static method CollectDiscsToFlip(initialX: int, initialY: int, x0: int, y0: int, dx: int, dy: int, ghost e: int)
      returns (discsToFlip: seq<Coord>)
      requires IsDirection((dx, dy)) && e >= 1
      requires (x0, y0) == Ray((initialX, initialY), (dx, dy), e)
      ensures discsToFlip == Walk((initialX, initialY), (dx, dy), 1, e)
    {
      ghost var p, d := (initialX, initialY), (dx, dy);
      discsToFlip := [];
      var x, y := x0, y0;
      ghost var k := e;
      while true
        invariant 1 <= k <= e && (x, y) == Ray(p, d, k)
        invariant discsToFlip == Walk(p, d, k, e)
        decreases k
      {
        RayStep(p, d, k - 1);
        x, y := x - dx, y - dy;
        k := k - 1;
        if k != 0 {
          RayLeavesOrigin(p, d, k);
        }
        if x == initialX && y == initialY {
          break;
        }
        WalkExtend(p, d, k, e);
        discsToFlip := discsToFlip + [(x, y)];
      }
    }

    /** The second loop of `flip_discs`: turn every listed cell to the side to move. */
    method SetDiscs(discsToFlip: seq<Coord>)
      requires Valid()
      requires forall j :: 0 <= j < |discsToFlip| ==> OnBoard(discsToFlip[j].0, discsToFlip[j].1)
      modifies board, this`cells
      ensures Valid()
      ensures cells == PlaceAll(old(cells), discsToFlip, Disc(currentSide))
    {
      ghost var g := cells;
      for i := 0 to |discsToFlip|
        invariant Valid()
        invariant cells == PlaceAll(g, discsToFlip[..i], Disc(currentSide))
      {
        var c := discsToFlip[i];
        assert discsToFlip[..i + 1][..i] == discsToFlip[..i];
        PlaceDisc(c.0, c.1, Disc(currentSide));
      }
      assert discsToFlip[..|discsToFlip|] == discsToFlip;
    }

    /** `flip_discs`: collect the cells between the move and the bracketing
        disc at step e, then turn each of them to the side to move. */
    method FlipDiscs(initialX: int, initialY: int, x0: int, y0: int, dx: int, dy: int, ghost e: int)
      requires Valid() && OnBoard(initialX, initialY) && IsDirection((dx, dy)) && e >= 1
      requires (x0, y0) == Ray((initialX, initialY), (dx, dy), e)
      requires forall i :: 1 <= i < e ==>
        OnBoard(Ray((initialX, initialY), (dx, dy), i).0, Ray((initialX, initialY), (dx, dy), i).1)
      modifies board, this`cells
      ensures Valid()
      ensures cells == SetRun(old(cells), (initialX, initialY), (dx, dy), 1, e, Disc(currentSide))
    {
      var discsToFlip := CollectDiscsToFlip(initialX, initialY, x0, y0, dx, dy, e);
      PlaceAllWalk(cells, (initialX, initialY), (dx, dy), 1, e, Disc(currentSide));
      SetDiscs(discsToFlip);
    }

    /** The scan loop of `check_is_valid_move` for one direction: from the
        first cell along (dx, dy), which is on the board, step over opponent
        discs until a cell that holds none or the edge. */
    method ScanRun(px: int, py: int, dx: int, dy: int, opp: Side)
      returns (x: int, y: int, opponentFound: bool, opponentPlaceholder: Cell, ghost steps: int)
      requires Valid() && OnBoard(px, py) && IsDirection((dx, dy)) && OnBoard(px + dx, py + dy)
      ensures steps == RunEnd(cells, opp, (px, py), (dx, dy), 1)
      ensures (x, y) == Ray((px, py), (dx, dy), steps)
      ensures opponentFound <==> steps >= 2
      ensures opponentPlaceholder == if OnBoard(x, y) then cells[x][y] else Disc(opp)
      ensures forall i :: 1 <= i < steps ==>
        OnBoard(Ray((px, py), (dx, dy), i).0, Ray((px, py), (dx, dy), i).1)
    {
      ghost var g, p, d := cells, (px, py), (dx, dy);
      ghost var e := RunEnd(g, opp, p, d, 1);
      x, y := px + dx, py + dy;
      opponentFound := false;
      opponentPlaceholder := board[x, y];
      steps := 1;
      while opponentPlaceholder == Disc(opp)
        invariant 1 <= steps <= 8 && (x, y) == Ray(p, d, steps)
        invariant opponentFound <==> steps >= 2
        invariant e == RunEnd(g, opp, p, d, steps)
        invariant OnBoard(x, y) && opponentPlaceholder == g[x][y]
        decreases 8 - steps
      {
        RayBound(p, d, steps);
        RayStep(p, d, steps);
        RunEndHere(g, opp, p, d, steps);
        opponentFound := true;
        x, y := x + dx, y + dy;
        steps := steps + 1;
        if !OnBoard(x, y) {
          break;
        }
        opponentPlaceholder := board[x, y];
      }
      RunEndReached(g, opp, p, d, steps);
    }

    /** The body of the direction loop of `check_is_valid_move`: whether
        direction (dx, dy) brackets a run of opponent discs, and, with
        `flipDisc`, that run turned over. */
    method CheckDirection(px: int, py: int, dx: int, dy: int, currentOpponentDisc: Side, flipDisc: bool)
      returns (bracketed: bool)
      requires Valid() && OnBoard(px, py) && IsDirection((dx, dy))
      requires currentOpponentDisc == Other(currentSide)
      modifies board, this`cells
      ensures Valid()
      ensures bracketed == Brackets(old(cells), currentSide, (px, py), (dx, dy))
      ensures cells ==
        if flipDisc && bracketed
        then SetRun(old(cells), (px, py), (dx, dy), 1, RunEnd(old(cells), currentOpponentDisc, (px, py), (dx, dy), 1), Disc(currentSide))
        else old(cells)
    {
      bracketed := false;
      if !OnBoard(px + dx, py + dy) {
        return;
      }
      var x, y, opponentFound, opponentPlaceholder, steps := ScanRun(px, py, dx, dy, currentOpponentDisc);
      if opponentPlaceholder == Disc(currentSide) && opponentFound {
        if flipDisc {
          FlipDiscs(px, py, x, y, dx, dy, steps);
        }
        bracketed := true;
      }
    }

    /** `check_is_valid_move`: scan the eight directions from an empty cell
        for runs of opponent discs closed by a disc of the side to move;
        with `flipDisc` turn each such run over as soon as it is found. */
    method CheckIsValidMove(px: int, py: int, flipDisc: bool) returns (validMove: bool)
      requires Valid() && OnBoard(px, py)
      modifies board, this`cells
      ensures Valid()
      ensures validMove == IsValidMove(old(cells), currentSide, (px, py))
      ensures cells == if flipDisc then AfterFlips(old(cells), currentSide, (px, py)) else old(cells)
    {
      ghost var g0, p := cells, (px, py);
      validMove := false;
      if !board[px, py].Disc? {
        var currentOpponentDisc := Other(currentSide);
        for k := 0 to 8
          invariant Valid()
          invariant validMove == AnyBracket(g0, currentSide, p, k)
          invariant flipDisc ==> cells == FlipUpTo(g0, currentSide, p, k)
          invariant !flipDisc ==> cells == g0
        {
          var dx, dy := Directions[k].0, Directions[k].1;
          assert (dx, dy) == Directions[k];
          DirectionStep(g0, currentSide, p, k, cells);
          var bracketed := CheckDirection(px, py, dx, dy, currentOpponentDisc, flipDisc);
          if bracketed {
            validMove := true;
          }
        }
      }
    }

    /** `get_valid_moves`: every cell, in row-major order, that is a valid
        move, or a starting move while the opening of classic rules lasts. */
    method GetValidMoves() returns (validMoves: seq<Coord>)
      requires Valid()
      modifies board, this`cells
      ensures Valid() && cells == old(cells)
      ensures validMoves == ValidMoves(cells, currentSide, isInitialMove, isOthello)
    {
      ghost var n := 0;
      validMoves := [];
      for i := 0 to 8
        invariant Valid() && cells == old(cells)
        invariant n == 8 * i
        invariant validMoves == MovesUpTo(cells, currentSide, isInitialMove, isOthello, n)
      {
        for j := 0 to 8
          invariant Valid() && cells == old(cells)
          invariant n == 8 * i + j
          invariant validMoves == MovesUpTo(cells, currentSide, isInitialMove, isOthello, n)
        {
          MovesUpToStep(cells, currentSide, isInitialMove, isOthello, i, j, n);
          var isValid := CheckIsValidMove(i, j, false);
          if isValid {
            validMoves := validMoves + [(i, j)];
          } else if isInitialMove && !isOthello && CheckIsStartingMove(i, j) {
            validMoves := validMoves + [(i, j)];
          }
          n := n + 1;
        }
      }
    }
  }
}
