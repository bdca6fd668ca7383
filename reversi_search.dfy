/** The computer opponent of 1-Reversi/search.py: a depth-limited minimax
    with alpha-beta pruning in which X maximises and O minimises the disc
    count, and one counter shared by the whole search bounds its size. */
module ReversiSearch {
  import opened ReversiRules
  import opened ReversiGame

  /** A search value: a disc count, or one of the infinite window ends
      `float('-inf')` and `float('inf')`. */
  datatype Value = NegInf | Fin(n: int) | PosInf

  predicate Le(a: Value, b: Value) {
    a.NegInf? || b.PosInf? || (a.Fin? && b.Fin? && a.n <= b.n)
  }

  predicate Lt(a: Value, b: Value) {
    !Le(b, a)
  }

  /** Python's `max(a, b)`: b only when it is strictly larger. */
  function Max(a: Value, b: Value): (r: Value)
    ensures Le(a, r) && Le(b, r) && (r == a || r == b)
  {
    if Lt(a, b) then b else a
  }

  /** Python's `min(a, b)`: b only when it is strictly smaller. */
  function Min(a: Value, b: Value): (r: Value)
    ensures Le(r, a) && Le(r, b) && (r == a || r == b)
  {
    if Lt(b, a) then b else a
  }

  /** A number of discs one side can have on the board. */
  predicate IsDiscCount(v: Value) {
    v.Fin? && 0 <= v.n <= 64
  }

  /** A lower window end the search starts from or has raised to a disc count. */
  predicate LowEnd(v: Value) {
    v.NegInf? || IsDiscCount(v)
  }

  /** An upper window end the search starts from or has lowered to a disc count. */
  predicate HighEnd(v: Value) {
    v.PosInf? || IsDiscCount(v)
  }

  /** What a call returns: its value, the shared counter `self.depth`
      afterwards, and, counted apart from the counter, how many calls of
      max_alpha_beta / min_alpha_beta it made (itself included) and how many
      of those went on to search replies. */
  datatype Outcome = Outcome(value: Value, depth: int, calls: nat, expanded: nat)

  /** `max_depth`. */
  const MaxDepth := 20

  /** How many more calls may still look past their own position. */
  function Budget(depth: int): nat {
    if depth >= MaxDepth then 0 else MaxDepth - depth
  }

  /** How many of the counter values lo, ..., hi - 1 still let a call
      search replies (those below `max_depth` - 1). */
  function Span(lo: int, hi: int): nat {
    var top := if hi < MaxDepth - 1 then hi else MaxDepth - 1;
    if top <= lo then 0 else top - lo
  }

  /** The board of `temp_board` after the move is simulated: the runs the
      side to move brackets from `move` are flipped, then `placed` is put on
      `move` (X in the maximising half, O in the minimising one, whoever moves). */
  function Successor(g: Grid, side: Side, move: Coord, placed: Side): (t: Grid)
    requires OnBoard(move.0, move.1)
    ensures At(t, move) == Disc(placed)
  {
    Place(AfterFlips(g, side, move), move, Disc(placed))
  }

  /** Simulating a move puts the placed disc on the move cell and otherwise
      only turns opponent discs of the side to move into its own. */
  lemma SuccessorChanges(g: Grid, side: Side, move: Coord, placed: Side)
    requires OnBoard(move.0, move.1)
    ensures var t := Successor(g, side, move, placed);
      forall x, y :: OnBoard(x, y) && (x, y) != move && t[x][y] != g[x][y] ==>
        g[x][y] == Disc(Other(side)) && t[x][y] == Disc(side)
  {
    AfterFlipsChanges(g, side, move);
  }

  /** `max_alpha_beta(current_state, move, alpha, beta)` with the counter at
      `depth`: the position on the board g with `side` to move. When the
      simulated move leaves no reply, or the counter has reached
      `max_depth`, the value is X's disc count on g itself, before the move. */
  function MaxAB(g: Grid, side: Side, move: Coord, alpha: Value, beta: Value, depth: int): (r: Outcome)
    requires OnBoard(move.0, move.1)
    ensures r.depth > depth
    ensures LowEnd(alpha) && HighEnd(beta) ==> IsDiscCount(r.value)
    ensures r.value == Fin(Score(g, X)) || (Le(r.value, beta) && (Le(alpha, r.value) || r.value == beta))
    decreases Budget(depth), 0, 0
  {
    var t := Successor(g, side, move, X);
    var moves := ValidMoves(t, Other(side), false, false);
    if |moves| == 0 || depth + 1 >= MaxDepth then Outcome(Fin(Score(g, X)), depth + 1, 1, 0)
    else
      ValidMovesOnBoard(t, Other(side), false, false);
      var r := MaxLoop(t, Other(side), moves, 0, alpha, beta, depth + 1);
      Outcome(r.value, r.depth, r.calls + 1, r.expanded + 1)
  }

  /** The `for move in possible_moves` loop of `max_alpha_beta` from the i-th
      move on, with alpha raised so far: each reply is searched by the
      minimising half, and the loop stops with beta once alpha reaches it. */
  function MaxLoop(t: Grid, side: Side, moves: seq<Coord>, i: int, alpha: Value, beta: Value, depth: int): (r: Outcome)
    requires 0 <= i <= |moves|
    requires forall j :: 0 <= j < |moves| ==> OnBoard(moves[j].0, moves[j].1)
    ensures r.depth >= depth
    ensures LowEnd(alpha) && HighEnd(beta) && (i < |moves| || IsDiscCount(alpha)) ==> IsDiscCount(r.value)
    ensures Le(alpha, r.value) || r.value == beta
    ensures i < |moves| || Lt(alpha, beta) ==> Le(r.value, beta)
    decreases Budget(depth), 1, |moves| - i
  {
    if i == |moves| then Outcome(alpha, depth, 0, 0)
    else
      var r := MinAB(t, side, moves[i], alpha, beta, depth);
      var a := Max(r.value, alpha);
      if Le(beta, a) then Outcome(beta, r.depth, r.calls, r.expanded)
      else
        var rest := MaxLoop(t, side, moves, i + 1, a, beta, r.depth);
        Outcome(rest.value, rest.depth, r.calls + rest.calls, r.expanded + rest.expanded)
  }

  /** `min_alpha_beta`: the mirror image of MaxAB, placing O and scoring O's discs. */
  function MinAB(g: Grid, side: Side, move: Coord, alpha: Value, beta: Value, depth: int): (r: Outcome)
    requires OnBoard(move.0, move.1)
    ensures r.depth > depth
    ensures LowEnd(alpha) && HighEnd(beta) ==> IsDiscCount(r.value)
    ensures r.value == Fin(Score(g, O)) || (Le(alpha, r.value) && (Le(r.value, beta) || r.value == alpha))
    decreases Budget(depth), 0, 0
  {
    var t := Successor(g, side, move, O);
    var moves := ValidMoves(t, Other(side), false, false);
    if |moves| == 0 || depth + 1 >= MaxDepth then Outcome(Fin(Score(g, O)), depth + 1, 1, 0)
    else
      ValidMovesOnBoard(t, Other(side), false, false);
      var r := MinLoop(t, Other(side), moves, 0, alpha, beta, depth + 1);
      Outcome(r.value, r.depth, r.calls + 1, r.expanded + 1)
  }

  /** The loop of `min_alpha_beta`: beta is lowered by each reply, and the
      loop stops with alpha once beta reaches it. */
  function MinLoop(t: Grid, side: Side, moves: seq<Coord>, i: int, alpha: Value, beta: Value, depth: int): (r: Outcome)
    requires 0 <= i <= |moves|
    requires forall j :: 0 <= j < |moves| ==> OnBoard(moves[j].0, moves[j].1)
    ensures r.depth >= depth
    ensures LowEnd(alpha) && HighEnd(beta) && (i < |moves| || IsDiscCount(beta)) ==> IsDiscCount(r.value)
    ensures Le(r.value, beta) || r.value == alpha
    ensures i < |moves| || Lt(alpha, beta) ==> Le(alpha, r.value)
    decreases Budget(depth), 1, |moves| - i
  {
    if i == |moves| then Outcome(beta, depth, 0, 0)
    else
      var r := MaxAB(t, side, moves[i], alpha, beta, depth);
      var b := Min(r.value, beta);
      if Le(b, alpha) then Outcome(alpha, r.depth, r.calls, r.expanded)
      else
        var rest := MinLoop(t, side, moves, i + 1, alpha, b, r.depth);
        Outcome(rest.value, rest.depth, r.calls + rest.calls, r.expanded + rest.expanded)
  }

  /** The counter counts calls: a call of max_alpha_beta advances it by
      exactly the number of calls it makes, and only the calls that find
      the counter below `max_depth` - 1 search replies. */
  lemma {:induction false} MaxABCounts(g: Grid, side: Side, move: Coord, alpha: Value, beta: Value, depth: int)
    requires OnBoard(move.0, move.1)
    ensures MaxAB(g, side, move, alpha, beta, depth).calls >= 1
    ensures MaxAB(g, side, move, alpha, beta, depth).depth == depth + MaxAB(g, side, move, alpha, beta, depth).calls
    ensures MaxAB(g, side, move, alpha, beta, depth).expanded <= Span(depth, MaxAB(g, side, move, alpha, beta, depth).depth)
    decreases Budget(depth), 0, 0
  {
    var t := Successor(g, side, move, X);
    var moves := ValidMoves(t, Other(side), false, false);
    if |moves| != 0 && depth + 1 < MaxDepth {
      ValidMovesOnBoard(t, Other(side), false, false);
      MaxLoopCounts(t, Other(side), moves, 0, alpha, beta, depth + 1);
    }
  }

  lemma {:induction false} MaxLoopCounts(t: Grid, side: Side, moves: seq<Coord>, i: int, alpha: Value, beta: Value, depth: int)
    requires 0 <= i <= |moves|
    requires forall j :: 0 <= j < |moves| ==> OnBoard(moves[j].0, moves[j].1)
    ensures MaxLoop(t, side, moves, i, alpha, beta, depth).depth == depth + MaxLoop(t, side, moves, i, alpha, beta, depth).calls
    ensures MaxLoop(t, side, moves, i, alpha, beta, depth).expanded <= Span(depth, MaxLoop(t, side, moves, i, alpha, beta, depth).depth)
    decreases Budget(depth), 1, |moves| - i
  {
    if i < |moves| {
      var r := MinAB(t, side, moves[i], alpha, beta, depth);
      MinABCounts(t, side, moves[i], alpha, beta, depth);
      var a := Max(r.value, alpha);
      if !Le(beta, a) {
        MaxLoopCounts(t, side, moves, i + 1, a, beta, r.depth);
      }
    }
  }

  lemma {:induction false} MinABCounts(g: Grid, side: Side, move: Coord, alpha: Value, beta: Value, depth: int)
    requires OnBoard(move.0, move.1)
    ensures MinAB(g, side, move, alpha, beta, depth).calls >= 1
    ensures MinAB(g, side, move, alpha, beta, depth).depth == depth + MinAB(g, side, move, alpha, beta, depth).calls
    ensures MinAB(g, side, move, alpha, beta, depth).expanded <= Span(depth, MinAB(g, side, move, alpha, beta, depth).depth)
    decreases Budget(depth), 0, 0
  {
    var t := Successor(g, side, move, O);
    var moves := ValidMoves(t, Other(side), false, false);
    if |moves| != 0 && depth + 1 < MaxDepth {
      ValidMovesOnBoard(t, Other(side), false, false);
      MinLoopCounts(t, Other(side), moves, 0, alpha, beta, depth + 1);
    }
  }

  lemma {:induction false} MinLoopCounts(t: Grid, side: Side, moves: seq<Coord>, i: int, alpha: Value, beta: Value, depth: int)
    requires 0 <= i <= |moves|
    requires forall j :: 0 <= j < |moves| ==> OnBoard(moves[j].0, moves[j].1)
    ensures MinLoop(t, side, moves, i, alpha, beta, depth).depth == depth + MinLoop(t, side, moves, i, alpha, beta, depth).calls
    ensures MinLoop(t, side, moves, i, alpha, beta, depth).expanded <= Span(depth, MinLoop(t, side, moves, i, alpha, beta, depth).depth)
    decreases Budget(depth), 1, |moves| - i
  {
    if i < |moves| {
      var r := MaxAB(t, side, moves[i], alpha, beta, depth);
      MaxABCounts(t, side, moves[i], alpha, beta, depth);
      var b := Min(r.value, beta);
      if !Le(b, alpha) {
        MinLoopCounts(t, side, moves, i + 1, alpha, b, r.depth);
      }
    }
  }

  /** How MaxAB opens: the simulated move, then a leaf or the replies. */
  lemma OpenMax(g: Grid, side: Side, move: Coord, alpha: Value, beta: Value, depth: int, t: Grid, ms: seq<Coord>)
    requires OnBoard(move.0, move.1) && t == Successor(g, side, move, X)
    requires ms == ValidMoves(t, Other(side), false, false)
    requires forall j :: 0 <= j < |ms| ==> OnBoard(ms[j].0, ms[j].1)
    ensures MaxAB(g, side, move, alpha, beta, depth) ==
      if |ms| == 0 || depth + 1 >= MaxDepth then Outcome(Fin(Score(g, X)), depth + 1, 1, 0)
      else
        var r := MaxLoop(t, Other(side), ms, 0, alpha, beta, depth + 1);
        Outcome(r.value, r.depth, r.calls + 1, r.expanded + 1)
  {
  }

  /** How MinAB opens. */
  lemma OpenMin(g: Grid, side: Side, move: Coord, alpha: Value, beta: Value, depth: int, t: Grid, ms: seq<Coord>)
    requires OnBoard(move.0, move.1) && t == Successor(g, side, move, O)
    requires ms == ValidMoves(t, Other(side), false, false)
    requires forall j :: 0 <= j < |ms| ==> OnBoard(ms[j].0, ms[j].1)
    ensures MinAB(g, side, move, alpha, beta, depth) ==
      if |ms| == 0 || depth + 1 >= MaxDepth then Outcome(Fin(Score(g, O)), depth + 1, 1, 0)
      else
        var r := MinLoop(t, Other(side), ms, 0, alpha, beta, depth + 1);
        Outcome(r.value, r.depth, r.calls + 1, r.expanded + 1)
  {
  }

  /** `minimax_with_pruning(move)` on a game whose board is g and whose
      side to move is `side`: X's turn is searched by the maximising half,
      O's by the minimising one, over the whole window. */
  function Search(g: Grid, side: Side, move: Coord, depth: int): (r: Outcome)
    requires OnBoard(move.0, move.1)
    ensures IsDiscCount(r.value) && r.depth > depth
  {
    if side == X then MaxAB(g, side, move, NegInf, PosInf, depth)
    else MinAB(g, side, move, NegInf, PosInf, depth)
  }

  /** Whatever the tree, the search rates a move by an actual disc count:
      neither infinite window end can come back out. */
  lemma SearchIsDiscCount(g: Grid, side: Side, move: Coord, depth: int)
    requires OnBoard(move.0, move.1)
    ensures IsDiscCount(Search(g, side, move, depth).value)
  {
  }

  /** Inside a window, a call that searches replies returns a value in
      [alpha, beta]: beta itself when a reply reaches it (the cutoff),
      otherwise the best reply value or alpha. */
  lemma MaxABWindow(g: Grid, side: Side, move: Coord, alpha: Value, beta: Value, depth: int)
    requires OnBoard(move.0, move.1) && Lt(alpha, beta) && depth + 1 < MaxDepth
    requires |ValidMoves(Successor(g, side, move, X), Other(side), false, false)| > 0
    ensures Le(alpha, MaxAB(g, side, move, alpha, beta, depth).value)
    ensures Le(MaxAB(g, side, move, alpha, beta, depth).value, beta)
  {
  }

  /** The mirror image for the minimising half, where the cutoff returns alpha. */
  lemma MinABWindow(g: Grid, side: Side, move: Coord, alpha: Value, beta: Value, depth: int)
    requires OnBoard(move.0, move.1) && Lt(alpha, beta) && depth + 1 < MaxDepth
    requires |ValidMoves(Successor(g, side, move, O), Other(side), false, false)| > 0
    ensures Le(alpha, MinAB(g, side, move, alpha, beta, depth).value)
    ensures Le(MinAB(g, side, move, alpha, beta, depth).value, beta)
  {
  }

  /** The shared counter advances by exactly one per call, and however many
      calls a search makes, at most `max_depth` - 1 of them ever search
      replies: the cap that makes the search finish. */
  lemma SearchCallCount(g: Grid, side: Side, move: Coord, depth: int)
    requires OnBoard(move.0, move.1)
    ensures var r := Search(g, side, move, depth);
      r.depth == depth + r.calls && r.expanded <= Budget(depth + 1)
  {
    MaxABCounts(g, side, move, NegInf, PosInf, depth);
    MinABCounts(g, side, move, NegInf, PosInf, depth);
  }

  /** Once the shared counter has reached `max_depth`, every further call
      looks no deeper than its own position and advances the counter by one. */
  lemma CounterSpent(g: Grid, side: Side, move: Coord, alpha: Value, beta: Value, depth: int)
    requires OnBoard(move.0, move.1) && depth + 1 >= MaxDepth
    ensures MaxAB(g, side, move, alpha, beta, depth) == Outcome(Fin(Score(g, X)), depth + 1, 1, 0)
    ensures MinAB(g, side, move, alpha, beta, depth) == Outcome(Fin(Score(g, O)), depth + 1, 1, 0)
  {
  }

  /** The search of search.py: a game of its own to search from, and the counter. */
  class Minimax {
    var game: Game
    var depth: int

    ghost predicate Valid()
      reads this, game, game.board
    {
      game.Valid()
    }

    /** `Minimax(current_state, player_side, opponent_type, current_side)`:
        a plain-rules game on a private copy of the board. */
    constructor (currentState: Game, currentSide: Side)
      requires currentState.Valid()
      ensures Valid() && fresh(game) && fresh(game.board)
      ensures game.cells == currentState.cells && game.currentSide == currentSide
      ensures !game.isOthello && !game.isInitialMove && depth == 0
    {
      game := new Game.Copy(false, currentState, currentSide, false);
      depth := 0;
    }

    /** The opening lines of both halves of the search: a plain-rules copy
        of currentState's board with its side to move, on which `move` is
        played (its runs flipped, then `placed` put down), the turn passed,
        and the replies listed. */
    static method Simulate(currentState: Game, move: Coord, placed: Side)
      returns (tempBoard: Game, possibleMoves: seq<Coord>)
      requires currentState.Valid() && OnBoard(move.0, move.1)
      ensures fresh(tempBoard) && fresh(tempBoard.board) && tempBoard.Valid()
      ensures tempBoard.cells == Successor(currentState.cells, currentState.currentSide, move, placed)
      ensures tempBoard.currentSide == Other(currentState.currentSide)
      ensures possibleMoves == ValidMoves(tempBoard.cells, tempBoard.currentSide, false, false)
      ensures forall j :: 0 <= j < |possibleMoves| ==> OnBoard(possibleMoves[j].0, possibleMoves[j].1)
    {
      tempBoard := new Game.Copy(false, currentState, currentState.currentSide, false);
      var _ := tempBoard.CheckIsValidMove(move.0, move.1, true);
      tempBoard.PlaceDisc(move.0, move.1, Disc(placed));
      tempBoard.ChangeSide();
      possibleMoves := tempBoard.GetValidMoves();
      ValidMovesOnBoard(tempBoard.cells, tempBoard.currentSide, false, false);
    }

    /** `max_alpha_beta`: advance the counter, simulate `move` on a copy of
        currentState's board, then either score currentState for X (no reply,
        or the counter at `max_depth`) or search the replies. */
    method MaxAlphaBeta(currentState: Game, move: Coord, alpha: Value, beta: Value) returns (score: Value)
      requires currentState.Valid() && OnBoard(move.0, move.1)
      modifies this`depth
      ensures score == MaxAB(currentState.cells, currentState.currentSide, move, alpha, beta, old(depth)).value
      ensures depth == MaxAB(currentState.cells, currentState.currentSide, move, alpha, beta, old(depth)).depth
      decreases Budget(depth), 0
    {
      depth := depth + 1;
      var tempBoard, possibleMoves := Simulate(currentState, move, X);
      OpenMax(currentState.cells, currentState.currentSide, move, alpha, beta, old(depth), tempBoard.cells, possibleMoves);
      if |possibleMoves| == 0 || depth >= MaxDepth {
        var scores := currentState.CalcScore();
        return Fin(scores[X]);
      }
      score := MaxReplies(tempBoard, possibleMoves, alpha, beta);
    }

    /** The `for move in possible_moves` loop of `max_alpha_beta`: alpha is
        raised by each reply's value under the minimising half, and beta is
        returned as soon as alpha reaches it. */
    method MaxReplies(tempBoard: Game, possibleMoves: seq<Coord>, alpha: Value, beta: Value) returns (score: Value)
      requires tempBoard.Valid()
      requires forall j :: 0 <= j < |possibleMoves| ==> OnBoard(possibleMoves[j].0, possibleMoves[j].1)
      modifies this`depth
      ensures score == MaxLoop(tempBoard.cells, tempBoard.currentSide, possibleMoves, 0, alpha, beta, old(depth)).value
      ensures depth == MaxLoop(tempBoard.cells, tempBoard.currentSide, possibleMoves, 0, alpha, beta, old(depth)).depth
      decreases Budget(depth), 1
    {
      ghost var t, side := tempBoard.cells, tempBoard.currentSide;
      var a := alpha;
      for i := 0 to |possibleMoves|
        invariant depth >= old(depth)
        invariant MaxLoop(t, side, possibleMoves, i, a, beta, depth).value ==
          MaxLoop(t, side, possibleMoves, 0, alpha, beta, old(depth)).value
        invariant MaxLoop(t, side, possibleMoves, i, a, beta, depth).depth ==
          MaxLoop(t, side, possibleMoves, 0, alpha, beta, old(depth)).depth
      {
        var s := MinAlphaBeta(tempBoard, possibleMoves[i], a, beta);
        a := Max(s, a);
        if Le(beta, a) {
          return beta;
        }
      }
      return a;
    }

    /** `min_alpha_beta`: the mirror image, placing O and scoring O. */
    method MinAlphaBeta(currentState: Game, move: Coord, alpha: Value, beta: Value) returns (score: Value)
      requires currentState.Valid() && OnBoard(move.0, move.1)
      modifies this`depth
      ensures score == MinAB(currentState.cells, currentState.currentSide, move, alpha, beta, old(depth)).value
      ensures depth == MinAB(currentState.cells, currentState.currentSide, move, alpha, beta, old(depth)).depth
      decreases Budget(depth), 0
    {
      depth := depth + 1;
      var tempBoard, possibleMoves := Simulate(currentState, move, O);
      OpenMin(currentState.cells, currentState.currentSide, move, alpha, beta, old(depth), tempBoard.cells, possibleMoves);
      if |possibleMoves| == 0 || depth >= MaxDepth {
        var scores := currentState.CalcScore();
        return Fin(scores[O]);
      }
      score := MinReplies(tempBoard, possibleMoves, alpha, beta);
    }

    /** The loop of `min_alpha_beta`: beta is lowered by each reply's value
        under the maximising half, and alpha is returned as soon as beta
        reaches it. */
    method MinReplies(tempBoard: Game, possibleMoves: seq<Coord>, alpha: Value, beta: Value) returns (score: Value)
      requires tempBoard.Valid()
      requires forall j :: 0 <= j < |possibleMoves| ==> OnBoard(possibleMoves[j].0, possibleMoves[j].1)
      modifies this`depth
      ensures score == MinLoop(tempBoard.cells, tempBoard.currentSide, possibleMoves, 0, alpha, beta, old(depth)).value
      ensures depth == MinLoop(tempBoard.cells, tempBoard.currentSide, possibleMoves, 0, alpha, beta, old(depth)).depth
      decreases Budget(depth), 1
    {
      ghost var t, side := tempBoard.cells, tempBoard.currentSide;
      var b := beta;
      for i := 0 to |possibleMoves|
        invariant depth >= old(depth)
        invariant MinLoop(t, side, possibleMoves, i, alpha, b, depth).value ==
          MinLoop(t, side, possibleMoves, 0, alpha, beta, old(depth)).value
        invariant MinLoop(t, side, possibleMoves, i, alpha, b, depth).depth ==
          MinLoop(t, side, possibleMoves, 0, alpha, beta, old(depth)).depth
      {
        var s := MaxAlphaBeta(tempBoard, possibleMoves[i], alpha, b);
        b := Min(s, b);
        if Le(b, alpha) {
          return alpha;
        }
      }
      return b;
    }

    /** `minimax_with_pruning(move)`: rate `move` for the side to move in
        the search's own game, over the full window. */
    method MinimaxWithPruning(move: Coord) returns (score: Value)
      requires Valid() && OnBoard(move.0, move.1)
      modifies this`depth
      ensures score == Search(game.cells, game.currentSide, move, old(depth)).value
      ensures depth == Search(game.cells, game.currentSide, move, old(depth)).depth
      ensures IsDiscCount(score)
    {
      SearchIsDiscCount(game.cells, game.currentSide, move, depth);
      if game.currentSide == X {
        score := MaxAlphaBeta(game, move, NegInf, PosInf);
      } else {
        score := MinAlphaBeta(game, move, NegInf, PosInf);
      }
    }
  }
}
