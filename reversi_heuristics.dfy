// Evaluation heuristics for the Reversi search: corner captivity, coin
// parity and mobility. A board here is a dictionary from 1-based
// (row, column) squares to discs; a square with no entry reads as empty.

module ReversiHeuristics {
  import opened ReversiRules

  datatype Option<T> = None | Some(value: T)

  type Square = (int, int)
  type DictBoard = map<Square, Cell>

  /** `board.get(sq)`: a missing key reads as no disc. */
  function Get(board: DictBoard, sq: Square): (c: Cell)
    ensures sq !in board ==> c == Empty
    ensures sq in board ==> c == board[sq]
  {
    if sq in board then board[sq] else Empty
  }

  // ---------------------------------------------------------------------------
  // Corner captivity
  // ---------------------------------------------------------------------------

  /** Worth of one square to `player`: 0 when empty, 1 when theirs, -1 otherwise. */
  function DiscValue(position: Cell, player: Side): (r: real)
    ensures r == 1.0 <==> position == Disc(player)
    ensures r == -1.0 <==> position == Disc(Other(player))
    ensures r == 0.0 <==> position == Empty
  {
    if !position.Disc? then 0.0
    else if position == Disc(player) then 1.0
    else -1.0
  }

  lemma DiscValueSwap(position: Cell, player: Side)
    ensures DiscValue(position, Other(player)) == -DiscValue(position, player)
  {
  }

  /** Sum of the disc values of `cells`, added left to right. */
  function SumValues(cells: seq<Cell>, player: Side): real
  {
    if |cells| == 0 then 0.0
    else SumValues(cells[..|cells| - 1], player) + DiscValue(cells[|cells| - 1], player)
  }

  /** Number of entries of `cells` equal to `c`. */
  function Count(cells: seq<Cell>, c: Cell): (n: nat)
    ensures n <= |cells|
  {
    if |cells| == 0 then 0
    else Count(cells[..|cells| - 1], c) + (if cells[|cells| - 1] == c then 1 else 0)
  }

  /** The player's discs minus the opponent's discs among `cells`. */
  function Net(cells: seq<Cell>, player: Side): int
  {
    Count(cells, Disc(player)) - Count(cells, Disc(Other(player)))
  }

  /** The disc values sum to the difference of the two disc counts. */
  lemma {:induction false} SumValuesIsNet(cells: seq<Cell>, player: Side)
    ensures SumValues(cells, player) == Net(cells, player) as real
  {
    if |cells| > 0 {
      SumValuesIsNet(cells[..|cells| - 1], player);
    }
  }

  lemma {:induction false} CountsBounded(cells: seq<Cell>, player: Side)
    ensures Count(cells, Disc(player)) + Count(cells, Disc(Other(player))) <= |cells|
  {
    if |cells| > 0 {
      CountsBounded(cells[..|cells| - 1], player);
    }
  }

  /** The three squares next to a corner, as the heuristic reads them. */
  function Adjacent(board: DictBoard, adjacentLocs: seq<Square>): (cells: seq<Cell>)
    requires |adjacentLocs| >= 3
    ensures |cells| == 3
    ensures forall i :: 0 <= i < 3 ==> cells[i] == Get(board, adjacentLocs[i])
  {
    [Get(board, adjacentLocs[0]), Get(board, adjacentLocs[1]), Get(board, adjacentLocs[2])]
  }

  /** What `adjacent_score` returns: the adjacent disc values weighted by -33.33. */
  function AdjacentValue(board: DictBoard, player: Side, adjacentLocs: seq<Square>): real
    requires |adjacentLocs| >= 3
  {
    SumValues(Adjacent(board, adjacentLocs), player) * -33.33
  }

  /** Penalty for the player's discs next to a corner, bonus for the opponent's. */
  method AdjacentScore(board: DictBoard, player: Side, adjacentLocs: seq<Square>) returns (score: real)
    requires |adjacentLocs| >= 3
    ensures score == AdjacentValue(board, player, adjacentLocs)
  {
    score := 0.0;
    var adjacent := [Get(board, adjacentLocs[0]), Get(board, adjacentLocs[1]), Get(board, adjacentLocs[2])];
    for i := 0 to |adjacent|
      invariant score == SumValues(adjacent[..i], player)
    {
      assert adjacent[..i + 1][..i] == adjacent[..i];
      score := score + DiscValue(adjacent[i], player);
    }
    assert adjacent[..|adjacent|] == adjacent;
    return score * -33.33;
  }

  /** Python's `round`: to the nearest integer, ties to the even one. */
  function Round(r: real): (n: int)
    ensures n as real - 0.5 <= r <= n as real + 0.5
  {
    var f := r.Floor;
    var frac := r - f as real;
    if frac < 0.5 then f
    else if frac > 0.5 then f + 1
    else if f % 2 == 0 then f
    else f + 1
  }

  lemma RoundOfInt(n: int)
    ensures Round(n as real) == n
  {
  }

  /** An occupied corner scores 100 times its disc value, an empty one its adjacent value; a quarter of it, rounded. */
  function CornerScore(board: DictBoard, player: Side, corner: Square, adjacentLocs: seq<Square>): int
    requires |adjacentLocs| >= 3
  {
    var inCorner := Get(board, corner);
    var total := if !inCorner.Disc? then AdjacentValue(board, player, adjacentLocs)
                 else 100.0 * DiscValue(inCorner, player);
    Round(total * 0.25)
  }

  /** The score of an empty corner, by the net number of the player's discs next to it. */
  function EmptyCornerTable(net: int): int
  {
    if net == 1 then -8
    else if net == 2 then -17
    else if net == 3 then -25
    else if net == -1 then 8
    else if net == -2 then 17
    else if net == -3 then 25
    else 0
  }

  lemma EmptyCornerTableOdd(net: int)
    ensures EmptyCornerTable(-net) == -EmptyCornerTable(net)
  {
  }

  lemma {:induction false} RoundedAdjacent(net: int)
    requires -3 <= net <= 3
    ensures Round(net as real * -33.33 * 0.25) == EmptyCornerTable(net)
  {
    var x := net as real * -33.33 * 0.25;
    if net == 3 {
      assert x == -24.9975 && x.Floor == -25;
    } else if net == 2 {
      assert x == -16.665 && x.Floor == -17;
    } else if net == 1 {
      assert x == -8.3325 && x.Floor == -9;
    } else if net == 0 {
      assert x == 0.0 && x.Floor == 0;
    } else if net == -1 {
      assert x == 8.3325 && x.Floor == 8;
    } else if net == -2 {
      assert x == 16.665 && x.Floor == 16;
    } else {
      assert x == 24.9975 && x.Floor == 24;
    }
  }

  /**
   * A corner held by the player is worth +25 and one held by the opponent
   * -25, whatever lies next to it; an empty corner is worth -8, -17 or -25
   * for one, two or three of the player's discs next to it, the negation of
   * that for the opponent's, and 0 when they balance.
   */
  lemma CornerScoreSpec(board: DictBoard, player: Side, corner: Square, adjacentLocs: seq<Square>)
    requires |adjacentLocs| >= 3
    ensures Get(board, corner) == Disc(player) ==> CornerScore(board, player, corner, adjacentLocs) == 25
    ensures Get(board, corner) == Disc(Other(player)) ==> CornerScore(board, player, corner, adjacentLocs) == -25
    ensures Get(board, corner) == Empty ==>
      CornerScore(board, player, corner, adjacentLocs) == EmptyCornerTable(Net(Adjacent(board, adjacentLocs), player))
  {
    var cells := Adjacent(board, adjacentLocs);
    if Get(board, corner) == Empty {
      SumValuesIsNet(cells, player);
      CountsBounded(cells, player);
      RoundedAdjacent(Net(cells, player));
    } else {
      RoundOfInt(25);
      RoundOfInt(-25);
    }
  }

  lemma CornerScoreRange(board: DictBoard, player: Side, corner: Square, adjacentLocs: seq<Square>)
    requires |adjacentLocs| >= 3
    ensures CornerScore(board, player, corner, adjacentLocs) in {-25, -17, -8, 0, 8, 17, 25}
  {
    CornerScoreSpec(board, player, corner, adjacentLocs);
  }

  lemma CornerScoreSwap(board: DictBoard, player: Side, corner: Square, adjacentLocs: seq<Square>)
    requires |adjacentLocs| >= 3
    ensures CornerScore(board, Other(player), corner, adjacentLocs) == -CornerScore(board, player, corner, adjacentLocs)
  {
    CornerScoreSpec(board, player, corner, adjacentLocs);
    CornerScoreSpec(board, Other(player), corner, adjacentLocs);
    assert Other(Other(player)) == player;
    EmptyCornerTableOdd(Net(Adjacent(board, adjacentLocs), player));
  }

  /** The corner captivity heuristic: the four corners' scores added. */
  function CornerCaptivity(board: DictBoard, player: Side): int
  {
    CornerScore(board, player, (1, 1), [(2, 1), (1, 2), (2, 2)])
    + CornerScore(board, player, (8, 1), [(7, 1), (8, 2), (7, 2)])
    + CornerScore(board, player, (1, 8), [(1, 7), (2, 7), (3, 8)])
    + CornerScore(board, player, (8, 8), [(8, 7), (7, 7), (7, 8)])
  }

  lemma CornerCaptivityBounds(board: DictBoard, player: Side)
    ensures -100 <= CornerCaptivity(board, player) <= 100
  {
    CornerScoreRange(board, player, (1, 1), [(2, 1), (1, 2), (2, 2)]);
    CornerScoreRange(board, player, (8, 1), [(7, 1), (8, 2), (7, 2)]);
    CornerScoreRange(board, player, (1, 8), [(1, 7), (2, 7), (3, 8)]);
    CornerScoreRange(board, player, (8, 8), [(8, 7), (7, 7), (7, 8)]);
  }

  /** Scoring for the opponent gives the negated score. */
  lemma CornerCaptivitySwap(board: DictBoard, player: Side)
    ensures CornerCaptivity(board, Other(player)) == -CornerCaptivity(board, player)
  {
    CornerScoreSwap(board, player, (1, 1), [(2, 1), (1, 2), (2, 2)]);
    CornerScoreSwap(board, player, (8, 1), [(7, 1), (8, 2), (7, 2)]);
    CornerScoreSwap(board, player, (1, 8), [(1, 7), (2, 7), (3, 8)]);
    CornerScoreSwap(board, player, (8, 8), [(8, 7), (7, 7), (7, 8)]);
  }

  /** +1 for the player's disc, -1 for the opponent's, 0 for no disc. */
  function Sign(c: Cell, player: Side): int
  {
    if c == Disc(player) then 1 else if c == Disc(Other(player)) then -1 else 0
  }

  lemma NetOfThree(cells: seq<Cell>, player: Side)
    requires |cells| == 3
    ensures Net(cells, player) == Sign(cells[0], player) + Sign(cells[1], player) + Sign(cells[2], player)
  {
    NetStep(cells, player);
    assert cells[..2][..1] == cells[..1];
    NetStep(cells[..2], player);
    NetStep(cells[..1], player);
  }

  lemma NetStep(cells: seq<Cell>, player: Side)
    requires |cells| > 0
    ensures Net(cells, player) == Net(cells[..|cells| - 1], player) + Sign(cells[|cells| - 1], player)
  {
  }

  /** The score of one corner as a table: +25, -25, or the empty-corner table. */
  function CornerReference(board: DictBoard, player: Side, corner: Square, adjacentLocs: seq<Square>): int
    requires |adjacentLocs| >= 3
  {
    var inCorner := Get(board, corner);
    if inCorner == Disc(player) then 25
    else if inCorner == Disc(Other(player)) then -25
    else EmptyCornerTable(Sign(Get(board, adjacentLocs[0]), player) + Sign(Get(board, adjacentLocs[1]), player)
                          + Sign(Get(board, adjacentLocs[2]), player))
  }

  /** The corner captivity score is the sum of the four corners' table values. */
  lemma CornerCaptivityByTable(board: DictBoard, player: Side)
    ensures CornerCaptivity(board, player) ==
      CornerReference(board, player, (1, 1), [(2, 1), (1, 2), (2, 2)])
      + CornerReference(board, player, (8, 1), [(7, 1), (8, 2), (7, 2)])
      + CornerReference(board, player, (1, 8), [(1, 7), (2, 7), (3, 8)])
      + CornerReference(board, player, (8, 8), [(8, 7), (7, 7), (7, 8)])
  {
    CornerByTable(board, player, (1, 1), [(2, 1), (1, 2), (2, 2)]);
    CornerByTable(board, player, (8, 1), [(7, 1), (8, 2), (7, 2)]);
    CornerByTable(board, player, (1, 8), [(1, 7), (2, 7), (3, 8)]);
    CornerByTable(board, player, (8, 8), [(8, 7), (7, 7), (7, 8)]);
  }

  lemma CornerByTable(board: DictBoard, player: Side, corner: Square, adjacentLocs: seq<Square>)
    requires |adjacentLocs| >= 3
    ensures CornerScore(board, player, corner, adjacentLocs) == CornerReference(board, player, corner, adjacentLocs)
  {
    CornerScoreSpec(board, player, corner, adjacentLocs);
    NetOfThree(Adjacent(board, adjacentLocs), player);
  }

  /** On a board whose only squares are at the (1,1) corner, that corner alone scores. */
  lemma OnlyFirstCorner(board: DictBoard, player: Side)
    requires forall sq :: sq in board ==> sq.0 <= 2 && sq.1 <= 2
    ensures CornerCaptivity(board, player) == CornerReference(board, player, (1, 1), [(2, 1), (1, 2), (2, 2)])
  {
    CornerCaptivityByTable(board, player);
    assert (8, 1) !in board && (7, 1) !in board && (8, 2) !in board && (7, 2) !in board;
    assert (1, 8) !in board && (1, 7) !in board && (2, 7) !in board && (3, 8) !in board;
    assert (8, 8) !in board && (8, 7) !in board && (7, 7) !in board && (7, 8) !in board;
  }

  /** A corner held by X, or by O, scored for X. */
  lemma OneCornerExample(board: DictBoard, side: Side)
    requires board == map[(1, 1) := Disc(side)]
    ensures CornerCaptivity(board, X) == if side == X then 25 else -25
  {
    OnlyFirstCorner(board, X);
  }

  /** Two corners held: both by X, or one each, scored for X. */
  lemma TwoCornersExample(board: DictBoard, side: Side)
    requires board == map[(1, 8) := Disc(X), (8, 8) := Disc(side)]
    ensures CornerCaptivity(board, X) == if side == X then 50 else 0
  {
    CornerCaptivityByTable(board, X);
  }

  /** One disc next to the empty (1,1) corner, scored for X. */
  lemma OneAdjacentExample(board: DictBoard, side: Side)
    requires board == map[(2, 1) := Disc(side)]
    ensures CornerCaptivity(board, X) == if side == X then -8 else 8
  {
    OnlyFirstCorner(board, X);
  }

  /** Three discs of one colour next to the empty (1,1) corner, scored for X. */
  lemma ThreeAdjacentExample(board: DictBoard, side: Side)
    requires board == map[(2, 1) := Disc(side), (1, 2) := Disc(side), (2, 2) := Disc(side)]
    ensures CornerCaptivity(board, X) == if side == X then -25 else 25
  {
    OnlyFirstCorner(board, X);
  }

  /** One disc of each colour next to the empty (1,1) corner cancel out. */
  lemma MixedAdjacentExample(board: DictBoard)
    requires board == map[(2, 1) := Disc(X), (1, 2) := Disc(O)]
    ensures CornerCaptivity(board, X) == 0
  {
    OnlyFirstCorner(board, X);
  }

  /** A held corner outweighs the discs next to it, whoever holds them. */
  lemma HeldCornerExample(board: DictBoard, corner: Side, adjacent: Side)
    requires board == map[(1, 1) := Disc(corner), (2, 1) := Disc(adjacent), (1, 2) := Disc(adjacent), (2, 2) := Disc(adjacent)]
    ensures CornerCaptivity(board, X) == if corner == X then 25 else -25
  {
    OnlyFirstCorner(board, X);
    assert Get(board, (1, 1)) == Disc(corner);
  }

  // ---------------------------------------------------------------------------
  // Coin parity
  // ---------------------------------------------------------------------------

  /** Number of squares of `board` holding `c`. */
  function Holding(board: DictBoard, c: Cell): (n: nat)
    ensures n <= |board|
  {
    var s := set sq | sq in board && board[sq] == c;
    assert s <= board.Keys;
    Cardinality(s, board.Keys);
    |s|
  }

  lemma Cardinality<T>(a: set<T>, b: set<T>)
    requires a <= b
    ensures |a| <= |b|
  {
    if a != b {
      var e :| e in b && e !in a;
      Cardinality(a, b - {e});
    }
  }

  /**
   * The coin parity heuristic: 100 times the player's discs minus the
   * opponent's, over the number of entries of the board; no value for a
   * board without entries, where the division fails.
   */
  function CoinParity(board: DictBoard, player: Side): Option<real>
  {
    if |board| == 0 then None
    else Some(100.0 * (Holding(board, Disc(player)) - Holding(board, Disc(Other(player)))) as real / |board| as real)
  }

  lemma CoinParityDefined(board: DictBoard, player: Side)
    ensures CoinParity(board, player).None? <==> |board| == 0
  {
  }

  lemma CoinParitySwap(board: DictBoard, player: Side)
    ensures CoinParity(board, Other(player)).None? <==> CoinParity(board, player).None?
    ensures CoinParity(board, player).Some? ==>
      CoinParity(board, Other(player)).value == -CoinParity(board, player).value
  {
    assert Other(Other(player)) == player;
    if |board| > 0 {
      var a, b := Holding(board, Disc(player)) as real, Holding(board, Disc(Other(player))) as real;
      var n := |board| as real;
      var x := 100.0 * (a - b);
      assert 100.0 * (b - a) == -x;
      NegDiv(x, n);
    }
  }

  /** Both colours are counted over disjoint sets of squares. */
  lemma HoldingDisjoint(board: DictBoard, player: Side)
    ensures Holding(board, Disc(player)) + Holding(board, Disc(Other(player))) <= |board|
  {
    var mine := set sq | sq in board && board[sq] == Disc(player);
    var theirs := set sq | sq in board && board[sq] == Disc(Other(player));
    assert mine * theirs == {};
    assert mine + theirs <= board.Keys;
    Cardinality(mine + theirs, board.Keys);
  }

  lemma NegDiv(x: real, n: real)
    requires n != 0.0
    ensures (-x) / n == -(x / n)
  {
    var q := x / n;
    assert q * n == x;
    assert (-q) * n == -x;
  }

  lemma DivUnique(y: real, n: real, q: real)
    requires n != 0.0 && q * n == y
    ensures y / n == q
  {
    var r := y / n;
    assert r * n == y;
    assert (r - q) * n == 0.0;
  }

  /** A difference no larger than the total gives a percentage within 100 either way. */
  lemma RatioBounds(d: real, n: real)
    requires n > 0.0 && -n <= d <= n
    ensures -100.0 <= 100.0 * d / n <= 100.0
  {
    var q := d / n;
    assert q * n == d;
    DivUnique(100.0 * d, n, 100.0 * q);
  }

  lemma CoinParityBounds(board: DictBoard, player: Side)
    ensures CoinParity(board, player).Some? ==> -100.0 <= CoinParity(board, player).value <= 100.0
  {
    if |board| > 0 {
      HoldingDisjoint(board, player);
      var d := (Holding(board, Disc(player)) - Holding(board, Disc(Other(player)))) as real;
      RatioBounds(d, |board| as real);
    }
  }

  /** One X disc alone, or one O disc alone, scored for X. */
  lemma CoinParitySingle()
    ensures CoinParity(map[(4, 5) := Disc(X)], X) == Some(100.0)
    ensures CoinParity(map[(4, 5) := Disc(O)], X) == Some(-100.0)
    ensures CoinParity(map[], X) == None
  {
    var one := map[(4, 5) := Disc(X)];
    assert (set sq | sq in one && one[sq] == Disc(X)) == {(4, 5)};
    assert (set sq | sq in one && one[sq] == Disc(O)) == {};
    var lone := map[(4, 5) := Disc(O)];
    assert (set sq | sq in lone && lone[sq] == Disc(O)) == {(4, 5)};
    assert (set sq | sq in lone && lone[sq] == Disc(X)) == {};
  }

  /** Two X discs against one O disc, scored for X. */
  lemma CoinParityTwoToOne()
    ensures CoinParity(map[(4, 4) := Disc(X), (5, 5) := Disc(X), (4, 5) := Disc(O)], X) == Some(100.0 / 3.0)
  {
    var three := map[(4, 4) := Disc(X), (5, 5) := Disc(X), (4, 5) := Disc(O)];
    assert three.Keys == {(4, 4), (5, 5), (4, 5)};
    assert (set sq | sq in three && three[sq] == Disc(X)) == {(4, 4), (5, 5)};
    assert (set sq | sq in three && three[sq] == Disc(O)) == {(4, 5)};
  }

  /** Two X discs against two O discs, scored for X. */
  lemma CoinParityEqual()
    ensures CoinParity(map[(4, 4) := Disc(X), (5, 5) := Disc(X), (4, 5) := Disc(O), (5, 4) := Disc(O)], X) == Some(0.0)
  {
    var four := map[(4, 4) := Disc(X), (5, 5) := Disc(X), (4, 5) := Disc(O), (5, 4) := Disc(O)];
    assert four.Keys == {(4, 4), (5, 5), (4, 5), (5, 4)};
    assert (set sq | sq in four && four[sq] == Disc(X)) == {(4, 4), (5, 5)};
    assert (set sq | sq in four && four[sq] == Disc(O)) == {(4, 5), (5, 4)};
  }

  // ---------------------------------------------------------------------------
  // Mobility
  // ---------------------------------------------------------------------------

  /**
   * The mobility heuristic over the numbers of moves open to the player and
   * to the opponent: 100 times their difference over their sum, or 0 when
   * neither side can move.
   */
  function Mobility(playerMoves: nat, opponentMoves: nat): real
  {
    if playerMoves + opponentMoves != 0 then
      100.0 * (playerMoves - opponentMoves) as real / (playerMoves + opponentMoves) as real
    else 0.0
  }

  lemma MobilityBounds(playerMoves: nat, opponentMoves: nat)
    ensures -100.0 <= Mobility(playerMoves, opponentMoves) <= 100.0
  {
    if playerMoves + opponentMoves != 0 {
      var d := (playerMoves - opponentMoves) as real;
      RatioBounds(d, (playerMoves + opponentMoves) as real);
    }
  }

  lemma MobilitySwap(playerMoves: nat, opponentMoves: nat)
    ensures Mobility(opponentMoves, playerMoves) == -Mobility(playerMoves, opponentMoves)
  {
  }

  /** The score is zero exactly when both sides have as many moves. */
  lemma MobilityZero(playerMoves: nat, opponentMoves: nat)
    ensures Mobility(playerMoves, opponentMoves) == 0.0 <==> playerMoves == opponentMoves
  {
  }

  lemma MobilityExamples()
    ensures Mobility(9, 3) == 50.0
    ensures Mobility(3, 9) == -50.0
    ensures Mobility(4, 4) == 0.0
    ensures Mobility(0, 0) == 0.0
  {
  }
}
