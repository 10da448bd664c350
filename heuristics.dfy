/**
  The scalar heuristics: coin parity, corners, mobility and their weighted
  composite with the stability heuristic. Each is a function of the position,
  with lemmas giving its range and its sign, and a method that reads an
  `Othello` object the way the source does and is proved to compute it.
 */
module Heuristics {
  import opened Board
  import opened Rules
  import Game
  import StabilitySpec
  import StabilityHeuristic

  // ---------------------------------------------------------------------------
  // coinParityHeuristic

  /**
    `coinParityHeuristic`: 0 on equal piece counts, otherwise the black
    percentage `100 * (b - w) / (b + w)`, negated on white's turn. It is the
    percentage of the stability tally, taken over piece counts.
   */
  function CoinParity(pos: Position): real {
    var score := Score(pos.grid);
    StabilitySpec.Report(score.1, score.0, pos.blackTurn)
  }

  /**
    Coin parity is 0 on equal counts, lies in [-100, 100], is positive exactly
    when the mover has more pieces, flips sign with the mover, and is +-100
    when only one colour is on the board.
   */
  lemma CoinParitySpec(pos: Position)
    ensures var (black, white) := Score(pos.grid);
      (black == white ==> CoinParity(pos) == 0.0) &&
      -100.0 <= CoinParity(pos) <= 100.0 &&
      (CoinParity(pos) > 0.0 <==> (if pos.blackTurn then black > white else white > black)) &&
      CoinParity(Position(pos.grid, false)) == -CoinParity(Position(pos.grid, true)) &&
      (black > 0 && white == 0 ==> CoinParity(pos) == if pos.blackTurn then 100.0 else -100.0) &&
      (white > 0 && black == 0 ==> CoinParity(pos) == if pos.blackTurn then -100.0 else 100.0)
  {
    var (black, white) := Score(pos.grid);
    StabilitySpec.ReportSpec(white, black, pos.blackTurn);
    StabilitySpec.ReportSpec(white, black, true);
    if black > 0 && white == 0 {
      WholeShare(black);
    }
    if white > 0 && black == 0 {
      WholeShare(white);
    }
  }

  /** The share of a colour that holds every piece is the whole. */
  lemma WholeShare(n: nat)
    requires n > 0
    ensures 100.0 * n as real / n as real == 100.0
    ensures 100.0 * (0 - n) as real / n as real == -100.0
  {
    var r := n as real;
    assert 100.0 * r / r == 100.0 * (r / r);
    assert 100.0 * (-r) / r == -100.0 * (r / r);
  }

  /** The method form: one call of `score()` and the percentage. */
  method CoinParityHeuristic(othello: Game.Othello) returns (h: real)
    requires othello.Valid()
    ensures h == CoinParity(othello.Value())
  {
    var blackCoins, whiteCoins := othello.Score();
    h := CoinShare(blackCoins, whiteCoins, othello.blackTurn);
  }

  /** The arithmetic of `coinParityHeuristic` on the two piece counts. */
  method CoinShare(blackCoins: int, whiteCoins: int, blackTurn: bool) returns (h: real)
    requires blackCoins >= 0 && whiteCoins >= 0
    ensures h == StabilitySpec.Report(whiteCoins, blackCoins, blackTurn)
  {
    if whiteCoins == blackCoins {
      return 0.0;
    }
    var blackScore := 100.0 * (blackCoins - whiteCoins) as real / (blackCoins + whiteCoins) as real;
    h := if blackTurn then blackScore else -blackScore;
  }

  // ---------------------------------------------------------------------------
  // cornerHeuristic

  /** The number of the four corners, in the order the source visits them, that hold `c`. */
  function CornerCount(g: Grid, c: Cell): nat {
    (if g[0][0] == c then 1 else 0) + (if g[0][Size - 1] == c then 1 else 0)
    + (if g[Size - 1][0] == c then 1 else 0) + (if g[Size - 1][Size - 1] == c then 1 else 0)
  }

  /** `cornerHeuristic`: 25 points per corner of black's over white's, negated on white's turn. */
  function Corner(pos: Position): real {
    var blackScore := 25 * (CornerCount(pos.grid, Black) - CornerCount(pos.grid, White));
    if pos.blackTurn then blackScore as real else -(blackScore as real)
  }

  /** Boards that agree on the four corners score the same: no other square is read. */
  lemma CornerOnly(g: Grid, h: Grid, blackTurn: bool)
    requires g[0][0] == h[0][0] && g[0][Size - 1] == h[0][Size - 1]
    requires g[Size - 1][0] == h[Size - 1][0] && g[Size - 1][Size - 1] == h[Size - 1][Size - 1]
    ensures Corner(Position(g, blackTurn)) == Corner(Position(h, blackTurn))
  {
  }

  /**
    The corner value is a whole multiple of 25 in [-100, 100], 0 when both
    colours hold equally many corners, and opposite for the two movers.
   */
  lemma CornerSpec(pos: Position)
    ensures var r := Corner(pos);
      r == r.Floor as real && r.Floor % 25 == 0 && -100.0 <= r <= 100.0
    ensures CornerCount(pos.grid, Black) == CornerCount(pos.grid, White) ==> Corner(pos) == 0.0
    ensures Corner(Position(pos.grid, false)) == -Corner(Position(pos.grid, true))
  {
    var b: int, w: int := CornerCount(pos.grid, Black), CornerCount(pos.grid, White);
    var n := if pos.blackTurn then 25 * (b - w) else -25 * (b - w);
    assert Corner(pos) == n as real;
    assert n as real == (n as real).Floor as real;
    assert n % 25 == 0;
  }

  /** `processCorner(x, y)`: counts the piece on square `(x, y)`. */
  method ProcessCorner(board: array2<Cell>, x: int, y: int, black: int, white: int)
    returns (black': int, white': int)
    requires board.Length0 == Size && board.Length1 == Size && OnBoard((x, y))
    ensures black' == black + (if board[x, y] == Black then 1 else 0)
    ensures white' == white + (if board[x, y] == White then 1 else 0)
  {
    black', white' := black, white;
    match board[x, y]
    case White => white' := white' + 1;
    case Black => black' := black' + 1;
    case Empty =>
  }

  /** The method form: the counters over the four corners, then the value. */
  method CornerHeuristic(othello: Game.Othello) returns (h: real)
    requires othello.Valid()
    ensures h == Corner(othello.Value())
  {
    var board := othello.board;
    var blackCorners, whiteCorners := 0, 0;
    blackCorners, whiteCorners := ProcessCorner(board, 0, 0, blackCorners, whiteCorners);
    blackCorners, whiteCorners := ProcessCorner(board, 0, Size - 1, blackCorners, whiteCorners);
    blackCorners, whiteCorners := ProcessCorner(board, Size - 1, 0, blackCorners, whiteCorners);
    blackCorners, whiteCorners := ProcessCorner(board, Size - 1, Size - 1, blackCorners, whiteCorners);
    assert blackCorners == CornerCount(othello.Value().grid, Black);
    assert whiteCorners == CornerCount(othello.Value().grid, White);
    var blackScore := 25 * (blackCorners - whiteCorners);
    h := if othello.blackTurn then blackScore as real else -(blackScore as real);
  }

  // ---------------------------------------------------------------------------
  // mobilityHeuristic

  /**
    `mobilityHeuristic`: 0 on a full board, otherwise the percentage of the
    empty squares where the mover cannot play. The subtraction is unsigned
    in the source; it never wraps, because the table has at most as many
    keys as there are empty squares.
   */
  function Mobility(pos: Position): real {
    var empty := Count(pos.grid, Empty);
    if empty == 0 then 0.0
    else 100.0 * (empty - |LegalMoves(pos)|) as real / empty as real
  }

  /**
    Mobility lies in [0, 100] whoever is to move, so it is never turned
    against the mover; it is 0 exactly when the board is full or every
    empty square is a legal move, and 100 when none is.
   */
  lemma MobilitySpec(pos: Position)
    ensures 0.0 <= Mobility(pos) <= 100.0
    ensures Mobility(pos) == 0.0 <==> Count(pos.grid, Empty) == |LegalMoves(pos)|
    ensures Count(pos.grid, Empty) > 0 && LegalMoves(pos) == [] ==> Mobility(pos) == 100.0
  {
    LegalMovesBound(pos);
    var empty := Count(pos.grid, Empty);
    var n := |LegalMoves(pos)|;
    if empty > 0 {
      Percentage((empty - n) as real, empty as real);
    }
  }

  /** A part `f` of a whole `e`, as a percentage. */
  lemma Percentage(f: real, e: real)
    requires 0.0 <= f <= e && e > 0.0
    ensures 0.0 <= 100.0 * f / e <= 100.0
    ensures 100.0 * f / e == 0.0 <==> f == 0.0
    ensures f == e ==> 100.0 * f / e == 100.0
  {
    var q := f / e;
    assert q * e == f;
    assert 100.0 * f / e == 100.0 * q;
    if q > 1.0 {
      assert q * e > e;
    }
  }

  /** The inner loop: the empty squares of row `i`. */
  method EmptyRow(board: array2<Cell>, i: int) returns (empty: nat)
    requires board.Length0 == Size && board.Length1 == Size && 0 <= i < Size
    ensures empty + CountFrom(ToSeq(board), Empty, i + 1, 0) == CountFrom(ToSeq(board), Empty, i, 0)
  {
    empty := 0;
    ghost var g := ToSeq(board);
    for j := 0 to Size
      invariant empty + CountFrom(g, Empty, i, j) == CountFrom(g, Empty, i, 0)
    {
      if board[i, j] == Empty {
        empty := empty + 1;
      }
    }
  }

  /** The nested loop of `mobilityHeuristic`: the empty squares of the board. */
  method CountEmpty(board: array2<Cell>) returns (emptySpaces: nat)
    requires board.Length0 == Size && board.Length1 == Size
    ensures emptySpaces == Count(ToSeq(board), Empty)
  {
    ghost var g := ToSeq(board);
    emptySpaces := 0;
    for i := 0 to Size
      invariant emptySpaces + CountFrom(g, Empty, i, 0) == CountFrom(g, Empty, 0, 0)
    {
      var e := EmptyRow(board, i);
      emptySpaces := emptySpaces + e;
    }
  }

  /** The method form: the empty squares, then the ratio. */
  method MobilityHeuristic(othello: Game.Othello) returns (h: real)
    requires othello.Valid()
    ensures h == Mobility(othello.Value())
  {
    var emptySpaces := CountEmpty(othello.board);
    if emptySpaces == 0 {
      return 0.0;
    }
    LegalMovesBound(othello.Value());
    h := 100.0 * (emptySpaces - |othello.legalMoves|) as real / emptySpaces as real;
  }

  // ---------------------------------------------------------------------------
  // compositeHeuristic

  /** `piecesOnBoard`: both components of the score. */
  function PiecesOnBoard(pos: Position): int {
    Score(pos.grid).0 + Score(pos.grid).1
  }

  /** The pieces on the board are the squares that are not empty, between 0 and 64. */
  lemma PiecesOnBoardSpec(pos: Position)
    ensures PiecesOnBoard(pos) == Size * Size - Count(pos.grid, Empty)
    ensures 0 <= PiecesOnBoard(pos) <= Size * Size
  {
    ScoreSum(pos.grid);
  }

  /**
    `compositeHeuristic`: 10 coin parity + 500 corners + 80 mobility + 50
    stability, where the corner term counts only while at most 40 pieces
    are on the board. Stability is the corrected heuristic.
   */
  function Composite(pos: Position): real {
    10.0 * CoinParity(pos)
    + (if PiecesOnBoard(pos) <= 40 then 500.0 * Corner(pos) else 0.0)
    + 80.0 * Mobility(pos)
    + 50.0 * StabilitySpec.Heuristic(pos)
  }

  /**
    The composite is bounded by its weights, does not depend on the corners
    once more than 40 pieces are on the board, and is 0 when every term that
    counts is 0.
   */
  lemma CompositeSpec(pos: Position)
    ensures -1000.0 - 50000.0 - 5000.0 <= Composite(pos) <= 1000.0 + 50000.0 + 8000.0 + 5000.0
    ensures PiecesOnBoard(pos) > 40
      ==> Composite(pos) == 10.0 * CoinParity(pos) + 80.0 * Mobility(pos) + 50.0 * StabilitySpec.Heuristic(pos)
    ensures (CoinParity(pos) == 0.0 && Mobility(pos) == 0.0 && StabilitySpec.Heuristic(pos) == 0.0
      && (PiecesOnBoard(pos) > 40 || Corner(pos) == 0.0)) ==> Composite(pos) == 0.0
  {
    CoinParitySpec(pos);
    CornerSpec(pos);
    MobilitySpec(pos);
    StabilitySpec.HeuristicBound(pos);
  }

  /** The method form: the piece count, then each term the expression evaluates. */
  method CompositeHeuristic(othello: Game.Othello) returns (h: real)
    requires othello.Valid()
    ensures h == Composite(othello.Value())
  {
    var black, white := othello.Score();
    var pieces := black + white;
    var coinParity := CoinParityHeuristic(othello);
    var corner := 0.0;
    if pieces <= 40 {
      var c := CornerHeuristic(othello);
      corner := 500.0 * c;
    }
    var mobility := MobilityHeuristic(othello);
    var stability := StabilityHeuristic.StabilityHeuristic(othello);
    h := 10.0 * coinParity + corner + 80.0 * mobility + 50.0 * stability;
  }

  // ---------------------------------------------------------------------------
  // The heuristics the menu offers to the minimax player

  /** The four heuristic functions a strategic player can be built with. */
  datatype HeuristicKind = CoinParityKind | MobilityKind | StabilityKind | CompositeKind

  function Evaluate(kind: HeuristicKind, pos: Position): real {
    match kind
    case CoinParityKind => CoinParity(pos)
    case MobilityKind => Mobility(pos)
    case StabilityKind => StabilitySpec.Heuristic(pos)
    case CompositeKind => Composite(pos)
  }

  /** The heuristic as a function value, for the search. */
  function HeuristicOf(kind: HeuristicKind): Position -> real {
    pos => Evaluate(kind, pos)
  }

  /** Each heuristic is bounded: the search compares finite values. */
  lemma EvaluateBound(kind: HeuristicKind, pos: Position)
    ensures -56000.0 <= Evaluate(kind, pos) <= 64000.0
  {
    CoinParitySpec(pos);
    MobilitySpec(pos);
    StabilitySpec.HeuristicBound(pos);
    CompositeSpec(pos);
  }

  /** A call of the heuristic the player was built with; the board is only read. */
  method EvaluateOn(kind: HeuristicKind, othello: Game.Othello) returns (h: real)
    requires othello.Valid()
    ensures h == Evaluate(kind, othello.Value())
  {
    match kind {
      case CoinParityKind => h := CoinParityHeuristic(othello);
      case MobilityKind => h := MobilityHeuristic(othello);
      case StabilityKind => h := StabilityHeuristic.StabilityHeuristic(othello);
      case CompositeKind => h := CompositeHeuristic(othello);
    }
  }
}
