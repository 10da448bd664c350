/**
  `StrategicAi::go`: a dispatch on the number of legal moves, delegating to
  the minimax strategy when there is a choice to make.
 */
module StrategicAi {
  import opened Wrappers
  import opened Board
  import opened Rules
  import Game
  import Heuristics
  import MinMax

  /** The exceptions `go` can raise: its own, and the strategy's. */
  datatype AiError = NoLegalMoves | StrategyFailed(cause: MinMax.SearchError)

  /**
    `go`: "No legal moves available" without a legal move, the only move
    without searching when there is one, and otherwise the strategy's move
    for the heuristic `h` with search depth `maxDepth`, the strategy's root
    starting from the sentinel `floor`.
   */
  function GoFrom(h: Position -> real, pos: Position, maxDepth: int, floor: real): Result<Pos, AiError> {
    var moves := LegalMoves(pos);
    if |moves| == 0 then Err(NoLegalMoves)
    else if |moves| == 1 then Ok(moves[0].0)
    else
      match MinMax.NextMoveFrom(h, pos, maxDepth, floor)
      case Ok(m) => Ok(m)
      case Err(e) => Err(StrategyFailed(e))
  }

  /** `go` over the strategy as written, whose root sentinel is `DBL_MIN`. */
  function GoAsWritten(h: Position -> real, pos: Position, maxDepth: int): Result<Pos, AiError> {
    GoFrom(h, pos, maxDepth, MinMax.DblMin)
  }

  /** `go` over the strategy with the evidently intended root sentinel `-DBL_MAX`. */
  function Go(h: Position -> real, pos: Position, maxDepth: int): Result<Pos, AiError> {
    GoFrom(h, pos, maxDepth, MinMax.Lowest)
  }

  /**
    `go` fails with "No legal moves available" exactly when the mover has no
    legal move; with one legal move it returns it; with more it returns what
    the strategy returns; and any move it returns is one `placePiece` accepts.
   */
  lemma GoSpec(h: Position -> real, pos: Position, maxDepth: int, floor: real)
    ensures GoFrom(h, pos, maxDepth, floor) == Err(NoLegalMoves) <==> LegalMoves(pos) == []
    ensures |LegalMoves(pos)| == 1 ==> GoFrom(h, pos, maxDepth, floor) == Ok(LegalMoves(pos)[0].0)
    ensures |LegalMoves(pos)| >= 2 ==>
      match MinMax.NextMoveFrom(h, pos, maxDepth, floor)
      case Ok(m) => GoFrom(h, pos, maxDepth, floor) == Ok(m)
      case Err(e) => GoFrom(h, pos, maxDepth, floor) == Err(StrategyFailed(e))
    ensures GoFrom(h, pos, maxDepth, floor).Ok? ==>
      var m := GoFrom(h, pos, maxDepth, floor).value;
      Find(LegalMoves(pos), m).Some? && Play(pos, m.0, m.1).Ok?
  {
    var moves := LegalMoves(pos);
    if |moves| == 1 {
      PlayKey(pos, 0);
      FindLegal(pos, moves[0].0);
    } else if |moves| >= 2 && MinMax.NextMoveFrom(h, pos, maxDepth, floor).Ok? {
      MinMax.NextMoveLegal(h, pos, maxDepth, floor);
    }
  }

  /**
    As written, `go` can fail with the strategy's "No move was selected" even
    with two or more legal moves: with depth 1 and a heuristic that scores
    every position 0. With the intended sentinel it returns a move.
   */
  lemma GoAsWrittenFails(pos: Position)
    requires |LegalMoves(pos)| >= 2
    ensures GoAsWritten(MinMax.Indifferent, pos, 1) == Err(StrategyFailed(MinMax.NoMoveSelected))
    ensures Go(MinMax.Indifferent, pos, 1).Ok?
  {
    MinMax.IndifferentOnePly(pos);
  }

  /**
    With the intended sentinel, any of the menu's heuristics and a depth to
    search, `go` fails only when the mover has no legal move.
   */
  lemma GoTotal(kind: Heuristics.HeuristicKind, pos: Position, maxDepth: int)
    requires maxDepth != 0
    ensures Go(Heuristics.HeuristicOf(kind), pos, maxDepth).Err? <==> LegalMoves(pos) == []
  {
    MinMax.MenuHeuristicsFinite(kind);
    MinMax.NextMoveTotal(Heuristics.HeuristicOf(kind), pos, maxDepth);
  }

  /** The method form over an `Othello` object, with the minimax strategy and the intended sentinel; the board is only read. */
  method GoOn(kind: Heuristics.HeuristicKind, othello: Game.Othello, maxDepth: int) returns (r: Result<Pos, AiError>)
    requires othello.Valid()
    ensures r == Go(Heuristics.HeuristicOf(kind), othello.Value(), maxDepth)
  {
    var moves := othello.legalMoves;
    if |moves| == 0 {
      return Err(NoLegalMoves);
    }
    if |moves| == 1 {
      return Ok(moves[0].0);
    }
    var next := MinMax.NextMoveOn(kind, othello, maxDepth);
    match next {
      case Ok(m) => r := Ok(m);
      case Err(e) => r := Err(StrategyFailed(e));
    }
  }
}
