/**
  `MinMaxStrategy`: a depth-bounded minimax search over copies of the board.
  The search is first stated as functions over positions, for any heuristic
  `h`; the tie-breaking fold is characterised independently; and a recursive
  method over copied `Othello` objects is proved to return what the
  functions describe.
 */
module MinMax {
  import opened Wrappers
  import opened Board
  import opened Rules
  import Game
  import Heuristics

  /** `numeric_limits<double>::min()`: the smallest positive normal double, 2^-1022. */
  const DblMin: real := 1.0 / 44942328371557897693232629769725618340449424473557664318357520289433168951375240783177119330601884005280028469967848339414697442203604155623211857659868531094441973356216371319075554900311523529863270738021251442209537670585615720368478277635206809290837627671146574559986811484619929076208839082406056034304.0

  /** `numeric_limits<double>::max()`: the largest finite double, (2 - 2^-52) * 2^1023. */
  const DblMax: real := 179769313486231570814527423731704356798070567525844996598917476803157260780028538760589558632766878171540458953514382464234321326889464182768467546703537516986049910576551282076245490090389328944075868508455133942304583236903222948165808559332123348274797826204144723168738177180919299881250404026184124858368.0

  /**
    `numeric_limits<double>::lowest()`, the most negative finite double: the
    evident intent of the maximising sentinel, which is written as `min()`.
   */
  const Lowest: real := -DblMax

  /** The move `{-1, -1}` of a node that has not selected one. */
  const NoMove: Pos := (-1, -1)

  /** `MinMaxStrategy::Node`: a position, the move that led to it, and its score. */
  datatype Node = Node(pos: Position, move: Pos, score: real)

  /** The exception of `nextMove`. */
  datatype SearchError = NoMoveSelected

  // ---------------------------------------------------------------------------
  // Selection among the replies

  /** `reply` is adopted over `value`: non-strictly better for the player at the node. */
  predicate Beats(reply: Node, value: Node, maximizing: bool) {
    if maximizing then reply.score >= value.score else reply.score <= value.score
  }

  /** One step of the loop of `minimax`: the reply when it is adopted, the current value otherwise. */
  function Better(reply: Node, value: Node, maximizing: bool): Node {
    if Beats(reply, value, maximizing) then reply else value
  }

  /** The loop of `minimax` over the replies, in order, from the sentinel `value`. */
  function Adopt(replies: seq<Node>, value: Node, maximizing: bool): Node
    decreases |replies|
  {
    if replies == [] then value
    else Adopt(replies[1..], Better(replies[0], value, maximizing), maximizing)
  }

  /**
    The reference for the selection: `r` is the start value when no reply
    reaches it, and otherwise the reply at the LAST index `i` of a best
    score: it reaches the start value and every earlier reply, and no later
    reply reaches it.
   */
  ghost predicate LastBest(replies: seq<Node>, start: Node, maximizing: bool, r: Node) {
    (r == start && forall j :: 0 <= j < |replies| ==> !Beats(replies[j], start, maximizing)) ||
    (exists i :: 0 <= i < |replies| && r == replies[i] && Beats(replies[i], start, maximizing) &&
      (forall j :: 0 <= j < i ==> Beats(replies[i], replies[j], maximizing)) &&
      (forall j :: i < j < |replies| ==> !Beats(replies[j], replies[i], maximizing)))
  }

  /**
    The loop selects the last best reply, and the start value only when
    every reply falls short of it; in either case the result reaches every
    reply and the start value.
   */
  lemma {:induction false} AdoptSpec(replies: seq<Node>, start: Node, maximizing: bool)
    ensures LastBest(replies, start, maximizing, Adopt(replies, start, maximizing))
    ensures Beats(Adopt(replies, start, maximizing), start, maximizing)
    ensures forall j :: 0 <= j < |replies| ==> Beats(Adopt(replies, start, maximizing), replies[j], maximizing)
    decreases |replies|
  {
    if replies != [] {
      var v := Better(replies[0], start, maximizing);
      var rest := replies[1..];
      AdoptSpec(rest, v, maximizing);
      var r := Adopt(rest, v, maximizing);
      assert r == Adopt(replies, start, maximizing);
      if r == v && forall j :: 0 <= j < |rest| ==> !Beats(rest[j], v, maximizing) {
        if Beats(replies[0], start, maximizing) {
          assert forall j :: 0 < j < |replies| ==> !Beats(replies[j], replies[0], maximizing) by {
            forall j | 0 < j < |replies| ensures !Beats(replies[j], replies[0], maximizing) {
              assert replies[j] == rest[j - 1];
            }
          }
          assert LastBest(replies, start, maximizing, r);
        } else {
          assert forall j :: 0 <= j < |replies| ==> !Beats(replies[j], start, maximizing) by {
            forall j | 0 <= j < |replies| ensures !Beats(replies[j], start, maximizing) {
              if j > 0 {
                assert replies[j] == rest[j - 1];
              }
            }
          }
        }
      } else {
        var i' :| 0 <= i' < |rest| && r == rest[i'] && Beats(rest[i'], v, maximizing) &&
          (forall j :: 0 <= j < i' ==> Beats(rest[i'], rest[j], maximizing)) &&
          (forall j :: i' < j < |rest| ==> !Beats(rest[j], rest[i'], maximizing));
        var i := i' + 1;
        assert replies[i] == r;
        forall j | 0 <= j < i
          ensures Beats(replies[i], replies[j], maximizing)
        {
          if j > 0 {
            assert replies[j] == rest[j - 1];
          }
        }
        forall j | i < j < |replies|
          ensures !Beats(replies[j], replies[i], maximizing)
        {
          assert replies[j] == rest[j - 1];
        }
        assert LastBest(replies, start, maximizing, r);
      }
      forall j | 0 <= j < |replies|
        ensures Beats(r, replies[j], maximizing)
      {
        if j > 0 {
          assert replies[j] == rest[j - 1];
        }
      }
    }
  }

  // ---------------------------------------------------------------------------
  // The search, on values

  /** `makeNode`: the position after `move`, scored by the heuristic. */
  function MakeNode(h: Position -> real, pos: Position, move: Pos): Node
    requires Play(pos, move.0, move.1).Ok?
  {
    var next := Play(pos, move.0, move.1).value;
    Node(next, move, h(next))
  }

  /** The sentinel a node starts from: `floor` when maximising, `DBL_MAX` when minimising. */
  function Start(node: Node, maximizing: bool, floor: real): Node {
    Node(node.pos, NoMove, if maximizing then floor else DblMax)
  }

  /**
    `minimax(node, depth, maximizingPlayer)`: the node itself at the depth
    bound or when the mover has no legal move; otherwise the selection among
    the replies from the sentinel (`floor` maximising, `DBL_MAX`
    minimising), carrying the node's own move below the root. The source's
    `floor` is `DBL_MIN`; the evidently intended one is `Lowest`. The search
    ends because every move fills one empty square.
   */
  function Minimax(h: Position -> real, node: Node, depth: int, maxDepth: int, maximizing: bool, floor: real): Node
    decreases Count(node.pos.grid, Empty), 2, 0
  {
    if depth == maxDepth || LegalMoves(node.pos) == [] then node
    else
      var value := Adopt(Replies(h, node, depth, maxDepth, maximizing, floor), Start(node, maximizing, floor), maximizing);
      if depth > 0 then value.(move := node.move) else value
  }

  /** The replies to the legal moves, in the order of the table. */
  function Replies(h: Position -> real, node: Node, depth: int, maxDepth: int, maximizing: bool, floor: real): (rs: seq<Node>)
    ensures |rs| == |LegalMoves(node.pos)|
    decreases Count(node.pos.grid, Empty), 1, 0
  {
    var n := |LegalMoves(node.pos)|;
    seq(n, k requires 0 <= k < n => Reply(h, node, depth, maxDepth, maximizing, floor, k))
  }

  /**
    The reply to the `k`-th legal move: the search below its child, which
    keeps the node's role when the mover is the same after the move (a
    forced pass) and takes the other role when the mover changed.
   */
  function Reply(h: Position -> real, node: Node, depth: int, maxDepth: int, maximizing: bool, floor: real, k: int): Node
    requires 0 <= k < |LegalMoves(node.pos)|
    decreases Count(node.pos.grid, Empty), 0, 0
  {
    PlayKey(node.pos, k);
    var child := MakeNode(h, node.pos, LegalMoves(node.pos)[k].0);
    var goAgain := node.pos.blackTurn == child.pos.blackTurn;
    Minimax(h, child, depth + 1, maxDepth, goAgain == maximizing, floor)
  }

  /**
    `nextMove` with the maximising sentinel `floor`: the move of the root's
    search, or "No move was selected" when it is still `{-1, -1}`.
   */
  function NextMoveFrom(h: Position -> real, pos: Position, maxDepth: int, floor: real): Result<Pos, SearchError> {
    var node := Minimax(h, Node(pos, NoMove, floor), 0, maxDepth, true, floor);
    if node.move == NoMove then Err(NoMoveSelected) else Ok(node.move)
  }

  /** `nextMove` as written, with `numeric_limits<double>::min()` as the maximising sentinel. */
  function NextMoveAsWritten(h: Position -> real, pos: Position, maxDepth: int): Result<Pos, SearchError> {
    NextMoveFrom(h, pos, maxDepth, DblMin)
  }

  /** `nextMove` with the evidently intended sentinel `numeric_limits<double>::lowest()`. */
  function NextMove(h: Position -> real, pos: Position, maxDepth: int): Result<Pos, SearchError> {
    NextMoveFrom(h, pos, maxDepth, Lowest)
  }

  // ---------------------------------------------------------------------------
  // Properties of the search

  /** Below the root a search reports the move that led to its node, whatever it selected. */
  lemma MinimaxMove(h: Position -> real, node: Node, depth: int, maxDepth: int, maximizing: bool, floor: real)
    requires depth > 0
    ensures Minimax(h, node, depth, maxDepth, maximizing, floor).move == node.move
  {
  }

  /**
    A search is its node at the depth bound or without a legal move;
    otherwise it selects among the replies as `LastBest` says, the sentinel
    standing when no reply reaches it.
   */
  lemma MinimaxSpec(h: Position -> real, node: Node, depth: int, maxDepth: int, maximizing: bool, floor: real)
    ensures depth == maxDepth || LegalMoves(node.pos) == [] ==> Minimax(h, node, depth, maxDepth, maximizing, floor) == node
    ensures depth != maxDepth && LegalMoves(node.pos) != [] ==>
      var start := Start(node, maximizing, floor);
      var value := Adopt(Replies(h, node, depth, maxDepth, maximizing, floor), start, maximizing);
      LastBest(Replies(h, node, depth, maxDepth, maximizing, floor), start, maximizing, value) &&
      Minimax(h, node, depth, maxDepth, maximizing, floor) == if depth > 0 then value.(move := node.move) else value
  {
    if depth != maxDepth && LegalMoves(node.pos) != [] {
      AdoptSpec(Replies(h, node, depth, maxDepth, maximizing, floor), Start(node, maximizing, floor), maximizing);
    }
  }

  /** The replies at the root, which the root's result is selected from. */
  function RootReplies(h: Position -> real, pos: Position, maxDepth: int, floor: real): seq<Node>
    requires LegalMoves(pos) != []
  {
    Replies(h, Node(pos, NoMove, floor), 0, maxDepth, true, floor)
  }

  /**
    Selection from a maximising sentinel whose move no reply carries: the
    sentinel's move survives exactly when every reply scores below the
    sentinel, and otherwise the result carries the move of the last
    highest-scoring reply.
   */
  lemma SelectMove(rs: seq<Node>, moves: seq<Pos>, start: Node)
    requires |rs| == |moves| && forall i :: 0 <= i < |rs| ==> rs[i].move == moves[i] != start.move
    ensures var r := Adopt(rs, start, true);
      (r.move == start.move <==> forall j :: 0 <= j < |rs| ==> rs[j].score < start.score) &&
      (r.move != start.move ==>
        exists i :: 0 <= i < |rs| && moves[i] == r.move && rs[i].score >= start.score &&
          (forall j :: 0 <= j < |rs| ==> rs[j].score <= rs[i].score) &&
          (forall j :: i < j < |rs| ==> rs[j].score < rs[i].score))
  {
    AdoptSpec(rs, start, true);
    var r := Adopt(rs, start, true);
    if forall j :: 0 <= j < |rs| ==> rs[j].score < start.score {
      assert forall j :: 0 <= j < |rs| ==> !Beats(rs[j], start, true);
      assert r == start;
    } else {
      var j :| 0 <= j < |rs| && rs[j].score >= start.score;
      assert Beats(rs[j], start, true);
      var i :| 0 <= i < |rs| && r == rs[i] && Beats(rs[i], start, true) &&
        (forall j :: 0 <= j < i ==> Beats(rs[i], rs[j], true)) &&
        (forall j :: i < j < |rs| ==> !Beats(rs[j], rs[i], true));
      assert moves[i] == r.move;
    }
  }

  /** The keys of the table, in order. */
  function Keys(t: MoveTable): (ks: seq<Pos>)
    ensures |ks| == |t| && forall i :: 0 <= i < |t| ==> ks[i] == t[i].0
  {
    seq(|t|, i requires 0 <= i < |t| => t[i].0)
  }

  /** Each reply at the root carries the legal move it answers. */
  lemma RootMoves(h: Position -> real, pos: Position, maxDepth: int, floor: real)
    requires LegalMoves(pos) != []
    ensures var rs := RootReplies(h, pos, maxDepth, floor);
      forall i :: 0 <= i < |rs| ==> rs[i].move == Keys(LegalMoves(pos))[i] != NoMove
  {
    var origin := Node(pos, NoMove, floor);
    var rs := RootReplies(h, pos, maxDepth, floor);
    forall i | 0 <= i < |rs|
      ensures rs[i].move == Keys(LegalMoves(pos))[i] != NoMove
    {
      PlayKey(pos, i);
      var child := MakeNode(h, pos, LegalMoves(pos)[i].0);
      var role := (pos.blackTurn == child.pos.blackTurn) == true;
      assert rs[i] == Reply(h, origin, 0, maxDepth, true, floor, i) == Minimax(h, child, 1, maxDepth, role, floor);
      MinimaxMove(h, child, 1, maxDepth, role, floor);
    }
  }

  /**
    `nextMove` fails with "No move was selected" exactly when the depth
    bound is 0, the mover has no legal move, or every reply scores below
    the sentinel. Otherwise it returns the legal move at the last index of a
    highest-scoring reply.
   */
  lemma NextMoveSpec(h: Position -> real, pos: Position, maxDepth: int, floor: real)
    ensures NextMoveFrom(h, pos, maxDepth, floor).Err? <==>
      maxDepth == 0 || LegalMoves(pos) == [] ||
      forall j :: 0 <= j < |RootReplies(h, pos, maxDepth, floor)| ==> RootReplies(h, pos, maxDepth, floor)[j].score < floor
    ensures NextMoveFrom(h, pos, maxDepth, floor).Ok? ==>
      var rs := RootReplies(h, pos, maxDepth, floor);
      exists i :: 0 <= i < |LegalMoves(pos)| && |rs| == |LegalMoves(pos)| &&
        LegalMoves(pos)[i].0 == NextMoveFrom(h, pos, maxDepth, floor).value &&
        rs[i].score >= floor &&
        (forall j :: 0 <= j < |rs| ==> rs[j].score <= rs[i].score) &&
        (forall j :: i < j < |rs| ==> rs[j].score < rs[i].score)
  {
    var origin := Node(pos, NoMove, floor);
    if maxDepth != 0 && LegalMoves(pos) != [] {
      var rs := RootReplies(h, pos, maxDepth, floor);
      assert Minimax(h, origin, 0, maxDepth, true, floor) == Adopt(rs, origin, true);
      RootMoves(h, pos, maxDepth, floor);
      SelectMove(rs, Keys(LegalMoves(pos)), origin);
    }
  }

  /** A move `nextMove` returns is always one `placePiece` accepts. */
  lemma NextMoveLegal(h: Position -> real, pos: Position, maxDepth: int, floor: real)
    requires NextMoveFrom(h, pos, maxDepth, floor).Ok?
    ensures var m := NextMoveFrom(h, pos, maxDepth, floor).value;
      Find(LegalMoves(pos), m).Some? && Play(pos, m.0, m.1).Ok?
  {
    NextMoveSpec(h, pos, maxDepth, floor);
    var i :| 0 <= i < |LegalMoves(pos)| && LegalMoves(pos)[i].0 == NextMoveFrom(h, pos, maxDepth, floor).value;
    PlayKey(pos, i);
    FindLegal(pos, LegalMoves(pos)[i].0);
  }

  /**
    As written, the maximising sentinel is the smallest POSITIVE double, so
    `nextMove` throws "No move was selected" whenever every reply at the
    root scores 0 or less, although there are legal moves and depth to
    search.
   */
  lemma NoMoveWhenNonPositive(h: Position -> real, pos: Position, maxDepth: int)
    requires maxDepth != 0 && LegalMoves(pos) != []
    requires forall j :: 0 <= j < |RootReplies(h, pos, maxDepth, DblMin)| ==> RootReplies(h, pos, maxDepth, DblMin)[j].score <= 0.0
    ensures NextMoveAsWritten(h, pos, maxDepth) == Err(NoMoveSelected)
  {
    NextMoveSpec(h, pos, maxDepth, DblMin);
  }

  /** A score a double can hold. */
  predicate Finite(x: real) {
    -DblMax <= x <= DblMax
  }

  /** A heuristic whose every value a double can hold. */
  ghost predicate FiniteHeuristic(h: Position -> real) {
    forall p :: Finite(h(p))
  }

  /** The selection returns the start value or one of the replies. */
  lemma {:induction false} AdoptPicks(replies: seq<Node>, value: Node, maximizing: bool)
    ensures Adopt(replies, value, maximizing) == value || Adopt(replies, value, maximizing) in replies
    decreases |replies|
  {
    if replies != [] {
      AdoptPicks(replies[1..], Better(replies[0], value, maximizing), maximizing);
    }
  }

  /**
    With a finite heuristic and a finite sentinel, every node the search
    returns has a finite score: it is the node itself, a child's search, or
    the sentinel.
   */
  lemma {:induction false} MinimaxFinite(h: Position -> real, node: Node, depth: int, maxDepth: int, maximizing: bool, floor: real)
    requires FiniteHeuristic(h) && Finite(node.score) && Finite(floor)
    ensures Finite(Minimax(h, node, depth, maxDepth, maximizing, floor).score)
    decreases Count(node.pos.grid, Empty), 1
  {
    if depth != maxDepth && LegalMoves(node.pos) != [] {
      var rs := Replies(h, node, depth, maxDepth, maximizing, floor);
      forall k | 0 <= k < |rs|
        ensures Finite(rs[k].score)
      {
        ReplyFinite(h, node, depth, maxDepth, maximizing, floor, k);
      }
      var start := Start(node, maximizing, floor);
      AdoptPicks(rs, start, maximizing);
      assert Finite(Adopt(rs, start, maximizing).score);
    }
  }

  /** The reply to each legal move has a finite score. */
  lemma {:induction false} ReplyFinite(h: Position -> real, node: Node, depth: int, maxDepth: int, maximizing: bool, floor: real, k: int)
    requires FiniteHeuristic(h) && Finite(floor) && 0 <= k < |LegalMoves(node.pos)|
    ensures Finite(Reply(h, node, depth, maxDepth, maximizing, floor, k).score)
    decreases Count(node.pos.grid, Empty), 0
  {
    PlayKey(node.pos, k);
    var child := MakeNode(h, node.pos, LegalMoves(node.pos)[k].0);
    var goAgain := node.pos.blackTurn == child.pos.blackTurn;
    MinimaxFinite(h, child, depth + 1, maxDepth, goAgain == maximizing, floor);
  }

  /**
    With the intended sentinel `lowest()` and a finite heuristic, `nextMove`
    fails exactly when the depth bound is 0 or the mover has no legal move.
   */
  lemma NextMoveTotal(h: Position -> real, pos: Position, maxDepth: int)
    requires FiniteHeuristic(h)
    ensures NextMove(h, pos, maxDepth).Err? <==> maxDepth == 0 || LegalMoves(pos) == []
  {
    NextMoveSpec(h, pos, maxDepth, Lowest);
    if maxDepth != 0 && LegalMoves(pos) != [] {
      ReplyFinite(h, Node(pos, NoMove, Lowest), 0, maxDepth, true, Lowest, 0);
      assert RootReplies(h, pos, maxDepth, Lowest)[0].score >= Lowest;
    }
  }

  /** The four heuristics a menu player can be built with are finite. */
  lemma MenuHeuristicsFinite(kind: Heuristics.HeuristicKind)
    ensures FiniteHeuristic(Heuristics.HeuristicOf(kind))
  {
    forall p
      ensures Finite(Heuristics.HeuristicOf(kind)(p))
    {
      Heuristics.EvaluateBound(kind, p);
    }
  }

  /** The heuristic that scores every position 0. */
  function Indifferent(pos: Position): real {
    0.0
  }

  /**
    With a one-ply search and the heuristic that scores every position 0,
    `nextMove` as written throws "No move was selected" from any position
    with a legal move; with the intended sentinel it returns a move.
   */
  lemma IndifferentOnePly(pos: Position)
    requires LegalMoves(pos) != []
    ensures NextMoveAsWritten(Indifferent, pos, 1) == Err(NoMoveSelected)
    ensures NextMove(Indifferent, pos, 1).Ok?
  {
    var rs := RootReplies(Indifferent, pos, 1, DblMin);
    forall k | 0 <= k < |rs|
      ensures rs[k].score <= 0.0
    {
      IndifferentLeaf(pos, k);
    }
    NoMoveWhenNonPositive(Indifferent, pos, 1);
    assert FiniteHeuristic(Indifferent);
    NextMoveTotal(Indifferent, pos, 1);
  }

  /** One ply down, each reply is the child itself, scored 0. */
  lemma IndifferentLeaf(pos: Position, k: int)
    requires 0 <= k < |LegalMoves(pos)|
    ensures Reply(Indifferent, Node(pos, NoMove, DblMin), 0, 1, true, DblMin, k).score == 0.0
  {
    PlayKey(pos, k);
    var child := MakeNode(Indifferent, pos, LegalMoves(pos)[k].0);
    var goAgain := pos.blackTurn == child.pos.blackTurn;
    assert Minimax(Indifferent, child, 1, 1, goAgain, DblMin) == child;
  }

  // ---------------------------------------------------------------------------
  // The search, on copied `Othello` objects

  /** A node of the search as the source holds it: its own copy of the game. */
  datatype SearchNode = SearchNode(othello: Game.Othello, move: Pos, score: real)

  /** The value a search node stands for. */
  ghost function View(n: SearchNode): Node
    reads n.othello, n.othello.board
    requires n.othello.Valid()
  {
    Node(n.othello.Value(), n.move, n.score)
  }

  /** `makeNode`: a fresh copy of the game, the move played on it, and its heuristic value. */
  method MakeNodeOn(kind: Heuristics.HeuristicKind, othello: Game.Othello, move: Pos) returns (child: SearchNode)
    requires othello.Valid() && Play(othello.Value(), move.0, move.1).Ok?
    ensures child.othello.Valid()
    ensures View(child) == MakeNode(Heuristics.HeuristicOf(kind), othello.Value(), move)
  {
    var copy := new Game.Othello.Copy(othello);
    var _ := copy.PlacePiece(move.0, move.1);
    var score := Heuristics.EvaluateOn(kind, copy);
    child := SearchNode(copy, move, score);
  }

  /**
    `minimax`, recursive over copies: the input node's game is never changed
    (the method may change no object that existed before the call).
   */
  method Search(kind: Heuristics.HeuristicKind, node: SearchNode, depth: int, maxDepth: int, maximizing: bool)
    returns (value: SearchNode)
    requires node.othello.Valid()
    ensures value.othello.Valid()
    ensures View(value) == Minimax(Heuristics.HeuristicOf(kind), View(node), depth, maxDepth, maximizing, Lowest)
    decreases Count(node.othello.Value().grid, Empty), 1
  {
    if depth == maxDepth || node.othello.legalMoves == [] {
      return node;
    }
    ghost var h := Heuristics.HeuristicOf(kind);
    ghost var n := View(node);
    value := SearchNode(node.othello, NoMove, if maximizing then Lowest else DblMax);
    ghost var start := View(value);
    var moves := node.othello.legalMoves;
    for k := 0 to |moves|
      invariant node.othello.Valid() && View(node) == n
      invariant value.othello.Valid()
      invariant Adopt(Replies(h, n, depth, maxDepth, maximizing, Lowest)[k..], View(value), maximizing)
             == Adopt(Replies(h, n, depth, maxDepth, maximizing, Lowest), start, maximizing)
    {
      value := SearchStep(kind, node, depth, maxDepth, maximizing, k, value);
    }
    if depth > 0 {
      value := value.(move := node.move);
    }
  }

  /** One pass of the loop of `minimax`: the reply to the `k`-th move, adopted when it is no worse. */
  method SearchStep(kind: Heuristics.HeuristicKind, node: SearchNode, depth: int, maxDepth: int, maximizing: bool,
                    k: int, value: SearchNode)
    returns (value': SearchNode)
    requires node.othello.Valid() && value.othello.Valid() && 0 <= k < |node.othello.legalMoves|
    ensures value'.othello.Valid()
    ensures View(value') == Better(Reply(Heuristics.HeuristicOf(kind), View(node), depth, maxDepth, maximizing, Lowest, k),
                                   View(value), maximizing)
    ensures var rs := Replies(Heuristics.HeuristicOf(kind), View(node), depth, maxDepth, maximizing, Lowest);
      Adopt(rs[k..], View(value), maximizing) == Adopt(rs[k + 1..], View(value'), maximizing)
    decreases Count(node.othello.Value().grid, Empty), 0
  {
    ghost var h := Heuristics.HeuristicOf(kind);
    ghost var n := View(node);
    var move := node.othello.legalMoves[k].0;
    PlayKey(n.pos, k);
    var child := MakeNodeOn(kind, node.othello, move);
    var blackTurn := node.othello.blackTurn;
    var childBlackTurn := child.othello.blackTurn;
    var goAgain := blackTurn == childBlackTurn;
    var opponentChild := Search(kind, child, depth + 1, maxDepth, goAgain == maximizing);
    value' := value;
    if maximizing {
      if opponentChild.score >= value.score {
        value' := opponentChild;
      }
    } else {
      if opponentChild.score <= value.score {
        value' := opponentChild;
      }
    }
    ghost var rs := Replies(h, n, depth, maxDepth, maximizing, Lowest);
    assert rs[k..][0] == rs[k] == Reply(h, n, depth, maxDepth, maximizing, Lowest, k);
    assert rs[k..][1..] == rs[k + 1..];
  }

  /** `nextMove`, with the intended sentinel: the search from a root node that holds the game itself. */
  method NextMoveOn(kind: Heuristics.HeuristicKind, othello: Game.Othello, maxDepth: int)
    returns (r: Result<Pos, SearchError>)
    requires othello.Valid()
    ensures r == NextMove(Heuristics.HeuristicOf(kind), othello.Value(), maxDepth)
  {
    var origin := SearchNode(othello, NoMove, Lowest);
    var node := Search(kind, origin, 0, maxDepth, true);
    if node.move == origin.move {
      return Err(NoMoveSelected);
    }
    r := Ok(node.move);
  }
}
