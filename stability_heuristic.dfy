/**
  `stabilityHeuristic` as the source runs it: a `State` array filled in
  place by `markUnstablePieces`, `markEdgesAsStable` and the promotion
  loop, then tallied. Every method is proved to compute the function of
  module StabilitySpec that describes its phase.
 */
module StabilityHeuristic {
  import opened Wrappers
  import opened Board
  import opened Rules
  import opened StabilitySpec
  import Game

  predicate Shaped<T>(a: array2<T>) {
    a.Length0 == Size && a.Length1 == Size
  }

  /** `markUnstablePieces(othello, state)`: the capture lists of the table, move by move. */
  method MarkUnstablePieces(othello: Game.Othello, state: array2<Stability>)
    requires othello.Valid() && Shaped(state)
    modifies state
    ensures TableOnBoard(othello.legalMoves)
    ensures ToSeq(state) == MarkUnstable(old(ToSeq(state)), othello.legalMoves)
  {
    LegalTableOnBoard(othello.Value());
    var t := othello.legalMoves;
    for k := 0 to |t|
      invariant MarkUnstable(ToSeq(state), t[k..]) == MarkUnstable(old(ToSeq(state)), t)
    {
      assert t[k..][1..] == t[k + 1..];
      WriteAll(state, ToSeq(state), t[k].1, Unstable);
    }
  }

  /** One loop of `checkCorner` from `(x, y)` along `d`, stopping at the first square of another state. */
  method MarkLine(board: array2<Cell>, state: array2<Stability>, x: int, y: int, d: Dir)
    requires Shaped(board) && Shaped(state) && OnBoard((x, y)) && IsRay(d)
    modifies state
    ensures ToSeq(state) == MarkRun(ToSeq(board), old(ToSeq(state)), (x, y), d, 0)
  {
    ghost var g := ToSeq(board);
    var i, j := x, y;
    ghost var k := 0;
    while 0 <= i < Size && 0 <= j < Size
      invariant k >= 0 && (i, j) == RayAt((x, y), d, k)
      invariant MarkRun(g, ToSeq(state), (x, y), d, k) == MarkRun(g, old(ToSeq(state)), (x, y), d, 0)
      decreases Size - k
    {
      RayLeaves((x, y), d, k);
      if board[i, j] != board[x, y] {
        break;
      }
      Write(state, (i, j), Stable);
      RayNext((x, y), d, k);
      i, j := i + d.dx, j + d.dy;
      k := k + 1;
    }
  }

  /** `checkCorner(x, y)`: an occupied corner's runs along the first index, then along the second. */
  method CheckCorner(board: array2<Cell>, state: array2<Stability>, x: int, y: int)
    requires Shaped(board) && Shaped(state) && OnBoard((x, y))
    modifies state
    ensures ToSeq(state) == StabilitySpec.CheckCorner(ToSeq(board), old(ToSeq(state)), (x, y))
  {
    if board[x, y] != Empty {
      MarkLine(board, state, x, y, Dir(if x == 0 then 1 else -1, 0));
      MarkLine(board, state, x, y, Dir(0, if y == 0 then 1 else -1));
    }
  }

  /** `markEdgesAsStable(boardState, state)`. */
  method MarkEdgesAsStable(board: array2<Cell>, state: array2<Stability>)
    requires Shaped(board) && Shaped(state)
    modifies state
    ensures ToSeq(state) == MarkEdges(ToSeq(board), old(ToSeq(state)))
  {
    CheckCorner(board, state, 0, 0);
    CheckCorner(board, state, 0, Size - 1);
    CheckCorner(board, state, Size - 1, 0);
    CheckCorner(board, state, Size - 1, Size - 1);
  }

  /** The x-axis scan: no square with second index `y` is empty. */
  method RowScan(board: array2<Cell>, y: int) returns (full: bool)
    requires Shaped(board) && 0 <= y < Size
    ensures full == RowFilled(ToSeq(board), y)
  {
    full := true;
    for i := 0 to Size
      invariant forall i' :: 0 <= i' < i ==> board[i', y] != Empty
    {
      if board[i, y] == Empty {
        full := false;
        break;
      }
    }
  }

  /** The y-axis scan: no square with first index `x` is empty. */
  method ColumnScan(board: array2<Cell>, x: int) returns (full: bool)
    requires Shaped(board) && 0 <= x < Size
    ensures full == ColumnFilled(ToSeq(board), x)
  {
    full := true;
    for i := 0 to Size
      invariant forall i' :: 0 <= i' < i ==> board[x, i'] != Empty
    {
      if board[x, i] == Empty {
        full := false;
        break;
      }
    }
  }

  /** A diagonal scan from `(x, y)` along `d` to the edge of the board. */
  method RayScan(board: array2<Cell>, x: int, y: int, d: Dir) returns (full: bool)
    requires Shaped(board) && OnBoard((x, y)) && IsRay(d)
    ensures full == RayFilled(ToSeq(board), (x, y), d)
  {
    ghost var g := ToSeq(board);
    full := true;
    var i, j := x + d.dx, y + d.dy;
    ghost var k := 1;
    while 0 <= i < Size && 0 <= j < Size
      invariant k >= 1 && (i, j) == RayAt((x, y), d, k)
      invariant forall k' :: 1 <= k' < k ==> OnBoard(RayAt((x, y), d, k')) && At(g, RayAt((x, y), d, k')) != Empty
      decreases Size - k
    {
      RayLeaves((x, y), d, k);
      if board[i, j] == Empty {
        return false;
      }
      RayNext((x, y), d, k);
      i, j := i + d.dx, j + d.dy;
      k := k + 1;
    }
    forall k' | k <= k' < Size
      ensures !OnBoard(RayAt((x, y), d, k'))
    {
      RayOnBoard((x, y), d, k);
      RayOnBoard((x, y), d, k');
    }
  }

  /** One axis: a STABLE neighbour of the same colour on either side of `(x, y)` along `d`. */
  method Neighbours(board: array2<Cell>, state: array2<Stability>, x: int, y: int, d: Dir) returns (anchored: bool)
    requires Shaped(board) && Shaped(state) && Interior((x, y)) && IsRay(d)
    ensures anchored == Anchored(ToSeq(board), ToSeq(state), (x, y), d)
  {
    var color := board[x, y];
    anchored := (board[x - d.dx, y - d.dy] == color && state[x - d.dx, y - d.dy] == Stable) ||
                (board[x + d.dx, y + d.dy] == color && state[x + d.dx, y + d.dy] == Stable);
  }

  /**
    `checkIfPieceIsStable(boardState, state, x, y)`, with the loop of the
    other diagonal bounded by the board.
   */
  method CheckIfPieceIsStable(board: array2<Cell>, state: array2<Stability>, x: int, y: int)
    returns (r: Result<bool, StabilityError>)
    requires Shaped(board) && Shaped(state) && Interior((x, y))
    ensures r == IsStable(ToSeq(board), ToSeq(state), (x, y))
  {
    if board[x, y] == Empty {
      return Err(EmptyTile);
    }
    var xAxis := Neighbours(board, state, x, y, Dir(1, 0));
    if !xAxis {
      xAxis := RowScan(board, y);
    }
    if !xAxis {
      return Ok(false);
    }
    var yAxis := Neighbours(board, state, x, y, Dir(0, 1));
    if !yAxis {
      yAxis := ColumnScan(board, x);
    }
    if !yAxis {
      return Ok(false);
    }
    var diagonal := Neighbours(board, state, x, y, Dir(1, 1));
    if !diagonal {
      diagonal := RayScan(board, x, y, Dir(1, 1));
      if diagonal {
        diagonal := RayScan(board, x, y, Dir(-1, -1));
      }
    }
    if !diagonal {
      return Ok(false);
    }
    var other := Neighbours(board, state, x, y, Dir(1, -1));
    if !other {
      other := RayScan(board, x, y, Dir(1, -1));
      if other {
        other := RayScan(board, x, y, Dir(-1, 1));
      }
    }
    return Ok(other);
  }

  /** Row `i` of one pass of the promotion loop; `changed` is whether it promoted a piece. */
  method SweepRowPass(board: array2<Cell>, state: array2<Stability>, i: int) returns (changed: bool)
    requires Shaped(board) && Shaped(state) && 1 <= i < Size - 1
    modifies state
    ensures (ToSeq(state), changed) == SweepRow(ToSeq(board), old(ToSeq(state)), i, 1)
  {
    ghost var g := ToSeq(board);
    ghost var target := SweepRow(g, ToSeq(state), i, 1);
    changed := false;
    for j := 1 to Size - 1
      invariant SweepRow(g, ToSeq(state), i, j).0 == target.0
      invariant (changed || SweepRow(g, ToSeq(state), i, j).1) == target.1
    {
      if board[i, j] == Empty {
        continue;
      }
      if state[i, j] != SemiStable {
        continue;
      }
      var stable := CheckIfPieceIsStable(board, state, i, j);
      if stable == Ok(true) {
        Write(state, (i, j), Stable);
        changed := true;
      }
    }
  }

  /** One pass of the body of the `do … while` loop: every interior square in row-major order. */
  method SweepPass(board: array2<Cell>, state: array2<Stability>) returns (madeChange: bool)
    requires Shaped(board) && Shaped(state)
    modifies state
    ensures (ToSeq(state), madeChange) == Sweep(ToSeq(board), old(ToSeq(state)))
  {
    ghost var g := ToSeq(board);
    ghost var target := Sweep(g, ToSeq(state));
    madeChange := false;
    for i := 1 to Size - 1
      invariant SweepRows(g, ToSeq(state), i).0 == target.0
      invariant (madeChange || SweepRows(g, ToSeq(state), i).1) == target.1
    {
      var changed := SweepRowPass(board, state, i);
      madeChange := madeChange || changed;
    }
  }

  /** The `do { … } while (madeChange)` loop. */
  method Promote(board: array2<Cell>, state: array2<Stability>)
    requires Shaped(board) && Shaped(state)
    modifies state
    ensures ToSeq(state) == Settle(ToSeq(board), old(ToSeq(state)))
  {
    ghost var g := ToSeq(board);
    ghost var target := Settle(g, ToSeq(state));
    var madeChange := true;
    while madeChange
      invariant madeChange ==> Settle(g, ToSeq(state)) == target
      invariant !madeChange ==> ToSeq(state) == target
      decreases if madeChange then Semi(ToSeq(state)) + 1 else 0
    {
      ghost var before := ToSeq(state);
      SweepProgress(g, before);
      madeChange := SweepPass(board, state);
    }
  }

  /** The points of row `i`, by colour. */
  method TallyRow(board: array2<Cell>, state: array2<Stability>, i: int) returns (whitePoints: int, blackPoints: int)
    requires Shaped(board) && Shaped(state) && 0 <= i < Size
    ensures var g, s := ToSeq(board), ToSeq(state);
      whitePoints + PointsFrom(g, s, White, i + 1, 0) == PointsFrom(g, s, White, i, 0) &&
      blackPoints + PointsFrom(g, s, Black, i + 1, 0) == PointsFrom(g, s, Black, i, 0)
  {
    ghost var g, s := ToSeq(board), ToSeq(state);
    whitePoints, blackPoints := 0, 0;
    for j := 0 to Size
      invariant whitePoints + PointsFrom(g, s, White, i, j) == PointsFrom(g, s, White, i, 0)
      invariant blackPoints + PointsFrom(g, s, Black, i, j) == PointsFrom(g, s, Black, i, 0)
    {
      assert PointsFrom(g, s, White, i, j) == (if g[i][j] == White then Points(s[i][j]) else 0) + PointsFrom(g, s, White, i, j + 1);
      assert PointsFrom(g, s, Black, i, j) == (if g[i][j] == Black then Points(s[i][j]) else 0) + PointsFrom(g, s, Black, i, j + 1);
      var points;
      match state[i, j] {
        case Stable => points := 2;
        case Unstable => continue;
        case SemiStable => points := 1;
      }
      match board[i, j] {
        case Black => blackPoints := blackPoints + points;
        case White => whitePoints := whitePoints + points;
        case Empty =>
      }
    }
  }

  /** `tallyScore(othello, state)`: (white points, black points). */
  method TallyScore(board: array2<Cell>, state: array2<Stability>) returns (whitePoints: int, blackPoints: int)
    requires Shaped(board) && Shaped(state)
    ensures (whitePoints, blackPoints) == Tally(ToSeq(board), ToSeq(state))
  {
    ghost var g, s := ToSeq(board), ToSeq(state);
    whitePoints, blackPoints := 0, 0;
    for i := 0 to Size
      invariant whitePoints + PointsFrom(g, s, White, i, 0) == PointsFrom(g, s, White, 0, 0)
      invariant blackPoints + PointsFrom(g, s, Black, i, 0) == PointsFrom(g, s, Black, 0, 0)
    {
      var w, b := TallyRow(board, state, i);
      whitePoints, blackPoints := whitePoints + w, blackPoints + b;
    }
    assert whitePoints == PointsFrom(g, s, White, 0, 0) && blackPoints == PointsFrom(g, s, Black, 0, 0);
  }

  /** The marking phases of `stabilityHeuristic`, on a fresh `State` of SEMI_STABLE squares. */
  method Classify(othello: Game.Othello) returns (state: array2<Stability>)
    requires othello.Valid()
    ensures fresh(state) && Shaped(state)
    ensures ToSeq(state) == Levels(othello.Value())
  {
    ghost var pos := othello.Value();
    LegalTableOnBoard(pos);
    ghost var s1 := MarkUnstable(Filled(SemiStable), LegalMoves(pos));
    ghost var s2 := MarkEdges(pos.grid, s1);
    state := new Stability[Size, Size]((i, j) => SemiStable);
    SameSquare(ToSeq(state), Filled(SemiStable));
    MarkUnstablePieces(othello, state);
    assert ToSeq(state) == s1;
    MarkEdgesAsStable(othello.board, state);
    assert ToSeq(state) == s2;
    Promote(othello.board, state);
  }

  /**
    `stabilityHeuristic(othello)`, with both defects corrected: the levels
    of the marking phases, tallied by colour and turned into a percentage;
    the board is only read.
   */
  method StabilityHeuristic(othello: Game.Othello) returns (h: real)
    requires othello.Valid()
    ensures h == Heuristic(othello.Value())
  {
    var state := Classify(othello);
    var whitePoints, blackPoints := TallyScore(othello.board, state);
    assert (whitePoints, blackPoints) == Tally(othello.Value().grid, Levels(othello.Value()));
    if whitePoints == blackPoints {
      return 0.0;
    }
    var blackScore := 100.0 * (blackPoints - whitePoints) as real / (blackPoints + whitePoints) as real;
    h := if othello.blackTurn then blackScore else -blackScore;
  }
}
