/**
  The `Othello` class: the board as an `array2`, the side to move and the
  legal-move table, updated in place by `placePiece`. Every method is proved
  to compute the function of module Rules that it implements.
 */
module Game {
  import opened Wrappers
  import opened Board
  import opened Rules

  class Othello {
    const board: array2<Cell>
    var blackTurn: bool
    var legalMoves: MoveTable

    predicate Shaped()
    {
      board.Length0 == Size && board.Length1 == Size
    }

    /** The position this object holds. */
    function Value(): Position
      reads this, board
      requires Shaped()
    {
      Position(ToSeq(board), blackTurn)
    }

    /** The table always holds the legal moves of the side to move. */
    ghost predicate Valid()
      reads this, board
    {
      Shaped() && legalMoves == LegalMoves(Value())
    }

    /** `Othello()`: an empty board with the four centre pieces, black to move. */
    constructor ()
      ensures Valid() && fresh(board) && Value() == Initial()
    {
      board := new Cell[Size, Size]((i, j) => Empty);
      blackTurn := true;
      legalMoves := [];
      new;
      SameSquare(ToSeq(board), Filled(Empty));
      PlaceOpening();
      CalculateLegalMoves();
      assert ToSeq(board) == Initial().grid;
    }

    /** The four centre pieces of the constructor, on a board still empty. */
    method PlaceOpening()
      requires Shaped() && ToSeq(board) == Filled(Empty)
      modifies board
      ensures ToSeq(board) == Initial().grid
    {
      Write(board, (3, 3), White);
      Write(board, (3, 4), Black);
      Write(board, (4, 3), Black);
      Write(board, (4, 4), White);
      SameSquare(ToSeq(board), Initial().grid);
    }

    /** The copy a search node makes of a board. */
    constructor Copy(other: Othello)
      requires other.Valid()
      ensures Valid() && fresh(board) && Value() == other.Value()
    {
      board := new Cell[Size, Size]((i, j) reads other.board =>
        if 0 <= i < Size && 0 <= j < Size then other.board[i, j] else Empty);
      blackTurn := other.blackTurn;
      legalMoves := other.legalMoves;
      new;
      SameSquare(ToSeq(board), ToSeq(other.board));
    }

    /** One ray of `captured`: the provisional run, committed only by a piece of the mover. */
    method ScanRay(ghost g: Grid, x: int, y: int, d: Dir, isBlack: bool) returns (run: Captures)
      requires Shaped() && g == Value().grid && OnBoard((x, y)) && IsRay(d)
      ensures run == RayCaptures(g, (x, y), d, isBlack)
    {
      var same := Colour(isBlack);
      var opposite := Opposite(isBlack);
      var temp: Captures := [];
      var i, j := x + d.dx, y + d.dy;
      ghost var k := 1;
      while 0 <= i < Size && 0 <= j < Size
        invariant k >= 1 && (i, j) == RayAt((x, y), d, k)
        invariant Walk(g, (x, y), d, isBlack, k, temp) == RayCaptures(g, (x, y), d, isBlack)
        decreases Size - k
      {
        RayLeaves((x, y), d, k);
        var nextSpot := board[i, j];
        if nextSpot == opposite {
          temp := temp + [(i, j)];
        }
        if nextSpot == same {
          return temp;
        }
        if nextSpot == Empty {
          return [];
        }
        RayNext((x, y), d, k);
        i, j := i + d.dx, j + d.dy;
        k := k + 1;
      }
      return [];
    }

    /**
      `captured(x, y, isBlack)`: nothing for an occupied square, otherwise the
      eight rays' runs in the order the source casts them.
     */
    method Captured(x: int, y: int, isBlack: bool) returns (captures: Captures)
      requires Shaped() && OnBoard((x, y))
      ensures captures == Rules.Captured(Value().grid, (x, y), isBlack)
    {
      if board[x, y] != Empty {
        return [];
      }
      RaysDistinct();
      captures := CastRays(x, y, isBlack, Rays);
    }

    /** The runs of `rays` from `(x, y)`, concatenated in order. */
    method CastRays(x: int, y: int, isBlack: bool, rays: seq<Dir>) returns (captures: Captures)
      requires Shaped() && OnBoard((x, y)) && AllRays(rays)
      ensures captures == CapturesAlong(Value().grid, (x, y), isBlack, rays)
    {
      captures := [];
      ghost var g := Value().grid;
      for r := 0 to |rays|
        invariant captures + CapturesAlong(g, (x, y), isBlack, rays[r..])
               == CapturesAlong(g, (x, y), isBlack, rays)
      {
        var run := ScanRay(g, x, y, rays[r], isBlack);
        ghost var rest := CapturesAlong(g, (x, y), isBlack, rays[r + 1..]);
        assert rays[r..][1..] == rays[r + 1..];
        assert CapturesAlong(g, (x, y), isBlack, rays[r..]) == run + rest;
        AppendAssoc(captures, run, rest);
        captures := captures + run;
      }
    }

    /** `calculateLegalMoves`: rebuilds the table in row-major order. */
    method CalculateLegalMoves()
      requires Shaped()
      modifies this`legalMoves
      ensures Valid()
    {
      var table: MoveTable := [];
      ghost var g := Value().grid;
      ghost var b := blackTurn;
      for i := 0 to Size
        invariant table + LegalFrom(g, b, i, 0) == LegalFrom(g, b, 0, 0)
      {
        var row := RowMoves(g, i);
        AppendAssoc(table, row, LegalFrom(g, b, i + 1, 0));
        table := table + row;
      }
      assert table == LegalFrom(g, b, 0, 0);
      legalMoves := table;
    }

    /** The inner loop of `calculateLegalMoves`: the legal moves in row `i`, in column order. */
    method RowMoves(ghost g: Grid, i: int) returns (row: MoveTable)
      requires Shaped() && g == Value().grid && 0 <= i < Size
      ensures row + LegalFrom(g, blackTurn, i + 1, 0) == LegalFrom(g, blackTurn, i, 0)
    {
      row := [];
      var b := blackTurn;
      for j := 0 to Size
        invariant row + LegalFrom(g, b, i, j) == LegalFrom(g, b, i, 0)
      {
        var captures := Captured(i, j, b);
        var here := if captures != [] then [((i, j), captures)] else [];
        ghost var rest := LegalFrom(g, b, i, j + 1);
        assert LegalFrom(g, b, i, j) == here + rest;
        AppendAssoc(row, here, rest);
        row := row + here;
      }
    }

    /**
      `placePiece(x, y)`: fails with "Illegal move", changing nothing, when
      `(x, y)` is not a key of the table; otherwise the position becomes the
      one `Play` describes.
     */
    method PlacePiece(x: int, y: int) returns (r: Outcome<GameError>)
      requires Valid()
      modifies this, board
      ensures Valid()
      ensures match Play(old(Value()), x, y)
        case Ok(p) => r == Pass && Value() == p
        case Err(e) => r == Fail(e) && Value() == old(Value())
    {
      var found := Find(legalMoves, (x, y));
      if found.None? {
        return Fail(IllegalMove(x, y));
      }
      ghost var pos := Value();
      FindLegal(pos, (x, y));
      CapturedSound(pos.grid, (x, y), pos.blackTurn);
      var captures := found.value;
      var newState := Colour(blackTurn);
      ghost var placed := Set(pos.grid, (x, y), newState);
      ghost var target := Paint(placed, captures, newState);
      assert Play(pos, x, y) == Ok(Position(target,
        if LegalMoves(Position(target, !pos.blackTurn)) == [] then pos.blackTurn else !pos.blackTurn));
      Write(board, (x, y), newState);
      WriteAll(board, placed, captures, newState);
      PassTurn(target);
      r := Pass;
    }

    /**
      The end of `placePiece`: the turn passes to the other side, and comes
      back when that side has no legal move; the table follows the turn.
     */
    method PassTurn(ghost g: Grid)
      requires Shaped() && g == Value().grid
      modifies this`blackTurn, this`legalMoves
      ensures Valid() && Value().grid == g
      ensures blackTurn == if LegalMoves(Position(g, !old(blackTurn))) == [] then old(blackTurn) else !old(blackTurn)
    {
      blackTurn := !blackTurn;
      CalculateLegalMoves();
      if legalMoves == [] {
        blackTurn := !blackTurn;
        CalculateLegalMoves();
      }
    }

    /** `score()`: (black pieces, white pieces), by a full scan. */
    method Score() returns (black: int, white: int)
      requires Shaped()
      ensures (black, white) == Rules.Score(Value().grid)
    {
      black, white := 0, 0;
      ghost var g := Value().grid;
      for i := 0 to Size
        invariant black + CountFrom(g, Cell.Black, i, 0) == CountFrom(g, Cell.Black, 0, 0)
        invariant white + CountFrom(g, Cell.White, i, 0) == CountFrom(g, Cell.White, 0, 0)
      {
        var b, w := ScoreRow(i);
        black, white := black + b, white + w;
      }
      assert black == CountFrom(g, Cell.Black, 0, 0) && white == CountFrom(g, Cell.White, 0, 0);
    }

    /** The inner loop of `score()`: the pieces of each colour in row `i`. */
    method ScoreRow(i: int) returns (black: int, white: int)
      requires Shaped() && 0 <= i < Size
      ensures black + CountFrom(Value().grid, Cell.Black, i + 1, 0) == CountFrom(Value().grid, Cell.Black, i, 0)
      ensures white + CountFrom(Value().grid, Cell.White, i + 1, 0) == CountFrom(Value().grid, Cell.White, i, 0)
    {
      black, white := 0, 0;
      ghost var g := Value().grid;
      for j := 0 to Size
        invariant black + CountFrom(g, Cell.Black, i, j) == CountFrom(g, Cell.Black, i, 0)
        invariant white + CountFrom(g, Cell.White, i, j) == CountFrom(g, Cell.White, i, 0)
      {
        match board[i, j]
        case Empty =>
        case Black => black := black + 1;
        case White => white := white + 1;
      }
    }
  }

  /** `operator==`: two games are equal when their boards are, whoever is to move. */
  function SameBoard(a: Othello, b: Othello): (eq: bool)
    reads a, a.board, b, b.board
    requires a.Shaped() && b.Shaped()
    ensures eq <==> forall i, j :: 0 <= i < Size && 0 <= j < Size ==> a.board[i, j] == b.board[i, j]
  {
    SameSquareIff(ToSeq(a.board), ToSeq(b.board));
    ToSeq(a.board) == ToSeq(b.board)
  }
}
