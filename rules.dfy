/**
  The rules of Othello as values: what `captured`, `calculateLegalMoves`,
  `placePiece` and `score` compute, independent of where the board is stored.
  The class in module Game is proved to compute exactly these functions.
 */
module Rules {
  import opened Wrappers
  import opened Board

  /** A board together with the side to move: the value an `Othello` object holds. */
  datatype Position = Position(grid: Grid, blackTurn: bool)

  /** `Othello::Captures`: the squares a move flips, ray by ray. */
  type Captures = seq<Pos>

  /** `legalMoves_`: target square and its capture list, in key order. */
  type MoveTable = seq<(Pos, Captures)>

  /** The exception `placePiece` throws. */
  datatype GameError = IllegalMove(x: int, y: int)

  /** The piece a side places. */
  function Colour(isBlack: bool): Cell {
    if isBlack then Black else White
  }

  /** The piece a side captures. */
  function Opposite(isBlack: bool): Cell {
    if isBlack then White else Black
  }

  predicate NoDup<T(==)>(s: seq<T>) {
    forall a, b :: 0 <= a < b < |s| ==> s[a] != s[b]
  }

  /**
    The eight rays in the order `captured` casts them: y up, y down, x right,
    x left, then the four diagonals.
   */
  const Rays: seq<Dir> :=
    [Dir(0, 1), Dir(0, -1), Dir(1, 0), Dir(-1, 0), Dir(1, 1), Dir(-1, -1), Dir(-1, 1), Dir(1, -1)]

  predicate AllRays(rays: seq<Dir>) {
    forall k :: 0 <= k < |rays| ==> IsRay(rays[k])
  }

  lemma RaysDistinct()
    ensures AllRays(Rays) && NoDup(Rays)
  {
  }

  // ---------------------------------------------------------------------------
  // One ray

  /**
    The loop of one ray at distance `k` from the target `p`, with the
    provisional run `temp`: an opponent piece extends the run, the mover's
    piece commits it, an empty square or the edge discards it.
   */
  function Walk(g: Grid, p: Pos, d: Dir, isBlack: bool, k: int, temp: Captures): Captures
    requires OnBoard(p) && IsRay(d) && k >= 1
    decreases Room(p, d) - k
  {
    var q := RayAt(p, d, k);
    if !OnBoard(q) then []
    else if At(g, q) == Opposite(isBlack) then
      RayLeaves(p, d, k);
      Walk(g, p, d, isBlack, k + 1, temp + [q])
    else if At(g, q) == Colour(isBlack) then temp
    else []
  }

  /** What one ray from `p` contributes to the capture list. */
  function RayCaptures(g: Grid, p: Pos, d: Dir, isBlack: bool): Captures
    requires OnBoard(p) && IsRay(d)
  {
    Walk(g, p, d, isBlack, 1, [])
  }

  /** `run` is the squares at distances 1 .. |run| along `d`, each holding an opponent piece. */
  ghost predicate IsRun(g: Grid, p: Pos, d: Dir, isBlack: bool, run: Captures) {
    forall m :: 0 <= m < |run| ==>
      run[m] == RayAt(p, d, m + 1) && OnBoard(run[m]) && At(g, run[m]) == Opposite(isBlack)
  }

  /** The square just past a run of length `n` holds a piece of the mover. */
  ghost predicate Closes(g: Grid, p: Pos, d: Dir, isBlack: bool, n: int) {
    OnBoard(RayAt(p, d, n + 1)) && At(g, RayAt(p, d, n + 1)) == Colour(isBlack)
  }

  lemma {:induction false} WalkSound(g: Grid, p: Pos, d: Dir, isBlack: bool, k: int, temp: Captures)
    requires OnBoard(p) && IsRay(d) && k >= 1
    requires |temp| == k - 1 && IsRun(g, p, d, isBlack, temp)
    ensures var r := Walk(g, p, d, isBlack, k, temp);
      IsRun(g, p, d, isBlack, r) && (r != [] ==> Closes(g, p, d, isBlack, |r|))
    decreases Size - k
  {
    var q := RayAt(p, d, k);
    if OnBoard(q) && At(g, q) == Opposite(isBlack) {
      RayLeaves(p, d, k);
      WalkSound(g, p, d, isBlack, k + 1, temp + [q]);
    }
  }

  /**
    A ray contributes a run of opponent pieces starting next to the target,
    and only when a piece of the mover closes it.
   */
  lemma RayCapturesSound(g: Grid, p: Pos, d: Dir, isBlack: bool)
    requires OnBoard(p) && IsRay(d)
    ensures var r := RayCaptures(g, p, d, isBlack);
      IsRun(g, p, d, isBlack, r) && (r != [] ==> Closes(g, p, d, isBlack, |r|))
  {
    WalkSound(g, p, d, isBlack, 1, []);
  }

  lemma {:induction false} WalkComplete(g: Grid, p: Pos, d: Dir, isBlack: bool, k: int, temp: Captures, n: int)
    requires OnBoard(p) && IsRay(d) && 1 <= k <= n + 1
    requires |temp| == k - 1
    requires forall m :: k <= m <= n ==>
      OnBoard(RayAt(p, d, m)) && At(g, RayAt(p, d, m)) == Opposite(isBlack)
    requires Closes(g, p, d, isBlack, n)
    ensures |Walk(g, p, d, isBlack, k, temp)| == n
    decreases n + 1 - k
  {
    if k <= n {
      RayLeaves(p, d, k);
      WalkComplete(g, p, d, isBlack, k + 1, temp + [RayAt(p, d, k)], n);
    }
  }

  /** A run of `n >= 1` opponent pieces closed by a piece of the mover is captured whole. */
  lemma RayCommits(g: Grid, p: Pos, d: Dir, isBlack: bool, n: int)
    requires OnBoard(p) && IsRay(d) && n >= 1
    requires forall m :: 1 <= m <= n ==>
      OnBoard(RayAt(p, d, m)) && At(g, RayAt(p, d, m)) == Opposite(isBlack)
    requires Closes(g, p, d, isBlack, n)
    ensures var r := RayCaptures(g, p, d, isBlack);
      |r| == n && forall m :: 0 <= m < n ==> r[m] == RayAt(p, d, m + 1)
  {
    WalkComplete(g, p, d, isBlack, 1, [], n);
    RayCapturesSound(g, p, d, isBlack);
  }

  lemma {:induction false} WalkDead(g: Grid, p: Pos, d: Dir, isBlack: bool, k: int, temp: Captures, n: int)
    requires OnBoard(p) && IsRay(d) && 1 <= k <= n + 1
    requires forall m :: k <= m <= n ==>
      OnBoard(RayAt(p, d, m)) && At(g, RayAt(p, d, m)) == Opposite(isBlack)
    requires !OnBoard(RayAt(p, d, n + 1)) || At(g, RayAt(p, d, n + 1)) == Empty
    ensures Walk(g, p, d, isBlack, k, temp) == []
    decreases n + 1 - k
  {
    if k <= n {
      RayLeaves(p, d, k);
      WalkDead(g, p, d, isBlack, k + 1, temp + [RayAt(p, d, k)], n);
    }
  }

  /** A run that ends at an empty square or at the edge adds nothing. */
  lemma RayDeadEnd(g: Grid, p: Pos, d: Dir, isBlack: bool, n: int)
    requires OnBoard(p) && IsRay(d) && n >= 0
    requires forall m :: 1 <= m <= n ==>
      OnBoard(RayAt(p, d, m)) && At(g, RayAt(p, d, m)) == Opposite(isBlack)
    requires !OnBoard(RayAt(p, d, n + 1)) || At(g, RayAt(p, d, n + 1)) == Empty
    ensures RayCaptures(g, p, d, isBlack) == []
  {
    WalkDead(g, p, d, isBlack, 1, [], n);
  }

  // ---------------------------------------------------------------------------
  // All eight rays

  /**
    The runs of `rays`, concatenated in order. The target is named in the
    `decreases` clause so that the verifier does not expand all eight rays
    wherever the constant list `Rays` is passed.
   */
  function CapturesAlong(g: Grid, p: Pos, isBlack: bool, rays: seq<Dir>): Captures
    requires OnBoard(p) && AllRays(rays)
    decreases |rays|, p
  {
    if rays == [] then []
    else RayCaptures(g, p, rays[0], isBlack) + CapturesAlong(g, p, isBlack, rays[1..])
  }

  /** `Othello::captured`: nothing for an occupied target, else every ray's contribution. */
  function Captured(g: Grid, p: Pos, isBlack: bool): Captures
    requires OnBoard(p)
  {
    RaysDistinct();
    if At(g, p) != Empty then [] else CapturesAlong(g, p, isBlack, Rays)
  }

  lemma {:induction false} AlongSound(g: Grid, p: Pos, isBlack: bool, rays: seq<Dir>)
    requires OnBoard(p) && AllRays(rays) && NoDup(rays)
    ensures var c := CapturesAlong(g, p, isBlack, rays);
      NoDup(c) &&
      forall k :: 0 <= k < |c| ==>
        OnBoard(c[k]) && At(g, c[k]) == Opposite(isBlack) && c[k] != p && DirFrom(p, c[k]) in rays
    decreases |rays|
  {
    if rays != [] {
      var d := rays[0];
      var a := RayCaptures(g, p, d, isBlack);
      var b := CapturesAlong(g, p, isBlack, rays[1..]);
      RayCapturesSound(g, p, d, isBlack);
      AlongSound(g, p, isBlack, rays[1..]);
      forall m | 0 <= m < |a|
        ensures DirFrom(p, a[m]) == d && a[m] != p
      {
        RayDirection(p, d, m + 1);
      }
      forall m1, m2 | 0 <= m1 < m2 < |a|
        ensures a[m1] != a[m2]
      {
        if a[m1] == a[m2] {
          RayInjective(p, d, m1 + 1, m2 + 1);
        }
      }
      assert d !in rays[1..] by {
        forall k | 0 <= k < |rays[1..]| ensures rays[1..][k] != d {
          assert rays[1..][k] == rays[k + 1];
        }
      }
      var c := a + b;
      assert CapturesAlong(g, p, isBlack, rays) == c;
      forall x, y | 0 <= x < y < |c|
        ensures c[x] != c[y]
      {
        if x < |a| && y >= |a| {
          assert DirFrom(p, c[x]) == d;
          assert DirFrom(p, c[y]) in rays[1..];
        }
      }
      forall k | 0 <= k < |c|
        ensures OnBoard(c[k]) && At(g, c[k]) == Opposite(isBlack) && c[k] != p && DirFrom(p, c[k]) in rays
      {
        if k >= |a| {
          assert c[k] == b[k - |a|];
          assert DirFrom(p, c[k]) in rays[1..];
        }
      }
    }
  }

  /**
    Every square `captured` returns is on the board, holds an opponent piece,
    is not the target and appears once; an occupied target captures nothing.
   */
  lemma CapturedSound(g: Grid, p: Pos, isBlack: bool)
    requires OnBoard(p)
    ensures var c := Captured(g, p, isBlack);
      (At(g, p) != Empty ==> c == []) &&
      NoDup(c) &&
      forall k :: 0 <= k < |c| ==> OnBoard(c[k]) && At(g, c[k]) == Opposite(isBlack) && c[k] != p
  {
    RaysDistinct();
    if At(g, p) == Empty {
      AlongSound(g, p, isBlack, Rays);
    }
  }

  // ---------------------------------------------------------------------------
  // The legal-move table

  /** `calculateLegalMoves` from square `(i, j)` on, in row-major order. */
  function LegalFrom(g: Grid, isBlack: bool, i: int, j: int): MoveTable
    requires 0 <= i <= Size && 0 <= j <= Size
    decreases Size - i, Size - j, g
  {
    if i == Size then []
    else if j == Size then LegalFrom(g, isBlack, i + 1, 0)
    else
      var c := Captured(g, (i, j), isBlack);
      (if c != [] then [((i, j), c)] else []) + LegalFrom(g, isBlack, i, j + 1)
  }

  /** The legal moves of the side to move. */
  function LegalMoves(pos: Position): MoveTable {
    LegalFrom(pos.grid, pos.blackTurn, 0, 0)
  }

  /** Row-major order of squares, which is also `std::pair`'s `<`. */
  predicate Before(p: Pos, q: Pos) {
    p.0 < q.0 || (p.0 == q.0 && p.1 < q.1)
  }

  predicate Sorted(t: MoveTable) {
    forall a, b :: 0 <= a < b < |t| ==> Before(t[a].0, t[b].0)
  }

  /** `legalMoves_.find`. */
  function Find(t: MoveTable, p: Pos): Option<Captures> {
    if t == [] then None
    else if t[0].0 == p then Some(t[0].1)
    else Find(t[1..], p)
  }

  lemma {:induction false} LegalFromSound(g: Grid, isBlack: bool, i: int, j: int)
    requires 0 <= i <= Size && 0 <= j <= Size
    ensures var t := LegalFrom(g, isBlack, i, j);
      Sorted(t) &&
      forall k :: 0 <= k < |t| ==>
        OnBoard(t[k].0) && AtOrAfter(t[k].0, i, j) &&
        t[k].1 == Captured(g, t[k].0, isBlack) && t[k].1 != []
    decreases Size - i, Size - j
  {
    if i == Size {
    } else if j == Size {
      LegalFromSound(g, isBlack, i + 1, 0);
    } else {
      LegalFromSound(g, isBlack, i, j + 1);
    }
  }

  lemma {:induction false} FindLegalFrom(g: Grid, isBlack: bool, i: int, j: int, p: Pos)
    requires 0 <= i <= Size && 0 <= j <= Size
    ensures Find(LegalFrom(g, isBlack, i, j), p)
         == if OnBoard(p) && AtOrAfter(p, i, j) && Captured(g, p, isBlack) != []
            then Some(Captured(g, p, isBlack)) else None
    decreases Size - i, Size - j
  {
    if i == Size {
    } else if j == Size {
      FindLegalFrom(g, isBlack, i + 1, 0, p);
    } else {
      FindLegalFrom(g, isBlack, i, j + 1, p);
      var c := Captured(g, (i, j), isBlack);
      var rest := LegalFrom(g, isBlack, i, j + 1);
      if c != [] {
        assert LegalFrom(g, isBlack, i, j) == [((i, j), c)] + rest;
        assert ([((i, j), c)] + rest)[1..] == rest;
      } else {
        assert LegalFrom(g, isBlack, i, j) == rest;
      }
    }
  }

  /**
    The table lists, in strictly increasing row-major order, exactly the
    squares where `captured` is non-empty, each with that capture list; so
    every key is an empty square and `find` answers from `captured`.
   */
  lemma LegalMovesSpec(pos: Position)
    ensures var t := LegalMoves(pos);
      Sorted(t) &&
      (forall k :: 0 <= k < |t| ==>
        OnBoard(t[k].0) && At(pos.grid, t[k].0) == Empty &&
        t[k].1 == Captured(pos.grid, t[k].0, pos.blackTurn) && t[k].1 != []) &&
      (forall p :: Find(t, p) ==
        if OnBoard(p) && Captured(pos.grid, p, pos.blackTurn) != []
        then Some(Captured(pos.grid, p, pos.blackTurn)) else None)
  {
    var t := LegalMoves(pos);
    LegalFromSound(pos.grid, pos.blackTurn, 0, 0);
    forall k | 0 <= k < |t|
      ensures At(pos.grid, t[k].0) == Empty
    {
      CapturedSound(pos.grid, t[k].0, pos.blackTurn);
    }
    forall p
      ensures Find(t, p) ==
        if OnBoard(p) && Captured(pos.grid, p, pos.blackTurn) != []
        then Some(Captured(pos.grid, p, pos.blackTurn)) else None
    {
      FindLegalFrom(pos.grid, pos.blackTurn, 0, 0, p);
    }
  }

  lemma FindLegal(pos: Position, p: Pos)
    ensures Find(LegalMoves(pos), p)
         == if OnBoard(p) && Captured(pos.grid, p, pos.blackTurn) != []
            then Some(Captured(pos.grid, p, pos.blackTurn)) else None
  {
    FindLegalFrom(pos.grid, pos.blackTurn, 0, 0, p);
  }

  /** There are at most as many legal moves as empty squares. */
  lemma {:induction false} LegalFromBound(g: Grid, isBlack: bool, i: int, j: int)
    requires 0 <= i <= Size && 0 <= j <= Size
    ensures |LegalFrom(g, isBlack, i, j)| <= CountFrom(g, Empty, i, j)
    decreases Size - i, Size - j
  {
    if i == Size {
    } else if j == Size {
      LegalFromBound(g, isBlack, i + 1, 0);
    } else {
      LegalFromBound(g, isBlack, i, j + 1);
      CapturedSound(g, (i, j), isBlack);
    }
  }

  lemma LegalMovesBound(pos: Position)
    ensures |LegalMoves(pos)| <= Count(pos.grid, Empty)
  {
    LegalFromBound(pos.grid, pos.blackTurn, 0, 0);
  }

  // ---------------------------------------------------------------------------
  // Playing a move

  /**
    `placePiece(x, y)`: rejects a square that is not a key of the table;
    otherwise places the mover's piece, flips the captures, hands the turn
    over, and hands it back when the new mover would have no legal move.
   */
  function Play(pos: Position, x: int, y: int): Result<Position, GameError> {
    match Find(LegalMoves(pos), (x, y))
    case None => Err(IllegalMove(x, y))
    case Some(caps) =>
      FindLegal(pos, (x, y));
      CapturedSound(pos.grid, (x, y), pos.blackTurn);
      var me := Colour(pos.blackTurn);
      var g := Paint(Set(pos.grid, (x, y), me), caps, me);
      var next := !pos.blackTurn;
      Ok(Position(g, if LegalMoves(Position(g, next)) == [] then pos.blackTurn else next))
  }

  /** `Othello::score`: (black pieces, white pieces). */
  function Score(g: Grid): (int, int) {
    (Count(g, Black), Count(g, White))
  }

  /** The two score components add up to the number of occupied squares. */
  lemma ScoreSum(g: Grid)
    ensures Score(g).0 + Score(g).1 == 64 - Count(g, Empty)
  {
    CountPartition(g);
  }

  /** The board after a legal move, with the mover's colour written on the target and on the captures. */
  lemma PlayGrid(pos: Position, x: int, y: int)
    requires Play(pos, x, y).Ok?
    ensures OnBoard((x, y))
    ensures var caps := Captured(pos.grid, (x, y), pos.blackTurn);
      caps != [] && AllOnBoard(caps) &&
      (forall k :: 0 <= k < |caps| ==> At(pos.grid, caps[k]) == Opposite(pos.blackTurn) && caps[k] != (x, y)) &&
      Play(pos, x, y).value.grid
        == Paint(Set(pos.grid, (x, y), Colour(pos.blackTurn)), caps, Colour(pos.blackTurn))
  {
    FindLegal(pos, (x, y));
    CapturedSound(pos.grid, (x, y), pos.blackTurn);
  }

  /** A move is rejected, as "Illegal move", exactly when `captured` finds nothing there. */
  lemma PlayRejects(pos: Position, x: int, y: int)
    ensures Play(pos, x, y).Err? <==>
      !OnBoard((x, y)) || Captured(pos.grid, (x, y), pos.blackTurn) == []
    ensures Play(pos, x, y).Err? ==> Play(pos, x, y).error == IllegalMove(x, y)
  {
    FindLegal(pos, (x, y));
  }

  /**
    After a legal move the target and every captured square hold the mover's
    piece, and every other square is as before.
   */
  lemma PlayPlaces(pos: Position, x: int, y: int)
    requires Play(pos, x, y).Ok?
    ensures OnBoard((x, y))
    ensures var caps := Captured(pos.grid, (x, y), pos.blackTurn);
      var g' := Play(pos, x, y).value.grid;
      forall i, j :: 0 <= i < Size && 0 <= j < Size ==>
        g'[i][j] == if (i, j) == (x, y) || (i, j) in caps then Colour(pos.blackTurn) else pos.grid[i][j]
  {
    PlayGrid(pos, x, y);
    var caps := Captured(pos.grid, (x, y), pos.blackTurn);
    var me := Colour(pos.blackTurn);
    var g1 := Set(pos.grid, (x, y), me);
    forall i, j | 0 <= i < Size && 0 <= j < Size
      ensures Paint(g1, caps, me)[i][j] == if (i, j) == (x, y) || (i, j) in caps then me else pos.grid[i][j]
    {
      PaintAt(g1, caps, me, i, j);
    }
  }

  /** Placing on an empty square and flipping occupied squares fills exactly one square. */
  lemma PlaceFillsOne(g: Grid, p: Pos, caps: Captures, me: Cell)
    requires OnBoard(p) && At(g, p) == Empty && me != Empty && AllOnBoard(caps)
    requires forall k :: 0 <= k < |caps| ==> At(g, caps[k]) != Empty && caps[k] != p
    ensures Count(Paint(Set(g, p, me), caps, me), Empty) == Count(g, Empty) - 1
  {
    var g1 := Set(g, p, me);
    CountSet(g, p, me, Empty);
    forall k | 0 <= k < |caps|
      ensures At(g1, caps[k]) != Empty
    {
      assert g1[caps[k].0][caps[k].1] == g[caps[k].0][caps[k].1];
    }
    PaintKeepsEmpty(g1, caps, me);
  }

  /** A legal move adds exactly one piece to the board. */
  lemma PlayAddsOnePiece(pos: Position, x: int, y: int)
    requires Play(pos, x, y).Ok?
    ensures var g' := Play(pos, x, y).value.grid;
      Count(g', Empty) == Count(pos.grid, Empty) - 1 &&
      Score(g').0 + Score(g').1 == Score(pos.grid).0 + Score(pos.grid).1 + 1
  {
    PlayGrid(pos, x, y);
    FindLegal(pos, (x, y));
    var caps := Captured(pos.grid, (x, y), pos.blackTurn);
    PlaceFillsOne(pos.grid, (x, y), caps, Colour(pos.blackTurn));
    var g' := Play(pos, x, y).value.grid;
    ScoreSum(pos.grid);
    ScoreSum(g');
  }

  /**
    After a legal move the turn passes to the opponent unless the opponent
    has no legal move, in which case the mover moves again; when the side
    then to move has no legal move either, neither side has one.
   */
  lemma PlayTurn(pos: Position, x: int, y: int)
    requires Play(pos, x, y).Ok?
    ensures var p' := Play(pos, x, y).value;
      (p'.blackTurn == pos.blackTurn <==> LegalMoves(Position(p'.grid, !pos.blackTurn)) == []) &&
      (LegalMoves(p') == [] ==> LegalMoves(Position(p'.grid, !p'.blackTurn)) == [])
  {
  }

  /** Every key of the table is a move that `placePiece` accepts, and it fills one empty square. */
  lemma PlayKey(pos: Position, k: int)
    requires 0 <= k < |LegalMoves(pos)|
    ensures var m := LegalMoves(pos)[k].0;
      OnBoard(m) && Play(pos, m.0, m.1).Ok? &&
      Count(Play(pos, m.0, m.1).value.grid, Empty) == Count(pos.grid, Empty) - 1
  {
    LegalMovesSpec(pos);
    var m := LegalMoves(pos)[k].0;
    FindLegal(pos, m);
    PlayAddsOnePiece(pos, m.0, m.1);
  }

  // ---------------------------------------------------------------------------
  // The opening position

  /** The square `(i, j)` of the opening board. */
  function OpeningCell(i: int, j: int): Cell {
    if (i, j) == (3, 3) || (i, j) == (4, 4) then White
    else if (i, j) == (3, 4) || (i, j) == (4, 3) then Black
    else Empty
  }

  /** `Othello()`: the four centre pieces, black to move. */
  function Initial(): (p: Position)
    ensures p.blackTurn
    ensures p.grid[3][3] == White && p.grid[4][4] == White
    ensures p.grid[3][4] == Black && p.grid[4][3] == Black
    ensures forall i, j :: 0 <= i < Size && 0 <= j < Size && !(3 <= i <= 4 && 3 <= j <= 4) ==> p.grid[i][j] == Empty
  {
    Position(seq(Size, i => seq(Size, j => OpeningCell(i, j))), true)
  }

}
