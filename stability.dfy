/**
  The stability classifier of `stabilityHeuristic`, on values. A `State`
  gives every square a level. It is built in four phases: capturable pieces
  become UNSTABLE, runs from occupied corners become STABLE, interior pieces
  are promoted until a pass changes nothing, and the levels are tallied
  into points and a percentage.
 */
module StabilitySpec {
  import opened Wrappers
  import opened Board
  import opened Rules

  /** The enumeration `Stability`: SEMI_STABLE, STABLE, UNSTABLE. */
  datatype Stability = SemiStable | Stable | Unstable

  /** The `State` array: one level per square, indexed like the board. */
  type State = s: seq<seq<Stability>> | IsSquare(s) witness Filled(SemiStable)

  /**
    The failures of `checkIfPieceIsStable`: the exception for an empty
    square, and the read past the edge of the board of the loop as written.
   */
  datatype StabilityError = EmptyTile | ReadsOffBoard

  // ---------------------------------------------------------------------------
  // Phase 1: markUnstablePieces

  /** Every capture list of the table names squares of the board. */
  predicate TableOnBoard(t: MoveTable) {
    forall k :: 0 <= k < |t| ==> AllOnBoard(t[k].1)
  }

  /** `markUnstablePieces`: every square of every capture list becomes UNSTABLE, move by move. */
  function MarkUnstable(s: State, t: MoveTable): State
    requires TableOnBoard(t)
    decreases |t|
  {
    if t == [] then s else MarkUnstable(Paint(s, t[0].1, Unstable), t[1..])
  }

  /** `q` is in the capture list of some entry of `t`. */
  predicate Threatened(t: MoveTable, q: Pos) {
    exists k :: 0 <= k < |t| && q in t[k].1
  }

  /** The squares named by the table become UNSTABLE and no other square changes. */
  lemma {:induction false} MarkUnstableAt(s: State, t: MoveTable, q: Pos)
    requires TableOnBoard(t) && OnBoard(q)
    ensures At(MarkUnstable(s, t), q) == if Threatened(t, q) then Unstable else At(s, q)
    decreases |t|
  {
    if t != [] {
      var s1 := Paint(s, t[0].1, Unstable);
      PaintAt(s, t[0].1, Unstable, q.0, q.1);
      MarkUnstableAt(s1, t[1..], q);
      if Threatened(t[1..], q) {
        var k :| 0 <= k < |t[1..]| && q in t[1..][k].1;
        assert t[k + 1] == t[1..][k];
      }
      if Threatened(t, q) && q !in t[0].1 {
        var k :| 0 <= k < |t| && q in t[k].1;
        assert t[1..][k - 1] == t[k];
      }
    }
  }

  lemma {:induction false} FindIn(t: MoveTable, p: Pos)
    requires Find(t, p).Some?
    ensures exists k :: 0 <= k < |t| && t[k] == (p, Find(t, p).value)
    decreases |t|
  {
    if t[0].0 != p {
      FindIn(t[1..], p);
      var k :| 0 <= k < |t[1..]| && t[1..][k] == (p, Find(t, p).value);
      assert t[k + 1] == t[1..][k];
    }
  }

  /** The legal-move table names squares of the board only. */
  lemma LegalTableOnBoard(pos: Position)
    ensures TableOnBoard(LegalMoves(pos))
  {
    var t := LegalMoves(pos);
    LegalMovesSpec(pos);
    forall k | 0 <= k < |t|
      ensures AllOnBoard(t[k].1)
    {
      CapturedSound(pos.grid, t[k].0, pos.blackTurn);
    }
  }

  /**
    Before the corners are looked at, a square is UNSTABLE exactly when some
    legal move of the side to move would capture it, and SEMI_STABLE otherwise.
   */
  lemma UnstablePhase(pos: Position, q: Pos)
    requires OnBoard(q)
    ensures TableOnBoard(LegalMoves(pos))
    ensures At(MarkUnstable(Filled(SemiStable), LegalMoves(pos)), q)
         == if exists m :: OnBoard(m) && q in Captured(pos.grid, m, pos.blackTurn)
            then Unstable else SemiStable
  {
    var t := LegalMoves(pos);
    LegalTableOnBoard(pos);
    LegalMovesSpec(pos);
    MarkUnstableAt(Filled(SemiStable), t, q);
    if exists m :: OnBoard(m) && q in Captured(pos.grid, m, pos.blackTurn) {
      var m :| OnBoard(m) && q in Captured(pos.grid, m, pos.blackTurn);
      FindLegal(pos, m);
      FindIn(t, m);
    }
  }

  // ---------------------------------------------------------------------------
  // Phase 2: markEdgesAsStable

  /** From corner `c`, the direction along the first index towards the board. */
  function DownFrom(c: Pos): Dir {
    Dir(if c.0 == 0 then 1 else -1, 0)
  }

  /** From corner `c`, the direction along the second index towards the board. */
  function AcrossFrom(c: Pos): Dir {
    Dir(0, if c.1 == 0 then 1 else -1)
  }

  /** The squares at distances `0 .. m` from `c` along `d` are on the board and hold `c`'s state. */
  predicate SameRun(g: Grid, c: Pos, d: Dir, m: int)
    requires OnBoard(c)
  {
    forall t :: 0 <= t <= m ==> OnBoard(RayAt(c, d, t)) && At(g, RayAt(c, d, t)) == At(g, c)
  }

  /**
    One loop of `checkCorner`, from distance `k` on: each square holding the
    corner's piece becomes STABLE, until the first other square or the edge.
    The board is named in the `decreases` clause so that calls from the
    constant corners are not expanded by the verifier.
   */
  function MarkRun(g: Grid, s: State, c: Pos, d: Dir, k: int): State
    requires OnBoard(c) && IsRay(d) && k >= 0
    decreases Room(c, d) - k, g
  {
    var q := RayAt(c, d, k);
    if !OnBoard(q) || At(g, q) != At(g, c) then s
    else
      RayLeaves(c, d, k);
      MarkRun(g, Set(s, q, Stable), c, d, k + 1)
  }

  /** `checkCorner(x, y)`: nothing for an empty corner, else its run along each of its two edges. */
  function CheckCorner(g: Grid, s: State, c: Pos): State
    requires OnBoard(c)
  {
    if At(g, c) == Empty then s
    else MarkRun(g, MarkRun(g, s, c, DownFrom(c), 0), c, AcrossFrom(c), 0)
  }

  /** `markEdgesAsStable`: the four corners, in the order the source checks them. */
  function MarkEdges(g: Grid, s: State): State {
    var s1 := CheckCorner(g, s, (0, 0));
    var s2 := CheckCorner(g, s1, (0, Size - 1));
    var s3 := CheckCorner(g, s2, (Size - 1, 0));
    CheckCorner(g, s3, (Size - 1, Size - 1))
  }

  /** `q` lies on the maximal run of `c`'s piece that starts at the occupied square `c` and goes along `d`. */
  ghost predicate OnRun(g: Grid, c: Pos, d: Dir, q: Pos)
    requires OnBoard(c)
  {
    At(g, c) != Empty && exists m :: 0 <= m < Size && q == RayAt(c, d, m) && SameRun(g, c, d, m)
  }

  /** `q` is on a run that starts at an occupied corner and goes along one of its edges. */
  ghost predicate EdgeStable(g: Grid, q: Pos) {
    (exists k :: 0 <= k < 4 && CornerRun(g, CornerAt(k), q))
  }

  /** The corners in the order `markEdgesAsStable` checks them. */
  function CornerAt(k: int): Pos {
    if k == 0 then (0, 0) else if k == 1 then (0, Size - 1) else if k == 2 then (Size - 1, 0) else (Size - 1, Size - 1)
  }

  ghost predicate CornerRun(g: Grid, c: Pos, q: Pos)
    requires OnBoard(c)
  {
    OnRun(g, c, DownFrom(c), q) || OnRun(g, c, AcrossFrom(c), q)
  }

  lemma {:induction false} MarkRunAt(g: Grid, s: State, c: Pos, d: Dir, k: int, q: Pos)
    requires OnBoard(c) && IsRay(d) && k >= 0 && OnBoard(q) && SameRun(g, c, d, k - 1)
    ensures At(MarkRun(g, s, c, d, k), q)
         == if exists m :: k <= m < Size && q == RayAt(c, d, m) && SameRun(g, c, d, m)
            then Stable else At(s, q)
    decreases Room(c, d) - k
  {
    var p := RayAt(c, d, k);
    if OnBoard(p) && At(g, p) == At(g, c) {
      RayLeaves(c, d, k);
      var s1 := Set(s, p, Stable);
      assert SameRun(g, c, d, k);
      MarkRunAt(g, s1, c, d, k + 1, q);
      if q == p {
        assert k < Size && q == RayAt(c, d, k) && SameRun(g, c, d, k);
      } else if exists m :: k <= m < Size && q == RayAt(c, d, m) && SameRun(g, c, d, m) {
        var m :| k <= m < Size && q == RayAt(c, d, m) && SameRun(g, c, d, m);
        assert m != k;
      }
    }
  }

  /** An occupied corner makes its two runs STABLE; nothing else changes. */
  lemma CheckCornerAt(g: Grid, s: State, c: Pos, q: Pos)
    requires OnBoard(c) && OnBoard(q)
    ensures At(CheckCorner(g, s, c), q) == if CornerRun(g, c, q) then Stable else At(s, q)
  {
    if At(g, c) != Empty {
      var s1 := MarkRun(g, s, c, DownFrom(c), 0);
      MarkRunAt(g, s, c, DownFrom(c), 0, q);
      MarkRunAt(g, s1, c, AcrossFrom(c), 0, q);
    }
  }

  /**
    After `markEdgesAsStable` a square is STABLE when it was, or when it lies
    on the run of same-coloured pieces from an occupied corner along an edge;
    every other square keeps its level.
   */
  lemma MarkEdgesAt(g: Grid, s: State, q: Pos)
    requires OnBoard(q)
    ensures At(MarkEdges(g, s), q) == if EdgeStable(g, q) then Stable else At(s, q)
  {
    var s1 := CheckCorner(g, s, (0, 0));
    var s2 := CheckCorner(g, s1, (0, Size - 1));
    var s3 := CheckCorner(g, s2, (Size - 1, 0));
    CheckCornerAt(g, s, (0, 0), q);
    CheckCornerAt(g, s1, (0, Size - 1), q);
    CheckCornerAt(g, s2, (Size - 1, 0), q);
    CheckCornerAt(g, s3, (Size - 1, Size - 1), q);
    assert CornerAt(0) == (0, 0) && CornerAt(1) == (0, Size - 1);
    assert CornerAt(2) == (Size - 1, 0) && CornerAt(3) == (Size - 1, Size - 1);
    if EdgeStable(g, q) {
      var k :| 0 <= k < 4 && CornerRun(g, CornerAt(k), q);
      assert k == 0 || k == 1 || k == 2 || k == 3;
    }
  }

  // ---------------------------------------------------------------------------
  // Phase 3: checkIfPieceIsStable and the promotion loop

  /** The squares the promotion loop visits, rows and columns 1 .. 6. */
  predicate Interior(p: Pos) {
    1 <= p.0 < Size - 1 && 1 <= p.1 < Size - 1
  }

  /** A neighbour of `p` along `d`, on one side or the other, is a STABLE piece of `p`'s colour. */
  function Anchored(g: Grid, s: State, p: Pos, d: Dir): bool
    requires Interior(p) && IsRay(d)
  {
    var ahead := RayAt(p, d, 1);
    var behind := RayAt(p, d, -1);
    (At(g, behind) == At(g, p) && At(s, behind) == Stable) ||
    (At(g, ahead) == At(g, p) && At(s, ahead) == Stable)
  }

  /** The squares with second index `y` are all occupied (the x-axis scan). */
  predicate RowFilled(g: Grid, y: int)
    requires 0 <= y < Size
  {
    forall i :: 0 <= i < Size ==> g[i][y] != Empty
  }

  /** The squares with first index `x` are all occupied (the y-axis scan). */
  predicate ColumnFilled(g: Grid, x: int)
    requires 0 <= x < Size
  {
    forall i :: 0 <= i < Size ==> g[x][i] != Empty
  }

  /** Every square from `p` along `d` up to the edge is occupied (a diagonal scan). */
  predicate RayFilled(g: Grid, p: Pos, d: Dir) {
    forall k :: 1 <= k < Size && OnBoard(RayAt(p, d, k)) ==> At(g, RayAt(p, d, k)) != Empty
  }

  /** The four axis tests of `checkIfPieceIsStable`, in the order the source makes them. */
  function AxesHold(g: Grid, s: State, p: Pos): bool
    requires Interior(p)
  {
    (Anchored(g, s, p, Dir(1, 0)) || RowFilled(g, p.1)) &&
    (Anchored(g, s, p, Dir(0, 1)) || ColumnFilled(g, p.0)) &&
    (Anchored(g, s, p, Dir(1, 1)) || (RayFilled(g, p, Dir(1, 1)) && RayFilled(g, p, Dir(-1, -1)))) &&
    (Anchored(g, s, p, Dir(1, -1)) || (RayFilled(g, p, Dir(1, -1)) && RayFilled(g, p, Dir(-1, 1))))
  }

  /**
    `checkIfPieceIsStable(x, y)` with the other-diagonal loop bounded by the
    board: the exception for an empty square, otherwise whether every axis
    has a STABLE neighbour of the same colour or no empty square.
   */
  function IsStable(g: Grid, s: State, p: Pos): Result<bool, StabilityError>
    requires Interior(p)
  {
    if At(g, p) == Empty then Err(EmptyTile) else Ok(AxesHold(g, s, p))
  }

  /**
    `checkIfPieceIsStable(x, y)` as written: the loop of the other diagonal
    tests the fixed `x` and `y` instead of its counters, so it runs until it
    meets an empty square; when there is none before the edge it reads past
    the board.
   */
  function IsStableAsWritten(g: Grid, s: State, p: Pos): Result<bool, StabilityError>
    requires Interior(p)
  {
    if At(g, p) == Empty then Err(EmptyTile)
    else if !((Anchored(g, s, p, Dir(1, 0)) || RowFilled(g, p.1)) &&
              (Anchored(g, s, p, Dir(0, 1)) || ColumnFilled(g, p.0)) &&
              (Anchored(g, s, p, Dir(1, 1)) || (RayFilled(g, p, Dir(1, 1)) && RayFilled(g, p, Dir(-1, -1)))))
    then Ok(false)
    else if Anchored(g, s, p, Dir(1, -1)) then Ok(true)
    else if !RayFilled(g, p, Dir(1, -1)) then Ok(false)
    else Err(ReadsOffBoard)
  }

  /** The whole line through `p` along `d`, both ways, has no empty square. */
  predicate LineFilled(g: Grid, p: Pos, d: Dir) {
    forall k :: -Size < k < Size && OnBoard(RayAt(p, d, k)) ==> At(g, RayAt(p, d, k)) != Empty
  }

  lemma RowLine(g: Grid, p: Pos)
    requires Interior(p)
    ensures RowFilled(g, p.1) <==> LineFilled(g, p, Dir(1, 0))
  {
    if LineFilled(g, p, Dir(1, 0)) {
      forall i | 0 <= i < Size
        ensures g[i][p.1] != Empty
      {
        assert RayAt(p, Dir(1, 0), i - p.0) == (i, p.1);
      }
    }
  }

  lemma ColumnLine(g: Grid, p: Pos)
    requires Interior(p)
    ensures ColumnFilled(g, p.0) <==> LineFilled(g, p, Dir(0, 1))
  {
    if LineFilled(g, p, Dir(0, 1)) {
      forall i | 0 <= i < Size
        ensures g[p.0][i] != Empty
      {
        assert RayAt(p, Dir(0, 1), i - p.1) == (p.0, i);
      }
    }
  }

  lemma DiagonalLine(g: Grid, p: Pos, d: Dir)
    requires Interior(p) && IsRay(d) && At(g, p) != Empty
    ensures RayFilled(g, p, d) && RayFilled(g, p, Dir(-d.dx, -d.dy)) <==> LineFilled(g, p, d)
  {
    var e := Dir(-d.dx, -d.dy);
    if RayFilled(g, p, d) && RayFilled(g, p, e) {
      forall k | -Size < k < Size && OnBoard(RayAt(p, d, k))
        ensures At(g, RayAt(p, d, k)) != Empty
      {
        if k < 0 {
          assert RayAt(p, d, k) == RayAt(p, e, -k);
        }
      }
    }
    if LineFilled(g, p, d) {
      forall k | 1 <= k < Size && OnBoard(RayAt(p, e, k))
        ensures At(g, RayAt(p, e, k)) != Empty
      {
        assert RayAt(p, e, k) == RayAt(p, d, -k);
      }
    }
  }

  /**
    A piece is stable exactly when, on each of the four axes, a neighbour is
    a STABLE piece of its colour or the whole line through it is occupied;
    the only error is asking about an empty square.
   */
  lemma StableByLines(g: Grid, s: State, p: Pos)
    requires Interior(p)
    ensures IsStable(g, s, p).Err? <==> At(g, p) == Empty
    ensures IsStable(g, s, p) == Ok(true) <==>
      At(g, p) != Empty &&
      (Anchored(g, s, p, Dir(1, 0)) || LineFilled(g, p, Dir(1, 0))) &&
      (Anchored(g, s, p, Dir(0, 1)) || LineFilled(g, p, Dir(0, 1))) &&
      (Anchored(g, s, p, Dir(1, 1)) || LineFilled(g, p, Dir(1, 1))) &&
      (Anchored(g, s, p, Dir(1, -1)) || LineFilled(g, p, Dir(1, -1)))
  {
    RowLine(g, p);
    ColumnLine(g, p);
    if At(g, p) != Empty {
      DiagonalLine(g, p, Dir(1, 1));
      DiagonalLine(g, p, Dir(1, -1));
    }
  }

  /** `t` is `s` with some squares raised from SEMI_STABLE to STABLE. */
  predicate Raises(s: State, t: State) {
    forall i, j :: 0 <= i < Size && 0 <= j < Size ==>
      t[i][j] == s[i][j] || (s[i][j] == SemiStable && t[i][j] == Stable)
  }

  /** More STABLE squares never make a stable piece unstable. */
  lemma StableMonotone(g: Grid, s: State, t: State, p: Pos)
    requires Interior(p) && Raises(s, t) && IsStable(g, s, p) == Ok(true)
    ensures IsStable(g, t, p) == Ok(true)
  {
  }

  /**
    The two versions agree except where the loop as written leaves the
    board: a piece whose other tests pass, with no anchor on the other
    diagonal and no empty square from it towards `(x + 1, y - 1)` to the edge.
   */
  lemma AsWrittenAgrees(g: Grid, s: State, p: Pos)
    requires Interior(p)
    ensures IsStableAsWritten(g, s, p) == IsStable(g, s, p) || IsStableAsWritten(g, s, p) == Err(ReadsOffBoard)
    ensures IsStableAsWritten(g, s, p) == Err(ReadsOffBoard) <==>
      At(g, p) != Empty &&
      (Anchored(g, s, p, Dir(1, 0)) || RowFilled(g, p.1)) &&
      (Anchored(g, s, p, Dir(0, 1)) || ColumnFilled(g, p.0)) &&
      (Anchored(g, s, p, Dir(1, 1)) || (RayFilled(g, p, Dir(1, 1)) && RayFilled(g, p, Dir(-1, -1)))) &&
      !Anchored(g, s, p, Dir(1, -1)) && RayFilled(g, p, Dir(1, -1))
  {
  }

  /**
    On a board full of black pieces with every level SEMI_STABLE, the piece
    at (1, 1) makes the loop as written read past the edge, while the bounded
    loop reports it stable.
   */
  lemma AsWrittenReadsOffBoard()
    ensures IsStableAsWritten(Filled(Black), Filled(SemiStable), (1, 1)) == Err(ReadsOffBoard)
    ensures IsStable(Filled(Black), Filled(SemiStable), (1, 1)) == Ok(true)
  {
    var g: Grid := Filled(Black);
    var s: State := Filled(SemiStable);
    assert !Anchored(g, s, (1, 1), Dir(1, -1));
    assert RayFilled(g, (1, 1), Dir(1, -1)) && RayFilled(g, (1, 1), Dir(-1, 1));
    assert RayFilled(g, (1, 1), Dir(1, 1)) && RayFilled(g, (1, 1), Dir(-1, -1));
    assert RowFilled(g, 1) && ColumnFilled(g, 1);
  }

  /** The loop promotes the square `p` when it reaches it: an occupied SEMI_STABLE piece found stable. */
  predicate Promotable(g: Grid, s: State, p: Pos)
    requires Interior(p)
  {
    At(g, p) != Empty && At(s, p) == SemiStable && IsStable(g, s, p) == Ok(true)
  }

  /** The state after the loop visits `p`. */
  function Visit(g: Grid, s: State, p: Pos): State
    requires Interior(p)
  {
    if Promotable(g, s, p) then Set(s, p, Stable) else s
  }

  /**
    One pass of the `do … while` loop over row `i` from column `j` to 6: the
    state left behind and whether anything was promoted. Squares are updated
    in place, so later squares see earlier promotions.
   */
  function SweepRow(g: Grid, s: State, i: int, j: int): (State, bool)
    requires 1 <= i < Size - 1 && 1 <= j <= Size - 1
    decreases Size - j, g
  {
    if j == Size - 1 then (s, false)
    else
      var r := SweepRow(g, Visit(g, s, (i, j)), i, j + 1);
      (r.0, Promotable(g, s, (i, j)) || r.1)
  }

  /** One pass over rows `i` to 6. */
  function SweepRows(g: Grid, s: State, i: int): (State, bool)
    requires 1 <= i <= Size - 1
    decreases Size - i, g
  {
    if i == Size - 1 then (s, false)
    else
      var r1 := SweepRow(g, s, i, 1);
      var r2 := SweepRows(g, r1.0, i + 1);
      (r2.0, r1.1 || r2.1)
  }

  /** One pass of the loop body: the new state and `madeChange`. */
  function Sweep(g: Grid, s: State): (State, bool) {
    SweepRows(g, s, 1)
  }

  /** `t` is `s` with some occupied interior SEMI_STABLE squares raised to STABLE, and nothing else changed. */
  predicate Promotes(g: Grid, s: State, t: State) {
    forall i, j :: 0 <= i < Size && 0 <= j < Size ==>
      t[i][j] == s[i][j] ||
      (s[i][j] == SemiStable && t[i][j] == Stable && Interior((i, j)) && g[i][j] != Empty)
  }

  lemma PromotesTrans(g: Grid, s: State, t: State, u: State)
    requires Promotes(g, s, t) && Promotes(g, t, u)
    ensures Promotes(g, s, u)
  {
  }

  /**
    Every interior square raised from SEMI_STABLE in `s` to STABLE in `t`
    passes `checkIfPieceIsStable` in `t`: the promotions are justified by
    the four-axis test.
   */
  ghost predicate Justified(g: Grid, s: State, t: State) {
    forall i, j :: 1 <= i < Size - 1 && 1 <= j < Size - 1 && s[i][j] == SemiStable && t[i][j] == Stable ==>
      IsStable(g, t, (i, j)) == Ok(true)
  }

  /** Justified promotions compose: an earlier promotion stays stable under later ones. */
  lemma JustifiedTrans(g: Grid, s: State, t: State, u: State)
    requires Promotes(g, s, t) && Promotes(g, t, u)
    requires Justified(g, s, t) && Justified(g, t, u)
    ensures Justified(g, s, u)
  {
    assert Raises(t, u);
    forall i, j | 1 <= i < Size - 1 && 1 <= j < Size - 1 && s[i][j] == SemiStable && u[i][j] == Stable
      ensures IsStable(g, u, (i, j)) == Ok(true)
    {
      if t[i][j] == Stable {
        StableMonotone(g, t, u, (i, j));
      }
    }
  }

  /** The number of SEMI_STABLE squares, which each promotion lowers by one. */
  function Semi(s: State): nat {
    Count(s, SemiStable)
  }

  lemma VisitPromotes(g: Grid, s: State, p: Pos)
    requires Interior(p)
    ensures Promotes(g, s, Visit(g, s, p)) && Justified(g, s, Visit(g, s, p))
    ensures Semi(Visit(g, s, p)) == Semi(s) - (if Promotable(g, s, p) then 1 else 0)
  {
    CountSet(s, p, Stable, SemiStable);
    if Promotable(g, s, p) {
      StableMonotone(g, s, Visit(g, s, p), p);
    }
  }

  /** A row pass only promotes; it changes the state exactly when it says it did. */
  lemma {:induction false} SweepRowProgress(g: Grid, s: State, i: int, j: int)
    requires 1 <= i < Size - 1 && 1 <= j <= Size - 1
    ensures var r := SweepRow(g, s, i, j);
      Promotes(g, s, r.0) && Justified(g, s, r.0) &&
      (r.1 ==> Semi(r.0) < Semi(s)) && (!r.1 ==> r.0 == s)
    decreases Size - j
  {
    if j < Size - 1 {
      var s1 := Visit(g, s, (i, j));
      VisitPromotes(g, s, (i, j));
      SweepRowProgress(g, s1, i, j + 1);
      var r := SweepRow(g, s1, i, j + 1);
      PromotesTrans(g, s, s1, r.0);
      JustifiedTrans(g, s, s1, r.0);
    }
  }

  lemma {:induction false} SweepRowsProgress(g: Grid, s: State, i: int)
    requires 1 <= i <= Size - 1
    ensures var r := SweepRows(g, s, i);
      Promotes(g, s, r.0) && Justified(g, s, r.0) &&
      (r.1 ==> Semi(r.0) < Semi(s)) && (!r.1 ==> r.0 == s)
    decreases Size - i
  {
    if i < Size - 1 {
      var r1 := SweepRow(g, s, i, 1);
      SweepRowProgress(g, s, i, 1);
      SweepRowsProgress(g, r1.0, i + 1);
      PromotesTrans(g, s, r1.0, SweepRows(g, r1.0, i + 1).0);
      JustifiedTrans(g, s, r1.0, SweepRows(g, r1.0, i + 1).0);
    }
  }

  /**
    A pass promotes only, and only pieces that pass the four-axis test in the
    state it leaves; `madeChange` is set exactly when the state changed, and
    then fewer squares are SEMI_STABLE. It promotes nothing that a state
    promoting from `s` with nothing left to promote has not promoted too.
   */
  lemma SweepProgress(g: Grid, s: State)
    ensures var r := Sweep(g, s);
      Promotes(g, s, r.0) && Justified(g, s, r.0) &&
      (r.1 ==> Semi(r.0) < Semi(s)) && (!r.1 ==> r.0 == s)
    ensures forall t: State :: Promotes(g, s, t) && RowsQuiet(g, t, 1) ==> Promotes(g, Sweep(g, s).0, t)
  {
    SweepRowsProgress(g, s, 1);
    forall t: State | Promotes(g, s, t) && RowsQuiet(g, t, 1)
      ensures Promotes(g, Sweep(g, s).0, t)
    {
      SweepRowsLeast(g, s, t, 1);
    }
  }

  /** A row pass reports no change exactly when no square of it is promotable. */
  lemma {:induction false} SweepRowQuiet(g: Grid, s: State, i: int, j: int)
    requires 1 <= i < Size - 1 && 1 <= j <= Size - 1
    ensures !SweepRow(g, s, i, j).1 <==>
      forall c :: j <= c < Size - 1 ==> !Promotable(g, s, (i, c))
    decreases Size - j
  {
    if j < Size - 1 {
      SweepRowQuiet(g, Visit(g, s, (i, j)), i, j + 1);
    }
  }

  /** No square of rows `i` to 6, columns 1 to 6, is promotable in `s`. */
  ghost predicate RowsQuiet(g: Grid, s: State, i: int) {
    forall r, c :: 1 <= r && i <= r < Size - 1 && 1 <= c < Size - 1 ==> !Promotable(g, s, (r, c))
  }

  lemma {:induction false} SweepRowsQuiet(g: Grid, s: State, i: int)
    requires 1 <= i <= Size - 1
    ensures !SweepRows(g, s, i).1 <==> RowsQuiet(g, s, i)
    decreases Size - i
  {
    if i < Size - 1 {
      SweepRowQuiet(g, s, i, 1);
      SweepRowProgress(g, s, i, 1);
      var r1 := SweepRow(g, s, i, 1);
      if r1.1 {
        var c :| 1 <= c < Size - 1 && Promotable(g, s, (i, c));
        assert !RowsQuiet(g, s, i);
      } else {
        assert r1.0 == s;
        SweepRowsQuiet(g, s, i + 1);
        assert RowsQuiet(g, s, i) <==>
          (forall c :: 1 <= c < Size - 1 ==> !Promotable(g, s, (i, c))) && RowsQuiet(g, s, i + 1);
      }
    }
  }

  // The loop reaches the least state above `s` in which nothing is promotable:
  // a visit never promotes a piece that such a state leaves SEMI_STABLE.

  /** A visit stays below every state that promotes from it and has nothing left to promote. */
  lemma VisitLeast(g: Grid, u: State, t: State, p: Pos)
    requires Interior(p) && Promotes(g, u, t) && RowsQuiet(g, t, 1)
    ensures Promotes(g, Visit(g, u, p), t)
  {
    if Promotable(g, u, p) {
      assert Raises(u, t);
      StableMonotone(g, u, t, p);
      assert !Promotable(g, t, (p.0, p.1));
    }
  }

  lemma {:induction false} SweepRowLeast(g: Grid, u: State, t: State, i: int, j: int)
    requires 1 <= i < Size - 1 && 1 <= j <= Size - 1
    requires Promotes(g, u, t) && RowsQuiet(g, t, 1)
    ensures Promotes(g, SweepRow(g, u, i, j).0, t)
    decreases Size - j
  {
    if j < Size - 1 {
      VisitLeast(g, u, t, (i, j));
      SweepRowLeast(g, Visit(g, u, (i, j)), t, i, j + 1);
    }
  }

  lemma {:induction false} SweepRowsLeast(g: Grid, u: State, t: State, i: int)
    requires 1 <= i <= Size - 1
    requires Promotes(g, u, t) && RowsQuiet(g, t, 1)
    ensures Promotes(g, SweepRows(g, u, i).0, t)
    decreases Size - i
  {
    if i < Size - 1 {
      SweepRowLeast(g, u, t, i, 1);
      SweepRowsLeast(g, SweepRow(g, u, i, 1).0, t, i + 1);
    }
  }

  /**
    Whatever state `t` promotes from `s` and leaves nothing promotable, the
    loop's final state lies below it: `t` is the loop's result with possibly
    more promotions.
   */
  lemma {:induction false} SettleLeast(g: Grid, s: State, t: State)
    requires Promotes(g, s, t) && RowsQuiet(g, t, 1)
    ensures Promotes(g, Settle(g, s), t)
    decreases Semi(s)
  {
    var r := Sweep(g, s);
    SweepProgress(g, s);
    if r.1 {
      SettleLeast(g, r.0, t);
    }
  }

  /** The `do … while (madeChange)` loop: passes until one promotes nothing. */
  function Settle(g: Grid, s: State): State
    decreases Semi(s)
  {
    var r := Sweep(g, s);
    SweepProgress(g, s);
    if r.1 then Settle(g, r.0) else r.0
  }

  /**
    The loop only raises occupied interior SEMI_STABLE pieces to STABLE;
    every piece it raises passes the four-axis test in the final state; and
    it ends in a state where no interior piece can be promoted any more; and
    that state is the least such one, below every other state that promotes
    from `s` and leaves nothing promotable. These determine the result.
   */
  lemma {:induction false} SettleSpec(g: Grid, s: State)
    ensures Promotes(g, s, Settle(g, s))
    ensures forall i, j ::
      (1 <= i < Size - 1 && 1 <= j < Size - 1 && s[i][j] == SemiStable && Settle(g, s)[i][j] == Stable) ==>
      IsStable(g, Settle(g, s), (i, j)) == Ok(true)
    ensures forall i, j :: 1 <= i < Size - 1 && 1 <= j < Size - 1 ==> !Promotable(g, Settle(g, s), (i, j))
    ensures forall t: State :: Promotes(g, s, t) && RowsQuiet(g, t, 1) ==> Promotes(g, Settle(g, s), t)
    decreases Semi(s)
  {
    forall t: State | Promotes(g, s, t) && RowsQuiet(g, t, 1)
      ensures Promotes(g, Settle(g, s), t)
    {
      SettleLeast(g, s, t);
    }
    var r := Sweep(g, s);
    SweepProgress(g, s);
    if r.1 {
      SettleSpec(g, r.0);
      PromotesTrans(g, s, r.0, Settle(g, r.0));
      JustifiedTrans(g, s, r.0, Settle(g, r.0));
      assert Justified(g, s, Settle(g, s));
    } else {
      SweepRowsQuiet(g, s, 1);
      assert RowsQuiet(g, s, 1);
    }
  }

  /**
    The properties of `SettleSpec` determine the loop's result: a state that
    promotes from `s`, leaves nothing promotable and lies below every other
    such state is `Settle(g, s)`.
   */
  lemma SettleUnique(g: Grid, s: State, t: State)
    requires Promotes(g, s, t) && RowsQuiet(g, t, 1)
    requires forall u: State :: Promotes(g, s, u) && RowsQuiet(g, u, 1) ==> Promotes(g, t, u)
    ensures t == Settle(g, s)
  {
    SettleSpec(g, s);
    var r := Settle(g, s);
    assert RowsQuiet(g, r, 1);
    assert Promotes(g, t, r) && Promotes(g, r, t);
    SameSquare(t, r);
  }

  // ---------------------------------------------------------------------------
  // Phase 4: tallyScore and the percentage

  /** The points of one piece: STABLE 2, SEMI_STABLE 1, UNSTABLE 0. */
  function Points(l: Stability): nat {
    match l
    case Stable => 2
    case SemiStable => 1
    case Unstable => 0
  }

  /** The points of the pieces of colour `c` visited by a row-major scan from `(i, j)`. */
  function PointsFrom(g: Grid, s: State, c: Cell, i: int, j: int): nat
    requires 0 <= i <= Size && 0 <= j <= Size
    decreases Size - i, Size - j, g
  {
    if i == Size then 0
    else if j == Size then PointsFrom(g, s, c, i + 1, 0)
    else (if g[i][j] == c then Points(s[i][j]) else 0) + PointsFrom(g, s, c, i, j + 1)
  }

  /** `tallyScore`: (white points, black points). */
  function Tally(g: Grid, s: State): (nat, nat) {
    (PointsFrom(g, s, White, 0, 0), PointsFrom(g, s, Black, 0, 0))
  }

  lemma {:induction false} PointsFromBound(g: Grid, s: State, c: Cell, i: int, j: int)
    requires 0 <= i <= Size && 0 <= j <= Size
    ensures PointsFrom(g, s, c, i, j) <= 2 * CountFrom(g, c, i, j)
    decreases Size - i, Size - j
  {
    if i == Size {
    } else if j == Size {
      PointsFromBound(g, s, c, i + 1, 0);
    } else {
      PointsFromBound(g, s, c, i, j + 1);
    }
  }

  /** Each colour scores at most two points per piece, so nothing for a colour with no pieces. */
  lemma TallyBound(g: Grid, s: State)
    ensures Tally(g, s).0 <= 2 * Count(g, White)
    ensures Tally(g, s).1 <= 2 * Count(g, Black)
  {
    PointsFromBound(g, s, White, 0, 0);
    PointsFromBound(g, s, Black, 0, 0);
  }

  /** Changing the level of one square changes only the points it contributes to the scan. */
  lemma {:induction false} PointsFromSet(g: Grid, s: State, p: Pos, l: Stability, c: Cell, i: int, j: int)
    requires OnBoard(p) && 0 <= i <= Size && 0 <= j <= Size
    ensures PointsFrom(g, Set(s, p, l), c, i, j) as int
         == PointsFrom(g, s, c, i, j) as int
            + (if AtOrAfter(p, i, j) && i < Size && At(g, p) == c then Points(l) as int - Points(At(s, p)) as int else 0)
    decreases Size - i, Size - j
  {
    if i == Size {
    } else if j == Size {
      PointsFromSet(g, s, p, l, c, i + 1, 0);
    } else {
      PointsFromSet(g, s, p, l, c, i, j + 1);
    }
  }

  /**
    Each piece scores the points of its level for its own colour, STABLE 2,
    SEMI_STABLE 1 and UNSTABLE 0: changing the level of one square changes
    only the tally of the colour on it, by the difference in points, and an
    empty square changes nothing.
   */
  lemma TallySet(g: Grid, s: State, p: Pos, l: Stability)
    requires OnBoard(p)
    ensures Tally(g, Set(s, p, l)).0 as int
         == Tally(g, s).0 as int + (if At(g, p) == White then Points(l) as int - Points(At(s, p)) as int else 0)
    ensures Tally(g, Set(s, p, l)).1 as int
         == Tally(g, s).1 as int + (if At(g, p) == Black then Points(l) as int - Points(At(s, p)) as int else 0)
    ensures At(g, p) == Empty ==> Tally(g, Set(s, p, l)) == Tally(g, s)
  {
    PointsFromSet(g, s, p, l, White, 0, 0);
    PointsFromSet(g, s, p, l, Black, 0, 0);
  }

  lemma {:induction false} PointsFromUnstable(g: Grid, c: Cell, i: int, j: int)
    requires 0 <= i <= Size && 0 <= j <= Size
    ensures PointsFrom(g, Filled(Unstable), c, i, j) == 0
    decreases Size - i, Size - j
  {
    if i == Size {
    } else if j == Size {
      PointsFromUnstable(g, c, i + 1, 0);
    } else {
      PointsFromUnstable(g, c, i, j + 1);
    }
  }

  /** With every square UNSTABLE nobody scores; with `TallySet` this fixes the tally of every state. */
  lemma TallyUnstable(g: Grid)
    ensures Tally(g, Filled(Unstable)) == (0, 0)
  {
    PointsFromUnstable(g, White, 0, 0);
    PointsFromUnstable(g, Black, 0, 0);
  }

  /**
    The last two lines of `stabilityHeuristic` with the evident intent: 0 on a
    tie, otherwise the black share `100 * (b - w) / (b + w)`, negated on
    white's turn.
   */
  function Report(white: nat, black: nat, blackTurn: bool): real {
    if white == black then 0.0
    else
      var blackScore := 100.0 * (black - white) as real / (black + white) as real;
      if blackTurn then blackScore else -blackScore
  }

  /** The last two lines as written: on black's turn the raw black points are returned. */
  function ReportAsWritten(white: nat, black: nat, blackTurn: bool): real {
    if white == black then 0.0
    else
      var blackScore := 100.0 * (black - white) as real / (black + white) as real;
      if blackTurn then black as real else -blackScore
  }

  /** A quotient of a numerator bounded by a positive denominator lies in [-1, 1] and has the numerator's sign. */
  lemma RatioBound(n: real, m: real)
    requires m > 0.0 && -m <= n <= m
    ensures -1.0 <= n / m <= 1.0 && (n / m > 0.0 <==> n > 0.0)
  {
    var q := n / m;
    assert q * m == n;
  }

  lemma ShareBound(white: nat, black: nat)
    requires white != black
    ensures var r := 100.0 * (black - white) as real / (black + white) as real;
      -100.0 <= r <= 100.0 && (r > 0.0 <==> black > white)
  {
    var n := (black - white) as real;
    var m := (black + white) as real;
    RatioBound(n, m);
    assert 100.0 * n / m == 100.0 * (n / m);
  }

  /**
    The percentage is 0 on a tie and lies in [-100, 100]; it is positive for
    the mover who leads on points, and the two sides see opposite values.
   */
  lemma ReportSpec(white: nat, black: nat, blackTurn: bool)
    ensures white == black ==> Report(white, black, blackTurn) == 0.0
    ensures -100.0 <= Report(white, black, blackTurn) <= 100.0
    ensures Report(white, black, true) == -Report(white, black, false)
    ensures Report(white, black, blackTurn) > 0.0 <==>
      (if blackTurn then black > white else white > black)
  {
    if white != black {
      ShareBound(white, black);
    }
  }

  /** As written, the result is 0 on a tie, the share on white's turn and the raw points on black's. */
  lemma ReportAsWrittenSpec(white: nat, black: nat, blackTurn: bool)
    ensures ReportAsWritten(white, black, blackTurn)
         == if white != black && blackTurn then black as real else Report(white, black, blackTurn)
  {
  }

  /** Black to move with 2 points against 0: 2 as written, where the share is 100. */
  lemma ReportAsWrittenLeaves()
    ensures ReportAsWritten(0, 2, true) == 2.0 && Report(0, 2, true) == 100.0
  {
  }

  /** The `State` left by the three marking phases of `stabilityHeuristic`. */
  function Levels(pos: Position): State {
    LegalTableOnBoard(pos);
    var s1 := MarkUnstable(Filled(SemiStable), LegalMoves(pos));
    var s2 := MarkEdges(pos.grid, s1);
    Settle(pos.grid, s2)
  }

  /** `stabilityHeuristic` with both defects corrected. */
  function Heuristic(pos: Position): real {
    var t := Tally(pos.grid, Levels(pos));
    Report(t.0, t.1, pos.blackTurn)
  }

  /** The stability heuristic lies in [-100, 100] and is 0 on an empty board. */
  lemma HeuristicBound(pos: Position)
    ensures -100.0 <= Heuristic(pos) <= 100.0
    ensures Count(pos.grid, Black) == 0 && Count(pos.grid, White) == 0 ==> Heuristic(pos) == 0.0
  {
    var t := Tally(pos.grid, Levels(pos));
    ReportSpec(t.0, t.1, pos.blackTurn);
    TallyBound(pos.grid, Levels(pos));
  }
}
