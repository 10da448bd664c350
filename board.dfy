/**
  The 8x8 grid shared by the rules engine and the heuristics: square states,
  coordinates `(x, y)` indexed as `boardState_[x][y]`, rays, single-square
  updates and counts taken in row-major order.
 */
module Board {

  /** One square of the board (the enumeration EMPTY, WHITE, BLACK). */
  datatype Cell = Empty | White | Black

  /** `Othello::boardSize`. */
  const Size: int := 8

  type Pos = (int, int)

  predicate OnBoard(p: Pos) {
    0 <= p.0 < Size && 0 <= p.1 < Size
  }

  /** An 8x8 matrix, indexed `m[x][y]`. */
  predicate IsSquare<T>(m: seq<seq<T>>) {
    |m| == Size && forall i :: 0 <= i < Size ==> |m[i]| == Size
  }

  /** The matrix with `v` everywhere (a value-initialised `std::array`). */
  function Filled<T>(v: T): (m: seq<seq<T>>)
    ensures IsSquare(m)
    ensures forall i, j :: 0 <= i < Size && 0 <= j < Size ==> m[i][j] == v
  {
    seq(Size, _ => seq(Size, _ => v))
  }

  type Grid = g: seq<seq<Cell>> | IsSquare(g) witness Filled(Empty)

  function At<T>(m: seq<seq<T>>, p: Pos): T
    requires IsSquare(m) && OnBoard(p)
  {
    m[p.0][p.1]
  }

  /** `m` with the square `p` set to `v`. */
  function Set<T>(m: seq<seq<T>>, p: Pos, v: T): (r: seq<seq<T>>)
    requires IsSquare(m) && OnBoard(p)
    ensures IsSquare(r)
    ensures forall i, j :: 0 <= i < Size && 0 <= j < Size ==>
      r[i][j] == if (i, j) == p then v else m[i][j]
  {
    m[p.0 := m[p.0][p.1 := v]]
  }

  predicate AllOnBoard(ps: seq<Pos>) {
    forall k :: 0 <= k < |ps| ==> OnBoard(ps[k])
  }

  /** Sets every square of `ps` to `v`, first to last. */
  function Paint<T>(m: seq<seq<T>>, ps: seq<Pos>, v: T): (r: seq<seq<T>>)
    requires IsSquare(m) && AllOnBoard(ps)
    ensures IsSquare(r)
    decreases |ps|
  {
    if ps == [] then m else Paint(Set(m, ps[0], v), ps[1..], v)
  }

  /** Painting sets exactly the listed squares and leaves every other square alone. */
  lemma {:induction false} PaintAt<T>(m: seq<seq<T>>, ps: seq<Pos>, v: T, i: int, j: int)
    requires IsSquare(m) && AllOnBoard(ps) && 0 <= i < Size && 0 <= j < Size
    ensures Paint(m, ps, v)[i][j] == if (i, j) in ps then v else m[i][j]
    decreases |ps|
  {
    if ps != [] {
      PaintAt(Set(m, ps[0], v), ps[1..], v, i, j);
      assert (i, j) in ps <==> (i, j) == ps[0] || (i, j) in ps[1..] by {
        assert ps == [ps[0]] + ps[1..];
      }
    }
  }

  lemma AppendAssoc<T>(a: seq<T>, b: seq<T>, c: seq<T>)
    ensures (a + b) + c == a + (b + c)
  {
  }

  /** Two matrices that agree on every square are equal. */
  lemma SameSquare<T>(m: seq<seq<T>>, n: seq<seq<T>>)
    requires IsSquare(m) && IsSquare(n)
    requires forall i, j :: 0 <= i < Size && 0 <= j < Size ==> m[i][j] == n[i][j]
    ensures m == n
  {
    forall i | 0 <= i < Size
      ensures m[i] == n[i]
    {
      assert forall j :: 0 <= j < Size ==> m[i][j] == n[i][j];
    }
  }

  lemma SameSquareIff<T>(m: seq<seq<T>>, n: seq<seq<T>>)
    requires IsSquare(m) && IsSquare(n)
    ensures m == n <==> forall i, j :: 0 <= i < Size && 0 <= j < Size ==> m[i][j] == n[i][j]
  {
    if forall i, j :: 0 <= i < Size && 0 <= j < Size ==> m[i][j] == n[i][j] {
      SameSquare(m, n);
    }
  }

  /**
    The first `n` squares of row `i` of `a`. Naming `a` in the `decreases`
    clause keeps the verifier from unrolling calls with a literal `n`.
   */
  function RowOf<T>(a: array2<T>, i: int, n: int): (r: seq<T>)
    reads a
    requires a.Length0 == Size && a.Length1 == Size && 0 <= i < Size && 0 <= n <= Size
    ensures |r| == n && forall j :: 0 <= j < n ==> r[j] == a[i, j]
    decreases n, a
  {
    if n == 0 then [] else RowOf(a, i, n - 1) + [a[i, n - 1]]
  }

  /** The first `n` rows of `a`. */
  function RowsOf<T>(a: array2<T>, n: int): (r: seq<seq<T>>)
    reads a
    requires a.Length0 == Size && a.Length1 == Size && 0 <= n <= Size
    ensures |r| == n && forall i :: 0 <= i < n ==> r[i] == RowOf(a, i, Size)
    decreases n, a
  {
    if n == 0 then [] else RowsOf(a, n - 1) + [RowOf(a, n - 1, Size)]
  }

  /** The contents of a board-sized `array2` as a matrix. */
  function ToSeq<T>(a: array2<T>): (m: seq<seq<T>>)
    reads a
    requires a.Length0 == Size && a.Length1 == Size
    ensures IsSquare(m)
    ensures forall i, j :: 0 <= i < Size && 0 <= j < Size ==> m[i][j] == a[i, j]
  {
    RowsOf(a, Size)
  }

  /** One store `a[p] := v`, stated on the matrix view. */
  method Write<T>(a: array2<T>, p: Pos, v: T)
    requires a.Length0 == Size && a.Length1 == Size && OnBoard(p)
    modifies a
    ensures ToSeq(a) == Set(old(ToSeq(a)), p, v)
  {
    ghost var before := ToSeq(a);
    a[p.0, p.1] := v;
    SameSquare(ToSeq(a), Set(before, p, v));
  }

  /** A loop of stores writing `v` into the squares `ps` in order. */
  method WriteAll<T>(a: array2<T>, ghost m: seq<seq<T>>, ps: seq<Pos>, v: T)
    requires a.Length0 == Size && a.Length1 == Size && ToSeq(a) == m && AllOnBoard(ps)
    modifies a
    ensures ToSeq(a) == Paint(m, ps, v)
  {
    for k := 0 to |ps|
      invariant Paint(ToSeq(a), ps[k..], v) == Paint(m, ps, v)
    {
      assert ps[k..][1..] == ps[k + 1..];
      Write(a, ps[k], v);
    }
  }

  // ---------------------------------------------------------------------------
  // Rays

  /** A direction; the eight rays have components in {-1, 0, 1}, not both 0. */
  datatype Dir = Dir(dx: int, dy: int)

  predicate IsRay(d: Dir) {
    -1 <= d.dx <= 1 && -1 <= d.dy <= 1 && d != Dir(0, 0)
  }

  /** `x + k * delta` for `delta` in {-1, 0, 1}, written without a product. */
  function Step(x: int, k: int, delta: int): int {
    if delta > 0 then x + k else if delta < 0 then x - k else x
  }

  /** The square `k` steps from `p` in direction `d`. */
  function RayAt(p: Pos, d: Dir, k: int): Pos {
    (Step(p.0, k, d.dx), Step(p.1, k, d.dy))
  }

  function Sign(n: int): int {
    if n > 0 then 1 else if n < 0 then -1 else 0
  }

  /** The direction in which `q` lies as seen from `p`. */
  function DirFrom(p: Pos, q: Pos): Dir {
    Dir(Sign(q.0 - p.0), Sign(q.1 - p.1))
  }

  lemma RayDirection(p: Pos, d: Dir, k: int)
    requires IsRay(d) && k >= 1
    ensures DirFrom(p, RayAt(p, d, k)) == d && RayAt(p, d, k) != p
  {
  }

  lemma RayInjective(p: Pos, d: Dir, k1: int, k2: int)
    requires IsRay(d) && RayAt(p, d, k1) == RayAt(p, d, k2)
    ensures k1 == k2
  {
  }

  /** Squares between coordinate `x` and the edge in the direction `delta`. */
  function Room1(x: int, delta: int): int {
    if delta > 0 then Size - 1 - x else if delta < 0 then x else Size
  }

  /** Squares the ray from `p` along `d` visits before it leaves the board. */
  function Room(p: Pos, d: Dir): int {
    var a := Room1(p.0, d.dx);
    var b := Room1(p.1, d.dy);
    if a < b then a else b
  }

  /** A ray from a square of the board leaves it within `Room` steps, so within eight. */
  lemma RayLeaves(p: Pos, d: Dir, k: int)
    requires OnBoard(p) && IsRay(d) && k >= 0 && OnBoard(RayAt(p, d, k))
    ensures k <= Room(p, d) && k < Size
  {
  }

  /** One more step along a ray adds the direction once. */
  lemma RayNext(p: Pos, d: Dir, k: int)
    requires IsRay(d)
    ensures RayAt(p, d, k + 1) == (RayAt(p, d, k).0 + d.dx, RayAt(p, d, k).1 + d.dy)
  {
  }

  /** The ray stays on the board for exactly its first `Room` steps. */
  lemma RayOnBoard(p: Pos, d: Dir, k: int)
    requires OnBoard(p) && IsRay(d) && k >= 0
    ensures OnBoard(RayAt(p, d, k)) <==> k <= Room(p, d)
  {
  }

  // ---------------------------------------------------------------------------
  // Row-major traversal and counting

  /** `p` is visited no earlier than `(i, j)` by a row-major scan of the board. */
  predicate AtOrAfter(p: Pos, i: int, j: int) {
    p.0 > i || (p.0 == i && p.1 >= j)
  }

  /**
    Squares holding `v` visited by a row-major scan that starts at `(i, j)`.
    The matrix is named in the `decreases` clause so that the verifier does
    not evaluate the whole scan every time it starts from a constant square.
   */
  function CountFrom<T(==)>(m: seq<seq<T>>, v: T, i: int, j: int): nat
    requires IsSquare(m) && 0 <= i <= Size && 0 <= j <= Size
    decreases Size - i, Size - j, m
  {
    if i == Size then 0
    else if j == Size then CountFrom(m, v, i + 1, 0)
    else (if m[i][j] == v then 1 else 0) + CountFrom(m, v, i, j + 1)
  }

  function Count<T(==)>(m: seq<seq<T>>, v: T): nat
    requires IsSquare(m)
  {
    CountFrom(m, v, 0, 0)
  }

  /** Squares left to visit from `(i, j)`. */
  function CellsFrom(i: int, j: int): int {
    if i == Size then 0 else 64 - 8 * i - j
  }

  /** Setting one square moves it from the count of its old value to that of its new one. */
  lemma {:induction false} CountFromSet<T>(m: seq<seq<T>>, p: Pos, c: T, v: T, i: int, j: int)
    requires IsSquare(m) && OnBoard(p) && 0 <= i <= Size && 0 <= j <= Size
    ensures CountFrom(Set(m, p, c), v, i, j)
         == CountFrom(m, v, i, j)
            - (if AtOrAfter(p, i, j) && i < Size && At(m, p) == v then 1 else 0)
            + (if AtOrAfter(p, i, j) && i < Size && c == v then 1 else 0)
    decreases Size - i, Size - j
  {
    if i == Size {
    } else if j == Size {
      CountFromSet(m, p, c, v, i + 1, 0);
    } else {
      CountFromSet(m, p, c, v, i, j + 1);
    }
  }

  lemma CountSet<T>(m: seq<seq<T>>, p: Pos, c: T, v: T)
    requires IsSquare(m) && OnBoard(p)
    ensures Count(Set(m, p, c), v)
         == Count(m, v) - (if At(m, p) == v then 1 else 0) + (if c == v then 1 else 0)
  {
    CountFromSet(m, p, c, v, 0, 0);
  }

  /** Every square holds exactly one of the three states. */
  lemma {:induction false} CountFromPartition(g: Grid, i: int, j: int)
    requires 0 <= i <= Size && 0 <= j <= Size
    ensures CountFrom(g, Black, i, j) + CountFrom(g, White, i, j) + CountFrom(g, Empty, i, j)
         == CellsFrom(i, j)
    decreases Size - i, Size - j
  {
    if i == Size {
    } else if j == Size {
      CountFromPartition(g, i + 1, 0);
    } else {
      CountFromPartition(g, i, j + 1);
      assert g[i][j] == Black || g[i][j] == White || g[i][j] == Empty;
    }
  }

  lemma CountPartition(g: Grid)
    ensures Count(g, Black) + Count(g, White) + Count(g, Empty) == 64
  {
    CountFromPartition(g, 0, 0);
  }

  /** Painting occupied squares with a piece keeps the number of empty squares. */
  lemma {:induction false} PaintKeepsEmpty(g: Grid, ps: seq<Pos>, c: Cell)
    requires AllOnBoard(ps) && c != Empty
    requires forall k :: 0 <= k < |ps| ==> At(g, ps[k]) != Empty
    ensures Count(Paint(g, ps, c), Empty) == Count(g, Empty)
    decreases |ps|
  {
    if ps != [] {
      CountSet(g, ps[0], c, Empty);
      var g' := Set(g, ps[0], c);
      assert forall k :: 0 <= k < |ps[1..]| ==> At(g', ps[1..][k]) != Empty;
      PaintKeepsEmpty(g', ps[1..], c);
    }
  }
}
