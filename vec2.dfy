/**
 * The integer vector `vec2i` of pixelbuffer/vec2.h (`vec2_t<int>`): its
 * arithmetic operators with the zero-guarded divisions, equality, the
 * magnitude comparisons, and the grid helpers `wrap`, `clamp` and
 * `idFromPos`.
 */
module Vector2 {
  import opened Util

  datatype Vec2 = Vec2(x: int, y: int)

  /** `vec2_t(T x, T y = 0)`. */
  function FromX(x: int): (v: Vec2)
    ensures v.x == x && v.y == 0
  {
    Vec2(x, 0)
  }

  function Add(u: Vec2, v: Vec2): (w: Vec2)
    ensures Sub(w, v) == u
  {
    Vec2(u.x + v.x, u.y + v.y)
  }

  function Sub(u: Vec2, v: Vec2): (w: Vec2)
    ensures w.x + v.x == u.x && w.y + v.y == u.y
  {
    Vec2(u.x - v.x, u.y - v.y)
  }

  function Mul(u: Vec2, v: Vec2): (w: Vec2)
  {
    Vec2(u.x * v.x, u.y * v.y)
  }

  /**
   * `operator/(vec2)`: componentwise C++ division, but only when neither
   * component of the divisor is 0; otherwise the vector is returned as is.
   */
  function Div(u: Vec2, v: Vec2): (w: Vec2)
    ensures v.x == 0 || v.y == 0 ==> w == u
    ensures v.x != 0 && v.y != 0 ==> Abs(u.x - w.x * v.x) < Abs(v.x) && Abs(u.y - w.y * v.y) < Abs(v.y)
    ensures v.x != 0 && v.y != 0 ==> (u.x - w.x * v.x == 0 || (u.x - w.x * v.x < 0 <==> u.x < 0))
    ensures v.x != 0 && v.y != 0 ==> (u.y - w.y * v.y == 0 || (u.y - w.y * v.y < 0 <==> u.y < 0))
  {
    if v.x != 0 && v.y != 0 then
      CDivTruncates(u.x, v.x);
      CDivTruncates(u.y, v.y);
      Vec2(CDiv(u.x, v.x), CDiv(u.y, v.y))
    else u
  }

  function AddScalar(u: Vec2, n: int): (w: Vec2)
    ensures SubScalar(w, n) == u
  {
    Vec2(u.x + n, u.y + n)
  }

  function SubScalar(u: Vec2, n: int): (w: Vec2)
    ensures w.x + n == u.x && w.y + n == u.y
  {
    Vec2(u.x - n, u.y - n)
  }

  function MulScalar(u: Vec2, n: int): (w: Vec2)
    ensures w == Mul(u, Vec2(n, n))
  {
    Vec2(u.x * n, u.y * n)
  }

  /** `operator/(T)`: a divisor of 0 returns the vector unchanged. */
  function DivScalar(u: Vec2, n: int): (w: Vec2)
    ensures w == Div(u, Vec2(n, n))
    ensures n == 0 ==> w == u
  {
    if n != 0 then Vec2(CDiv(u.x, n), CDiv(u.y, n)) else u
  }

  /** Dividing a product by one of its nonzero factors gives the other back. */
  lemma {:induction false} DivUndoesMul(u: Vec2, v: Vec2)
    requires v.x != 0 && v.y != 0
    ensures Div(Mul(u, v), v) == u
  {
    CDivOfProduct(u.x, v.x);
    CDivOfProduct(u.y, v.y);
  }

  /** `operator==`: componentwise, which is value equality. */
  function Equal(u: Vec2, v: Vec2): (eq: bool)
    ensures eq <==> u == v
  {
    u.x == v.x && u.y == v.y
  }

  function NotEqual(u: Vec2, v: Vec2): (ne: bool)
    ensures ne <==> u != v
  {
    !Equal(u, v)
  }

  function MagSq(v: Vec2): (m: int)
    ensures m >= 0
  {
    v.x * v.x + v.y * v.y
  }

  /** `<` compares squared magnitudes, so no vector is below itself. */
  function Less(u: Vec2, v: Vec2): (lt: bool)
    ensures lt ==> u != v
  {
    MagSq(u) < MagSq(v)
  }

  /** `>` is `<` with the operands swapped, so it excludes `<`. */
  function Greater(u: Vec2, v: Vec2): (gt: bool)
    ensures gt ==> u != v && !Less(u, v)
  {
    Less(v, u)
  }

  /** `<=` is written as "not greater", `>=` as "not less". */
  function LessEq(u: Vec2, v: Vec2): (le: bool)
    ensures le <==> MagSq(u) <= MagSq(v)
  {
    !Greater(u, v)
  }

  function GreaterEq(u: Vec2, v: Vec2): (ge: bool)
    ensures ge <==> MagSq(u) >= MagSq(v)
  {
    !Less(u, v)
  }

  /**
   * The comparisons order by magnitude only: any two vectors are related by
   * `<=`, and two different vectors of equal magnitude satisfy both `<=`
   * and `>=` without being equal.
   */
  lemma {:induction false} ComparisonsByMagnitude(u: Vec2, v: Vec2)
    ensures LessEq(u, v) || LessEq(v, u)
    ensures LessEq(u, v) <==> GreaterEq(v, u)
    ensures MagSq(u) == MagSq(v) ==> LessEq(u, v) && GreaterEq(u, v) && !Less(u, v) && !Greater(u, v)
  {
  }

  lemma ComparisonExamples()
    ensures Less(Vec2(4, 3), Vec2(5, 5)) && Greater(Vec2(5, 5), Vec2(4, 3))
    ensures LessEq(Vec2(4, 3), Vec2(-4, 3)) && GreaterEq(Vec2(4, 3), Vec2(-4, 3))
    ensures Vec2(4, 3) != Vec2(-4, 3)
  {
  }

  /**
   * `wrap`: a component below the grid goes to the far edge, one beyond the
   * grid goes to 0; both tests look at the original position.
   */
  function Wrap(pos: Vec2, cols: int, rows: int): (w: Vec2)
    ensures pos.x < 0 ==> w.x == (if pos.x > cols - 1 then 0 else cols - 1)
    ensures pos.x > cols - 1 ==> w.x == 0
    ensures 0 <= pos.x <= cols - 1 ==> w.x == pos.x
    ensures pos.y < 0 ==> w.y == (if pos.y > rows - 1 then 0 else rows - 1)
    ensures pos.y > rows - 1 ==> w.y == 0
    ensures 0 <= pos.y <= rows - 1 ==> w.y == pos.y
  {
    var x := if pos.x < 0 then cols - 1 else pos.x;
    var x := if pos.x > cols - 1 then 0 else x;
    var y := if pos.y < 0 then rows - 1 else pos.y;
    var y := if pos.y > rows - 1 then 0 else y;
    Vec2(x, y)
  }

  /**
   * `clamp`: components below the grid go to 0, above it to the last
   * column or row; inside a grid of at least one cell the result is a
   * cell of the grid.
   */
  function Clamp(pos: Vec2, cols: int, rows: int): (c: Vec2)
    ensures cols >= 1 ==> 0 <= c.x <= cols - 1
    ensures rows >= 1 ==> 0 <= c.y <= rows - 1
    ensures 0 <= pos.x <= cols - 1 ==> c.x == pos.x
    ensures 0 <= pos.y <= rows - 1 ==> c.y == pos.y
    ensures cols >= 1 && pos.x < 0 ==> c.x == 0
    ensures pos.x > cols - 1 ==> c.x == cols - 1
    ensures rows >= 1 && pos.y < 0 ==> c.y == 0
    ensures pos.y > rows - 1 ==> c.y == rows - 1
  {
    var x := if pos.x < 0 then 0 else pos.x;
    var x := if pos.x > cols - 1 then cols - 1 else x;
    var y := if pos.y < 0 then 0 else pos.y;
    var y := if pos.y > rows - 1 then rows - 1 else y;
    Vec2(x, y)
  }

  lemma {:induction false} ClampIdempotent(pos: Vec2, cols: int, rows: int)
    requires cols >= 1 && rows >= 1
    ensures Clamp(Clamp(pos, cols, rows), cols, rows) == Clamp(pos, cols, rows)
  {
  }

  /** `idFromPos`: the row-major index y*cols + x. */
  function IdFromPos(x: int, y: int, cols: int): int {
    y * cols + x
  }

  /** Whenever it fits in `size_t`, `idFromPos` is the index `util.h`'s `index` computes. */
  lemma {:induction false} IdFromPosIsIndex(x: int, y: int, cols: int)
    requires 0 <= IdFromPos(x, y, cols) < SIZE_RANGE
    ensures Index(x, y, cols) == IdFromPos(x, y, cols)
  {
  }

  /** Inside a row, the index determines the position: x and y come back by `%` and `/`. */
  lemma {:induction false} IdFromPosInverse(x: int, y: int, cols: int)
    requires 0 <= x < cols && 0 <= y
    ensures IdFromPos(x, y, cols) / cols == y && IdFromPos(x, y, cols) % cols == x
  {
    DivModUnique(y * cols + x, cols, y, x);
  }

  /** `idFromPos(vec2i, cols)`: the same index, taken from a vector. */
  function IdFromVec(pos: Vec2, cols: int): (id: int)
    ensures id == IdFromPos(pos.x, pos.y, cols)
  {
    IdFromPos(pos.x, pos.y, cols)
  }
}
