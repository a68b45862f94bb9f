/**
 * Grid arithmetic shared by both versions of the game: canvas cells,
 * the toroidal wrap applied when the head crosses an edge, and the
 * random grid coordinate used to place the apple.
 */
module Geometry {

  /** A canvas position in pixels; two cells collide when both coordinates agree. */
  datatype Cell = Cell(x: int, y: int)

  /** `v` is a multiple of the cell size. */
  predicate Aligned(v: int, grid: int)
    requires grid > 0
  {
    v % grid == 0
  }

  /** `v` is a grid line inside `[0, bound)`. */
  predicate OnAxis(v: int, bound: int, grid: int)
    requires grid > 0
  {
    0 <= v < bound && Aligned(v, grid)
  }

  /** A velocity component the game ever assigns: one cell back, none, or one cell forward. */
  predicate UnitStep(d: int, grid: int)
  {
    d == -grid || d == 0 || d == grid
  }

  /** Every multiple of the cell size is aligned. */
  lemma MultipleAligned(k: int, grid: int)
    requires grid > 0
    ensures Aligned(k * grid, grid)
  {
    var q, m := (k * grid) / grid, (k * grid) % grid;
    assert (k - q) * grid == m;
    NoSmallMultiple(k - q, grid, m);
  }

  /** The only multiple of `g` in `[0, g)` is zero. */
  lemma NoSmallMultiple(a: int, g: int, m: int)
    requires g > 0 && a * g == m && 0 <= m < g
    ensures a == 0
  {
    if a >= 1 {
      MulMonotone(1, a, g);
    } else if a <= -1 {
      MulMonotone(a, -1, g);
    }
  }

  lemma MulMonotone(a: int, b: int, g: int)
    requires a <= b && g > 0
    ensures a * g <= b * g
  {
    assert b * g - a * g == (b - a) * g;
  }

  /**
   * One coordinate of `moving`: add the velocity, then a value below 0
   * becomes the last cell `bound - grid` and a value at or past `bound`
   * becomes 0. Only one of the two corrections can apply.
   */
  function Wrap(v: int, d: int, bound: int, grid: int): (r: int)
    ensures 0 <= v < bound && -grid <= d <= grid <= bound ==> 0 <= r < bound
  {
    var moved := v + d;
    if moved < 0 then bound - grid else if moved >= bound then 0 else moved
  }

  /** On a field whose side is a whole number of cells, a unit step from a grid line lands on a grid line. */
  lemma WrapOnAxis(v: int, d: int, bound: int, grid: int)
    requires grid > 0 && bound >= grid && Aligned(bound, grid)
    requires OnAxis(v, bound, grid) && UnitStep(d, grid)
    ensures OnAxis(Wrap(v, d, bound, grid), bound, grid)
  {
    var r := Wrap(v, d, bound, grid);
    var k := v / grid;
    assert v == k * grid;
    if v + d < 0 {
      MultipleAligned(bound / grid - 1, grid);
      assert r == (bound / grid - 1) * grid;
    } else if v + d >= bound {
    } else if d == grid {
      MultipleAligned(k + 1, grid);
      assert r == (k + 1) * grid;
    } else if d == -grid {
      MultipleAligned(k - 1, grid);
      assert r == (k - 1) * grid;
    }
  }

  /** Quotient and remainder are the only pair that rebuilds `a`. */
  lemma DivModUnique(a: int, d: int, q: int, m: int)
    requires d > 0 && a == q * d + m && 0 <= m < d
    ensures a / d == q && a % d == m
  {
    var q', m' := a / d, a % d;
    assert (q - q') * d == m' - m;
    if m' >= m {
      NoSmallMultiple(q - q', d, m' - m);
    } else {
      assert (q' - q) * d == m - m';
      NoSmallMultiple(q' - q, d, m - m');
    }
  }

  /**
   * On a field whose side is a whole number of cells, the if-chain of
   * `moving` is addition modulo the side: the head travels on a torus.
   */
  lemma WrapIsMod(v: int, d: int, bound: int, grid: int)
    requires grid > 0 && bound >= grid && Aligned(bound, grid)
    requires OnAxis(v, bound, grid) && UnitStep(d, grid)
    ensures Wrap(v, d, bound, grid) == (v + d) % bound
  {
    var moved := v + d;
    var k, m := v / grid, bound / grid;
    assert v == k * grid && bound == m * grid;
    if moved < 0 {
      NoSmallMultiple(k, grid, v);
      DivModUnique(moved, bound, -1, bound - grid);
    } else if moved >= bound {
      assert (m - k) * grid == bound - v;
      SingleCellGap(m - k, grid, bound - v);
      DivModUnique(moved, bound, 1, 0);
    } else {
      DivModUnique(moved, bound, 0, moved);
    }
  }

  /** A multiple of `g` in `(0, g]` is `g` itself. */
  lemma SingleCellGap(a: int, g: int, e: int)
    requires g > 0 && a * g == e && 0 < e <= g
    ensures a == 1
  {
    if a <= 0 {
      MulMonotone(a, 0, g);
    } else if a >= 2 {
      MulMonotone(2, a, g);
    }
  }

  /**
   * `getRandomCoord`: `Math.floor(r * (width / grid)) * grid` for a value
   * `r` drawn from `Math.random`. The quotient is the exact (real) one, as
   * in JavaScript.
   */
  function RandomCoord(r: real, width: int, grid: int): (c: int)
    requires grid > 0
    ensures 0.0 <= r < 1.0 && grid <= width ==> 0 <= c < width && Aligned(c, grid)
  {
    var n := (r * ((width as real) / (grid as real))).Floor;
    MultipleAligned(n, grid);
    if 0.0 <= r < 1.0 && grid <= width then
      FloorBounds(r, width, grid);
      n * grid
    else
      n * grid
  }

  /** The cell index drawn by `getRandomCoord` lies in `[0, width / grid)`. */
  lemma FloorBounds(r: real, width: int, grid: int)
    requires 0.0 <= r < 1.0 && 0 < grid <= width
    ensures 0 <= (r * ((width as real) / (grid as real))).Floor
    ensures (r * ((width as real) / (grid as real))).Floor * grid < width
  {
    var cols := (width as real) / (grid as real);
    PositiveQuotient(width as real, grid as real);
    ScaledIndex(r, cols);
    var n := (r * cols).Floor;
    IndexBound(n, width, grid);
    assert n * grid < width;
    assert n == (r * ((width as real) / (grid as real))).Floor;
  }

  /** Scaling a draw from `[0, 1)` by `cols` and flooring stays in `[0, cols)`. */
  lemma ScaledIndex(r: real, cols: real)
    requires 0.0 <= r < 1.0 && cols > 0.0
    ensures 0 <= (r * cols).Floor && ((r * cols).Floor as real) < cols
  {
    ScaleBelow(r, cols);
    ScaleNonNegative(r, cols);
    FloorBelow(r * cols, cols);
  }

  lemma FloorBelow(p: real, bound: real)
    requires 0.0 <= p < bound
    ensures 0 <= p.Floor && (p.Floor as real) < bound
  {
  }

  lemma IndexBound(n: int, width: int, grid: int)
    requires 0 < grid <= width && (n as real) < (width as real) / (grid as real)
    ensures n * grid < width
  {
    var g, w := grid as real, width as real;
    Quotient(w, g);
    ScaleLess(n as real, w / g, g);
    ProductAsReal(n, grid);
  }

  lemma PositiveQuotient(w: real, g: real)
    requires 0.0 < g <= w
    ensures w / g > 0.0
  {
  }

  lemma Quotient(w: real, g: real)
    requires 0.0 < g <= w
    ensures w / g > 0.0 && (w / g) * g == w
  {
  }

  lemma ProductAsReal(a: int, b: int)
    ensures (a * b) as real == (a as real) * (b as real)
  {
  }

  lemma ScaleBelow(r: real, m: real)
    requires 0.0 <= r < 1.0 && m > 0.0
    ensures r * m < m
  {
    assert m - r * m == (1.0 - r) * m;
  }

  lemma ScaleNonNegative(r: real, m: real)
    requires 0.0 <= r && 0.0 <= m
    ensures 0.0 <= r * m
  {
  }

  lemma ScaleLess(a: real, b: real, g: real)
    requires a < b && g > 0.0
    ensures a * g < b * g
  {
    assert b * g - a * g == (b - a) * g;
  }
}
