/**
 * The world domain and the generic scalar grid `Field<T>` laid over it,
 * instantiated at `T = f32` (modelled as `real`). A field of subdivision
 * level `s` covers the 64 x 64 world with `64 * 2^s` cells per axis.
 */
module Domain {
  import opened BevyMath

  /** The world is `1 << SIZE_POW` units along each axis. */
  const SIZE_POW: UVec2 := UVec2(6, 6)
  const SIZE: UVec2 := UVec2(64, 64)
  const HALF_SIZE: UVec2 := UVec2(SIZE.x / 2, SIZE.y / 2)

  datatype Rect = Rect(min: Vec2, max: Vec2)

  /** The world rectangle `[0, 64] x [0, 64]`. */
  const BOUNDS: Rect := Rect(Vec2(0.0, 0.0), Vec2(SIZE.x as real, SIZE.y as real))

  lemma WorldConstants()
    ensures SIZE.x == Pow2(SIZE_POW.x) && SIZE.y == Pow2(SIZE_POW.y)
    ensures HALF_SIZE == UVec2(32, 32)
    ensures BOUNDS == Rect(Vec2(0.0, 0.0), Vec2(64.0, 64.0))
  {
    assert Pow2(6) == 64;
  }

  /** Cells per axis of a field of the given subdivision level: `1 << (6 + s)`. */
  function Resolution(subdivisions: int): (n: nat)
    requires -6 <= subdivisions
    ensures n >= 1
  {
    Pow2(SIZE_POW.x + subdivisions)
  }

  /** `2.0.powf(s)`: grid cells per world unit. */
  function IndexScale(subdivisions: int): (k: real)
    ensures k > 0.0
  {
    if subdivisions >= 0 then Pow2(subdivisions) as real
    else 1.0 / (Pow2(-subdivisions) as real)
  }

  /** The grid spans the world exactly: resolution = world size * scale. */
  lemma ResolutionCoversWorld(subdivisions: int)
    requires -6 <= subdivisions
    ensures Resolution(subdivisions) as real == SIZE.x as real * IndexScale(subdivisions)
  {
    WorldConstants();
    if subdivisions >= 0 {
      Pow2Add(SIZE_POW.x, subdivisions);
    } else {
      var n := SIZE_POW.x + subdivisions;
      Pow2Add(n, -subdivisions);
      var p, q := Pow2(n) as real, Pow2(-subdivisions) as real;
      assert p * q == 64.0;
      assert p == 64.0 / q;
    }
  }

  lemma FlatIndexDivMod(x: nat, y: nat, w: nat)
    requires x < w
    ensures (x + y * w) / w == y && (x + y * w) % w == x
  {
    var k := x + y * w;
    var q, r := k / w, k % w;
    assert k == q * w + r;
    assert (y - q) * w == r - x;
    MulSign(y - q, w);
  }

  lemma MulSign(d: int, w: int)
    requires w > 0
    ensures d >= 1 ==> d * w >= w
    ensures d <= -1 ==> d * w <= -w
  {
    if d >= 1 {
      assert d * w == w + (d - 1) * w;
    } else if d <= -1 {
      assert d * w == -w + (d + 1) * w;
    }
  }

  lemma FlatIndexBelow(x: nat, y: nat, w: nat, h: nat)
    requires x < w && y < h
    ensures x + y * w < w * h
  {
    assert y * w <= (h - 1) * w;
  }

  /**
   * The shape of a field: `size` cells per axis and `idx_scale` cells per
   * world unit. All of the field's index arithmetic lives here.
   */
  datatype Grid = Grid(size: UVec2, idxScale: real) {

    predicate Valid() {
      size.x >= 1 && size.y >= 1 && idxScale > 0.0
    }

    function CellCount(): nat {
      size.x * size.y
    }

    predicate InRange(i: UVec2) {
      i.x < size.x && i.y < size.y
    }

    /** `clamp_index`: clamp each component into `[0, size - 1]`. */
    function ClampIndex(i: UVec2): (c: UVec2)
      requires Valid()
      ensures InRange(c)
      ensures InRange(i) ==> c == i
      ensures i.x >= size.x ==> c.x == size.x - 1
      ensures i.y >= size.y ==> c.y == size.y - 1
    {
      UVec2(ClampAxis(i.x, size.x), ClampAxis(i.y, size.y))
    }

    /** `flat_index`: row-major position of a cell in the buffer. */
    function FlatIndex(i: UVec2): (k: nat)
      ensures InRange(i) ==> k < CellCount()
    {
      if InRange(i) then FlatIndexBelow(i.x, i.y, size.x, size.y); i.x + i.y * size.x
      else i.x + i.y * size.x
    }

    /** The cell stored at buffer position `k`. */
    function CellOf(k: nat): (c: UVec2)
      requires size.x >= 1
      ensures FlatIndex(c) == k
      ensures k < CellCount() ==> InRange(c)
    {
      var c := UVec2(k % size.x, k / size.x);
      assert k == c.x + c.y * size.x;
      assert k < CellCount() ==> c.y < size.y;
      c
    }

    /** World position to grid position: multiply by `idx_scale`. */
    function ToGrid(pos: Vec2): Vec2 {
      Vec2(pos.x * idxScale, pos.y * idxScale)
    }

    /** The cell `get_nearest` reads: rounded, saturated to `usize`, clamped. */
    function NearestIndex(pos: Vec2): (c: UVec2)
      requires Valid()
      ensures InRange(c)
    {
      var p := ToGrid(pos);
      ClampIndex(UVec2(AsUsize(Round(p.x)), AsUsize(Round(p.y))))
    }

    /** `lower_idx` of `get_bilinear`: floored, saturated, clamped. */
    function LowerIndex(pos: Vec2): (c: UVec2)
      requires Valid()
      ensures InRange(c)
    {
      var p := ToGrid(pos);
      ClampIndex(UVec2(AsUsize(Floor(p.x)), AsUsize(Floor(p.y))))
    }

    /** `upper_idx` of `get_bilinear`: ceiled, saturated, clamped. */
    function UpperIndex(pos: Vec2): (c: UVec2)
      requires Valid()
      ensures InRange(c)
    {
      var p := ToGrid(pos);
      ClampIndex(UVec2(AsUsize(Ceil(p.x)), AsUsize(Ceil(p.y))))
    }

    /** `t` of `get_bilinear`: the fractional part of the grid position. */
    function Weights(pos: Vec2): (t: Vec2)
      ensures -1.0 < t.x < 1.0 && -1.0 < t.y < 1.0
      ensures ToGrid(pos).x >= 0.0 ==> 0.0 <= t.x
      ensures ToGrid(pos).y >= 0.0 ==> 0.0 <= t.y
    {
      var p := ToGrid(pos);
      Vec2(Fract(p.x), Fract(p.y))
    }

    /**
     * Along each axis the two corners of `get_bilinear` are either the same
     * cell, or neighbours with the blend weight strictly inside (0, 1).
     */
    lemma CornersAdjacent(pos: Vec2)
      requires Valid()
      ensures var lo, up, t := LowerIndex(pos), UpperIndex(pos), Weights(pos);
              && (lo.x == up.x || (up.x == lo.x + 1 && 0.0 < t.x < 1.0))
              && (lo.y == up.y || (up.y == lo.y + 1 && 0.0 < t.y < 1.0))
    {
      var p := ToGrid(pos);
      AxisAdjacent(p.x, size.x);
      AxisAdjacent(p.y, size.y);
    }

    /** Beyond the last grid line, or at or below zero, an axis is degenerate. */
    lemma DegenerateOutside(pos: Vec2)
      requires Valid()
      ensures var p, lo, up := ToGrid(pos), LowerIndex(pos), UpperIndex(pos);
              && (p.x <= 0.0 ==> lo.x == up.x == 0)
              && (p.x >= (size.x - 1) as real ==> lo.x == up.x == size.x - 1)
              && (p.y <= 0.0 ==> lo.y == up.y == 0)
              && (p.y >= (size.y - 1) as real ==> lo.y == up.y == size.y - 1)
    {
    }

    /** Squared distance in grid units between `p` and cell `c`. */
    function DistSq(p: Vec2, c: UVec2): real {
      Sq(p.x - c.x as real) + Sq(p.y - c.y as real)
    }

    /** `r_local` of `add_kernel`: the radius in grid units. */
    function LocalRadius(radius: real): real {
      radius * idxScale
    }

    /** `min_idx` of `add_kernel` around grid position `p` with grid radius `r`. */
    function BoxMin(p: Vec2, r: real): (c: UVec2)
      requires Valid()
      ensures InRange(c)
    {
      ClampIndex(UVec2(AsUsize(Floor(p.x - r)), AsUsize(Floor(p.y - r))))
    }

    /** `max_idx` of `add_kernel` (an exclusive loop bound). */
    function BoxMax(p: Vec2, r: real): (c: UVec2)
      requires Valid()
      ensures InRange(c)
    {
      ClampIndex(UVec2(AsUsize(Ceil(p.x + r)), AsUsize(Ceil(p.y + r))))
    }

    /** A cell the loops visit whose distance passes `d_sq < r_sq`, all in grid units. */
    predicate TouchedAt(c: UVec2, p: Vec2, r: real)
      requires Valid()
    {
      var lo, hi := BoxMin(p, r), BoxMax(p, r);
      && lo.x <= c.x < hi.x && lo.y <= c.y < hi.y
      && DistSq(p, c) < Sq(r)
    }

    /** A cell that `add_kernel(pos, radius, _)` changes. */
    predicate Touched(c: UVec2, pos: Vec2, radius: real)
      requires Valid()
    {
      TouchedAt(c, ToGrid(pos), LocalRadius(radius))
    }

    /** The linear falloff `1 - d_sq / r_sq` at a cell of the open disk. */
    function Falloff(c: UVec2, pos: Vec2, radius: real): real
      requires InDisk(c, pos, radius)
    {
      1.0 - DistSq(ToGrid(pos), c) / Sq(LocalRadius(radius))
    }

    /** The buffer after `add_kernel(pos, radius, value)`. */
    function Kernel(buf: seq<real>, pos: Vec2, radius: real, value: real): (r: seq<real>)
      requires Valid()
      ensures |r| == |buf|
    {
      seq(|buf|, k requires 0 <= k < |buf| => KernelCell(buf[k], CellOf(k), pos, radius, value))
    }

    /** One cell of `Kernel`: its old value `b`, plus `value` times the falloff when touched. */
    function KernelCell(b: real, c: UVec2, pos: Vec2, radius: real, value: real): real
      requires Valid()
    {
      if Touched(c, pos, radius) then b + value * Falloff(c, pos, radius) else b
    }

    /** The open disk of the kernel, in grid units. */
    predicate InDisk(c: UVec2, pos: Vec2, radius: real) {
      DistSq(ToGrid(pos), c) < Sq(LocalRadius(radius))
    }

    /** `get_nearest` picks a cell when the scaled position is within half a cell of it. */
    lemma NearestRoundsToCell(pos: Vec2, c: UVec2)
      requires Valid() && InRange(c)
      requires var p := ToGrid(pos);
               && c.x as real - 0.5 <= p.x < c.x as real + 0.5
               && c.y as real - 0.5 <= p.y < c.y as real + 0.5
      ensures NearestIndex(pos) == c
    {
    }

    /**
     * With a positive radius, the cells `add_kernel` changes are exactly the
     * in-range cells of the open disk, except the last column and last row.
     */
    lemma TouchedIff(c: UVec2, pos: Vec2, radius: real)
      requires Valid() && InRange(c) && radius > 0.0
      ensures Touched(c, pos, radius) <==> InDisk(c, pos, radius) && c.x + 1 < size.x && c.y + 1 < size.y
    {
      MulPos(radius, idxScale);
      TouchedAtIff(c, ToGrid(pos), LocalRadius(radius));
    }

    lemma TouchedAtIff(c: UVec2, p: Vec2, r: real)
      requires Valid() && InRange(c) && r > 0.0
      ensures TouchedAt(c, p, r) <==> DistSq(p, c) < Sq(r) && c.x + 1 < size.x && c.y + 1 < size.y
    {
      AxisBox(p.x, r, c.x, size.x);
      AxisBox(p.y, r, c.y, size.y);
      if DistSq(p, c) < Sq(r) {
        DiskAxes(p, c, r);
      }
    }

    /** A zero or negative radius changes nothing. */
    lemma NonPositiveRadiusTouchesNothing(c: UVec2, pos: Vec2, radius: real)
      requires Valid() && radius <= 0.0
      ensures !Touched(c, pos, radius)
    {
      MulMono(radius, 0.0, idxScale);
      NonPositiveTouchedAt(c, ToGrid(pos), LocalRadius(radius));
    }

    lemma NonPositiveTouchedAt(c: UVec2, p: Vec2, r: real)
      requires Valid() && r <= 0.0
      ensures !TouchedAt(c, p, r)
    {
      var a := p.x - c.x as real;
      AxisBox(p.x, r, c.x, size.x);
      SqOutside(a, -r);
      assert Sq(-r) == Sq(r);
      assert DistSq(p, c) >= Sq(a);
    }

    /** The last column and the last row are never changed: the loop bound is exclusive. */
    lemma LastLinesUntouched(c: UVec2, pos: Vec2, radius: real)
      requires Valid() && (c.x == size.x - 1 || c.y == size.y - 1)
      ensures !Touched(c, pos, radius)
    {
    }

    /** The kernel applied with the negated amount undoes it exactly. */
    lemma KernelInverse(buf: seq<real>, pos: Vec2, radius: real, value: real)
      requires Valid()
      ensures Kernel(Kernel(buf, pos, radius, value), pos, radius, -value) == buf
    {
      var once := Kernel(buf, pos, radius, value);
      var twice := Kernel(once, pos, radius, -value);
      forall k | 0 <= k < |buf|
        ensures twice[k] == buf[k]
      {
        KernelCellInverse(buf[k], CellOf(k), pos, radius, value);
      }
    }

    lemma KernelCellInverse(b: real, c: UVec2, pos: Vec2, radius: real, value: real)
      requires Valid()
      ensures KernelCell(KernelCell(b, c, pos, radius, value), c, pos, radius, -value) == b
    {
      if Touched(c, pos, radius) {
        var f := Falloff(c, pos, radius);
        assert b + value * f + (-value) * f == b;
      }
    }

    /** A zero or negative radius leaves the buffer as it was. */
    lemma KernelNonPositiveRadius(buf: seq<real>, pos: Vec2, radius: real, value: real)
      requires Valid() && radius <= 0.0
      ensures Kernel(buf, pos, radius, value) == buf
    {
      forall k | 0 <= k < |buf|
        ensures Kernel(buf, pos, radius, value)[k] == buf[k]
      {
        NonPositiveRadiusTouchesNothing(CellOf(k), pos, radius);
      }
    }

    /**
     * The kernel cell by cell, without reference to the loop bounds: with a
     * positive radius, an in-range cell inside the open disk and off the last
     * column and row gains `value * (1 - d^2 / r^2)`; every other cell keeps its value.
     */
    lemma KernelAtCell(buf: seq<real>, pos: Vec2, radius: real, value: real, c: UVec2)
      requires Valid() && |buf| == CellCount() && InRange(c) && radius > 0.0
      ensures var k := FlatIndex(c);
              Kernel(buf, pos, radius, value)[k] ==
                if InDisk(c, pos, radius) && c.x + 1 < size.x && c.y + 1 < size.y
                then buf[k] + value * Falloff(c, pos, radius)
                else buf[k]
    {
      KernelAt(buf, pos, radius, value, c);
      TouchedIff(c, pos, radius);
      KernelCellCases(buf[FlatIndex(c)], c, pos, radius, value);
    }

    lemma KernelCellCases(b: real, c: UVec2, pos: Vec2, radius: real, value: real)
      requires Valid()
      ensures Touched(c, pos, radius) ==> KernelCell(b, c, pos, radius, value) == b + value * Falloff(c, pos, radius)
      ensures !Touched(c, pos, radius) ==> KernelCell(b, c, pos, radius, value) == b
    {
    }

    /** Cells the loops of `add_kernel` have handled before reaching `(ix, iy)`. */
    predicate Visited(c: UVec2, ix: nat, iy: nat) {
      c.y < iy || (c.y == iy && c.x < ix)
    }

    /** The buffer part way through `add_kernel`: visited cells updated, the rest as before. */
    ghost predicate KernelProgress(buf: seq<real>, before: seq<real>, pos: Vec2, radius: real, value: real, ix: nat, iy: nat)
      requires Valid()
    {
      var after := Kernel(before, pos, radius, value);
      && |buf| == |before|
      && forall k :: 0 <= k < |buf| ==> buf[k] == if Visited(CellOf(k), ix, iy) then after[k] else before[k]
    }

    /** Rows below the loop box are untouched, so visiting them changes nothing. */
    lemma KernelProgressStart(before: seq<real>, pos: Vec2, radius: real, value: real)
      requires Valid()
      ensures KernelProgress(before, before, pos, radius, value, 0, BoxMin(ToGrid(pos), LocalRadius(radius)).y)
    {
    }

    /** Cells of row `iy` left of the loop box are untouched. */
    lemma KernelRowStart(buf: seq<real>, before: seq<real>, pos: Vec2, radius: real, value: real, iy: nat)
      requires Valid() && KernelProgress(buf, before, pos, radius, value, 0, iy)
      ensures KernelProgress(buf, before, pos, radius, value, BoxMin(ToGrid(pos), LocalRadius(radius)).x, iy)
    {
    }

    /** Cells of row `iy` right of the loop box are untouched. */
    lemma KernelRowEnd(buf: seq<real>, before: seq<real>, pos: Vec2, radius: real, value: real, ix: nat, iy: nat)
      requires Valid() && KernelProgress(buf, before, pos, radius, value, ix, iy)
      requires ix >= BoxMax(ToGrid(pos), LocalRadius(radius)).x
      ensures KernelProgress(buf, before, pos, radius, value, 0, iy + 1)
    {
    }

    /** Rows above the loop box are untouched: the buffer is complete. */
    lemma KernelProgressEnd(buf: seq<real>, before: seq<real>, pos: Vec2, radius: real, value: real, iy: nat)
      requires Valid() && KernelProgress(buf, before, pos, radius, value, 0, iy)
      requires iy >= BoxMax(ToGrid(pos), LocalRadius(radius)).y
      ensures buf == Kernel(before, pos, radius, value)
    {
    }

    /** Visiting cell `(ix, iy)` writes its kernel value. */
    lemma KernelStep(buf: seq<real>, before: seq<real>, pos: Vec2, radius: real, value: real, ix: nat, iy: nat)
      requires Valid() && |before| == CellCount() && ix < size.x && iy < size.y
      requires KernelProgress(buf, before, pos, radius, value, ix, iy)
      ensures var k := FlatIndex(UVec2(ix, iy));
              && k < |buf| && buf[k] == before[k]
              && KernelProgress(buf[k := Kernel(before, pos, radius, value)[k]], before, pos, radius, value, ix + 1, iy)
    {
      var c, k := UVec2(ix, iy), FlatIndex(UVec2(ix, iy));
      CellOfFlatIndexAt(c);
      var after := Kernel(before, pos, radius, value);
      var next := buf[k := after[k]];
      forall j | 0 <= j < |next|
        ensures next[j] == if Visited(CellOf(j), ix + 1, iy) then after[j] else before[j]
      {
        if j != k {
          assert CellOf(j) != c;
        }
      }
    }

    /** The kernel value of a touched cell, with its falloff `f`. */
    lemma KernelAtTouched(before: seq<real>, pos: Vec2, radius: real, value: real, c: UVec2, f: real)
      requires Valid() && |before| == CellCount() && InRange(c)
      requires Touched(c, pos, radius) && f == Falloff(c, pos, radius)
      ensures Kernel(before, pos, radius, value)[FlatIndex(c)] == before[FlatIndex(c)] + value * f
    {
      KernelAt(before, pos, radius, value, c);
      KernelCellTouched(before[FlatIndex(c)], c, pos, radius, value, f);
    }

    lemma KernelCellTouched(b: real, c: UVec2, pos: Vec2, radius: real, value: real, f: real)
      requires Valid() && Touched(c, pos, radius) && f == Falloff(c, pos, radius)
      ensures KernelCell(b, c, pos, radius, value) == b + value * f
    {
      assert KernelCell(b, c, pos, radius, value) == b + value * Falloff(c, pos, radius);
    }

    /** The kernel value of in-range cell `c`. */
    lemma KernelAt(before: seq<real>, pos: Vec2, radius: real, value: real, c: UVec2)
      requires Valid() && |before| == CellCount() && InRange(c)
      ensures Kernel(before, pos, radius, value)[FlatIndex(c)] == KernelCell(before[FlatIndex(c)], c, pos, radius, value)
    {
      var k := FlatIndex(c);
      KernelIndex(before, pos, radius, value, k);
      CellOfFlatIndexAt(c);
    }

    lemma KernelIndex(before: seq<real>, pos: Vec2, radius: real, value: real, k: nat)
      requires Valid() && k < |before|
      ensures Kernel(before, pos, radius, value)[k] == KernelCell(before[k], CellOf(k), pos, radius, value)
    {
    }

    lemma CellOfFlatIndexAt(i: UVec2)
      requires Valid() && InRange(i)
      ensures CellOf(FlatIndex(i)) == i
    {
      FlatIndexDivMod(i.x, i.y, size.x);
    }
  }

  /** One component of `USizeVec2::clamp(ZERO, size - ONE)`. */
  function ClampAxis(i: nat, n: nat): (c: nat)
    requires n >= 1
    ensures c < n
    ensures i < n ==> c == i
    ensures i >= n ==> c == n - 1
  {
    if i < n then i else n - 1
  }

  /** Inside the open disk of radius `r > 0` each coordinate is within `r`. */
  lemma DiskAxes(p: Vec2, c: UVec2, r: real)
    requires r > 0.0
    requires Sq(p.x - c.x as real) + Sq(p.y - c.y as real) < Sq(r)
    ensures p.x - r < c.x as real < p.x + r && p.y - r < c.y as real < p.y + r
  {
    SqBelow(p.x - c.x as real, r);
    SqBelow(p.y - c.y as real, r);
  }

  /**
   * One axis of the loop box of `add_kernel`, `[lo, hi)` with the bounds
   * floored / ceiled, saturated and clamped: a cell strictly within `r` of
   * `x` and off the last line is inside it, and every cell inside it lies
   * off the last line and below `x + r`.
   */
  lemma AxisBox(x: real, r: real, c: nat, n: nat)
    requires n >= 1
    ensures var lo, hi := ClampAxis(AsUsize(Floor(x - r)), n), ClampAxis(AsUsize(Ceil(x + r)), n);
            && (x - r < c as real < x + r && c + 1 < n ==> lo <= c < hi)
            && (lo <= c < hi ==> c + 1 < n && (c as real) < x + r)
  {
  }

  /** One axis of `CornersAdjacent`. */
  lemma AxisAdjacent(x: real, n: nat)
    requires n >= 1
    ensures var lo, up := ClampAxis(AsUsize(Floor(x)), n), ClampAxis(AsUsize(Ceil(x)), n);
            lo == up || (up == lo + 1 && 0.0 < Fract(x) < 1.0)
  {
    if x >= 0.0 && Floor(x) as real != x {
      assert Ceil(x) == Floor(x) + 1;
    }
  }

  /** Two distinct in-range cells never share a buffer position. */
  lemma FlatIndexInjective(g: Grid, i: UVec2, j: UVec2)
    requires g.Valid() && g.InRange(i) && g.InRange(j)
    ensures g.FlatIndex(i) == g.FlatIndex(j) <==> i == j
  {
    FlatIndexDivMod(i.x, i.y, g.size.x);
    FlatIndexDivMod(j.x, j.y, g.size.x);
  }

  /**
   * Writing cell `i` of a buffer and reading cell `j` back: the written value
   * when `i == j`, the old contents otherwise.
   */
  lemma WriteThenRead(g: Grid, buf: seq<real>, i: UVec2, j: UVec2, v: real)
    requires g.Valid() && |buf| == g.CellCount() && g.InRange(i) && g.InRange(j)
    ensures buf[g.FlatIndex(i) := v][g.FlatIndex(j)] == if i == j then v else buf[g.FlatIndex(j)]
  {
    FlatIndexInjective(g, i, j);
  }

  // ---------------------------------------------------------------------
  // compute_min_max: two folds over the buffer with `partial_cmp`
  // ---------------------------------------------------------------------

  /** The closure of the minimum fold: an unordered or smaller accumulator is kept. */
  function MinStep(a: Float, b: Float): (m: Float)
    ensures m == a || m == b
    ensures !a.NaN? ==> !m.NaN?
  {
    match PartialCmp(a, b)
    case None => a
    case Some(Less) => a
    case Some(_) => b
  }

  /** The closure of the maximum fold: an unordered or not-smaller accumulator is kept. */
  function MaxStep(a: Float, b: Float): (m: Float)
    ensures m == a || m == b
    ensures !a.NaN? ==> !m.NaN?
  {
    match PartialCmp(a, b)
    case None => a
    case Some(Less) => b
    case Some(_) => a
  }

  /** `iter().fold(acc, MinStep)`, left to right. */
  function FoldMin(acc: Float, s: seq<Float>): (m: Float)
    ensures !acc.NaN? ==> !m.NaN?
    ensures m == acc || m in s
    decreases |s|
  {
    if |s| == 0 then acc else FoldMin(MinStep(acc, s[0]), s[1..])
  }

  /** `iter().fold(acc, MaxStep)`, left to right. */
  function FoldMax(acc: Float, s: seq<Float>): (m: Float)
    ensures !acc.NaN? ==> !m.NaN?
    ensures m == acc || m in s
    decreases |s|
  {
    if |s| == 0 then acc else FoldMax(MaxStep(acc, s[0]), s[1..])
  }

  /** The pair `compute_min_max` returns, with `T::max_value()` / `T::min_value()` as seeds. */
  function MinMax(s: seq<Float>): (r: (Float, Float))
    ensures !r.0.NaN? && !r.1.NaN?
    ensures (forall i :: 0 <= i < |s| ==> s[i].Finite?) ==> r.0.Finite? && r.1.Finite?
  {
    (FoldMin(Finite(F32_MAX), s), FoldMax(Finite(-F32_MAX), s))
  }

  /** The elements of `s` that are not NaN, in order. */
  function Ordered(s: seq<Float>): (o: seq<Float>)
    ensures forall x :: x in o ==> x in s && !x.NaN?
    ensures forall x :: x in s && !x.NaN? ==> x in o
  {
    if |s| == 0 then []
    else if s[0].NaN? then Ordered(s[1..])
    else [s[0]] + Ordered(s[1..])
  }

  lemma AtMostTrans(a: Float, b: Float, c: Float)
    requires !a.NaN? && !b.NaN? && !c.NaN?
    requires AtMost(a, b) && AtMost(b, c)
    ensures AtMost(a, c)
  {
  }

  lemma AtMostAntisym(a: Float, b: Float)
    requires !a.NaN? && !b.NaN? && AtMost(a, b) && AtMost(b, a)
    ensures a == b
  {
  }

  /** The minimum fold ends at or below its seed and every ordered element. */
  lemma {:induction false} FoldMinBelow(acc: Float, s: seq<Float>)
    requires !acc.NaN?
    ensures AtMost(FoldMin(acc, s), acc)
    ensures forall i :: 0 <= i < |s| && !s[i].NaN? ==> AtMost(FoldMin(acc, s), s[i])
    decreases |s|
  {
    if |s| > 0 {
      var a := MinStep(acc, s[0]);
      FoldMinBelow(a, s[1..]);
      var m := FoldMin(acc, s);
      assert AtMost(a, acc);
      AtMostTrans(m, a, acc);
      forall i | 0 <= i < |s| && !s[i].NaN?
        ensures AtMost(m, s[i])
      {
        if i == 0 {
          AtMostTrans(m, a, s[0]);
        } else {
          assert s[i] == s[1..][i - 1];
        }
      }
    }
  }

  /** The maximum fold ends at or above its seed and every ordered element. */
  lemma {:induction false} FoldMaxAbove(acc: Float, s: seq<Float>)
    requires !acc.NaN?
    ensures AtMost(acc, FoldMax(acc, s))
    ensures forall i :: 0 <= i < |s| && !s[i].NaN? ==> AtMost(s[i], FoldMax(acc, s))
    decreases |s|
  {
    if |s| > 0 {
      var a := MaxStep(acc, s[0]);
      FoldMaxAbove(a, s[1..]);
      var m := FoldMax(acc, s);
      assert AtMost(acc, a);
      AtMostTrans(acc, a, m);
      forall i | 0 <= i < |s| && !s[i].NaN?
        ensures AtMost(s[i], m)
      {
        if i == 0 {
          AtMostTrans(s[0], a, m);
        } else {
          assert s[i] == s[1..][i - 1];
        }
      }
    }
  }

  /** NaN elements never replace the accumulator: the folds only see the ordered elements. */
  lemma {:induction false} FoldsIgnoreNaN(acc: Float, s: seq<Float>)
    requires !acc.NaN?
    ensures FoldMin(acc, s) == FoldMin(acc, Ordered(s))
    ensures FoldMax(acc, s) == FoldMax(acc, Ordered(s))
    decreases |s|
  {
    if |s| > 0 {
      if s[0].NaN? {
        FoldsIgnoreNaN(acc, s[1..]);
      } else {
        FoldsIgnoreNaN(MinStep(acc, s[0]), s[1..]);
        FoldsIgnoreNaN(MaxStep(acc, s[0]), s[1..]);
        var o := [s[0]] + Ordered(s[1..]);
        assert o[0] == s[0] && o[1..] == Ordered(s[1..]);
      }
    }
  }

  /** An all-NaN buffer yields the seeds `(f32::MAX, f32::MIN)`. */
  lemma AllNaNYieldsSeeds(s: seq<Float>)
    requires forall i :: 0 <= i < |s| ==> s[i].NaN?
    ensures MinMax(s) == (Finite(F32_MAX), Finite(-F32_MAX))
  {
    FoldsIgnoreNaN(Finite(F32_MAX), s);
    FoldsIgnoreNaN(Finite(-F32_MAX), s);
    assert Ordered(s) == [];
  }

  /**
   * When some ordered element lies within the seeds, the fold results are
   * elements of the sequence and are its least and greatest ordered elements.
   */
  lemma MinMaxExact(s: seq<Float>)
    requires exists i :: 0 <= i < |s| && s[i] != NaN && AtMost(Finite(-F32_MAX), s[i]) && AtMost(s[i], Finite(F32_MAX))
    ensures MinMax(s).0 in s && MinMax(s).1 in s
    ensures forall i :: 0 <= i < |s| && !s[i].NaN? ==> AtMost(MinMax(s).0, s[i]) && AtMost(s[i], MinMax(s).1)
  {
    var i :| 0 <= i < |s| && s[i] != NaN && AtMost(Finite(-F32_MAX), s[i]) && AtMost(s[i], Finite(F32_MAX));
    var (lo, hi) := MinMax(s);
    FoldMinBelow(Finite(F32_MAX), s);
    FoldMaxAbove(Finite(-F32_MAX), s);
    if lo !in s {
      AtMostTrans(lo, s[i], Finite(F32_MAX));
      AtMostAntisym(lo, s[i]);
    }
    if hi !in s {
      AtMostTrans(Finite(-F32_MAX), s[i], hi);
      AtMostAntisym(hi, s[i]);
    }
  }

  /** A real buffer seen as `f32` values. */
  function Lift(buf: seq<real>): seq<Float>
  {
    seq(|buf|, i requires 0 <= i < |buf| => Finite(buf[i]))
  }

  // ---------------------------------------------------------------------
  // Field<f32>
  // ---------------------------------------------------------------------

  /**
   * `Field<f32>` with its `Vec` buffer as a fixed-length array: the buffer
   * is allocated once and only its cells change afterwards.
   */
  class Field {
    const grid: Grid
    const buffer: array<real>

    predicate Valid() {
      grid.Valid() && buffer.Length == grid.CellCount()
    }

    /**
     * `Field::new(s)`: `64 * 2^s` cells per axis, all zero. The shift in the
     * size panics for `s < -6`, and `size.x * size.y` overflows `usize` for `s > 25`.
     */
    constructor (subdivisions: int)
      requires -6 <= subdivisions <= 25
      ensures Valid()
      ensures grid.size == UVec2(Resolution(subdivisions), Resolution(subdivisions))
      ensures grid.idxScale == IndexScale(subdivisions)
      ensures fresh(buffer)
      ensures forall k :: 0 <= k < buffer.Length ==> buffer[k] == 0.0
    {
      var n := Resolution(subdivisions);
      grid := Grid(UVec2(n, n), IndexScale(subdivisions));
      buffer := new real[n * n](_ => 0.0);
    }

    /** `field[[x, y]]`: unclamped; Rust only checks the flat position against the length. */
    function At(i: UVec2): (v: real)
      requires Valid() && grid.FlatIndex(i) < buffer.Length
      reads buffer
      ensures v in buffer[..]
    {
      buffer[grid.FlatIndex(i)]
    }

    /** `field[[x, y]] = v` through `IndexMut`. */
    method Set(i: UVec2, v: real)
      requires Valid() && grid.FlatIndex(i) < buffer.Length
      modifies buffer
      ensures buffer[..] == old(buffer[..])[grid.FlatIndex(i) := v]
      ensures At(i) == v
    {
      buffer[grid.FlatIndex(i)] := v;
    }

    /** `get_nearest`: the value of the cell closest to `pos`, clamped into the grid. */
    function GetNearest(pos: Vec2): (v: real)
      requires Valid()
      reads buffer
      ensures grid.InRange(grid.NearestIndex(pos)) && v == At(grid.NearestIndex(pos))
    {
      buffer[grid.FlatIndex(grid.NearestIndex(pos))]
    }

    /** The four corner values `v00, v10, v01, v11` of `get_bilinear`. */
    function Corners(pos: Vec2): (c: seq<real>)
      requires Valid()
      reads buffer
      ensures |c| == 4
      ensures forall k :: 0 <= k < 4 ==> c[k] in buffer[..]
    {
      var lo, up := grid.LowerIndex(pos), grid.UpperIndex(pos);
      [At(lo), At(UVec2(up.x, lo.y)), At(UVec2(lo.x, up.y)), At(up)]
    }

    /** `IndexMut` at an in-range cell changes that cell and no other. */
    lemma SetChangesOneCell(i: UVec2, j: UVec2, v: real)
      requires Valid() && grid.InRange(i) && grid.InRange(j)
      ensures buffer[..][grid.FlatIndex(i) := v][grid.FlatIndex(j)] == if i == j then v else At(j)
    {
      WriteThenRead(grid, buffer[..], i, j, v);
    }

    /** Indices are not checked per axis: `[size.x, y]` reads the first cell of row `y + 1`. */
    lemma IndexAliasesNextRow(y: nat)
      requires Valid() && y + 1 < grid.size.y
      ensures grid.FlatIndex(UVec2(grid.size.x, y)) < buffer.Length
      ensures At(UVec2(grid.size.x, y)) == At(UVec2(0, y + 1))
    {
      FlatIndexBelow(0, y + 1, grid.size.x, grid.size.y);
      assert grid.size.x + y * grid.size.x == (y + 1) * grid.size.x;
    }

    /** A cell within half a cell of the scaled position is the one `get_nearest` returns. */
    lemma NearestAtCell(pos: Vec2, c: UVec2)
      requires Valid() && grid.InRange(c)
      requires var p := grid.ToGrid(pos);
               && c.x as real - 0.5 <= p.x < c.x as real + 0.5
               && c.y as real - 0.5 <= p.y < c.y as real + 0.5
      ensures GetNearest(pos) == At(c)
    {
      grid.NearestRoundsToCell(pos, c);
    }

    /** `get_bilinear`: blend along x, then along y. */
    function GetBilinear(pos: Vec2): (v: real)
      requires Valid()
      reads buffer
      ensures var c := Corners(pos);
              Min(Min(c[0], c[1]), Min(c[2], c[3])) <= v <= Max(Max(c[0], c[1]), Max(c[2], c[3]))
    {
      var c, t := Corners(pos), grid.Weights(pos);
      grid.CornersAdjacent(pos);
      var v0 := Lerp(c[0], c[1], t.x);
      var v1 := Lerp(c[2], c[3], t.x);
      Lerp(v0, v1, t.y)
    }

    /** At a grid point the bilinear sample is exactly that cell's value. */
    lemma BilinearAtGridPoint(i: UVec2)
      requires Valid() && grid.InRange(i)
      ensures GetBilinear(Vec2(i.x as real / grid.idxScale, i.y as real / grid.idxScale)) == At(i)
    {
      var pos := Vec2(i.x as real / grid.idxScale, i.y as real / grid.idxScale);
      assert grid.ToGrid(pos) == Vec2(i.x as real, i.y as real);
      assert grid.LowerIndex(pos) == i && grid.UpperIndex(pos) == i;
    }

    /**
     * Beyond the last grid line of an axis (or at or below zero) that axis
     * contributes no blend: the sample is a 1D blend along the other axis.
     */
    lemma BilinearDegenerateAxis(pos: Vec2)
      requires Valid()
      ensures var p, lo, up, t := grid.ToGrid(pos), grid.LowerIndex(pos), grid.UpperIndex(pos), grid.Weights(pos);
              && (p.x >= (grid.size.x - 1) as real || p.x <= 0.0 ==>
                    GetBilinear(pos) == Lerp(At(UVec2(lo.x, lo.y)), At(UVec2(lo.x, up.y)), t.y))
              && (p.y >= (grid.size.y - 1) as real || p.y <= 0.0 ==>
                    GetBilinear(pos) == Lerp(At(UVec2(lo.x, lo.y)), At(UVec2(up.x, lo.y)), t.x))
    {
      grid.DegenerateOutside(pos);
    }

    /** `add_kernel`: add `value * (1 - d^2 / r^2)` to every cell of the loop box inside the disk. */
    method AddKernel(pos: Vec2, radius: real, value: real)
      requires Valid()
      modifies buffer
      ensures buffer[..] == grid.Kernel(old(buffer[..]), pos, radius, value)
    {
      ghost var before := buffer[..];
      var posLocal := grid.ToGrid(pos);
      var rLocal := grid.LocalRadius(radius);
      var minIdx := grid.BoxMin(posLocal, rLocal);
      var maxIdx := grid.BoxMax(posLocal, rLocal);
      var rSq := Sq(rLocal);
      grid.KernelProgressStart(before, pos, radius, value);
      var iy := minIdx.y;
      while iy < maxIdx.y
        invariant minIdx.y <= iy && (iy <= maxIdx.y || iy == minIdx.y)
        invariant grid.KernelProgress(buffer[..], before, pos, radius, value, 0, iy)
      {
        grid.KernelRowStart(buffer[..], before, pos, radius, value, iy);
        var ix := minIdx.x;
        while ix < maxIdx.x
          invariant minIdx.x <= ix && (ix <= maxIdx.x || ix == minIdx.x)
          invariant grid.KernelProgress(buffer[..], before, pos, radius, value, ix, iy)
        {
          grid.KernelStep(buffer[..], before, pos, radius, value, ix, iy);
          grid.KernelAt(before, pos, radius, value, UVec2(ix, iy));
          var dSq := grid.DistSq(posLocal, UVec2(ix, iy));
          var flatIdx := grid.FlatIndex(UVec2(ix, iy));
          ghost var prev, next := buffer[..], grid.Kernel(before, pos, radius, value)[flatIdx];
          assert grid.Touched(UVec2(ix, iy), pos, radius) <==> dSq < rSq;
          if dSq < rSq {
            var falloff := 1.0 - dSq / rSq;
            assert grid.Falloff(UVec2(ix, iy), pos, radius) == falloff;
            assert buffer[flatIdx] == prev[flatIdx] == before[flatIdx];
            grid.KernelAtTouched(before, pos, radius, value, UVec2(ix, iy), falloff);
            buffer[flatIdx] := buffer[flatIdx] + value * falloff;
            assert buffer[..] == prev[flatIdx := next];
          } else {
            assert prev[flatIdx := next] == prev;
          }
          ix := ix + 1;
        }
        grid.KernelRowEnd(buffer[..], before, pos, radius, value, ix, iy);
        iy := iy + 1;
      }
      grid.KernelProgressEnd(buffer[..], before, pos, radius, value, iy);
    }

    /** `compute_min_max` on this field's buffer. */
    function ComputeMinMax(): (r: (Float, Float))
      requires Valid()
      reads buffer
      ensures r.0.Finite? && r.1.Finite?
      ensures (forall k :: 0 <= k < buffer.Length ==> -F32_MAX <= buffer[k] <= F32_MAX) ==>
                && r.0.r in buffer[..] && r.1.r in buffer[..]
                && forall k :: 0 <= k < buffer.Length ==> r.0.r <= buffer[k] <= r.1.r
    {
      var s := Lift(buffer[..]);
      assert |s| == buffer.Length && forall i :: 0 <= i < |s| ==> s[i] == Finite(buffer[i]);
      if forall k :: 0 <= k < buffer.Length ==> -F32_MAX <= buffer[k] <= F32_MAX then
        assert buffer.Length > 0 && s[0] == Finite(buffer[0]);
        MinMaxExact(s);
        MinMax(s)
      else
        MinMax(s)
    }
  }
}
