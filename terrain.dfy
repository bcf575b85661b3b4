/**
 * The terrain: a height field filled from a noise map, and the per-vertex
 * loops that shape and colour the terrain mesh from a field.
 *
 * The noise map is an arbitrary function of the cell indices. A mesh is its
 * vertex positions and vertex colours; the plane the mesh starts from is
 * handed in as its list of positions.
 */
module Terrain {
  import opened BevyMath
  import opened Domain
  import opened ColorMapping

  /** The factor applied to the noise value to give a terrain height. */
  const HEIGHT_SCALE: real := 2.5

  const BOUNDARY_WIDTH: real := 0.1
  const BOUNDARY_POS: real := -0.2
  /** The height at and below which the terrain colour is plain grey. */
  const BOUNDARY_START: real := BOUNDARY_POS - BOUNDARY_WIDTH

  /** The low end of the terrain colour ramp. */
  const GREY: LinearRgba := Rgb(0.75, 0.75, 0.75)

  /** `Color::WHITE`, the high end of the ramp. */
  const WHITE: LinearRgba := Rgb(1.0, 1.0, 1.0)

  /** `get_terrain_height`: the scaled noise value of cell `(x, y)`. */
  function TerrainHeight(noise: (nat, nat) -> real, x: nat, y: nat): (h: real)
    ensures -1.0 <= noise(x, y) <= 1.0 ==> -HEIGHT_SCALE <= h <= HEIGHT_SCALE
    ensures noise(x, y) >= 0.0 <==> h >= 0.0
  {
    HEIGHT_SCALE * noise(x, y)
  }

  /** The height `Terrain::new` writes into flat cell `k`. */
  function FilledCell(g: Grid, noise: (nat, nat) -> real, k: nat): real
    requires g.Valid()
  {
    var c := g.CellOf(k);
    TerrainHeight(noise, c.x, c.y)
  }

  /** The terrain component: its height field. */
  class Terrain {
    const heightMap: Field

    /** `Terrain::new`: a fresh field whose every cell holds the terrain height of that cell. */
    constructor (subdivisions: int, noise: (nat, nat) -> real)
      requires -6 <= subdivisions <= 25
      ensures fresh(heightMap) && fresh(heightMap.buffer)
      ensures heightMap.Valid()
      ensures heightMap.grid.size == UVec2(Resolution(subdivisions), Resolution(subdivisions))
      ensures heightMap.grid.idxScale == IndexScale(subdivisions)
      ensures forall x: nat, y: nat :: x < heightMap.grid.size.x && y < heightMap.grid.size.y ==>
                heightMap.At(UVec2(x, y)) == TerrainHeight(noise, x, y)
    {
      var field := new Field(subdivisions);
      var g := field.grid;
      var w := g.size.x;
      for y := 0 to g.size.y
        invariant field.Valid() && field.grid == g && fresh(field.buffer)
        invariant forall k :: 0 <= k < field.buffer.Length ==>
                    field.buffer[k] == if k < y * w then FilledCell(g, noise, k) else 0.0
      {
        for x := 0 to w
          invariant field.Valid() && field.grid == g && fresh(field.buffer)
          invariant forall k :: 0 <= k < field.buffer.Length ==>
                      field.buffer[k] == if k < x + y * w then FilledCell(g, noise, k) else 0.0
        {
          FillStep(g, noise, x, y);
          field.Set(UVec2(x, y), TerrainHeight(noise, x, y));
        }
        assert w + y * w == (y + 1) * w;
      }
      forall x: nat, y: nat | x < g.size.x && y < g.size.y
        ensures field.At(UVec2(x, y)) == TerrainHeight(noise, x, y)
      {
        FillStep(g, noise, x, y);
      }
      heightMap := field;
    }
  }

  /** The cell `Terrain::new` visits at `(x, y)` is flat cell `x + y * size.x`, in range. */
  lemma FillStep(g: Grid, noise: (nat, nat) -> real, x: nat, y: nat)
    requires g.Valid() && x < g.size.x && y < g.size.y
    ensures g.FlatIndex(UVec2(x, y)) == x + y * g.size.x < g.CellCount()
    ensures FilledCell(g, noise, x + y * g.size.x) == TerrainHeight(noise, x, y)
  {
    g.CellOfFlatIndexAt(UVec2(x, y));
  }

  /**
   * `get_terrain_color`: grey blended towards white by the height above
   * `BOUNDARY_START`, clamped to `[0, 1]`.
   */
  function GetTerrainColor(height: real): (c: LinearRgba)
    ensures height <= BOUNDARY_START ==> c == GREY
    ensures height >= BOUNDARY_START + 1.0 ==> c == WHITE
    ensures Between(c, GREY, WHITE)
  {
    InterpolateStable(GREY, WHITE, Clamp01(height - BOUNDARY_START))
  }

  /** Higher terrain is never darker. */
  lemma TerrainColorMonotone(h1: real, h2: real)
    requires h1 <= h2
    ensures GetTerrainColor(h1).red <= GetTerrainColor(h2).red
    ensures GetTerrainColor(h1).green == GetTerrainColor(h1).red && GetTerrainColor(h1).blue == GetTerrainColor(h1).red
  {
    var t1, t2 := Clamp01(h1 - BOUNDARY_START), Clamp01(h2 - BOUNDARY_START);
    assert t1 <= t2;
    assert Lerp(0.75, 1.0, t1) == 0.75 + 0.25 * t1;
    assert Lerp(0.75, 1.0, t2) == 0.75 + 0.25 * t2;
  }

  /** A mesh vertex's position in the field: the mesh is centred on the origin, the field starts at zero. */
  function ToDomain(p: Vec3): Vec2 {
    Vec2(p.x + HALF_SIZE.x as real, p.z + HALF_SIZE.y as real)
  }

  /** The colour map `set_terrain_color` builds: the given range, or else the field's own extremes. */
  function RangeMap(field: Field, range: Option<(real, real)>): (m: ColorMap)
    requires field.Valid()
    reads field.buffer
    ensures (m.colors, m.badDataColor) == GetColorScheme(Incandescent) && |m.colors| == 11
    ensures range.Some? ==> (m.min, m.max) == range.value
    ensures range.None? ==> Finite(m.min) == field.ComputeMinMax().0 && Finite(m.max) == field.ComputeMinMax().1
  {
    var (lo, hi) := if range.Some? then range.value else (field.ComputeMinMax().0.r, field.ComputeMinMax().1.r);
    NewColorMap(lo, hi, Incandescent)
  }

  /** The colour of one vertex under a colour map: the map applied to the field's bilinear sample there. */
  function VertexColor(cmap: ColorMap, field: Field, p: Vec3): LinearRgba
    requires field.Valid() && |cmap.colors| >= 1
    reads field.buffer
  {
    GetColor(cmap, Finite(field.GetBilinear(ToDomain(p))))
  }

  /**
   * The colour list after a recolouring pass that pairs vertices with
   * colours: the colours of the paired vertices are replaced, any colours
   * beyond the last vertex are kept.
   */
  function ResetColors(positions: seq<Vec3>, colors: seq<LinearRgba>): (r: seq<LinearRgba>)
    ensures |r| == |colors|
    ensures forall k :: 0 <= k < |r| ==> r[k] == if k < |positions| then GetTerrainColor(positions[k].y) else colors[k]
  {
    seq(|colors|, k requires 0 <= k < |colors| => if k < |positions| then GetTerrainColor(positions[k].y) else colors[k])
  }

  function FieldColors(field: Field, range: Option<(real, real)>, positions: seq<Vec3>, colors: seq<LinearRgba>): (r: seq<LinearRgba>)
    requires field.Valid()
    reads field.buffer
    ensures |r| == |colors|
    ensures forall k :: 0 <= k < |r| ==>
              r[k] == if k < |positions| then VertexColor(RangeMap(field, range), field, positions[k]) else colors[k]
  {
    var cmap := RangeMap(field, range);
    seq(|colors|, k requires 0 <= k < |colors| reads field.buffer =>
      if k < |positions| then VertexColor(cmap, field, positions[k]) else colors[k])
  }

  /** The plane's vertices with their height taken from the field; `x` and `z` are kept. */
  function Heights(field: Field, plane: seq<Vec3>): (r: seq<Vec3>)
    requires field.Valid()
    reads field.buffer
    ensures |r| == |plane|
    ensures forall k :: 0 <= k < |r| ==> r[k].x == plane[k].x && r[k].z == plane[k].z
    ensures forall k :: 0 <= k < |r| ==> r[k].y == field.GetBilinear(ToDomain(plane[k]))
  {
    seq(|plane|, k requires 0 <= k < |plane| reads field.buffer =>
      plane[k].(y := field.GetBilinear(ToDomain(plane[k]))))
  }

  /** The vertex colours `generate_terrain_mesh` pushes: one per vertex, in vertex order. */
  function HeightColors(positions: seq<Vec3>): (r: seq<LinearRgba>)
    ensures |r| == |positions|
    ensures forall k :: 0 <= k < |r| ==> r[k] == GetTerrainColor(positions[k].y)
  {
    seq(|positions|, k requires 0 <= k < |positions| => GetTerrainColor(positions[k].y))
  }

  /** A terrain mesh: its vertex positions and vertex colours. */
  class TerrainMesh {
    var positions: seq<Vec3>
    var colors: seq<LinearRgba>

    constructor (positions: seq<Vec3>, colors: seq<LinearRgba>)
      ensures this.positions == positions && this.colors == colors
    {
      this.positions := positions;
      this.colors := colors;
    }

    /** `reset_terrain_color`: every vertex takes the terrain colour of its own height. */
    method ResetTerrainColor()
      modifies this
      ensures positions == old(positions)
      ensures colors == ResetColors(old(positions), old(colors))
    {
      var n := if |positions| < |colors| then |positions| else |colors|;
      ghost var before := colors;
      var k := 0;
      while k < n
        invariant 0 <= k <= n && positions == old(positions) && |colors| == |before|
        invariant forall j :: 0 <= j < |colors| ==>
                    colors[j] == if j < k then GetTerrainColor(positions[j].y) else before[j]
      {
        colors := colors[k := GetTerrainColor(positions[k].y)];
        k := k + 1;
      }
    }

    /**
     * `set_terrain_color`: every vertex takes the incandescent colour of the
     * field's bilinear sample beneath it, over the given range or else over
     * the field's own minimum and maximum.
     */
    method SetTerrainColor(colorValues: Field, range: Option<(real, real)>)
      requires colorValues.Valid()
      modifies this
      ensures positions == old(positions)
      ensures colors == FieldColors(colorValues, range, old(positions), old(colors))
    {
      var lo, hi;
      if range.Some? {
        lo, hi := range.value.0, range.value.1;
      } else {
        var minMax := colorValues.ComputeMinMax();
        lo, hi := minMax.0.r, minMax.1.r;
      }
      var cmap := NewColorMap(lo, hi, Incandescent);
      assert cmap == RangeMap(colorValues, range);
      var pos, cols := positions, colors;
      var n := if |pos| < |cols| then |pos| else |cols|;
      var k := 0;
      while k < n
        invariant 0 <= k <= n && |cols| == |colors|
        invariant forall j :: 0 <= j < |cols| ==>
                    cols[j] == if j < k then VertexColor(cmap, colorValues, pos[j]) else colors[j]
      {
        var posDomain := Vec2(pos[k].x + HALF_SIZE.x as real, pos[k].z + HALF_SIZE.y as real);
        var c := GetColor(cmap, Finite(colorValues.GetBilinear(posDomain)));
        assert c == VertexColor(cmap, colorValues, pos[k]);
        cols := cols[k := c];
        k := k + 1;
      }
      colors := cols;
    }
  }

  /**
   * `generate_terrain_mesh`: sets every plane vertex's height to the
   * field's bilinear sample beneath it and gives it the terrain colour of
   * that height.
   */
  method GenerateTerrainMesh(heightMap: Field, plane: seq<Vec3>) returns (mesh: TerrainMesh)
    requires heightMap.Valid()
    ensures fresh(mesh)
    ensures mesh.positions == Heights(heightMap, plane)
    ensures mesh.colors == HeightColors(mesh.positions)
  {
    ghost var target := Heights(heightMap, plane);
    var positions := plane;
    var vertexColors: seq<LinearRgba> := [];
    for k := 0 to |positions|
      invariant |positions| == |plane| && |vertexColors| == k
      invariant forall j :: 0 <= j < |plane| ==> positions[j] == if j < k then target[j] else plane[j]
      invariant forall j :: 0 <= j < k ==> vertexColors[j] == GetTerrainColor(positions[j].y)
    {
      var posDomain := Vec2(positions[k].x + HALF_SIZE.x as real, positions[k].z + HALF_SIZE.y as real);
      var h := heightMap.GetBilinear(posDomain);
      assert positions[k].(y := h) == target[k];
      positions := positions[k := positions[k].(y := h)];
      vertexColors := vertexColors + [GetTerrainColor(h)];
    }
    mesh := new TerrainMesh(positions, vertexColors);
  }

  /** Resetting the colours of a freshly generated mesh gives back the colours it was generated with. */
  lemma ResetRestoresGenerated(field: Field, plane: seq<Vec3>)
    requires field.Valid()
    ensures var p := Heights(field, plane);
      ResetColors(p, HeightColors(p)) == HeightColors(p)
  {
  }

  /** Resetting twice is resetting once. */
  lemma ResetIdempotent(positions: seq<Vec3>, colors: seq<LinearRgba>)
    ensures ResetColors(positions, ResetColors(positions, colors)) == ResetColors(positions, colors)
  {
  }

  /**
   * Every bilinear sample of a field whose cells are all finite `f32`
   * values lies between the field's minimum and maximum, so colouring over
   * the field's own range never clamps a sample.
   */
  lemma SampleWithinOwnRange(field: Field, pos: Vec2)
    requires field.Valid()
    requires forall k :: 0 <= k < field.buffer.Length ==> -F32_MAX <= field.buffer[k] <= F32_MAX
    ensures var m := RangeMap(field, None);
      m.min <= field.GetBilinear(pos) <= m.max
  {
    var m := RangeMap(field, None);
    var c := field.Corners(pos);
    forall i | 0 <= i < 4
      ensures m.min <= c[i] <= m.max
    {
      assert c[i] in field.buffer[..];
    }
  }

  /**
   * With a fixed range `(lo, hi)`, `lo < hi`, a vertex sampling at or below
   * `lo` gets the first incandescent colour and one sampling at or above
   * `hi` the last.
   */
  lemma FixedRangeSaturates(field: Field, lo: real, hi: real, p: Vec3)
    requires field.Valid() && lo < hi
    ensures var m, v := RangeMap(field, Some((lo, hi))), field.GetBilinear(ToDomain(p));
      && (v <= lo ==> VertexColor(m, field, p) == INCANDESCENT[0])
      && (v >= hi ==> VertexColor(m, field, p) == INCANDESCENT[10])
  {
    var m, v := RangeMap(field, Some((lo, hi))), field.GetBilinear(ToDomain(p));
    if v <= lo {
      ClampLow(m, v);
    }
    if v >= hi {
      ClampHigh(m, v);
    }
  }
}
