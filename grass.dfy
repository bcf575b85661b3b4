/**
 * The grass blade mesh: a vertical strip of `segments` rectangular rows of
 * two vertices each, narrowing towards the top, closed by a single tip
 * vertex, and triangulated as a strip with one tip triangle.
 */
module Grass {
  import opened BevyMath

  /** The tunable grass parameters. */
  datatype GrassParameters = GrassParameters(
    maxAge: real,
    spawnRadius: real,
    orientationMaxAngle: real,
    belowSurfaceDepth: real,
    surfaceArea: real)

  /** `GrassParameters::default()`. */
  const DEFAULT_GRASS_PARAMETERS: GrassParameters := GrassParameters(60.0, 1.0, 0.25, 0.08, 0.25)

  /** The default parameters field by field; every one of them is positive. */
  lemma DefaultGrassParameters()
    ensures var p := DEFAULT_GRASS_PARAMETERS;
      && p.maxAge == 60.0 && p.spawnRadius == 1.0 && p.orientationMaxAngle == 0.25
      && p.belowSurfaceDepth == 0.08 && p.surfaceArea == 0.25
    ensures var p := DEFAULT_GRASS_PARAMETERS;
      p.maxAge > 0.0 && p.spawnRadius > 0.0 && p.orientationMaxAngle > 0.0
      && p.belowSurfaceDepth > 0.0 && p.surfaceArea > 0.0
  {
  }

  /** Height (as a fraction of the blade) from which the blade narrows to its tip. */
  const TIP_START: real := 0.7

  /** The largest `u32`, the type of the mesh indices. */
  const U32_MAX: nat := 0xFFFF_FFFF

  /** The blade's flat normal. */
  const NORMAL: Vec3 := Vec3(0.0, 0.0, 1.0)

  /**
   * `width_mod_fn`: full width below `TIP_START`, then a linear taper that
   * reaches zero at the top of the blade.
   */
  function WidthMod(h: real): (m: real)
    ensures h < TIP_START ==> m == 1.0
    ensures h < 1.0 ==> m > 0.0
    ensures h == 1.0 ==> m == 0.0
    ensures 0.0 <= h <= 1.0 ==> 0.0 <= m <= 1.0
  {
    if h < TIP_START then 1.0 else 1.0 - (h - TIP_START) / (1.0 - TIP_START)
  }

  /** The taper never widens the blade going up. */
  lemma WidthModNonIncreasing(h1: real, h2: real)
    requires h1 <= h2
    ensures WidthMod(h2) <= WidthMod(h1)
  {
    if h1 >= TIP_START {
      assert (h2 - TIP_START) / 0.3 - (h1 - TIP_START) / 0.3 == (h2 - h1) / 0.3;
    }
  }

  /** Height of row `i`. */
  function RowHeight(i: nat, segments: nat): (h: real)
    requires segments > 0
    ensures i < segments ==> 0.0 <= h < 1.0
  {
    i as real / segments as real
  }

  /** Half the width of row `i`. */
  function HalfWidth(i: nat, segments: nat, baseWidth: real): (w: real)
    requires segments > 0
    ensures i < segments && baseWidth >= 0.0 ==> 0.0 <= w <= baseWidth / 2.0
    ensures i < segments && baseWidth > 0.0 ==> w > 0.0
  {
    var h := RowHeight(i, segments);
    var m := WidthMod(h);
    assert i < segments ==> 0.0 < m <= 1.0;
    HalfWidthBounds(m, baseWidth);
    baseWidth / 2.0 * m
  }

  lemma HalfWidthBounds(m: real, baseWidth: real)
    ensures 0.0 <= m <= 1.0 && baseWidth >= 0.0 ==> 0.0 <= baseWidth / 2.0 * m <= baseWidth / 2.0
    ensures 0.0 < m && baseWidth > 0.0 ==> baseWidth / 2.0 * m > 0.0
  {
    var half := baseWidth / 2.0;
    if 0.0 <= m <= 1.0 && baseWidth >= 0.0 {
      assert half >= 0.0;
      MulMono(m, 1.0, half);
      MulMono(0.0, m, half);
      assert m * half == half * m;
    }
    if 0.0 < m && baseWidth > 0.0 {
      assert half > 0.0;
      MulPos(half, m);
    }
  }

  /** Vertex `k` of a blade: the left then the right vertex of each row, then the tip. */
  function BladeVertex(k: nat, segments: nat, baseWidth: real): (v: Vec3)
    requires segments > 0
    ensures v.z == 0.0
    ensures k < 2 * segments ==> 0.0 <= v.y < 1.0
    ensures k < 2 * segments && baseWidth >= 0.0 ==> -baseWidth / 2.0 <= v.x <= baseWidth / 2.0
    ensures k < 2 * segments && baseWidth > 0.0 ==> (k % 2 == 0 <==> v.x < 0.0)
    ensures k >= 2 * segments ==> v == Vec3(0.0, 1.0, 0.0)
  {
    if k < 2 * segments then
      var w := HalfWidth(k / 2, segments, baseWidth);
      Vec3(if k % 2 == 0 then -w else w, RowHeight(k / 2, segments), 0.0)
    else Vec3(0.0, 1.0, 0.0)
  }

  /** The two triangles of the quad between rows `q` and `q + 1`. */
  function QuadTriangles(q: nat): (t: seq<nat>)
    ensures |t| == 6
    ensures forall j :: 0 <= j < 6 ==> 2 * q <= t[j] < 2 * q + 4
  {
    [2 * q, 2 * q + 1, 2 * q + 2, 2 * q + 2, 2 * q + 1, 2 * q + 3]
  }

  /** The triangles of the first `n` quads, bottom to top. */
  function Strip(n: nat): seq<nat>
  {
    if n == 0 then [] else Strip(n - 1) + QuadTriangles(n - 1)
  }

  /** The tip triangle over the last row. */
  function TipTriangle(segments: nat): seq<nat>
    requires segments >= 1
  {
    var top := 2 * segments;
    [top - 2, top - 1, top]
  }

  /** The mesh `create_grass_mesh` builds. */
  datatype GrassMesh = GrassMesh(positions: seq<Vec3>, normals: seq<Vec3>, indices: seq<nat>)

  /**
   * `create_grass_mesh`. `segments >= 2` because the triangle loop bound
   * `top_idx - 3` underflows otherwise; `2 * segments` must fit the `u32`
   * index type.
   */
  method CreateGrassMesh(segments: nat, baseWidth: real) returns (mesh: GrassMesh)
    requires 2 <= segments && 2 * segments <= U32_MAX
    ensures |mesh.positions| == 2 * segments + 1 && |mesh.normals| == 2 * segments + 1
    ensures forall k :: 0 <= k < |mesh.positions| ==> mesh.positions[k] == BladeVertex(k, segments, baseWidth)
    ensures forall k :: 0 <= k < |mesh.normals| ==> mesh.normals[k] == NORMAL
    ensures mesh.indices == BladeIndices(segments)
  {
    var numVertices := 2 * segments + 1;
    var width2 := baseWidth / 2.0;
    var positions: seq<Vec3> := [];
    for i := 0 to segments
      invariant |positions| == 2 * i
      invariant forall k :: 0 <= k < 2 * i ==> positions[k] == BladeVertex(k, segments, baseWidth)
    {
      var height := i as real / segments as real;
      var w := width2 * WidthMod(height);
      assert w == HalfWidth(i, segments, baseWidth);
      positions := positions + [Vec3(-w, height, 0.0), Vec3(w, height, 0.0)];
      assert (2 * i) / 2 == i && (2 * i + 1) / 2 == i;
    }
    positions := positions + [Vec3(0.0, 1.0, 0.0)];

    var normals := seq(numVertices, _ => NORMAL);

    var indices: seq<nat> := [];
    var topIdx := numVertices - 1;
    var i := 0;
    while i < topIdx - 3
      invariant i % 2 == 0 && i <= topIdx - 2
      invariant indices == Strip(i / 2)
    {
      assert QuadTriangles(i / 2) == [i, i + 1, i + 2, i + 2, i + 1, i + 3];
      indices := indices + [i, i + 1, i + 2] + [i + 2, i + 1, i + 3];
      i := i + 2;
    }
    assert i / 2 == segments - 1;
    indices := indices + [topIdx - 2, topIdx - 1, topIdx];
    mesh := GrassMesh(positions, normals, indices);
  }

  /** The triangle list of a blade: one strip of `segments - 1` quads and the tip triangle. */
  function BladeIndices(segments: nat): (t: seq<nat>)
    requires segments >= 1
  {
    Strip(segments - 1) + TipTriangle(segments)
  }

  lemma {:induction false} StripLength(n: nat)
    ensures |Strip(n)| == 6 * n
  {
    if n > 0 {
      StripLength(n - 1);
    }
  }

  lemma {:induction false} StripBounded(n: nat)
    ensures forall j :: 0 <= j < |Strip(n)| ==> Strip(n)[j] < 2 * n + 2
  {
    if n > 0 {
      StripBounded(n - 1);
      var s := Strip(n);
      var a, b := Strip(n - 1), QuadTriangles(n - 1);
      assert s == a + b;
      forall j | 0 <= j < |s|
        ensures s[j] < 2 * n + 2
      {
        if j < |a| {
          assert s[j] == a[j];
        } else {
          assert s[j] == b[j - |a|];
        }
      }
    }
  }

  lemma {:induction false} StripCovers(n: nat, v: nat)
    requires n >= 1 && v < 2 * n + 2
    ensures v in Strip(n)
  {
    var a, b := Strip(n - 1), QuadTriangles(n - 1);
    assert Strip(n) == a + b;
    if v >= 2 * (n - 1) {
      assert v == b[v - 2 * (n - 1)] || v == b[5];
      assert v in b;
    } else {
      StripCovers(n - 1, v);
    }
  }

  /** The index list has three entries per triangle and `num_vertices - 2` triangles. */
  lemma IndexCount(segments: nat)
    requires segments >= 1
    ensures |BladeIndices(segments)| == 3 * (2 * segments + 1 - 2)
    ensures |BladeIndices(segments)| % 3 == 0
  {
    StripLength(segments - 1);
  }

  /** Every index names one of the `2 * segments + 1` vertices, and every vertex is used. */
  lemma IndicesMatchVertices(segments: nat)
    requires segments >= 2
    ensures forall j :: 0 <= j < |BladeIndices(segments)| ==> BladeIndices(segments)[j] < 2 * segments + 1
    ensures forall v: nat :: v < 2 * segments + 1 ==> v in BladeIndices(segments)
  {
    var a, t := Strip(segments - 1), TipTriangle(segments);
    StripBounded(segments - 1);
    var s := BladeIndices(segments);
    forall j | 0 <= j < |s|
      ensures s[j] < 2 * segments + 1
    {
      if j < |a| {
        assert s[j] == a[j];
      } else {
        assert s[j] == t[j - |a|];
      }
    }
    forall v: nat | v < 2 * segments + 1
      ensures v in s
    {
      if v < 2 * segments {
        StripCovers(segments - 1, v);
        assert v in a;
      } else {
        assert v == t[2];
      }
    }
  }

  /** The last triangle is the tip: the two vertices of the top row and the tip vertex. */
  lemma LastTriangleIsTip(segments: nat)
    requires segments >= 1
    ensures var s := BladeIndices(segments);
      |s| >= 3 && s[|s| - 3..] == [2 * segments - 2, 2 * segments - 1, 2 * segments]
  {
  }
}
