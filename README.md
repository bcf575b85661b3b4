# eco-sim core in Dafny

A model of the core of eco-sim, a small ecosystem simulation built on the
Bevy engine. The model covers:

- **`Field`** (`domain.dfy`): the 2D scalar grid over the 64 x 64 world, with
  `64 * 2^s` cells per axis at subdivision level `s`. It provides index
  clamping and row-major flattening, nearest and bilinear sampling, the
  NaN-tolerant min/max fold, unclamped cell reads and writes, and the radial
  kernel `add_kernel`, which adds a linearly falling-off amount to the cells
  of a disk in place.
- **`ColorMap`** (`color_map.dfy`): the two palette tables and the mapping
  from a value in a range to a blend of two neighbouring palette stops.
- **Organism aging** (`organism.dfy`): the per-frame loop that ages every
  organism, scales it by its age and despawns those older than 10 seconds.
- **The grass blade mesh** (`grass.dfy`): vertex positions, normals and the
  triangle index list of one blade, plus the default grass parameters
  (`DEFAULT_GRASS_PARAMETERS`: max age 60, spawn radius 1, orientation angle
  0.25, depth 0.08, surface area 0.25).
- **The terrain** (`terrain.dfy`): the height field filled from a noise map,
  the terrain colour ramp, and the per-vertex loops that shape and colour the
  terrain mesh.
- **Player inputs** (`player_inputs.dfy`): the debug colouring mode switched
  with F1/F2, the game speed switched with the arrow keys, and the organisms
  spawned at right-click hits.

`math.dfy` holds the engine vector types and the `f32` operations the core
uses. `f32` is modelled as an exact real, and non-finite values appear as an
explicit `Float` case (`Finite(r) | PosInf | NegInf | NaN`) where the code
tests for them. The generic cell type `T` of `Field<T>` is `real`.

Rust semantics modelled explicitly:

- `floor`, `ceil` and `trunc`.
- `round`, halfway away from zero.
- `fract`, which is `x - trunc(x)`.
- The saturating float-to-`usize` cast: a negative value becomes 0.
- The exclusive range bounds of the loops.
- `clamp(0, size - 1)`.

Two behaviours of the code a reader may not expect:

- `add_kernel`'s loop box excludes its clamped upper bound. The last row and
  the last column of a field are therefore never changed, which
  `LastLinesUntouched` and `TouchedIff` state.
- `field[[x, y]]` checks only that the flat position is inside the buffer.
  The model requires only that, so `[size.x, y]` is a legal read of the first
  cell of row `y + 1` (`IndexAliasesNextRow`).

## Model

| member | source | states |
|---|---|---|
| Domain.WorldConstants | src/domain.rs:6-22 | `SIZE` is `2^6` per axis, `HALF_SIZE` is 32 per axis, `BOUNDS` is `[0,64] x [0,64]` |
| Domain.Resolution | src/domain.rs:37-39 | `1 << (6 + s)` cells per axis, at least one |
| Domain.IndexScale | src/domain.rs:45 | `2.0.powf(s)` cells per world unit, always positive |
| Domain.ResolutionCoversWorld | src/domain.rs:36-48 | a field's cells per axis, `1 << (6 + s)`, equal the world size times `idx_scale = 2^s`, for negative `s` too |
| Domain.Field.constructor | src/domain.rs:36-48 | `Field::new(s)` gives size `(64*2^s, 64*2^s)`, `idx_scale = 2^s`, a fresh buffer of `size.x*size.y` cells, all zero |
| Domain.Grid.ClampIndex | src/domain.rs:50-52 | the clamped index is always in range, equals the index when that is in range, and is `size - 1` on an axis that overflows |
| Domain.ClampAxis | src/domain.rs:50-52 | one axis of the clamp: below `n`, identity below `n`, `n - 1` otherwise |
| Domain.Grid.FlatIndex | src/domain.rs:54-56 | an in-range index flattens to a position below the cell count |
| Domain.FlatIndexInjective | src/domain.rs:54-56 | two in-range indices share a flat position iff they are equal |
| Domain.Grid.CellOf | src/domain.rs:54-56 | every buffer position is the flat index of exactly the cell `(k % size.x, k / size.x)`, in range when below the cell count |
| Domain.Grid.ToGrid | src/domain.rs:71 | computes `pos * idx_scale`, the world position in grid units |
| Domain.Grid.NearestIndex | src/domain.rs:63-66 | the rounded, saturated, clamped index of `get_nearest` is in range for every position |
| Domain.Grid.NearestRoundsToCell | src/domain.rs:63-66 | a scaled position within half a cell of an in-range cell selects that cell |
| Domain.Field.GetNearest | src/domain.rs:63-66 | `get_nearest` reads an in-range cell, the one `NearestIndex` selects |
| Domain.Field.NearestAtCell | src/domain.rs:63-66 | the nearest sample within half a cell of a cell is that cell's value |
| Domain.Grid.LowerIndex | src/domain.rs:73 | the floored corner of `get_bilinear` is in range for every position |
| Domain.Grid.UpperIndex | src/domain.rs:74 | the ceiled corner of `get_bilinear` is in range for every position |
| Domain.Grid.Weights | src/domain.rs:72 | the `fract` weights of the grid position lie strictly inside (-1, 1), and in [0, 1) on a non-negative axis |
| Domain.Grid.CornersAdjacent | src/domain.rs:72-74 | per axis the two corners are one cell, or neighbours with a weight strictly inside (0, 1) |
| Domain.Grid.DegenerateOutside | src/domain.rs:73-74 | at or below 0, or at or beyond the last grid line, floor and ceil clamp to the same index |
| Domain.Field.Corners | src/domain.rs:75-78 | the four corner reads are cells of the buffer |
| Domain.Field.GetBilinear | src/domain.rs:70-86 | the bilinear sample lies between the least and greatest of its four corner values |
| Domain.Field.BilinearAtGridPoint | src/domain.rs:70-86 | at the world position of an in-range cell the sample is exactly that cell's value |
| Domain.Field.BilinearDegenerateAxis | src/domain.rs:73-85 | beyond the last grid line (or at or below 0) on an axis, the sample is a 1D blend along the other axis |
| Domain.MinStep | src/domain.rs:91-97 | the min fold's closure returns one of its two arguments, and never NaN when the accumulator is not NaN |
| Domain.MaxStep | src/domain.rs:98-104 | the max fold's closure returns one of its two arguments, and never NaN when the accumulator is not NaN |
| Domain.FoldMin | src/domain.rs:91-97 | the min fold ends at its seed or at an element, never NaN |
| Domain.FoldMax | src/domain.rs:98-104 | the max fold ends at its seed or at an element, never NaN |
| Domain.MinMax | src/domain.rs:90-106 | neither result is NaN; over finite elements both are finite |
| Domain.Ordered | src/domain.rs:92-93 | the non-NaN elements, exactly |
| Domain.FoldMinBelow | src/domain.rs:91-97 | the min fold ends at or below its seed and every ordered element |
| Domain.FoldMaxAbove | src/domain.rs:98-104 | the max fold ends at or above its seed and every ordered element |
| Domain.FoldsIgnoreNaN | src/domain.rs:92-93 | NaN elements never replace the accumulator: both folds equal the folds over the ordered elements |
| Domain.AllNaNYieldsSeeds | src/domain.rs:90-106 | an all-NaN buffer yields `(f32::MAX, f32::MIN)` |
| Domain.MinMaxExact | src/domain.rs:90-106 | when some element lies within the `f32` range, both results are elements and they are the least and greatest ordered elements |
| Domain.Field.ComputeMinMax | src/domain.rs:90-106 | both results are finite; over `f32`-range cells they are cells of the buffer bounding every cell |
| Domain.Grid.BoxMin | src/domain.rs:113-115 | the kernel's lower loop bound is in range |
| Domain.Grid.BoxMax | src/domain.rs:114-116 | the kernel's (exclusive) upper loop bound is in range |
| Domain.AxisBox | src/domain.rs:113-120 | per axis, a cell strictly within `r` and off the last line is inside the loop range, and every cell inside it is off the last line |
| Domain.DiskAxes | src/domain.rs:121-122 | inside the open disk each coordinate is within `r` |
| Domain.Grid.TouchedIff | src/domain.rs:110-128 | with `r > 0` the kernel changes an in-range cell iff it lies in the open disk and off the last column and row |
| Domain.Grid.TouchedAtIff | src/domain.rs:113-122 | the same in grid units |
| Domain.Grid.NonPositiveRadiusTouchesNothing | src/domain.rs:118-122 | with `r <= 0` no cell passes `d_sq < r_sq` inside the loop box |
| Domain.Grid.NonPositiveTouchedAt | src/domain.rs:118-122 | the same in grid units |
| Domain.Grid.LastLinesUntouched | src/domain.rs:116-120 | cells of the last column or last row are never changed |
| Domain.Grid.Kernel | src/domain.rs:110-128 | the buffer after the kernel has the same length |
| Domain.Grid.KernelAtCell | src/domain.rs:110-128 | with `r > 0` an in-range cell in the open disk and off the last lines gains `value * (1 - d^2/r^2)`; every other cell is unchanged |
| Domain.Grid.KernelCellCases | src/domain.rs:122-125 | a touched cell gains `value` times the falloff, an untouched one keeps its value |
| Domain.Grid.KernelInverse | src/domain.rs:110-128 | applying the kernel with `-value` afterwards restores the buffer exactly |
| Domain.Grid.KernelCellInverse | src/domain.rs:122-125 | the same for one cell |
| Domain.Grid.KernelNonPositiveRadius | src/domain.rs:110-128 | a zero or negative radius leaves the buffer unchanged |
| Domain.Field.AddKernel | src/domain.rs:110-128 | the nested loops leave the buffer equal to `Kernel` of the old buffer |
| Domain.Field.At | src/domain.rs:131-137 | `field[[x, y]]` with the flat position inside the buffer reads a buffer cell |
| Domain.Field.Set | src/domain.rs:139-144 | `field[[x, y]] = v` replaces exactly the cell at the flat position |
| Domain.Field.SetChangesOneCell | src/domain.rs:139-144 | a write to an in-range cell changes that cell and no other in-range cell |
| Domain.WriteThenRead | src/domain.rs:139-144 | reading after a write gives the written value at the same cell and the old value elsewhere |
| Domain.Field.IndexAliasesNextRow | src/domain.rs:131-137 | `[size.x, y]` is accepted and reads the first cell of row `y + 1` |
| BevyMath.PartialCmp | src/domain.rs:92 | `partial_cmp` is `None` iff NaN is involved, `Less`/`Greater` iff strictly ordered, `Equal` only for equal values |
| BevyMath.Floor | src/domain.rs:73 | `floor` is the greatest integer at or below its argument |
| BevyMath.Ceil | src/domain.rs:74 | `ceil` is the least integer at or above its argument |
| BevyMath.Round | src/domain.rs:64 | `round` is within half of its argument, halfway cases away from zero |
| BevyMath.Trunc | src/color_map.rs:104 | `trunc` rounds towards zero: `floor` for non-negative arguments, `ceil` for negative ones |
| BevyMath.AsUsize | src/domain.rs:64 | the float-to-`usize` cast of an integral value keeps a non-negative value and saturates a negative one to 0 |
| BevyMath.Pow2 | src/domain.rs:38-39 | `1 << n` is at least 1 |
| BevyMath.Sq | src/domain.rs:118 | `squared` is never negative |
| BevyMath.Fract | src/domain.rs:72 | `fract` is `x - trunc(x)`, in `[0, 1)` for non-negative `x` |
| BevyMath.Lerp | src/domain.rs:81-85 | `a*(1-t) + b*t` is `a` at `t = 0`, `b` at `t = 1`, between `a` and `b` for `t` in `[0, 1]` |
| BevyMath.Pow2Add | src/domain.rs:38-39 | `2^(a+b) = 2^a * 2^b` |
| ColorMapping.InterpolateStable | src/color_map.rs:108 | the componentwise blend is the first colour at `t = 0`, the second at `t = 1`, and between them for `t` in `[0, 1]` |
| ColorMapping.Rgb | src/color_map.rs:4-18 | the table colours are opaque |
| ColorMapping.GetColorScheme | src/color_map.rs:65-70 | `Incandescent` binds the 11-stop table and grey 0.5333; `Rainbow` binds the 34-stop table and grey 0.4 |
| ColorMapping.NewColorMap | src/color_map.rs:80-88 | `ColorMap::new` keeps the range and binds the scheme's table (never empty) and bad-data colour |
| ColorMapping.Clamp01 | src/color_map.rs:101 | the clamp lands in `[0, 1]`, is the identity inside and saturates outside |
| ColorMapping.Scaled | src/color_map.rs:101 | `v_scaled` lies in `[0, 1]` |
| ColorMapping.PaletteSelect | src/color_map.rs:103-106 | lower and upper stops are inside the table, `upper = min(lower+1, len-1)`, `t` in `[0, 1)`, `lower + t = v_select`, and `t > 0` means upper is the next stop |
| ColorMapping.SelectBounds | src/color_map.rs:103 | `v_select` lies in `[0, len-1]` |
| ColorMapping.GetColor | src/color_map.rs:90-98 | a non-finite value gives the bad-data colour; `min == max` gives the first stop |
| ColorMapping.Lookup | src/color_map.rs:103-108 | the result lies between the two selected stops |
| ColorMapping.ClampLow | src/color_map.rs:101-108 | with `min < max`, values at or below `min` give the first stop |
| ColorMapping.ClampHigh | src/color_map.rs:101-108 | with `min < max`, values at or above `max` give the last stop |
| ColorMapping.AtStop | src/color_map.rs:101-108 | the value `min + k/(len-1)*(max-min)` gives exactly stop `k` |
| ColorMapping.ScaledAtStop | src/color_map.rs:101 | that value scales to `k/(len-1)` |
| ColorMapping.LookupAtStop | src/color_map.rs:103-108 | the lookup at `k/(len-1)` is stop `k` |
| ColorMapping.SelectAtStop | src/color_map.rs:103-106 | at `k/(len-1)` the lower stop is `k` with weight 0 |
| ColorMapping.StopWeight | src/color_map.rs:103 | `k/(n-1)` lies in `[0, 1]` and scales back to `k` |
| ColorMapping.BlendOfNeighbours | src/color_map.rs:101-108 | every finite lookup blends two neighbouring stops (or one stop with itself) and stays between them |
| Organisms.DefaultIsNewborn | src/organism.rs:3-6 | a default organism has age 0 and is not expired |
| Organisms.Tick | src/organism.rs:14-15 | the age grows by exactly `delta`, scale becomes `(age, age, age)`, id, translation and rotation are unchanged, and ages never decrease for `delta >= 0` |
| Organisms.Expired | src/organism.rs:17 | the despawn test: the updated age is greater than 10.0 (`MAX_AGE`) |
| Organisms.Ticked | src/organism.rs:13-16 | the updated query has as many entities as before, and distinct ids stay distinct |
| Organisms.UpdateOrganisms | src/organism.rs:8-21 | the loop updates every entity and queues exactly the despawn commands of `ExpiredIds` |
| Organisms.ExpiredIdsExact | src/organism.rs:17-19 | with distinct ids, an entity is queued for despawn iff its updated age is `> 10.0` |
| Organisms.ExpiredIdsFrom | src/organism.rs:17-19 | every queued id is the id of a visited entity |
| Organisms.DespawnLeavesSurvivors | src/organism.rs:17-19 | applying despawn commands that name exactly the expired entities leaves the survivors |
| Organisms.FrameLeavesSurvivors | src/organism.rs:8-21 | a whole frame leaves exactly the updated organisms with age `<= 10.0`, in order |
| Organisms.SurvivorsFrom | src/organism.rs:13-20 | everything left after a frame is an updated organism of age `<= 10.0` |
| Organisms.SurvivorsKeep | src/organism.rs:13-20 | every updated organism of age `<= 10.0` is left after the frame |
| Organisms.CountsAddUp | src/organism.rs:13-20 | survivors plus despawned ones are all the organisms |
| Grass.DefaultGrassParameters | src/grass.rs:19-29 | `GrassParameters::default()` is max age 60, spawn radius 1, orientation angle 0.25, depth 0.08 and surface area 0.25, all positive |
| Grass.WidthMod | src/grass.rs:40-47 | `width_mod_fn` is 1 below 0.7, positive below 1, 0 at 1, and in `[0, 1]` on `[0, 1]` |
| Grass.WidthModNonIncreasing | src/grass.rs:41-47 | the blade never widens going up |
| Grass.RowHeight | src/grass.rs:51 | every row height is in `[0, 1)` |
| Grass.HalfWidth | src/grass.rs:39-52 | each row's half width is positive and at most half the base width, for a positive base width |
| Grass.HalfWidthBounds | src/grass.rs:52 | a width factor in `[0, 1]` keeps the row within half the base width |
| Grass.BladeVertex | src/grass.rs:50-57 | row vertices lie at heights in [0, 1) within half the base width, the left one (even index) strictly left of the axis and the right one strictly right for a positive width, all at z = 0, and the last vertex is the tip `(0, 1, 0)` |
| Grass.QuadTriangles | src/grass.rs:66-67 | the two triangles of quad `q` use only the four vertices of rows `q` and `q + 1` |
| Grass.CreateGrassMesh | src/grass.rs:37-80 | `2*segments + 1` positions (row `i` gives `(-w, i/segments, 0)` then `(w, i/segments, 0)`, then the tip `(0, 1, 0)`), as many normals all `(0, 0, 1)`, and the strip-plus-tip index list |
| Grass.BladeIndices | src/grass.rs:63-71 | the triangle list: a strip of `segments - 1` quads followed by the tip triangle; `IndexCount`, `IndicesMatchVertices` and `LastTriangleIsTip` state its properties |
| Grass.StripLength | src/grass.rs:65-68 | `n` quads contribute `6n` indices |
| Grass.StripBounded | src/grass.rs:65-68 | the indices of `n` quads are below `2n + 2` |
| Grass.StripCovers | src/grass.rs:65-68 | every vertex below `2n + 2` is used by the first `n` quads |
| Grass.IndexCount | src/grass.rs:63-71 | the index list has `3*(num_vertices - 2)` entries, whole triangles |
| Grass.IndicesMatchVertices | src/grass.rs:63-71 | every index is below `num_vertices`, and every vertex is used |
| Grass.LastTriangleIsTip | src/grass.rs:64-71 | the last triangle is `[2s-2, 2s-1, 2s]` |
| Terrain.TerrainHeight | src/terrain.rs:21-23 | `2.5 * noise(x, y)`: within `[-2.5, 2.5]` for noise in `[-1, 1]`, and of the noise's sign |
| Terrain.Terrain.constructor | src/terrain.rs:31-52 | `Terrain::new` gives a fresh field of the requested level whose every in-range cell `[x, y]` is `2.5 * noise(x, y)` |
| Terrain.FillStep | src/terrain.rs:43-47 | the cell visited at `(x, y)` is flat position `x + y*size.x`, in range |
| Terrain.GetTerrainColor | src/terrain.rs:55-60 | grey 0.75 at heights at or below -0.3, white at or above 0.7, and between them otherwise |
| Terrain.TerrainColorMonotone | src/terrain.rs:55-60 | higher terrain is never darker, and the colour is always a grey |
| Terrain.ToDomain | src/terrain.rs:105-108 | computes `pos_domain`: the vertex's x and z shifted by `HALF_SIZE`, from mesh to field coordinates |
| Terrain.VertexColor | src/terrain.rs:109-112 | computes one vertex's colour: the map's `get_color` of the field's bilinear sample at `pos_domain` |
| Terrain.RangeMap | src/terrain.rs:97-102 | the incandescent map over the supplied range, or else over `compute_min_max` of the field |
| Terrain.ResetColors | src/terrain.rs:73-75 | paired vertex colours become the terrain colour of that vertex's height; colours beyond the last vertex are kept |
| Terrain.FieldColors | src/terrain.rs:104-113 | paired vertex colours become the map's colour of the bilinear sample at `(x+32, z+32)`; the rest are kept |
| Terrain.Heights | src/terrain.rs:134-140 | each vertex keeps `x` and `z` and gets `y = get_bilinear((x+32, z+32))` |
| Terrain.HeightColors | src/terrain.rs:142 | one colour per vertex, in vertex order, the terrain colour of its height |
| Terrain.TerrainMesh.ResetTerrainColor | src/terrain.rs:62-78 | positions unchanged, colours as `ResetColors` |
| Terrain.TerrainMesh.SetTerrainColor | src/terrain.rs:82-116 | positions unchanged, colours as `FieldColors` |
| Terrain.GenerateTerrainMesh | src/terrain.rs:118-151 | a fresh mesh with positions as `Heights` and colours as `HeightColors` |
| Terrain.ResetRestoresGenerated | src/terrain.rs:73-142 | resetting a freshly generated mesh's colours gives back the generated colours |
| Terrain.ResetIdempotent | src/terrain.rs:73-75 | resetting twice is resetting once |
| Terrain.SampleWithinOwnRange | src/terrain.rs:97-111 | over a field of `f32`-range cells, every bilinear sample lies within the field's own min and max |
| Terrain.FixedRangeSaturates | src/terrain.rs:97-111 | with a fixed range `lo < hi`, samples at or below `lo` get the first incandescent stop and at or above `hi` the last |
| PlayerInputs.SelectFieldType | src/player_inputs.rs:31-36 | F2 selects `VegDensity` (even with F1), F1 alone selects `Reset`, no key keeps the mode |
| PlayerInputs.NextFieldType | src/player_inputs.rs:31-50 | the mode after a frame is the selected one, except that a `Reset` performed on a found mesh falls back to `None`; with the mesh found the mode is never left at `Reset` |
| PlayerInputs.IdleStaysIdle | src/player_inputs.rs:38-40 | with no key held, `None` stays `None` |
| PlayerInputs.ResetIsOneShot | src/player_inputs.rs:47-50 | a frame that performs `Reset` ends in `None`, and `None` then persists |
| PlayerInputs.VegDensityPersists | src/player_inputs.rs:51-53 | `VegDensity` stays until F1 is held |
| PlayerInputs.F2Wins | src/player_inputs.rs:31-36 | holding both keys selects `VegDensity` |
| PlayerInputs.FieldVisState.constructor | src/player_inputs.rs:11-22 | the default mode is `None` |
| PlayerInputs.FieldVisState.VisFieldsSystem | src/player_inputs.rs:24-57 | the new mode is `NextFieldType`; mode `None` leaves the mesh alone, `Reset` resets its colours, `VegDensity` recolours it from the density over `(0, 1)`; positions are unchanged |
| PlayerInputs.NextRelativeSpeed | src/player_inputs.rs:123-128 | ArrowUp doubles the speed, otherwise ArrowDown halves it, otherwise it is unchanged; a positive speed stays positive |
| PlayerInputs.SpeedStepsInverse | src/player_inputs.rs:124-127 | a halving undoes a doubling and the other way round |
| PlayerInputs.SpeedUpsPow2 | src/player_inputs.rs:124-125 | `n` doublings multiply the speed by `2^n` |
| PlayerInputs.VirtualTime.GeneralActionsSystem | src/player_inputs.rs:119-129 | the relative speed becomes `NextRelativeSpeed` of the old one |
| PlayerInputs.SpawnAt | src/player_inputs.rs:104-115 | a spawned blade is a default organism (age 0) with zero scale, planted 0.1 below the hit, with yaw `draw * 2 * PI` in `[0, 2 PI)` |
| PlayerInputs.PickingSpawn | src/player_inputs.rs:103-116 | one blade per hit, in hit order, each from its own draw |
| PlayerInputs.SpawnedFirstFrame | src/player_inputs.rs:104-115 | after its first frame a spawned blade has scale `(delta, delta, delta)` and is despawned iff `delta > 10.0` |

## Left out

- Bevy's entity-component-system plumbing is replaced by plain values: queries, commands, resources and system scheduling. An organism query is a sequence of entities, and a despawn command is the entity's id. The mesh asset is a `TerrainMesh` or `null`.
- Mesh attribute extraction and reinsertion, and the panics on an unexpected vertex format, are not modelled. The same goes for `Plane3d` generation, whose positions are handed in, and `generate_tangents`, whose result is discarded.
- The noise library is not modelled. The noise map is an arbitrary function of the cell indices.
- The random number generator is not modelled. Each draw is a parameter in `[0, 1)`.
- The ray cast, window and camera queries of `picking_system` are not modelled. The system is reduced to its spawn loop over the hit points.
- The blade's mesh and material handles and the shadow marker carry no state the core uses and are not modelled.
- The `Surface` component is only its `veg_density` field, handed to `VisFieldsSystem`.
- Materials, shaders, asset loading, scene setup, the HUD, the parameter UI and the day/night cycle are not part of this model.
- The density-gated propagation system that main.rs registers has no source in `src/organism.rs` and is not modelled.
- Floating-point rounding is not modelled; the inverse law of the kernel holds in exact reals only.
- Domain.Field.constructor: requires `-6 <= s <= 25`. A smaller `s` makes the shift in `Field::new` panic, and a larger one overflows `size.x * size.y`.
- BevyMath.AsUsize: models only the lower saturation point of the float-to-`usize` cast. The upper one, `usize::MAX`, is always clamped away by `clamp_index`.
- Grass.CreateGrassMesh: requires `segments >= 2`, because `top_idx - 3` underflows otherwise. It also requires `2 * segments` to fit in `u32`, the index type the cast truncates to.
- PlayerInputs.NextRelativeSpeed: does not model that Bevy panics when a relative speed is negative or non-finite. A non-negative speed stays non-negative, but `f32` overflow to infinity is not modelled.
- Organisms.FrameLeavesSurvivors: assumes distinct entity ids, which the engine guarantees.
