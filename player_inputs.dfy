/**
 * Player input handling: the debug visualisation mode of the terrain
 * colouring, switched with F1 and F2; the game speed, doubled and halved
 * with the arrow keys; and the organisms spawned where a right click hits
 * the terrain.
 *
 * Key and mouse states are booleans handed in, the ray cast is replaced by
 * the list of hit points it returns, and each random draw is a parameter.
 */
module PlayerInputs {
  import BevyMath
  import Domain
  import Terrain
  import Organisms

  /** The terrain colouring the debug visualisation asks for. */
  datatype FieldType = None | Reset | VegDensity

  /** The mode after the key checks: F1 selects `Reset`, F2 selects `VegDensity`, and F2 is checked last. */
  function SelectFieldType(current: FieldType, f1Pressed: bool, f2Pressed: bool): (t: FieldType)
    ensures f2Pressed ==> t == VegDensity
    ensures f1Pressed && !f2Pressed ==> t == Reset
    ensures !f1Pressed && !f2Pressed ==> t == current
  {
    var afterF1 := if f1Pressed then Reset else current;
    if f2Pressed then VegDensity else afterF1
  }

  /**
   * The mode at the end of a frame of `vis_fields_system`: a `Reset` that
   * found the terrain mesh falls back to `None`; every other mode stays.
   */
  function NextFieldType(current: FieldType, f1Pressed: bool, f2Pressed: bool, meshFound: bool): (t: FieldType)
    ensures meshFound ==> t != Reset
    ensures t != SelectFieldType(current, f1Pressed, f2Pressed) ==>
      meshFound && SelectFieldType(current, f1Pressed, f2Pressed) == Reset && t == None
  {
    var t := SelectFieldType(current, f1Pressed, f2Pressed);
    if t == Reset && meshFound then None else t
  }

  /** With no key held, `None` stays `None`. */
  lemma IdleStaysIdle(meshFound: bool)
    ensures NextFieldType(None, false, false, meshFound) == None
  {
  }

  /** `Reset` is carried out once: the frame that performs it leaves the mode at `None`. */
  lemma ResetIsOneShot(current: FieldType, f1Pressed: bool, f2Pressed: bool)
    requires SelectFieldType(current, f1Pressed, f2Pressed) == Reset
    ensures NextFieldType(current, f1Pressed, f2Pressed, true) == None
    ensures NextFieldType(NextFieldType(current, f1Pressed, f2Pressed, true), false, false, true) == None
  {
  }

  /** `VegDensity` persists from frame to frame until F1 is held. */
  lemma VegDensityPersists(f2Pressed: bool, meshFound: bool)
    ensures NextFieldType(VegDensity, false, f2Pressed, meshFound) == VegDensity
  {
  }

  /** Holding both keys selects `VegDensity`, whatever the mode was. */
  lemma F2Wins(current: FieldType, meshFound: bool)
    ensures NextFieldType(current, true, true, meshFound) == VegDensity
  {
  }

  /** The fixed range the vegetation density is coloured over. */
  const VEG_DENSITY_RANGE: (real, real) := (0.0, 1.0)

  /** The `FieldVisState` resource. */
  class FieldVisState {
    var fieldType: FieldType

    /** `FieldVisState::default()`. */
    constructor ()
      ensures fieldType == None
    {
      fieldType := None;
    }

    /**
     * `vis_fields_system`. `mesh` is the terrain mesh, or `null` when the
     * mesh asset is not found; `vegDensity` is the terrain's surface field.
     */
    method VisFieldsSystem(f1Pressed: bool, f2Pressed: bool, mesh: Terrain.TerrainMesh?, vegDensity: Domain.Field)
      requires vegDensity.Valid()
      modifies this, mesh
      ensures fieldType == NextFieldType(old(fieldType), f1Pressed, f2Pressed, mesh != null)
      ensures mesh != null ==> mesh.positions == old(mesh.positions)
      ensures mesh != null ==> mesh.colors == match SelectFieldType(old(fieldType), f1Pressed, f2Pressed)
        case None => old(mesh.colors)
        case Reset => Terrain.ResetColors(old(mesh.positions), old(mesh.colors))
        case VegDensity =>
          Terrain.FieldColors(vegDensity, BevyMath.Some(VEG_DENSITY_RANGE), old(mesh.positions), old(mesh.colors))
    {
      if f1Pressed {
        fieldType := Reset;
      }
      if f2Pressed {
        fieldType := VegDensity;
      }

      if fieldType == None {
        return;
      }

      if mesh != null {
        match fieldType {
          case Reset =>
            mesh.ResetTerrainColor();
            fieldType := None;
          case VegDensity =>
            mesh.SetTerrainColor(vegDensity, BevyMath.Some(VEG_DENSITY_RANGE));
        }
      }
    }
  }

  /** The relative speed after the arrow keys: ArrowUp doubles it, otherwise ArrowDown halves it. */
  function NextRelativeSpeed(speed: real, upJustPressed: bool, downJustPressed: bool): (s: real)
    ensures speed >= 0.0 ==> s >= 0.0
    ensures speed > 0.0 ==> s > 0.0
    ensures upJustPressed ==> s == 2.0 * speed
    ensures !upJustPressed && downJustPressed ==> 2.0 * s == speed
    ensures !upJustPressed && !downJustPressed ==> s == speed
  {
    if upJustPressed then speed * 2.0
    else if downJustPressed then speed * 0.5
    else speed
  }

  /** A halving undoes a doubling and a doubling undoes a halving. */
  lemma SpeedStepsInverse(speed: real)
    ensures NextRelativeSpeed(NextRelativeSpeed(speed, true, false), false, true) == speed
    ensures NextRelativeSpeed(NextRelativeSpeed(speed, false, true), true, false) == speed
  {
  }

  /** The speed after `n` frames with ArrowUp just pressed. */
  function SpeedUps(speed: real, n: nat): real {
    if n == 0 then speed else NextRelativeSpeed(SpeedUps(speed, n - 1), true, false)
  }

  /** `n` doublings multiply the speed by `2^n`. */
  lemma {:induction false} SpeedUpsPow2(speed: real, n: nat)
    ensures SpeedUps(speed, n) == speed * BevyMath.Pow2(n) as real
  {
    if n > 0 {
      SpeedUpsPow2(speed, n - 1);
      assert BevyMath.Pow2(n) as real == 2.0 * BevyMath.Pow2(n - 1) as real;
    }
  }

  /** The virtual clock resource, reduced to its relative speed. */
  class VirtualTime {
    var relativeSpeed: real

    constructor (relativeSpeed: real)
      ensures this.relativeSpeed == relativeSpeed
    {
      this.relativeSpeed := relativeSpeed;
    }

    /** `general_actions_system`. */
    method GeneralActionsSystem(upJustPressed: bool, downJustPressed: bool)
      modifies this
      ensures relativeSpeed == NextRelativeSpeed(old(relativeSpeed), upJustPressed, downJustPressed)
    {
      var speed := relativeSpeed;
      if upJustPressed {
        relativeSpeed := speed * 2.0;
      } else if downJustPressed {
        relativeSpeed := speed * 0.5;
      }
    }
  }

  /** `std::f32::consts::PI`, the `f32` nearest to pi. */
  const PI_F32: real := 3.1415927410125732421875

  /** How far below the hit point a blade is planted. */
  const PLANT_DEPTH: real := 0.1

  /** The transform and organism of the blade spawned at one hit, for a random draw `draw` in `[0, 1)`. */
  function SpawnAt(hit: BevyMath.Vec3, draw: real): (r: (Organisms.Transform, Organisms.Organism))
    requires 0.0 <= draw < 1.0
    ensures r.1 == Organisms.DEFAULT_ORGANISM && r.1.age == 0.0
    ensures r.0.scale == BevyMath.Vec3(0.0, 0.0, 0.0)
    ensures r.0.translation == BevyMath.Vec3(hit.x, hit.y - PLANT_DEPTH, hit.z)
    ensures 0.0 <= r.0.yaw < 2.0 * PI_F32
  {
    var yaw := draw * 2.0 * PI_F32;
    BevyMath.MulMono(draw, 1.0, 2.0 * PI_F32);
    assert draw * (2.0 * PI_F32) < 2.0 * PI_F32;
    (Organisms.Transform(BevyMath.Vec3(hit.x, hit.y - PLANT_DEPTH, hit.z), yaw, BevyMath.Vec3(0.0, 0.0, 0.0)),
     Organisms.DEFAULT_ORGANISM)
  }

  /** The spawn loop of `picking_system`: one blade per hit, each with its own random draw. */
  method PickingSpawn(hits: seq<BevyMath.Vec3>, draws: seq<real>) returns (spawned: seq<(Organisms.Transform, Organisms.Organism)>)
    requires |draws| == |hits|
    requires forall k :: 0 <= k < |draws| ==> 0.0 <= draws[k] < 1.0
    ensures |spawned| == |hits|
    ensures forall k :: 0 <= k < |hits| ==> spawned[k] == SpawnAt(hits[k], draws[k])
  {
    spawned := [];
    for k := 0 to |hits|
      invariant |spawned| == k
      invariant forall j :: 0 <= j < k ==> spawned[j] == SpawnAt(hits[j], draws[j])
    {
      spawned := spawned + [SpawnAt(hits[k], draws[k])];
    }
  }

  /**
   * A freshly spawned blade grows to the frame time on its first frame and
   * is despawned by it only when that frame is longer than the maximum age.
   */
  lemma SpawnedFirstFrame(id: nat, hit: BevyMath.Vec3, draw: real, delta: real)
    requires 0.0 <= draw < 1.0
    ensures var (t, o) := SpawnAt(hit, draw);
      var e := Organisms.Tick(Organisms.Entity(id, t, o), delta);
      && e.transform.scale == BevyMath.Vec3(delta, delta, delta)
      && (Organisms.Expired(e) <==> delta > Organisms.MAX_AGE)
  {
    var (t, o) := SpawnAt(hit, draw);
    assert o.age == 0.0;
  }
}
