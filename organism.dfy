/**
 * Organism aging. Every frame, `update_organisms` visits each organism
 * entity, adds the frame time to its age, sets its transform's scale to the
 * age on every axis, and queues a despawn command for every organism whose
 * age has passed `MAX_AGE`. The queued commands are applied after the system
 * has visited every entity.
 *
 * The entity query is a sequence of entities; despawning is removal from it.
 */
module Organisms {
  import opened BevyMath

  /** The organism component: only its age, in seconds. */
  datatype Organism = Organism(age: real)

  /** `Organism::default()`. */
  const DEFAULT_ORGANISM: Organism := Organism(0.0)

  /** The age above which an organism is despawned. */
  const MAX_AGE: real := 10.0

  /** The parts of a `Transform` the core touches; the rotation is a yaw angle about the up axis. */
  datatype Transform = Transform(translation: Vec3, yaw: real, scale: Vec3)

  /** An entity carrying the organism and transform components, with its entity id. */
  datatype Entity = Entity(id: nat, transform: Transform, organism: Organism)

  lemma DefaultIsNewborn()
    ensures DEFAULT_ORGANISM.age == 0.0
    ensures !Expired(Entity(0, Transform(Vec3(0.0, 0.0, 0.0), 0.0, Vec3(0.0, 0.0, 0.0)), DEFAULT_ORGANISM))
  {
  }

  /** The per-entity update of one frame lasting `delta` seconds. */
  function Tick(e: Entity, delta: real): (r: Entity)
    ensures r.organism.age - e.organism.age == delta
    ensures r.transform.scale == Vec3(r.organism.age, r.organism.age, r.organism.age)
    ensures r.id == e.id
    ensures r.transform.translation == e.transform.translation && r.transform.yaw == e.transform.yaw
    ensures delta >= 0.0 ==> r.organism.age >= e.organism.age
  {
    var age := e.organism.age + delta;
    e.(organism := Organism(age), transform := e.transform.(scale := Vec3(age, age, age)))
  }

  /** The despawn test, applied to the updated age. */
  predicate Expired(e: Entity) {
    e.organism.age > MAX_AGE
  }

  predicate DistinctIds(s: seq<Entity>) {
    forall i, j :: 0 <= i < j < |s| ==> s[i].id != s[j].id
  }

  /** Every entity after its in-place update. */
  function Ticked(s: seq<Entity>, delta: real): (t: seq<Entity>)
    ensures |t| == |s|
    ensures DistinctIds(s) ==> DistinctIds(t)
  {
    seq(|s|, k requires 0 <= k < |s| => Tick(s[k], delta))
  }

  /** The ids of the despawn commands the frame queues, in visiting order. */
  function ExpiredIds(s: seq<Entity>, delta: real): seq<nat>
    decreases |s|
  {
    if |s| == 0 then []
    else
      var last := Tick(s[|s| - 1], delta);
      ExpiredIds(s[..|s| - 1], delta) + (if Expired(last) then [last.id] else [])
  }

  /** Applying the queued despawn commands: every entity whose id was queued is removed. */
  function Despawn(s: seq<Entity>, ids: seq<nat>): seq<Entity>
    decreases |s|
  {
    if |s| == 0 then []
    else Despawn(s[..|s| - 1], ids) + (if s[|s| - 1].id in ids then [] else [s[|s| - 1]])
  }

  /** Reference definition of the population after a frame: the updated organisms that have not expired, in order. */
  function Survivors(s: seq<Entity>, delta: real): seq<Entity>
    decreases |s|
  {
    if |s| == 0 then []
    else
      var last := Tick(s[|s| - 1], delta);
      Survivors(s[..|s| - 1], delta) + (if Expired(last) then [] else [last])
  }

  /** `update_organisms`: updates every entity and queues the despawn commands. */
  method UpdateOrganisms(world: seq<Entity>, delta: real) returns (ticked: seq<Entity>, despawn: seq<nat>)
    ensures ticked == Ticked(world, delta)
    ensures despawn == ExpiredIds(world, delta)
  {
    ticked, despawn := [], [];
    var i := 0;
    while i < |world|
      invariant 0 <= i <= |world|
      invariant ticked == Ticked(world[..i], delta)
      invariant despawn == ExpiredIds(world[..i], delta)
    {
      var age := world[i].organism.age + delta;
      var e := world[i].(organism := Organism(age), transform := world[i].transform.(scale := Vec3(age, age, age)));
      assert e == Tick(world[i], delta);
      assert world[..i + 1][..i] == world[..i];
      ticked := ticked + [e];
      if age > MAX_AGE {
        despawn := despawn + [e.id];
      }
      i := i + 1;
    }
    assert world[..i] == world;
  }

  /** Under distinct entity ids, an entity's id is queued exactly when its updated age exceeds `MAX_AGE`. */
  lemma {:induction false} ExpiredIdsExact(s: seq<Entity>, delta: real)
    requires DistinctIds(s)
    ensures forall k :: 0 <= k < |s| ==> (s[k].id in ExpiredIds(s, delta) <==> Expired(Tick(s[k], delta)))
    decreases |s|
  {
    if |s| > 0 {
      var n := |s| - 1;
      var init := s[..n];
      assert DistinctIds(init);
      ExpiredIdsExact(init, delta);
      assert ExpiredIds(s, delta) == ExpiredIds(init, delta) + (if Expired(Tick(s[n], delta)) then [s[n].id] else []);
      forall k | 0 <= k < |s|
        ensures s[k].id in ExpiredIds(s, delta) <==> Expired(Tick(s[k], delta))
      {
        if k < n {
          assert s[k] == init[k];
          assert s[k].id != s[n].id;
        } else {
          ExpiredIdsFrom(init, delta, s[n].id);
        }
      }
    }
  }

  /** Every queued id belongs to some entity of the sequence. */
  lemma {:induction false} ExpiredIdsFrom(s: seq<Entity>, delta: real, id: nat)
    ensures id in ExpiredIds(s, delta) ==> exists k :: 0 <= k < |s| && s[k].id == id
    decreases |s|
  {
    if |s| > 0 {
      var n := |s| - 1;
      ExpiredIdsFrom(s[..n], delta, id);
      if id in ExpiredIds(s[..n], delta) {
        var k :| 0 <= k < n && s[..n][k].id == id;
        assert s[k].id == id;
      }
    }
  }

  /** Applying commands that name exactly the expired organisms leaves exactly the survivors. */
  lemma {:induction false} DespawnLeavesSurvivors(s: seq<Entity>, delta: real, ids: seq<nat>)
    requires forall k :: 0 <= k < |s| ==> (s[k].id in ids <==> Expired(Tick(s[k], delta)))
    ensures Despawn(Ticked(s, delta), ids) == Survivors(s, delta)
    decreases |s|
  {
    if |s| > 0 {
      var n := |s| - 1;
      var t := Ticked(s, delta);
      assert t[..n] == Ticked(s[..n], delta);
      DespawnLeavesSurvivors(s[..n], delta, ids);
      assert t[n] == Tick(s[n], delta);
    }
  }

  /**
   * One whole frame: updating every entity and then applying the queued
   * despawn commands leaves exactly the updated organisms whose age is at
   * most `MAX_AGE`, in their original order.
   */
  lemma FrameLeavesSurvivors(world: seq<Entity>, delta: real)
    requires DistinctIds(world)
    ensures Despawn(Ticked(world, delta), ExpiredIds(world, delta)) == Survivors(world, delta)
  {
    ExpiredIdsExact(world, delta);
    DespawnLeavesSurvivors(world, delta, ExpiredIds(world, delta));
  }

  /** Every organism left after the frame is the update of one whose age is at most `MAX_AGE`. */
  lemma {:induction false} SurvivorsFrom(s: seq<Entity>, delta: real, e: Entity)
    ensures e in Survivors(s, delta) ==>
      exists k :: 0 <= k < |s| && e == Tick(s[k], delta) && e.organism.age <= MAX_AGE
    decreases |s|
  {
    if |s| > 0 && e in Survivors(s, delta) {
      var n := |s| - 1;
      SurvivorsFrom(s[..n], delta, e);
      if e in Survivors(s[..n], delta) {
        var k :| 0 <= k < n && e == Tick(s[..n][k], delta) && e.organism.age <= MAX_AGE;
        assert s[..n][k] == s[k];
      } else {
        assert e == Tick(s[n], delta);
      }
    }
  }

  /** Every organism whose updated age is at most `MAX_AGE` is left after the frame. */
  lemma {:induction false} SurvivorsKeep(s: seq<Entity>, delta: real, k: nat)
    requires k < |s|
    ensures Tick(s[k], delta).organism.age <= MAX_AGE ==> Tick(s[k], delta) in Survivors(s, delta)
    decreases |s|
  {
    var n := |s| - 1;
    if k < n {
      assert s[..n][k] == s[k];
      SurvivorsKeep(s[..n], delta, k);
    }
  }

  /** Every organism is either despawned or survives, never both and never neither. */
  lemma {:induction false} CountsAddUp(s: seq<Entity>, delta: real)
    ensures |Survivors(s, delta)| + |ExpiredIds(s, delta)| == |s|
    decreases |s|
  {
    if |s| > 0 {
      CountsAddUp(s[..|s| - 1], delta);
    }
  }
}
