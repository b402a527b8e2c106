/** The per-entity component container of the ECS runtime (ecs::Entity).

    An entity keeps two synchronised stores: a fixed-size slot array indexed
    by a dense component id in [0, maxComponentId), and an insertion-ordered
    list of the attached components. The number of component types comes
    from ecs.h, which is not part of this model: it is the length of the slot
    array, fixed when the entity is constructed. */
module Ecs {
  import opened Util

  /** Which per-frame callback of a component ran. */
  datatype Phase = UpdatePhase | RenderPhase

  /** One invocation of a component's update or render, as seen from outside:
      the callbacks' own effects (drawing, reading input) are not modelled. */
  datatype Call = Call(phase: Phase, cmp: Component)

  /** A component: an instance of one concrete component type, owned by one
      entity. The concrete behaviours are abstracted to what the entity
      observes of them:
      - needs: the sibling types its initComponent looks up and asserts to be
        present (as Image and PaddleMouseCtrl do with Transform);
      - spawn: a type its update attaches to the owning entity when the entity
        has none, standing for components that change their entity during a
        pass;
      - initView: the slots its initComponent saw. */
  class Component {
    const ent: Entity
    const typeId: nat
    const needs: set<nat>
    const spawn: Option<nat>
    var initView: seq<Component?>

    constructor (ent: Entity, typeId: nat, needs: set<nat>, spawn: Option<nat>)
      ensures this.ent == ent && this.typeId == typeId
      ensures this.needs == needs && this.spawn == spawn
      ensures initView == []
    {
      this.ent := ent;
      this.typeId := typeId;
      this.needs := needs;
      this.spawn := spawn;
      initView := [];
    }

    /** initComponent: looks up the sibling components it needs, failing
        fast (a contract violation) when one is absent. */
    method InitComponent()
      requires forall d | d in needs :: d < ent.cmps.Length && ent.cmps[d] != null
      modifies this`initView
      ensures initView == ent.cmps[..]
    {
      initView := ent.cmps[..];
    }

    /** update: records its invocation and, for a spawning component, attaches
        a component of the spawn type when the entity has none. It never
        detaches anything, so it only ever appends to the entity's list. */
    method Update() returns (call: Call)
      requires ent.Valid()
      modifies ent`currCmps, ent.cmps
      ensures ent.Valid()
      ensures call == Call(UpdatePhase, this)
      ensures old(ent.currCmps) <= ent.currCmps
      ensures forall k | |old(ent.currCmps)| <= k < |ent.currCmps| ::
                fresh(ent.currCmps[k]) && spawn == Some(ent.currCmps[k].typeId)
      ensures spawn == None ==> ent.currCmps == old(ent.currCmps)
      ensures forall id | 0 <= id < ent.cmps.Length && old(ent.cmps[id]) != null :: ent.cmps[id] == old(ent.cmps[id])
    {
      call := Call(UpdatePhase, this);
      if spawn.Some? && spawn.value < ent.cmps.Length && !ent.HasComponent(spawn.value) {
        var _ := ent.AddComponent(spawn.value, {}, None);
      }
    }

    /** render: records its invocation. */
    method Render() returns (call: Call)
      ensures call == Call(RenderPhase, this)
    {
      call := Call(RenderPhase, this);
    }
  }

  /** The two stores agree: every filled slot holds a component of that slot's
      type owned by e, and appears in the ordered list; every listed component
      sits in the slot of its own type; the list has no duplicates. */
  ghost predicate Consistent(e: Entity, slots: seq<Component?>, list: seq<Component>) {
    && (forall id | 0 <= id < |slots| && slots[id] != null ::
          slots[id].typeId == id && slots[id].ent == e && slots[id] in list)
    && (forall i | 0 <= i < |list| ::
          list[i].typeId < |slots| && slots[list[i].typeId] == list[i])
    && Distinct(list)
  }

  /** The type ids of a list of components, in list order. */
  function TypeIds(list: seq<Component>): (ids: seq<nat>)
    ensures |ids| == |list|
    ensures forall i | 0 <= i < |list| :: ids[i] == list[i].typeId
  {
    seq(|list|, i requires 0 <= i < |list| => list[i].typeId)
  }

  /** At most one component per type id, so the ordered list never holds more
      than maxComponentId components (the capacity the constructor reserves). */
  lemma OnePerType(e: Entity, slots: seq<Component?>, list: seq<Component>)
    requires Consistent(e, slots, list)
    ensures Distinct(TypeIds(list))
    ensures |list| <= |slots|
  {
    var ids := TypeIds(list);
    forall i, j | 0 <= i < j < |ids| ensures ids[i] != ids[j] {
      assert slots[list[i].typeId] == list[i] && slots[list[j].typeId] == list[j];
      assert list[i] != list[j];
    }
    DistinctBelow(ids, |slots|);
  }

  /** The list after detaching x (nothing when x is null): x erased, the
      rest in their order. */
  function Detached(list: seq<Component>, x: Component?): seq<Component> {
    if x == null then list else Without<Component>(list, x)
  }

  /** Detaching the component c from its slot and from the list keeps the
      stores consistent. */
  lemma DetachConsistent(e: Entity, slots: seq<Component?>, list: seq<Component>, c: Component)
    requires Consistent(e, slots, list)
    requires c.typeId < |slots| && slots[c.typeId] == c
    ensures Consistent(e, slots[c.typeId := null], Without(list, c))
  {
    var list' := Without<Component>(list, c);
    var slots' := slots[c.typeId := null];
    WithoutMembers<Component>(list, c);
    WithoutDistinct<Component>(list, c);
    forall id | 0 <= id < |slots'| && slots'[id] != null
      ensures slots'[id].typeId == id && slots'[id].ent == e && slots'[id] in list'
    {
      assert slots'[id] == slots[id] && slots[id] in list;
    }
    forall i | 0 <= i < |list'|
      ensures list'[i].typeId < |slots'| && slots'[list'[i].typeId] == list'[i]
    {
      assert list'[i] in list;
      var j :| 0 <= j < |list| && list[j] == list'[i];
    }
  }

  /** Attaching a new component of an empty slot's type at the end of the
      list keeps the stores consistent. */
  lemma AttachConsistent(e: Entity, slots: seq<Component?>, list: seq<Component>, c: Component)
    requires Consistent(e, slots, list)
    requires c.typeId < |slots| && slots[c.typeId] == null && c.ent == e && c !in list
    ensures Consistent(e, slots[c.typeId := c], list + [c])
  {
  }

  /** ecs::Entity: a collection of components plus an alive flag and a group
      id. The back-pointer to the owning manager is not modelled. */
  class Entity {
    const gId: nat
    const cmps: array<Component?>
    var currCmps: seq<Component>
    var alive: bool

    ghost predicate Valid()
      reads this, cmps
    {
      Consistent(this, cmps[..], currCmps)
    }

    /** A fresh entity: every slot empty, no components, not alive, in the
        given group. */
    constructor (gId: nat, maxComponentId: nat)
      ensures Valid() && fresh(cmps)
      ensures this.gId == gId && cmps.Length == maxComponentId
      ensures forall id | 0 <= id < cmps.Length :: cmps[id] == null
      ensures currCmps == [] && !alive
    {
      this.gId := gId;
      cmps := new Component?[maxComponentId](_ => null);
      currCmps := [];
      alive := false;
    }

    /** The group the entity was created in. */
    function GroupId(): (r: nat)
      ensures r == gId
    {
      gId
    }

    /** Whether the entity is alive. */
    function IsAlive(): (r: bool)
      reads this
      ensures r == alive
    {
      alive
    }

    method SetAlive(alive: bool)
      modifies this`alive
      ensures IsAlive() == alive
    {
      this.alive := alive;
    }

    /** The component of type t, or null when the entity has none. */
    function GetComponent(t: nat): (r: Component?)
      reads this, cmps
      requires Valid() && t < cmps.Length
      ensures r != null ==> r.typeId == t && r.ent == this && r in currCmps
      ensures r == null ==> forall i | 0 <= i < |currCmps| :: currCmps[i].typeId != t
    {
      cmps[t]
    }

    /** Whether the entity has a component of type t. */
    function HasComponent(t: nat): (r: bool)
      reads this, cmps
      requires Valid() && t < cmps.Length
      ensures r <==> exists i | 0 <= i < |currCmps| :: currCmps[i].typeId == t
    {
      cmps[t] != null
    }

    /** Detaches and destroys the component of type t, if any; the remaining
        components keep their slots and their relative order. */
    method RemoveComponent(t: nat)
      requires Valid() && t < cmps.Length
      modifies this`currCmps, cmps
      ensures Valid()
      ensures currCmps == Detached(old(currCmps), old(cmps[t]))
      ensures old(cmps[t]) != null ==> |currCmps| == |old(currCmps)| - 1
      ensures cmps[..] == old(cmps[..])[t := null]
    {
      var c := cmps[t];
      if c != null {
        var k := Find(currCmps, c);
        // the component in a slot is always in the list, so the search succeeds
        assert k < |currCmps|;
        EraseAt(currCmps, k);
        WithoutDistinct(currCmps, c);
        DetachConsistent(this, cmps[..], currCmps, c);
        currCmps := currCmps[..k] + currCmps[k + 1..];
        cmps[t] := null;
      } else {
        assert cmps[..] == cmps[..][t := null];
      }
    }

    /** Attaches a new component of type t, replacing (destroying) the one of
        that type, if any. The new component's initComponent runs before it
        is installed: it sees its own slot empty and every other slot as
        before. The new component goes last in the ordered list. */
    method AddComponent(t: nat, needs: set<nat>, spawn: Option<nat>) returns (c: Component)
      requires Valid() && t < cmps.Length
      requires forall d | d in needs :: d != t && d < cmps.Length && cmps[d] != null
      modifies this`currCmps, cmps
      ensures Valid() && fresh(c)
      ensures c.typeId == t && c.ent == this && c.needs == needs && c.spawn == spawn
      ensures c.initView == old(cmps[..])[t := null]
      ensures cmps[..] == old(cmps[..])[t := c]
      ensures currCmps == Detached(old(currCmps), old(cmps[t])) + [c]
    {
      RemoveComponent(t);
      c := new Component(this, t, needs, spawn);
      c.InitComponent();
      AttachConsistent(this, cmps[..], currCmps, c);
      cmps[t] := c;
      currCmps := currCmps + [c];
    }

    /** Calls update on the components attached at entry, in list order, using
        the list length taken at entry: components attached during the pass
        go after them and are not called. */
    method Update() returns (calls: seq<Call>)
      requires Valid()
      modifies this`currCmps, cmps
      ensures Valid()
      ensures |calls| == |old(currCmps)|
      ensures forall i | 0 <= i < |calls| :: calls[i] == Call(UpdatePhase, old(currCmps)[i])
      ensures old(currCmps) <= currCmps
      ensures forall k | |old(currCmps)| <= k < |currCmps| :: fresh(currCmps[k]) &&
                exists j | 0 <= j < |old(currCmps)| :: old(currCmps)[j].spawn == Some(currCmps[k].typeId)
      ensures (forall j | 0 <= j < |old(currCmps)| :: old(currCmps)[j].spawn == None) ==> currCmps == old(currCmps)
      ensures forall id | 0 <= id < cmps.Length && old(cmps[id]) != null :: cmps[id] == old(cmps[id])
    {
      var n := |currCmps|;
      calls := [];
      for i := 0 to n
        invariant Valid()
        invariant old(currCmps) <= currCmps
        invariant |calls| == i
        invariant forall j | 0 <= j < i :: calls[j] == Call(UpdatePhase, old(currCmps)[j])
        invariant forall k | |old(currCmps)| <= k < |currCmps| :: fresh(currCmps[k]) &&
                    exists j | 0 <= j < i :: old(currCmps)[j].spawn == Some(currCmps[k].typeId)
        invariant (forall j | 0 <= j < i :: old(currCmps)[j].spawn == None) ==> currCmps == old(currCmps)
        invariant forall id | 0 <= id < cmps.Length && old(cmps[id]) != null :: cmps[id] == old(cmps[id])
      {
        var c := currCmps[i];
        assert c == old(currCmps)[i] && cmps[c.typeId] == c;
        var call := c.Update();
        calls := calls + [call];
      }
    }

    /** Calls render on every attached component, in list order. */
    method Render() returns (calls: seq<Call>)
      requires Valid()
      ensures |calls| == |currCmps|
      ensures forall i | 0 <= i < |calls| :: calls[i] == Call(RenderPhase, currCmps[i])
    {
      var n := |currCmps|;
      calls := [];
      for i := 0 to n
        invariant |calls| == i
        invariant forall j | 0 <= j < i :: calls[j] == Call(RenderPhase, currCmps[j])
      {
        var call := currCmps[i].Render();
        calls := calls + [call];
      }
    }

    /** The destructor: deletes every attached component, walking the ordered
        list. Each component in a slot is deleted exactly once. */
    method Dispose() returns (deleted: seq<Component>)
      requires Valid()
      ensures Distinct(deleted)
      ensures forall id | 0 <= id < cmps.Length :: cmps[id] != null ==> cmps[id] in deleted
      ensures forall i | 0 <= i < |deleted| ::
                deleted[i].typeId < cmps.Length && cmps[deleted[i].typeId] == deleted[i]
    {
      deleted := [];
      for i := 0 to |currCmps|
        invariant deleted == currCmps[..i]
      {
        deleted := deleted + [currCmps[i]];
      }
      assert deleted == currCmps;
    }
  }

  /** Attach A then B and update: A is called before B. Detach A, attach C
      and update: B is called before C and A not at all. */
  method AttachDetachScenario() returns (a: Component, b: Component, c: Component, first: seq<Call>, second: seq<Call>)
    ensures a != b && b != c && a != c
    ensures first == [Call(UpdatePhase, a), Call(UpdatePhase, b)]
    ensures second == [Call(UpdatePhase, b), Call(UpdatePhase, c)]
  {
    var e;
    e, a, b, first := AttachTwo();
    c, second := ReplaceFirst(e, a, b);
  }

  /** First half of the scenario: a fresh entity with A and B attached,
      then updated. */
  method AttachTwo() returns (e: Entity, a: Component, b: Component, first: seq<Call>)
    ensures fresh(e) && fresh(e.cmps) && fresh(a) && fresh(b) && a != b
    ensures e.Valid() && e.cmps.Length == 3
    ensures e.currCmps == [a, b] && e.cmps[0] == a && e.cmps[2] == null
    ensures a.spawn == None && b.spawn == None
    ensures first == [Call(UpdatePhase, a), Call(UpdatePhase, b)]
  {
    e := new Entity(0, 3);
    a := e.AddComponent(0, {}, None);
    assert e.currCmps == [a] && e.cmps[1] == null;
    b := e.AddComponent(1, {}, None);
    assert e.currCmps == [a, b];
    first := e.Update();
  }

  /** Second half of the scenario: detach A, attach C, update. */
  method ReplaceFirst(e: Entity, a: Component, b: Component) returns (c: Component, second: seq<Call>)
    requires e.Valid() && e.cmps.Length == 3
    requires e.currCmps == [a, b] && e.cmps[0] == a && e.cmps[2] == null
    requires a.spawn == None && b.spawn == None
    modifies e, e.cmps
    ensures fresh(c)
    ensures second == [Call(UpdatePhase, b), Call(UpdatePhase, c)]
  {
    e.RemoveComponent(0);
    assert Without([a, b], a) == [b] by {
      assert [a, b][1..] == [b];
      assert Without([b], a) == [b] + Without([], a);
    }
    assert e.currCmps == [b] && e.cmps[2] == null;
    c := e.AddComponent(2, {}, None);
    assert e.currCmps == [b, c];
    second := e.Update();
  }
}
