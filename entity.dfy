/**
 * The scene graph shared by the visualizer and the simulator: every entity has at most
 * one parent and an ordered list of children, kept in step by `AddChild`, `RemoveChild`,
 * `Adopt` and `Destroy`, and `Update` walks the active part of the graph, parent before
 * children. The graph is described by a ghost set `world` of entities it is closed in.
 */
module Entities {

  /** The sequence without its first occurrence of x (unchanged when x is absent). */
  function RemoveFirst<T(==)>(s: seq<T>, x: T): (r: seq<T>)
    ensures x !in s ==> r == s
    ensures x in s ==> |r| == |s| - 1 && multiset(r) == multiset(s) - multiset{x}
    ensures forall y | y in r :: y in s
    ensures forall y | y in s && y != x :: y in r
  {
    if s == [] then []
    else
      assert s == [s[0]] + s[1..];
      if s[0] == x then s[1..] else [s[0]] + RemoveFirst(s[1..], x)
  }

  /** Adding a child at the end and removing it again gives back the list it started from. */
  lemma {:induction false} RemoveAfterAppend<T>(s: seq<T>, x: T)
    requires x !in s
    ensures RemoveFirst(s + [x], x) == s
  {
    if s != [] {
      assert (s + [x])[1..] == s[1..] + [x];
      RemoveAfterAppend(s[1..], x);
    }
  }

  /** No entity is listed twice. */
  predicate Distinct<T(==)>(s: seq<T>)
  {
    forall i, j | 0 <= i < j < |s| :: s[i] != s[j]
  }

  /** Removing an entry from a list without repetitions leaves none of it, and no repetitions. */
  lemma {:induction false} RemoveFirstDistinct<T>(s: seq<T>, x: T)
    requires Distinct(s)
    ensures x !in RemoveFirst(s, x) && Distinct(RemoveFirst(s, x))
  {
    if s != [] && s[0] != x {
      assert Distinct(s[1..]) by {
        forall i, j | 0 <= i < j < |s[1..]|
          ensures s[1..][i] != s[1..][j]
        {
          assert s[1..][i] == s[i + 1] && s[1..][j] == s[j + 1];
        }
      }
      RemoveFirstDistinct(s[1..], x);
      var tail := RemoveFirst(s[1..], x);
      forall k | 0 <= k < |s[1..]|
        ensures s[1..][k] != s[0]
      {
        assert s[1..][k] == s[k + 1];
      }
      assert s[0] !in tail;
      forall i, j | 0 <= i < j < |[s[0]] + tail|
        ensures ([s[0]] + tail)[i] != ([s[0]] + tail)[j]
      {
        if i == 0 {
          assert ([s[0]] + tail)[j] == tail[j - 1];
        } else {
          assert ([s[0]] + tail)[i] == tail[i - 1];
          assert ([s[0]] + tail)[j] == tail[j - 1];
        }
      }
    } else if s != [] {
      forall i, j | 0 <= i < j < |s[1..]|
        ensures s[1..][i] != s[1..][j]
      {
        assert s[1..][i] == s[i + 1] && s[1..][j] == s[j + 1];
      }
      forall k | 0 <= k < |s[1..]|
        ensures s[1..][k] != x
      {
        assert s[1..][k] == s[k + 1];
      }
    }
  }

  class Entity {
    var parent: Entity?
    var children: seq<Entity>
    var active: bool

    /**
     * The graph over `world` is consistent: an entity with a parent is listed among that
     * parent's children, every listed child points back at the entity listing it, and
     * no list repeats an entity.
     */
    static ghost predicate Consistent(world: set<Entity>)
      reads world
    {
      && (forall e | e in world :: e.parent != null ==> e.parent in world && e in e.parent.children)
      && (forall e, i | e in world && 0 <= i < |e.children| :: e.children[i] in world && e.children[i].parent == e)
      && (forall e | e in world :: Distinct(e.children))
    }

    /** A new entity is active and childless; with a parent, it is appended to the parent's children. */
    constructor (parent: Entity?, ghost world: set<Entity>)
      requires Consistent(world) && (parent != null ==> parent in world)
      modifies (if parent == null then {} else {parent})`children
      ensures this.parent == parent && children == [] && active
      ensures parent != null ==> parent.children == old(parent.children) + [this]
      ensures Consistent(world + {this})
    {
      this.parent := null;
      children := [];
      active := true;
      new;
      assert Consistent(world + {this});
      if parent != null {
        var added := parent.AddChild(this, world + {this});
      }
    }

    function IsActive(): bool
      reads this
    {
      active
    }

    method SetActive(active: bool)
      modifies this`active
      ensures this.active == active
    {
      this.active := active;
    }

    function HasParent(): bool
      reads this
    {
      parent != null
    }

    /**
     * Makes `child` the last child of this entity. A child that already has a parent is
     * refused (the exception in the source) and nothing changes.
     */
    method AddChild(child: Entity, ghost world: set<Entity>) returns (added: bool)
      requires Consistent(world) && this in world && child in world
      modifies this`children, child`parent
      ensures added == (old(child.parent) == null)
      ensures added ==> child.parent == this && children == old(children) + [child]
      ensures !added ==> child.parent == old(child.parent) && children == old(children)
      ensures Consistent(world)
    {
      if child.HasParent() {
        return false;
      }
      forall e, i | e in world && 0 <= i < |e.children|
        ensures e.children[i] != child
      {
        assert e.children[i].parent == e;
      }
      assert child !in children;
      child.parent := this;
      children := children + [child];
      return true;
    }

    /**
     * Detaches `child` from this entity: its parent becomes null and it leaves the list.
     * An entity that is not a child of this one is refused (the exception in the
     * source) and nothing changes.
     */
    method RemoveChild(child: Entity, ghost world: set<Entity>) returns (removed: bool)
      requires Consistent(world) && this in world && child in world
      modifies this`children, child`parent
      ensures removed == (old(child.parent) == this)
      ensures removed ==> child.parent == null && children == RemoveFirst(old(children), child) && child !in children
      ensures !removed ==> child.parent == old(child.parent) && children == old(children)
      ensures Consistent(world)
    {
      if child.parent != this {
        return false;
      }
      RemoveFirstDistinct(children, child);
      child.parent := null;
      children := RemoveFirst(children, child);
      forall e, i | e in world && 0 <= i < |e.children|
        ensures e.children[i] in world && e.children[i].parent == e
      {
        if e == this {
          assert e.children[i] in old(children);
        } else {
          assert e.children[i] != child;
        }
      }
      return true;
    }

    /**
     * Moves `child` to the end of this entity's children, detaching it from its old
     * parent first (which may be this entity itself). It never fails.
     */
    method Adopt(child: Entity, ghost world: set<Entity>)
      requires Consistent(world) && this in world && child in world
      modifies this`children, child`parent, (if child.parent == null then {} else {child.parent})`children
      ensures child.parent == this
      ensures old(child.parent) == null ==> children == old(children) + [child]
      ensures old(child.parent) == this ==> children == RemoveFirst(old(children), child) + [child]
      ensures old(child.parent) != null && old(child.parent) != this ==>
        && children == old(children) + [child]
        && old(child.parent).children == RemoveFirst(old(child.parent.children), child)
      ensures Consistent(world)
    {
      if child.HasParent() {
        var removed := child.parent.RemoveChild(child, world);
      }
      var added := AddChild(child, world);
    }

    /** Detaches this entity from its parent, if it has one; a root is left alone. */
    method Destroy(ghost world: set<Entity>)
      requires Consistent(world) && this in world
      modifies this`parent, (if parent == null then {} else {parent})`children
      ensures parent == null
      ensures old(parent) != null ==> old(parent).children == RemoveFirst(old(parent.children), this)
      ensures Consistent(world)
    {
      if HasParent() {
        var removed := parent.RemoveChild(this, world);
      }
    }

    /**
     * The entities whose local update runs when `e` is updated, in order: nothing when
     * `e` is inactive (its whole subtree is skipped), otherwise `e` and then each child's
     * walk in list order. `fuel` bounds the depth of the walk.
     */
    static ghost function Visits(e: Entity, world: set<Entity>, fuel: nat): seq<Entity>
      reads world
      requires e in world && Consistent(world)
      decreases fuel, 0, 0
    {
      if fuel == 0 || !e.active then [] else [e] + VisitsAll(e.children, world, fuel - 1)
    }

    /** The walks of the listed entities, one after the other. */
    static ghost function VisitsAll(es: seq<Entity>, world: set<Entity>, fuel: nat): seq<Entity>
      reads world
      requires Consistent(world) && forall k | 0 <= k < |es| :: es[k] in world
      decreases fuel, 1, |es|
    {
      if es == [] then [] else VisitsAll(es[..|es| - 1], world, fuel) + Visits(es[|es| - 1], world, fuel)
    }

    /**
     * Runs the local update of this entity and then updates each child in turn, when
     * active; returns the entities whose local update ran, in order.
     */
    method Update(ghost world: set<Entity>, fuel: nat) returns (updated: seq<Entity>)
      requires this in world && Consistent(world)
      ensures updated == Visits(this, world, fuel)
      decreases fuel
    {
      updated := [];
      if fuel == 0 || !active {
        return;
      }
      updated := [this];
      for k := 0 to |children|
        invariant updated == [this] + VisitsAll(children[..k], world, fuel - 1)
      {
        var entity := children[k];
        var more := entity.Update(world, fuel - 1);
        assert children[..k + 1][..k] == children[..k];
        updated := updated + more;
      }
      assert children[..|children|] == children;
    }
  }

  /** No entity sits in two children lists, since each child points back at its one parent. */
  lemma OneParentList(world: set<Entity>, e1: Entity, e2: Entity, i: nat, j: nat)
    requires Entity.Consistent(world) && e1 in world && e2 in world
    requires i < |e1.children| && j < |e2.children| && e1.children[i] == e2.children[j]
    ensures e1 == e2 && i == j
  {
    assert e1.children[i].parent == e1;
  }

  /** Only active entities are updated. */
  lemma {:induction false} OnlyActiveUpdated(e: Entity, world: set<Entity>, fuel: nat)
    requires e in world && Entity.Consistent(world)
    ensures forall x | x in Entity.Visits(e, world, fuel) :: x.active
    decreases fuel, 0, 0
  {
    if fuel > 0 && e.active {
      AllOnlyActiveUpdated(e.children, world, fuel - 1);
    }
  }

  lemma {:induction false} AllOnlyActiveUpdated(es: seq<Entity>, world: set<Entity>, fuel: nat)
    requires Entity.Consistent(world) && forall k | 0 <= k < |es| :: es[k] in world
    ensures forall x | x in Entity.VisitsAll(es, world, fuel) :: x.active
    decreases fuel, 1, |es|
  {
    if es != [] {
      AllOnlyActiveUpdated(es[..|es| - 1], world, fuel);
      OnlyActiveUpdated(es[|es| - 1], world, fuel);
    }
  }

  /** Every entity listed after the first has its parent listed before it. */
  ghost predicate ParentsBefore(v: seq<Entity>)
    reads v
  {
    forall i | 0 < i < |v| :: exists j | 0 <= j < i :: v[j] == v[i].parent
  }

  /** Every listed entity is a child of p or has its parent listed before it. */
  ghost predicate ParentsBeforeUnder(v: seq<Entity>, p: Entity)
    reads v
  {
    forall i | 0 <= i < |v| :: v[i].parent == p || exists j | 0 <= j < i :: v[j] == v[i].parent
  }

  /**
   * The walk goes parent first: it starts at `e`, and every other entity it updates has
   * its parent updated earlier in the same walk.
   */
  lemma {:induction false} ParentsFirst(e: Entity, world: set<Entity>, fuel: nat)
    requires e in world && Entity.Consistent(world)
    ensures |Entity.Visits(e, world, fuel)| > 0 ==> Entity.Visits(e, world, fuel)[0] == e
    ensures ParentsBefore(Entity.Visits(e, world, fuel))
    decreases fuel, 0, 0
  {
    if fuel > 0 && e.active {
      var rest := Entity.VisitsAll(e.children, world, fuel - 1);
      AllParentsFirst(e.children, e, world, fuel - 1);
      var v := [e] + rest;
      forall i | 0 < i < |v|
        ensures exists j | 0 <= j < i :: v[j] == v[i].parent
      {
        assert v[i] == rest[i - 1];
        if rest[i - 1].parent == e {
          assert v[0] == v[i].parent;
        } else {
          var j :| 0 <= j < i - 1 && rest[j] == rest[i - 1].parent;
          assert v[j + 1] == v[i].parent;
        }
      }
    }
  }

  /** In the walks of a list of siblings, each entity's parent is the siblings' parent or comes earlier. */
  lemma {:induction false} AllParentsFirst(es: seq<Entity>, p: Entity, world: set<Entity>, fuel: nat)
    requires Entity.Consistent(world) && forall k | 0 <= k < |es| :: es[k] in world && es[k].parent == p
    ensures ParentsBeforeUnder(Entity.VisitsAll(es, world, fuel), p)
    decreases fuel, 1, |es|
  {
    if es != [] {
      var front := Entity.VisitsAll(es[..|es| - 1], world, fuel);
      var last := Entity.Visits(es[|es| - 1], world, fuel);
      AllParentsFirst(es[..|es| - 1], p, world, fuel);
      ParentsFirst(es[|es| - 1], world, fuel);
      var v := front + last;
      forall i | 0 <= i < |v|
        ensures v[i].parent == p || exists j | 0 <= j < i :: v[j] == v[i].parent
      {
        if i < |front| {
          assert v[i] == front[i];
          if front[i].parent != p {
            var j :| 0 <= j < i && front[j] == front[i].parent;
            assert v[j] == v[i].parent;
          }
        } else {
          var k := i - |front|;
          assert v[i] == last[k];
          if k > 0 {
            var j :| 0 <= j < k && last[j] == last[k].parent;
            assert v[|front| + j] == v[i].parent;
          }
        }
      }
    }
  }
}
