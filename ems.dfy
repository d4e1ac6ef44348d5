/**
 * The entity-component-system registry `World` of src/ems.py.
 *
 * A world keeps a set of live entities, one table per component type mapping
 * an entity to that entity's instance of the type, and an ordered list of
 * systems. An entity is only an identity; here it is a natural number handed
 * out by a counter, standing in for a random UUID that never collides.
 * Component types are the type parameter `Kind`, component payloads the
 * opaque type parameter `Data`, and systems the type parameter `Sys`, compared
 * by equality as Python's `list.remove` does.
 */
module Ems {

  type Entity = nat

  datatype Option<T> = None | Some(value: T)

  /** A component instance: `kind` is its Python class, `data` its fields. */
  datatype Component<Kind, Data> = Component(kind: Kind, data: Data)

  /** The component tables: component type -> entity -> instance. A type with
      no key here has an empty table. */
  type Tables<Kind, Data> = map<Kind, map<Entity, Component<Kind, Data>>>

  /** One hook invocation made by `World.update` or `World.draw`; `dt` is the
      frame time, which the registry only passes on. */
  datatype Call<Sys> = UpdateCall(system: Sys, dt: real) | DrawCall(system: Sys)

  function TableOf<Kind, Data>(tables: Tables<Kind, Data>, kind: Kind): map<Entity, Component<Kind, Data>> {
    if kind in tables then tables[kind] else map[]
  }

  /** Every table with `e`'s entry deleted. */
  function Swept<Kind(!new), Data>(tables: Tables<Kind, Data>, e: Entity): (r: Tables<Kind, Data>)
    ensures r.Keys == tables.Keys
    ensures forall kind :: TableOf(r, kind) == TableOf(tables, kind) - {e}
  {
    map kind | kind in tables :: tables[kind] - {e}
  }

  /** The entities a query for `kinds` answers with: the live ones that have
      an entry in the table of every requested type. */
  function Query<Kind(!new), Data>(entities: set<Entity>, tables: Tables<Kind, Data>, kinds: set<Kind>): (r: set<Entity>)
    ensures r <= entities
    ensures kinds == {} ==> r == entities
    ensures forall kind :: kind in kinds ==> r <= TableOf(tables, kind).Keys
  {
    set e | e in entities && forall kind :: kind in kinds ==> e in TableOf(tables, kind)
  }

  /** Destroying `e` removes exactly `e` from the answer to every query. */
  lemma QueryAfterDestroy<Kind(!new), Data>(entities: set<Entity>, tables: Tables<Kind, Data>, kinds: set<Kind>, e: Entity)
    ensures Query(entities - {e}, Swept(tables, e), kinds) == Query(entities, tables, kinds) - {e}
  {
  }

  /** Adding a component of a requested type can only bring its entity into a
      query's answer, and brings it in once the entity holds all the others. */
  lemma QueryAfterAdd<Kind(!new), Data>(entities: set<Entity>, tables: Tables<Kind, Data>, kinds: set<Kind>,
                                        e: Entity, c: Component<Kind, Data>)
    ensures var after := tables[c.kind := TableOf(tables, c.kind)[e := c]];
            && Query(entities, after, kinds) - {e} == Query(entities, tables, kinds) - {e}
            && (e in Query(entities, after, kinds) <==> e in Query(entities, tables, kinds - {c.kind}))
  {
    var after := tables[c.kind := TableOf(tables, c.kind)[e := c]];
    assert forall kind :: TableOf(after, kind) == if kind == c.kind then TableOf(tables, kind)[e := c] else TableOf(tables, kind);
  }

  /** Removing a component of a requested type takes its entity out of the query's answer. */
  lemma QueryAfterRemove<Kind(!new), Data>(entities: set<Entity>, tables: Tables<Kind, Data>, kinds: set<Kind>,
                                           e: Entity, kind: Kind)
    requires kind in kinds
    ensures var after := tables[kind := TableOf(tables, kind) - {e}];
            && e !in Query(entities, after, kinds)
            && Query(entities, after, kinds) - {e} == Query(entities, tables, kinds) - {e}
  {
    var after := tables[kind := TableOf(tables, kind) - {e}];
    assert forall k :: TableOf(after, k) == if k == kind then TableOf(tables, k) - {e} else TableOf(tables, k);
  }

  /** Asking for more component types never yields more entities. */
  lemma QueryNarrows<Kind(!new), Data>(entities: set<Entity>, tables: Tables<Kind, Data>, fewer: set<Kind>, more: set<Kind>)
    requires fewer <= more
    ensures Query(entities, tables, more) <= Query(entities, tables, fewer)
  {
  }

  /** Position of the first occurrence of `x` in `xs`, or `|xs|` when there is none. */
  function FirstIndex<T(==)>(xs: seq<T>, x: T): (i: nat)
    ensures i <= |xs|
    ensures i < |xs| ==> xs[i] == x
    ensures forall j :: 0 <= j < i ==> xs[j] != x
  {
    if xs == [] then 0
    else if xs[0] == x then 0
    else 1 + FirstIndex(xs[1..], x)
  }

  class World<Kind(==, !new), Data, Sys(==)> {
    var entities: set<Entity>
    var components: Tables<Kind, Data>
    var systems: seq<Sys>
    /** Identities below `nextId` may be in use; none at or above it is. */
    var nextId: nat

    ghost predicate Valid()
      reads this
    {
      && (forall e :: e in entities ==> e < nextId)
      && (forall kind, e :: kind in components && e in components[kind] ==>
            e < nextId && components[kind][e].kind == kind)
    }

    function Table(kind: Kind): map<Entity, Component<Kind, Data>>
      reads this
    {
      TableOf(components, kind)
    }

    predicate HasComponent(e: Entity, kind: Kind)
      reads this
    {
      e in Table(kind)
    }

    constructor ()
      ensures Valid()
      ensures entities == {} && components == map[] && systems == []
    {
      entities := {};
      components := map[];
      systems := [];
      nextId := 0;
    }

    /** `create_entity`: a new identity, live and without components. It lies
        at or above every identity issued before, so no earlier handle, even
        one whose entity was destroyed, can equal it. */
    method CreateEntity() returns (e: Entity)
      requires Valid()
      modifies this
      ensures Valid()
      ensures e !in old(entities)
      ensures old(nextId) <= e < nextId
      ensures forall kind :: !HasComponent(e, kind)
      ensures entities == old(entities) + {e}
      ensures components == old(components) && systems == old(systems)
    {
      e := nextId;
      nextId := nextId + 1;
      entities := entities + {e};
    }

    /** `destroy_entity`: a live entity leaves the live set and every table;
        any other entity is ignored, component entries included. */
    method DestroyEntity(e: Entity)
      requires Valid()
      modifies this
      ensures Valid()
      ensures e in old(entities) ==> entities == old(entities) - {e} && components == Swept(old(components), e)
      ensures e !in old(entities) ==> entities == old(entities) && components == old(components)
      ensures systems == old(systems) && nextId == old(nextId)
      ensures e in old(entities) ==> forall kind :: GetComponent(e, kind) == None
      ensures forall kind, x :: x != e ==> GetComponent(x, kind) == old(GetComponent(x, kind))
    {
      if e in entities {
        entities := entities - {e};
        var pending := components.Keys;
        while pending != {}
          invariant pending <= components.Keys == old(components).Keys
          invariant entities == old(entities) - {e}
          invariant systems == old(systems) && nextId == old(nextId)
          invariant Valid()
          invariant forall kind :: kind in components ==>
            components[kind] == if kind in pending then old(components)[kind] else old(components)[kind] - {e}
          decreases pending
        {
          var kind :| kind in pending;
          if e in components[kind] {
            components := components[kind := components[kind] - {e}];
          }
          pending := pending - {kind};
        }
      }
    }

    /** `add_component`: stores `c` as `e`'s instance of `c`'s type, replacing
        any previous one. */
    method AddComponent(e: Entity, c: Component<Kind, Data>)
      requires Valid()
      modifies this
      ensures Valid()
      ensures components == old(components)[c.kind := old(Table(c.kind))[e := c]]
      ensures entities == old(entities) && systems == old(systems)
      ensures nextId == if e < old(nextId) then old(nextId) else e + 1
      ensures GetComponent(e, c.kind) == Some(c)
      ensures forall kind, x :: (kind != c.kind || x != e) ==> GetComponent(x, kind) == old(GetComponent(x, kind))
    {
      components := components[c.kind := Table(c.kind)[e := c]];
      if nextId <= e {
        nextId := e + 1;
      }
    }

    /** `get_component`: `e`'s instance of type `kind`, if it has one. */
    function GetComponent(e: Entity, kind: Kind): (r: Option<Component<Kind, Data>>)
      requires Valid()
      reads this
      ensures r.Some? <==> HasComponent(e, kind)
      ensures r.Some? ==> r.value.kind == kind
    {
      if kind in components && e in components[kind] then Some(components[kind][e]) else None
    }

    /** `remove_component`: deletes `e`'s instance of type `kind`, if any. */
    method RemoveComponent(e: Entity, kind: Kind)
      requires Valid()
      modifies this
      ensures Valid()
      ensures components == if old(HasComponent(e, kind)) then old(components)[kind := old(components)[kind] - {e}]
                            else old(components)
      ensures entities == old(entities) && systems == old(systems) && nextId == old(nextId)
      ensures GetComponent(e, kind) == None
      ensures forall k, x :: (k != kind || x != e) ==> GetComponent(x, k) == old(GetComponent(x, k))
    {
      if kind in components && e in components[kind] {
        components := components[kind := components[kind] - {e}];
      }
    }

    /** `add_system`: appends to the end of the run order. */
    method AddSystem(s: Sys)
      modifies this
      ensures systems == old(systems) + [s]
      ensures entities == old(entities) && components == old(components) && nextId == old(nextId)
    {
      systems := systems + [s];
    }

    /** `remove_system`: deletes the first occurrence of `s`; when there is
        none, Python raises `ValueError`, here `removed` is false and nothing
        changes. */
    method RemoveSystem(s: Sys) returns (removed: bool)
      modifies this
      ensures removed == (s in old(systems))
      ensures removed ==> multiset(systems) == multiset(old(systems)) - multiset{s}
      ensures removed ==> var i := FirstIndex(old(systems), s);
                          systems == old(systems)[..i] + old(systems)[i + 1..]
      ensures !removed ==> systems == old(systems)
      ensures entities == old(entities) && components == old(components) && nextId == old(nextId)
    {
      var i := FirstIndex(systems, s);
      removed := i < |systems|;
      if removed {
        assert systems == systems[..i] + [s] + systems[i + 1..];
        systems := systems[..i] + systems[i + 1..];
      }
    }

    /** `get_matching_entities`: the live entities holding a component of every
        type in `kinds`; the answer is empty as soon as one of those tables is. */
    method GetMatchingEntities(kinds: set<Kind>) returns (matching: set<Entity>)
      ensures matching == Query(entities, components, kinds)
      ensures forall e :: e in matching <==> e in entities && forall kind :: kind in kinds ==> HasComponent(e, kind)
      ensures kinds == {} ==> matching == entities
      ensures (exists kind :: kind in kinds && Table(kind) == map[]) ==> matching == {}
    {
      matching := entities;
      var pending := kinds;
      while pending != {}
        invariant pending <= kinds
        invariant matching == Query(entities, components, kinds - pending)
        invariant forall kind :: kind in kinds - pending ==> Table(kind) != map[]
        decreases pending
      {
        var kind :| kind in pending;
        if Table(kind) == map[] {
          assert Query(entities, components, kinds) == {} by {
            assert forall e :: e !in Table(kind);
          }
          return {};
        }
        matching := matching * Table(kind).Keys;
        pending := pending - {kind};
      }
      assert kinds - pending == kinds;
    }

    /** `update`: calls every system's `update(dt)` once, in list order. */
    method Update(dt: real) returns (calls: seq<Call<Sys>>)
      ensures |calls| == |systems|
      ensures forall i :: 0 <= i < |systems| ==> calls[i] == UpdateCall(systems[i], dt)
    {
      calls := [];
      for i := 0 to |systems|
        invariant |calls| == i
        invariant forall j :: 0 <= j < i ==> calls[j] == UpdateCall(systems[j], dt)
      {
        calls := calls + [UpdateCall(systems[i], dt)];
      }
    }

    /** `draw`: calls every system's `draw()` once, in list order. */
    method Draw() returns (calls: seq<Call<Sys>>)
      ensures |calls| == |systems|
      ensures forall i :: 0 <= i < |systems| ==> calls[i] == DrawCall(systems[i])
    {
      calls := [];
      for i := 0 to |systems|
        invariant |calls| == i
        invariant forall j :: 0 <= j < i ==> calls[j] == DrawCall(systems[j])
      {
        calls := calls + [DrawCall(systems[i])];
      }
    }
  }
}
