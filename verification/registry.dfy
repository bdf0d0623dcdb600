/**
 * The entity-component registry of the older engine
 * (libs/engine/include/engine/ecs/registry.hpp): entity flags, per-entity
 * component maps keyed by component signature, and the filtered `view`.
 * `attach`, `detach` and the entity operations live in registry.cpp, which
 * is not part of this model; `attach` is taken to store the component under
 * its signature and `detach` to remove it.
 */
module Registry {
  import opened Wrappers

  datatype Flag = Disabled | Destroyed | Debug

  type Flags = set<Flag>

  type EntityId = nat

  /** `Component::Sign`. */
  type Sign = nat

  /** A component object, by id. */
  type ComponentRef = nat

  /** One entity's components, by signature. */
  type CompMap = map<Sign, ComponentRef>

  /** `m_entityFlags` and `m_db`. */
  datatype Registry = Registry(flags: map<EntityId, Flags>, db: map<EntityId, CompMap>)

  /** The invariant `view` asserts: every entity with flags has a component map. */
  predicate Inv(reg: Registry) {
    forall id :: id in reg.flags ==> id in reg.db
  }

  /** The mask test of `view`: the masked flags equal the masked pattern. */
  predicate Matches(flags: Flags, mask: Flags, pattern: Flags) {
    flags * mask == pattern * mask
  }

  /** The default arguments of `view`. */
  const DefaultMask: Flags := {Destroyed, Disabled}
  const DefaultPattern: Flags := {}

  /** With the default mask and pattern, exactly the entities neither destroyed nor disabled pass. */
  lemma DefaultMaskExcludes(flags: Flags)
    ensures Matches(flags, DefaultMask, DefaultPattern) <==> Destroyed !in flags && Disabled !in flags
  {
    if Destroyed in flags {
      assert Destroyed in flags * DefaultMask;
    }
    if Disabled in flags {
      assert Disabled in flags * DefaultMask;
    }
  }

  // ---------------------------------------------------------------- signatures

  /** A C++ type, by id; `typeid(T).hash_code()` is the parameter `hashCode`. */
  type TypeKey = nat

  /**
   * `signature<T>()`: the sign cached for `T` in `s_signs`, or, on first
   * use, `T`'s hash code, which is then cached.
   */
  function Signature(signs: map<TypeKey, Sign>, t: TypeKey, hashCode: TypeKey -> Sign): (r: (map<TypeKey, Sign>, Sign))
    ensures t in r.0 && r.0[t] == r.1
    ensures t in signs ==> r == (signs, signs[t])
    ensures t !in signs ==> r.0 == signs[t := hashCode(t)]
  {
    if t in signs then (signs, signs[t]) else (signs[t := hashCode(t)], hashCode(t))
  }

  /** The signature is stable: asking again returns the same sign and changes nothing. */
  lemma SignatureStable(signs: map<TypeKey, Sign>, t: TypeKey, u: TypeKey, hashCode: TypeKey -> Sign)
    ensures var (s1, a) := Signature(signs, t, hashCode);
            Signature(s1, t, hashCode) == (s1, a)
    ensures var (s1, a) := Signature(signs, t, hashCode);
            var (s2, _) := Signature(s1, u, hashCode);
            Signature(s2, t, hashCode).1 == a
  {
  }

  // ---------------------------------------------------------------- components

  /**
   * `addComponent<Comp>(entity, args...)`: for a known entity the new
   * component is attached under its sign and returned; otherwise null and
   * nothing changes.
   */
  function AddComponent(reg: Registry, id: EntityId, sign: Sign, comp: ComponentRef): (r: (Registry, Option<ComponentRef>))
    ensures id !in reg.flags ==> r == (reg, None)
    ensures id in reg.flags ==> r.1 == Some(comp) && Component(r.0, id, sign) == Some(comp)
    ensures r.0.flags == reg.flags
    ensures forall e :: e != id ==> (e in r.0.db <==> e in reg.db) && (e in reg.db ==> r.0.db[e] == reg.db[e])
  {
    if id in reg.flags then
      var m := if id in reg.db then reg.db[id] else map[];
      (reg.(db := reg.db[id := m[sign := comp]]), Some(comp))
    else (reg, None)
  }

  /** `component<Comp>(entity)` through `component_Impl`: null when the entity or the component is absent. */
  function Component(reg: Registry, id: EntityId, sign: Sign): (r: Option<ComponentRef>)
    ensures r.Some? <==> id in reg.db && sign in reg.db[id]
    ensures r.Some? ==> r.value == reg.db[id][sign]
  {
    if id in reg.db then Lookup(reg.db[id], sign) else None
  }

  /** `component_Impl(compMap)`: the component under `sign`, or null. */
  function Lookup(m: CompMap, sign: Sign): (r: Option<ComponentRef>)
    ensures r.Some? <==> sign in m
    ensures r.Some? ==> r.value == m[sign]
  {
    if sign in m then Some(m[sign]) else None
  }

  /**
   * `destroyComponent<Comp>(entity)`: true, with the component detached,
   * exactly when the entity is known and has it. `m_db[entity.id]` gives a
   * known entity an empty map if it had none.
   */
  function DestroyComponent(reg: Registry, id: EntityId, sign: Sign): (r: (Registry, bool))
    ensures r.1 <==> id in reg.flags && Component(reg, id, sign).Some?
    ensures Component(r.0, id, sign) == None || !(id in reg.flags)
    ensures r.0.flags == reg.flags
    ensures forall s :: s != sign ==> Component(r.0, id, s) == Component(reg, id, s)
    ensures forall e :: e != id ==> (e in r.0.db <==> e in reg.db) && (e in reg.db ==> r.0.db[e] == reg.db[e])
  {
    if id in reg.flags then
      var m := if id in reg.db then reg.db[id] else map[];
      if sign in m then (reg.(db := reg.db[id := m - {sign}]), true)
      else (reg.(db := reg.db[id := m]), false)
    else (reg, false)
  }

  /** Adding and destroying components keeps the invariant `view` relies on. */
  lemma ComponentOpsKeepInv(reg: Registry, id: EntityId, sign: Sign, comp: ComponentRef)
    requires Inv(reg)
    ensures Inv(AddComponent(reg, id, sign, comp).0)
    ensures Inv(DestroyComponent(reg, id, sign).0)
  {
  }

  /** Adding a component and destroying it again reports success and leaves no component. */
  lemma AddThenDestroy(reg: Registry, id: EntityId, sign: Sign, comp: ComponentRef)
    requires id in reg.flags
    ensures var (r1, _) := AddComponent(reg, id, sign, comp);
            var (r2, ok) := DestroyComponent(r1, id, sign);
            ok && Component(r2, id, sign) == None
  {
  }

  // ---------------------------------------------------------------- view

  /** The entity has a component under every sign in `signs`. */
  predicate HasAll(m: CompMap, signs: seq<Sign>) {
    forall i :: 0 <= i < |signs| ==> signs[i] in m
  }

  /** A view row: the component for each requested sign, in order (null when absent). */
  function Row(m: CompMap, signs: seq<Sign>): (r: seq<Option<ComponentRef>>)
    ensures |r| == |signs|
    ensures forall i :: 0 <= i < |signs| ==> r[i] == Lookup(m, signs[i])
  {
    seq(|signs|, i requires 0 <= i < |signs| => Lookup(m, signs[i]))
  }

  /**
   * The signs `view<Comp1, Comps...>` actually checks: the initializer
   * `{signature<Comp1>(), (signature<Comps>(), ...)}` folds `Comps` with the
   * comma operator, which keeps only the last one. With no `Comps` the fold
   * is `void()` and the template does not compile, so at least two signs are
   * required.
   */
  function CheckedAsWritten(signs: seq<Sign>): (r: seq<Sign>)
    requires |signs| >= 2
  {
    [signs[0], signs[|signs| - 1]]
  }

  /** `view` as written: filter by mask, then check only the first and last sign. */
  function ViewAsWritten(reg: Registry, signs: seq<Sign>, mask: Flags, pattern: Flags): (r: map<EntityId, seq<Option<ComponentRef>>>)
    requires Inv(reg)
    requires |signs| >= 2
    ensures forall id :: id in r <==> id in reg.flags && Matches(reg.flags[id], mask, pattern) && HasAll(reg.db[id], CheckedAsWritten(signs))
    ensures forall id :: id in r ==> |r[id]| == |signs| && forall i :: 0 <= i < |signs| ==> r[id][i] == Component(reg, id, signs[i])
  {
    map id | id in reg.flags && Matches(reg.flags[id], mask, pattern) && HasAll(reg.db[id], CheckedAsWritten(signs))
      :: Row(reg.db[id], signs)
  }

  /**
   * `view<A, B, C>` lists an entity that has A and C but no B, with a null B:
   * the view promises every requested component and breaks that promise.
   */
  lemma ViewAsWrittenMissesMiddle()
    ensures var reg := Registry(map[1 := {}], map[1 := map[10 := 100, 30 := 300]]);
            var v := ViewAsWritten(reg, [10, 20, 30], DefaultMask, DefaultPattern);
            1 in v && v[1] == [Some(100), None, Some(300)]
  {
    var reg := Registry(map[1 := {}], map[1 := map[10 := 100, 30 := 300]]);
    assert Matches(reg.flags[1], DefaultMask, DefaultPattern);
    assert HasAll(reg.db[1], CheckedAsWritten([10, 20, 30]));
    var row := Row(reg.db[1], [10, 20, 30]);
    assert row == [Some(100), None, Some(300)];
  }

  /**
   * `view<Comp1, Comps...>(mask, pattern)` checking every requested sign: an
   * entity is listed iff its flags pass the mask test and it has all the
   * components, and then every component of its row is present.
   */
  function View(reg: Registry, signs: seq<Sign>, mask: Flags, pattern: Flags): (r: map<EntityId, seq<Option<ComponentRef>>>)
    requires Inv(reg)
    requires |signs| >= 1
    ensures forall id :: id in r <==> id in reg.flags && Matches(reg.flags[id], mask, pattern) && HasAll(reg.db[id], signs)
    ensures forall id :: id in r ==> |r[id]| == |signs| && forall i :: 0 <= i < |signs| ==> r[id][i].Some? && r[id][i] == Component(reg, id, signs[i])
  {
    map id | id in reg.flags && Matches(reg.flags[id], mask, pattern) && HasAll(reg.db[id], signs)
      :: Row(reg.db[id], signs)
  }

  /** The corrected view leaves out the entity the written one lets through. */
  lemma ViewExcludesMissingMiddle()
    ensures var reg := Registry(map[1 := {}], map[1 := map[10 := 100, 30 := 300]]);
            1 !in View(reg, [10, 20, 30], DefaultMask, DefaultPattern)
  {
    var reg := Registry(map[1 := {}], map[1 := map[10 := 100, 30 := 300]]);
    assert !HasAll(reg.db[1], [10, 20, 30]) by {
      assert [10, 20, 30][1] !in reg.db[1];
    }
  }

  /** For two requested components the written and the corrected view agree. */
  lemma ViewsAgreeOnTwo(reg: Registry, a: Sign, b: Sign, mask: Flags, pattern: Flags)
    requires Inv(reg)
    ensures ViewAsWritten(reg, [a, b], mask, pattern) == View(reg, [a, b], mask, pattern)
  {
    assert CheckedAsWritten([a, b]) == [a, b];
    var w := ViewAsWritten(reg, [a, b], mask, pattern);
    var v := View(reg, [a, b], mask, pattern);
    assert w.Keys == v.Keys;
    assert forall id :: id in w ==> w[id] == Row(reg.db[id], [a, b]) == v[id];
  }

  /** Every row of the written view is non-null in the first and last position, but nowhere else guaranteed. */
  lemma ViewAsWrittenEnds(reg: Registry, signs: seq<Sign>, mask: Flags, pattern: Flags, id: EntityId)
    requires Inv(reg) && |signs| >= 2
    requires id in ViewAsWritten(reg, signs, mask, pattern)
    ensures ViewAsWritten(reg, signs, mask, pattern)[id][0].Some?
    ensures ViewAsWritten(reg, signs, mask, pattern)[id][|signs| - 1].Some?
  {
    var checked := CheckedAsWritten(signs);
    assert HasAll(reg.db[id], checked);
    assert checked[0] in reg.db[id] && checked[1] in reg.db[id];
  }
}
