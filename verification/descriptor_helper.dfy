/**
 * The descriptor helpers of the newer graphics library
 * (levk/graphics/src/render/descriptor_helper.cpp and its header): the
 * updater that checks bindings against its descriptor set, caching those it
 * accepted, and writes to it; the fallback textures it substitutes; the map
 * that hands out per-set indices; and the binder that binds the sets a draw
 * asked for.
 *
 * A write is recorded in the updater's log instead of reaching Vulkan.
 * `DescriptorSet::contains` and `textureType` are not part of this model:
 * a set is taken to contain a binding when it has binding data for it whose
 * descriptor and texture types match those given, if any.
 */
module DescriptorHelper {
  import opened Wrappers
  import PipelineFactory

  type ShaderInput = PipelineFactory.ShaderInput
  type DescriptorSet = PipelineFactory.DescriptorSet
  type TextureType = PipelineFactory.TextureType

  /** A `Texture`, by id: whether it is ready and its type. */
  datatype Texture = Texture(id: nat, ready: bool, textureType: TextureType)

  /** `DescriptorFallback`: the 2D texture and the cubemap used in place of unusable textures. */
  datatype Fallback = Fallback(texture: Texture, cubemap: Texture)

  /** `DescriptorSet::contains(bind, type, texType)`, where a missing filter matches any type. */
  predicate SetContains(ds: DescriptorSet, bind: nat, descriptorType: Option<nat>, textureType: Option<TextureType>) {
    bind in ds.bindingData &&
    (descriptorType.Some? ==> ds.bindingData[bind].descriptorType == descriptorType.value) &&
    (textureType.Some? ==> ds.bindingData[bind].textureType == textureType.value)
  }

  // ---------------------------------------------------------------- Updater

  /** What an `update` wrote to the set: a shader buffer, a texture, or a value of type `T`. */
  datatype Write = BufferWrite(bind: nat, buffer: nat) | TextureWrite(bind: nat, texture: Texture) | DataWrite(bind: nat, data: nat)

  /** `DescriptorUpdater`: the fallback, the set if any, the bindings already accepted, and the writes made. */
  datatype Updater = Updater(fallback: Fallback, descriptorSet: Option<DescriptorSet>, binds: seq<nat>, writes: seq<Write>)

  /** `Updater(fallback, descriptorSet = {})`: no binding accepted and nothing written yet. */
  function NewUpdater(fallback: Fallback, descriptorSet: Option<DescriptorSet>): (u: Updater)
    ensures u.fallback == fallback && u.descriptorSet == descriptorSet && u.binds == [] && u.writes == []
    ensures Inv(u)
  {
    Updater(fallback, descriptorSet, [], [])
  }

  /** `valid()`: the updater has a descriptor set. */
  predicate Valid(u: Updater) {
    u.descriptorSet.Some?
  }

  /** Every binding in the cache is one the set has, and none is cached twice. */
  predicate Inv(u: Updater) {
    (forall k :: 0 <= k < |u.binds| ==> Valid(u) && u.binds[k] in u.descriptorSet.value.bindingData) &&
    (forall k, l :: 0 <= k < l < |u.binds| ==> u.binds[k] != u.binds[l])
  }

  /**
   * `check(bind, type, texType)`: false without a set; true for a binding
   * accepted before, whatever the types asked for; otherwise the set is
   * asked, and a binding it contains is cached and accepted while one it
   * lacks is rejected and not cached.
   */
  function Check(u: Updater, bind: nat, descriptorType: Option<nat>, textureType: Option<TextureType>): (r: (Updater, bool))
    ensures r.1 <==> Valid(u) && (bind in u.binds || SetContains(u.descriptorSet.value, bind, descriptorType, textureType))
    ensures r.0.fallback == u.fallback && r.0.descriptorSet == u.descriptorSet && r.0.writes == u.writes
    ensures r.1 && bind !in u.binds ==> r.0.binds == u.binds + [bind]
    ensures !r.1 || bind in u.binds ==> r.0.binds == u.binds
    ensures r.1 ==> bind in r.0.binds
    ensures Inv(u) ==> Inv(r.0)
  {
    if !Valid(u) then (u, false)
    else if bind in u.binds then (u, true)
    else if SetContains(u.descriptorSet.value, bind, descriptorType, textureType) then (u.(binds := u.binds + [bind]), true)
    else (u, false)
  }

  /** Once accepted, a binding is accepted again with no change to the updater, even for other types. */
  lemma CheckCached(u: Updater, bind: nat, t: Option<nat>, tt: Option<TextureType>, t': Option<nat>, tt': Option<TextureType>)
    requires Check(u, bind, t, tt).1
    ensures var u1 := Check(u, bind, t, tt).0;
            Check(u1, bind, t', tt') == (u1, true)
  {
  }

  /** Under `Inv`, every accepted binding is one the set has. */
  lemma CheckedBindingInSet(u: Updater, bind: nat, t: Option<nat>, tt: Option<TextureType>)
    requires Inv(u) && Check(u, bind, t, tt).1
    ensures Valid(u) && bind in u.descriptorSet.value.bindingData
  {
    if bind in u.binds {
      var k :| 0 <= k < |u.binds| && u.binds[k] == bind;
    }
  }

  /** A binding is usable for a binding of type `want`: present, ready, and of that type. */
  predicate Usable(tex: Option<Texture>, want: TextureType) {
    tex.Some? && tex.value.ready && tex.value.textureType == want
  }

  /**
   * `safeTex(tex, bind)` for a binding of type `want`: the texture itself if
   * it is usable, else the cubemap fallback for a cube binding and the 2D
   * fallback for any other.
   */
  function SafeTex(fallback: Fallback, tex: Option<Texture>, want: TextureType): (r: Texture)
    ensures Usable(tex, want) ==> r == tex.value
    ensures !Usable(tex, want) && want == PipelineFactory.TexCube ==> r == fallback.cubemap
    ensures !Usable(tex, want) && want != PipelineFactory.TexCube ==> r == fallback.texture
  {
    if Usable(tex, want) then tex.value
    else if want == PipelineFactory.TexCube then fallback.cubemap
    else fallback.texture
  }

  /** Fallbacks that are ready and of their own types. */
  predicate GoodFallback(fallback: Fallback) {
    Usable(Some(fallback.texture), PipelineFactory.Tex2D) && Usable(Some(fallback.cubemap), PipelineFactory.TexCube)
  }

  /** With good fallbacks, what `safeTex` returns is always ready and of the binding's type. */
  lemma SafeTexUsable(fallback: Fallback, tex: Option<Texture>, want: TextureType)
    requires GoodFallback(fallback)
    ensures Usable(Some(SafeTex(fallback, tex, want)), want)
  {
  }

  /** `update(binding, buffer)`: writes the buffer and returns true only when `check` accepts. */
  function UpdateBuffer(u: Updater, bind: nat, buffer: nat): (r: (Updater, bool))
    ensures r.1 <==> Check(u, bind, None, None).1
    ensures r.0.binds == Check(u, bind, None, None).0.binds && r.0.descriptorSet == u.descriptorSet
    ensures r.0.writes == if r.1 then u.writes + [BufferWrite(bind, buffer)] else u.writes
    ensures Inv(u) ==> Inv(r.0)
  {
    var (c, ok) := Check(u, bind, None, None);
    if ok then (c.(writes := c.writes + [BufferWrite(bind, buffer)]), true) else (c, false)
  }

  /**
   * `update(binding, tex)`: when `check` accepts, writes `safeTex` for the
   * binding's texture type and returns true; otherwise writes nothing.
   */
  function UpdateTexture(u: Updater, bind: nat, tex: Option<Texture>): (r: (Updater, bool))
    requires Inv(u)
    ensures r.1 <==> Check(u, bind, None, None).1
    ensures r.0.binds == Check(u, bind, None, None).0.binds && r.0.descriptorSet == u.descriptorSet
    ensures r.1 ==> bind in u.descriptorSet.value.bindingData &&
                    r.0.writes == u.writes + [TextureWrite(bind, SafeTex(u.fallback, tex, u.descriptorSet.value.bindingData[bind].textureType))]
    ensures !r.1 ==> r.0.writes == u.writes
    ensures Inv(r.0)
  {
    var (c, ok) := Check(u, bind, None, None);
    if ok then
      CheckedBindingInSet(u, bind, None, None);
      var want := u.descriptorSet.value.bindingData[bind].textureType;
      (c.(writes := c.writes + [TextureWrite(bind, SafeTex(u.fallback, tex, want))]), true)
    else (c, false)
  }

  /** `eUniformBuffer`, the default descriptor type of `update<T>` (an opaque code). */
  const UniformBuffer: nat := 6

  /** `update<T>(binding, t, type)`: `check` with the descriptor type; writes `t` and returns true only when it accepts. */
  function UpdateData(u: Updater, bind: nat, data: nat, descriptorType: nat): (r: (Updater, bool))
    ensures r.1 <==> Check(u, bind, Some(descriptorType), None).1
    ensures r.0.binds == Check(u, bind, Some(descriptorType), None).0.binds && r.0.descriptorSet == u.descriptorSet
    ensures r.0.writes == if r.1 then u.writes + [DataWrite(bind, data)] else u.writes
    ensures Inv(u) ==> Inv(r.0)
  {
    var (c, ok) := Check(u, bind, Some(descriptorType), None);
    if ok then (c.(writes := c.writes + [DataWrite(bind, data)]), true) else (c, false)
  }

  /** An updater without a set rejects every update and never writes. */
  lemma InvalidUpdaterWritesNothing(u: Updater, bind: nat, buffer: nat, tex: Option<Texture>, data: nat, t: nat)
    requires !Valid(u) && Inv(u)
    ensures UpdateBuffer(u, bind, buffer) == (u, false)
    ensures UpdateTexture(u, bind, tex) == (u, false)
    ensures UpdateData(u, bind, data, t) == (u, false)
  {
  }

  /**
   * A typed `update<T>` that the set rejects for its descriptor type is
   * accepted once an untyped update cached the binding: the cache does not
   * remember the type it was checked against.
   */
  lemma CacheIgnoresType(u: Updater, bind: nat, buffer: nat, data: nat, t: nat)
    requires Valid(u) && bind !in u.binds && bind in u.descriptorSet.value.bindingData
    requires u.descriptorSet.value.bindingData[bind].descriptorType != t
    ensures !UpdateData(u, bind, data, t).1
    ensures UpdateData(UpdateBuffer(u, bind, buffer).0, bind, data, t).1
  {
  }

  // ---------------------------------------------------------------- Map

  /** `DrawBindings`: the index assigned to each set number, if any (its header is not part of this model). */
  datatype DrawBindings = DrawBindings(indices: seq<Option<nat>>)

  /** `DescriptorMap`: the fallback, the shader input, and the next index of each set number. */
  datatype DescriptorMap = DescriptorMap(fallback: Fallback, input: ShaderInput, nextIndex: seq<nat>)

  /** `Map(fallback, input)`: every counter starts at zero; `slots` stands for `max_bindings_v`. */
  function NewMap(fallback: Fallback, input: ShaderInput, slots: nat): (m: DescriptorMap)
    ensures m.fallback == fallback && m.input == input && |m.nextIndex| == slots
    ensures forall s :: 0 <= s < slots ==> m.nextIndex[s] == 0
  {
    DescriptorMap(fallback, input, seq(slots, _ => 0))
  }

  /** `fallback(fb)`: replaces the fallback and nothing else. */
  function SetFallback(m: DescriptorMap, fallback: Fallback): (r: DescriptorMap)
    ensures r.fallback == fallback && r.input == m.input && r.nextIndex == m.nextIndex
  {
    m.(fallback := fallback)
  }

  /** `Map::contains(setNumber)`: whether the shader input has the set assigned. */
  predicate MapContains(m: DescriptorMap, setNumber: nat) {
    PipelineFactory.Contains(m.input, setNumber)
  }

  /**
   * `nextSet(bindings, setNumber)`: for a set the input has, hands out the
   * set's next index, records it in the bindings and returns an updater on
   * that set; for any other set, an updater without a set and no change.
   * The counter and the bindings are fixed-size arrays: the set number must
   * fit both.
   */
  function NextSet(m: DescriptorMap, b: DrawBindings, setNumber: nat): (r: (DescriptorMap, DrawBindings, Updater))
    requires MapContains(m, setNumber) ==> setNumber < |m.nextIndex| && setNumber < |b.indices|
    ensures !MapContains(m, setNumber) ==> r == (m, b, NewUpdater(m.fallback, None))
    ensures MapContains(m, setNumber) ==>
              var index := m.nextIndex[setNumber];
              r.0 == m.(nextIndex := m.nextIndex[setNumber := index + 1]) &&
              r.1 == DrawBindings(b.indices[setNumber := Some(index)]) &&
              r.2 == NewUpdater(m.fallback, Some(PipelineFactory.SetOf(m.input, setNumber, index).value))
    ensures Valid(r.2) <==> MapContains(m, setNumber)
  {
    if MapContains(m, setNumber) then
      var index := m.nextIndex[setNumber];
      (m.(nextIndex := m.nextIndex[setNumber := index + 1]),
       DrawBindings(b.indices[setNumber := Some(index)]),
       NewUpdater(m.fallback, Some(PipelineFactory.SetOf(m.input, setNumber, index).value)))
    else (m, b, NewUpdater(m.fallback, None))
  }

  /** The indices `n` successive `nextSet` calls on one set hand out. */
  function Handed(m: DescriptorMap, b: DrawBindings, setNumber: nat, n: nat): (r: (DescriptorMap, seq<nat>))
    requires MapContains(m, setNumber) ==> setNumber < |m.nextIndex| && setNumber < |b.indices|
    ensures r.0.input == m.input && |r.0.nextIndex| == |m.nextIndex| && |r.1| == n
    decreases n
  {
    if n == 0 then (m, [])
    else
      var (m1, b1, u) := NextSet(m, b, setNumber);
      var (m2, rest) := Handed(m1, b1, setNumber, n - 1);
      (m2, [if Valid(u) then u.descriptorSet.value.index else 0] + rest)
  }

  /**
   * Successive `nextSet` calls on a set the input has hand out consecutive
   * indices from its counter on (0, 1, 2, … for a new map), and leave the
   * counters of other sets alone.
   */
  lemma {:induction false} NextSetCounts(m: DescriptorMap, b: DrawBindings, setNumber: nat, n: nat)
    requires MapContains(m, setNumber) && setNumber < |m.nextIndex| && setNumber < |b.indices|
    ensures var (m', handed) := Handed(m, b, setNumber, n);
            (forall k :: 0 <= k < n ==> handed[k] == m.nextIndex[setNumber] + k) &&
            m'.nextIndex[setNumber] == m.nextIndex[setNumber] + n &&
            (forall s :: 0 <= s < |m.nextIndex| && s != setNumber ==> m'.nextIndex[s] == m.nextIndex[s])
    decreases n
  {
    if n > 0 {
      var (m1, b1, u) := NextSet(m, b, setNumber);
      NextSetCounts(m1, b1, setNumber, n - 1);
    }
  }

  /** A new map hands out 0, 1, 2, … for a set the input has. */
  lemma NewMapCountsFromZero(fallback: Fallback, input: ShaderInput, slots: nat, b: DrawBindings, setNumber: nat, n: nat)
    requires PipelineFactory.Contains(input, setNumber) && setNumber < slots && setNumber < |b.indices|
    ensures forall k :: 0 <= k < n ==> Handed(NewMap(fallback, input, slots), b, setNumber, n).1[k] == k
  {
    NextSetCounts(NewMap(fallback, input, slots), b, setNumber, n);
  }

  /** `nextSet` on a set the input lacks hands out nothing, whatever the counters. */
  lemma NextSetAbsent(m: DescriptorMap, b: DrawBindings, setNumber: nat)
    requires !MapContains(m, setNumber)
    ensures var (m', b', u) := NextSet(m, b, setNumber);
            m' == m && b' == b && !Valid(u) && !UpdateBuffer(u, 0, 0).1
  {
  }

  // ---------------------------------------------------------------- Binder

  /** The set numbers from `from` on that have an index and that the input has, in increasing order. */
  function Selected(input: ShaderInput, b: DrawBindings, from: nat): (r: seq<nat>)
    requires from <= |b.indices|
    ensures forall k :: 0 <= k < |r| ==> from <= r[k] < |b.indices| && b.indices[r[k]].Some? && PipelineFactory.Contains(input, r[k])
    ensures forall k, l :: 0 <= k < l < |r| ==> r[k] < r[l]
    ensures forall s :: from <= s < |b.indices| && b.indices[s].Some? && PipelineFactory.Contains(input, s) ==> s in r
    decreases |b.indices| - from
  {
    if from == |b.indices| then []
    else
      var rest := Selected(input, b, from + 1);
      if b.indices[from].Some? && PipelineFactory.Contains(input, from) then [from] + rest else rest
  }

  /** `Binder(layout, input, cb)`. */
  datatype Binder = Binder(layout: nat, input: ShaderInput)

  /** A `bindSet(layout, set)` recorded on the command buffer. */
  datatype BindCommand = BindCommand(layout: nat, descriptorSet: DescriptorSet)

  /**
   * `bind(indices)`: in set order, binds the set at its assigned index for
   * every set number that has one and that the input has; nothing else.
   */
  function Bind(binder: Binder, b: DrawBindings): (r: seq<BindCommand>)
    ensures var sel := Selected(binder.input, b, 0);
            |r| == |sel| &&
            forall k :: 0 <= k < |r| ==> r[k] == BindCommand(binder.layout, PipelineFactory.SetOf(binder.input, sel[k], b.indices[sel[k]].value).value)
  {
    var sel := Selected(binder.input, b, 0);
    seq(|sel|, k requires 0 <= k < |sel| =>
      BindCommand(binder.layout, PipelineFactory.SetOf(binder.input, sel[k], b.indices[sel[k]].value).value))
  }

  /**
   * For an input built from pool data, a set is bound exactly when it has
   * an index and a layout, at that index, and in increasing set order.
   */
  lemma BindExactly(data: PipelineFactory.PoolData, layout: nat, b: DrawBindings, s: nat)
    ensures var r := Bind(Binder(layout, PipelineFactory.MakeShaderInput(data)), b);
            (exists k :: 0 <= k < |r| && r[k].descriptorSet.setNumber == s) <==>
              s < |b.indices| && b.indices[s].Some? && PipelineFactory.Contains(PipelineFactory.MakeShaderInput(data), s)
    ensures var r := Bind(Binder(layout, PipelineFactory.MakeShaderInput(data)), b);
            forall k :: 0 <= k < |r| ==> r[k].layout == layout && b.indices[r[k].descriptorSet.setNumber] == Some(r[k].descriptorSet.index)
    ensures var r := Bind(Binder(layout, PipelineFactory.MakeShaderInput(data)), b);
            forall k, l :: 0 <= k < l < |r| ==> r[k].descriptorSet.setNumber < r[l].descriptorSet.setNumber
  {
    var input := PipelineFactory.MakeShaderInput(data);
    var sel := Selected(input, b, 0);
    var r := Bind(Binder(layout, input), b);
    if s < |b.indices| && b.indices[s].Some? && PipelineFactory.Contains(input, s) {
      var k :| 0 <= k < |sel| && sel[k] == s;
      assert r[k].descriptorSet.setNumber == s;
    }
  }

  /** A binding accepted by an updater from `nextSet` is one the set's pool data has. */
  lemma NextSetUpdaterChecksPool(m: DescriptorMap, b: DrawBindings, setNumber: nat, bind: nat)
    requires MapContains(m, setNumber) && setNumber < |m.nextIndex| && setNumber < |b.indices|
    ensures var u := NextSet(m, b, setNumber).2;
            Check(u, bind, None, None).1 <==> bind in m.input.pools[setNumber].bindingData
  {
  }
}
