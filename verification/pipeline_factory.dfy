/**
 * The pipeline cache of the newer graphics library
 * (levk/graphics/src/render/pipeline_factory.cpp and its header): per-set
 * descriptor pools of a `ShaderInput`, and the two-level cache from a spec
 * hash to its render passes to built pipelines. SPIR-V reflection and
 * pipeline construction are abstract builders: reflection is the function
 * `reflect`, and whether `makePipe` succeeds is the parameter `built`; each
 * pipeline built gets a fresh id.
 */
module PipelineFactory {
  import opened Wrappers
  import opened Hashing
  import AssetConverters
  import VertexInput

  /** `Buffering`: eNone 0, eSingle 1, eDouble 2, eTriple 3. */
  type Buffering = nat

  const NoBuffering: Buffering := 0
  const Double: Buffering := 2

  // ---------------------------------------------------------------- ShaderInput

  /** `Texture::Type`. */
  datatype TextureType = Tex2D | TexCube

  /** `DescriptorSet::BindingData`, reduced to its descriptor type (an opaque code) and texture type. */
  datatype BindingData = BindingData(descriptorType: nat, textureType: TextureType)

  /** `PoolData::Set`: its descriptor set layout (0 is null) and the data of its bindings, by binding number. */
  datatype SetData = SetData(layout: nat, bindingData: map<nat, BindingData>)

  /** `ShaderInput::PoolData`: the sets and their buffering. */
  datatype PoolData = PoolData(sets: seq<SetData>, buffering: Buffering)

  /** A default `PoolData`: no sets, double buffered. */
  function DefaultPoolData(): (d: PoolData)
    ensures d.sets == [] && d.buffering == Double
  {
    PoolData([], Double)
  }

  /**
   * A `DescriptorPool`: its set number, buffering, layout and binding data,
   * and how many times it was swapped. It is taken to be unassigned when its
   * layout is null; the header that declares it is not part of this model.
   */
  datatype Pool = Pool(setNumber: nat, buffering: Buffering, layout: nat, bindingData: map<nat, BindingData>, swaps: nat)

  /** `ShaderInput`: a pool per set number. */
  datatype ShaderInput = ShaderInput(pools: map<nat, Pool>)

  /** A default `ShaderInput` has no pools. */
  function EmptyInput(): ShaderInput {
    ShaderInput(map[])
  }

  /**
   * `ShaderInput(vram, data)`: one pool per set index 0..n-1, with the set's
   * layout and binding data, and double buffering where `eNone` was asked
   * for.
   */
  function MakeShaderInput(data: PoolData): (si: ShaderInput)
    ensures forall s: nat :: s in si.pools <==> s < |data.sets|
    ensures forall s :: s in si.pools ==> si.pools[s].setNumber == s && si.pools[s].layout == data.sets[s].layout
    ensures forall s :: s in si.pools ==> si.pools[s].bindingData == data.sets[s].bindingData
    ensures forall s :: s in si.pools ==> si.pools[s].buffering == (if data.buffering == NoBuffering then Double else data.buffering)
    ensures forall s :: s in si.pools ==> si.pools[s].buffering != NoBuffering && si.pools[s].swaps == 0
  {
    var b := if data.buffering == NoBuffering then Double else data.buffering;
    ShaderInput(map s: nat | s < |data.sets| :: Pool(s, b, data.sets[s].layout, data.sets[s].bindingData, 0))
  }

  /** `ShaderInput::contains(set)`: false for an absent set, else whether its pool is assigned. */
  function Contains(si: ShaderInput, number: nat): (r: bool)
    ensures r ==> SetOf(si, number, 0).Ok?
  {
    number in si.pools && si.pools[number].layout != 0
  }

  /** A `DescriptorSet` handed out by a pool: its set number, its index, and the data of its bindings. */
  datatype DescriptorSet = DescriptorSet(setNumber: nat, index: nat, bindingData: map<nat, BindingData>)

  /** `ShaderInput::set(set, index)`: the pool's set; an absent set fails the `ENSURE`. */
  function SetOf(si: ShaderInput, number: nat, index: nat): (r: Result<DescriptorSet>)
    ensures r.Ok? <==> number in si.pools
    ensures r.Ok? ==> r.value == DescriptorSet(si.pools[number].setNumber, index, si.pools[number].bindingData)
  {
    if number in si.pools then Ok(DescriptorSet(si.pools[number].setNumber, index, si.pools[number].bindingData))
    else Fatal("Nonexistent set")
  }

  /** `ShaderInput::swap()`: every pool swaps once; the set numbers do not change. */
  function Swap(si: ShaderInput): (r: ShaderInput)
    ensures r.pools.Keys == si.pools.Keys
    ensures forall s :: s in si.pools ==> r.pools[s] == si.pools[s].(swaps := si.pools[s].swaps + 1)
  {
    ShaderInput(map s | s in si.pools :: si.pools[s].(swaps := si.pools[s].swaps + 1))
  }

  /** A shader input built from pool data contains exactly the sets whose layouts are not null; swapping keeps that. */
  lemma ShaderInputContains(data: PoolData, number: nat)
    ensures Contains(MakeShaderInput(data), number) <==> number < |data.sets| && data.sets[number].layout != 0
    ensures Contains(Swap(MakeShaderInput(data)), number) <==> Contains(MakeShaderInput(data), number)
    ensures SetOf(MakeShaderInput(data), number, 0).Ok? <==> number < |data.sets|
  {
  }

  // ---------------------------------------------------------------- specs

  /** `ShaderSpec`: the module URIs. */
  datatype ShaderSpec = ShaderSpec(moduleUris: seq<Hash>)

  /** `PipelineSpec`: the shader, the fixed-state flags and the vertex input. */
  datatype Spec = Spec(shader: ShaderSpec, flags: AssetConverters.RenderFlags, vertexInput: VertexInput.Info)

  /**
   * `PipelineFactory::spec(shader, flags, vertexInput)`: the module URIs must
   * not be empty; no vertex bindings means the default `Vertex` layout at
   * binding 0.
   */
  function MakeSpec(shader: ShaderSpec, flags: AssetConverters.RenderFlags, vi: VertexInput.Info, vertex: VertexInput.VertexLayout): (s: Spec)
    requires shader.moduleUris != []
    ensures s.shader == shader && s.flags == flags
    ensures vi.bindings != [] ==> s.vertexInput == vi
    ensures vi.bindings == [] ==> s.vertexInput == VertexInput.DefaultVertex(vertex, 0)
    ensures |s.vertexInput.bindings| > 0
  {
    Spec(shader, flags, if vi.bindings == [] then VertexInput.DefaultVertex(vertex, 0) else vi)
  }

  /**
   * `spec(shader)` with the default arguments: every fixed-state flag
   * (`pflags_all`) and an empty vertex input, hence the default `Vertex` layout.
   */
  function DefaultSpec(shader: ShaderSpec, vertex: VertexInput.VertexLayout): (s: Spec)
    requires shader.moduleUris != []
    ensures s.shader == shader && s.flags == AssetConverters.All
    ensures s.vertexInput == VertexInput.DefaultVertex(vertex, 0)
  {
    MakeSpec(shader, AssetConverters.All, VertexInput.Info([], []), vertex)
  }

  // ---------------------------------------------------------------- cache

  /** A render pass, by handle; 0 is null. */
  type RenderPass = nat

  /**
   * `Meta`: the pool data of the spec's sets, and its pipeline layout, by
   * whether it is active and the generation of the `makeMeta` call that made
   * it.
   */
  datatype Meta = Meta(spd: PoolData, active: bool, generation: nat)

  /** `Pipe`: the pipeline, the layout it was built with, its shader input, and the stale mark. */
  datatype Pipe = Pipe(pipeline: nat, layout: nat, input: ShaderInput, stale: bool)

  /** `Pipeline`, the view `Pipe::pipe()` returns: its own input, pipeline and layout. */
  datatype PipelineView = PipelineView(input: ShaderInput, pipeline: nat, layout: nat)

  function View(p: Pipe): (v: PipelineView)
    ensures v.input == p.input && v.pipeline == p.pipeline && v.layout == p.layout
  {
    PipelineView(p.input, p.pipeline, p.layout)
  }

  /** `SpecMap`: pipes by render pass, the spec, and its meta. */
  datatype SpecMap = SpecMap(pipes: map<RenderPass, Pipe>, spec: Spec, meta: Meta)

  /** `PipelineFactory`: the cache by spec hash, the buffering for new pools, and the next fresh pipeline id. */
  datatype Factory = Factory(storage: map<Hash, SpecMap>, buffering: Buffering, serial: nat)

  /** `PipelineFactory(vram, getSpirV, buffering)`: an empty cache. */
  function NewFactory(buffering: Buffering): (f: Factory)
    ensures f.storage == map[] && f.buffering == buffering && Inv(f)
  {
    Factory(map[], buffering, 1)
  }

  /**
   * Every stored spec has an active meta: entries are only made by `get`,
   * which builds it.  Every stored pipe was issued before the factory's
   * next id, and was laid out by the spec's current meta or an earlier one.
   */
  predicate Inv(f: Factory) {
    forall h :: h in f.storage ==> f.storage[h].meta.active && Issued(f.storage[h], f.serial)
  }

  /** Each pipe of `sm` has an id below `serial` and a layout no newer than the meta's. */
  predicate Issued(sm: SpecMap, serial: nat) {
    forall p :: p in sm.pipes ==> sm.pipes[p].pipeline < serial && sm.pipes[p].layout <= sm.meta.generation
  }

  /** `makeMeta(shader)`: the reflected sets with the factory's buffering, and an active layout. */
  function MakeMeta(f: Factory, shader: ShaderSpec, reflect: ShaderSpec -> seq<SetData>, generation: nat): (m: Meta)
    ensures m.active && m.spd == PoolData(reflect(shader), f.buffering) && m.generation == generation
  {
    Meta(PoolData(reflect(shader), f.buffering), true, generation)
  }

  /** The pipe for `(h, rp)` is stored and not stale, so `get` hands it out as it is. */
  predicate Cached(f: Factory, h: Hash, rp: RenderPass) {
    h in f.storage && rp in f.storage[h].pipes && !f.storage[h].pipes[rp].stale
  }

  /**
   * `get(spec, renderPass)` for a spec whose hash is `h`: the entry is made
   * on first use and keeps the spec; the meta is built when inactive; a
   * pipe is built only when none is cached for the pass or it is stale, and
   * a failed build fails the `ENSURE`.
   */
  function Get(f: Factory, spec: Spec, h: Hash, rp: RenderPass, reflect: ShaderSpec -> seq<SetData>, built: bool): (r: Result<(Factory, PipelineView)>)
    requires spec.shader.moduleUris != [] && rp != 0
    ensures r.Ok? <==> Cached(f, h, rp) || built
    ensures r.Ok? ==> Cached(r.value.0, h, rp) && r.value.1 == View(r.value.0.storage[h].pipes[rp])
    ensures r.Ok? ==> r.value.0.storage[h].spec == (if h in f.storage then f.storage[h].spec else spec)
    ensures r.Ok? ==> forall k :: k != h ==> (k in r.value.0.storage <==> k in f.storage) && (k in f.storage ==> r.value.0.storage[k] == f.storage[k])
    ensures r.Ok? ==> forall p :: p != rp ==> (h in f.storage && p in f.storage[h].pipes <==> p in r.value.0.storage[h].pipes)
    ensures Inv(f) && Cached(f, h, rp) ==> r == Ok((f, View(f.storage[h].pipes[rp])))
    ensures r.Ok? && !Cached(f, h, rp) ==> r.value.1.pipeline == f.serial && r.value.1.input == MakeShaderInput(r.value.0.storage[h].meta.spd)
    ensures r.Ok? && Inv(f) ==> Inv(r.value.0)
  {
    var sm0 := if h in f.storage then f.storage[h] else SpecMap(map[], spec, Meta(DefaultPoolData(), false, 0));
    var sm1 := if !sm0.meta.active then sm0.(meta := MakeMeta(f, spec.shader, reflect, sm0.meta.generation)) else sm0;
    if rp in sm1.pipes && !sm1.pipes[rp].stale then
      var f' := if h in f.storage && sm1 == f.storage[h] then f else f.(storage := f.storage[h := sm1]);
      Ok((f', View(sm1.pipes[rp])))
    else if !built then Fatal("Failed to create pipeline")
    else
      var pipe := Pipe(f.serial, sm1.meta.generation, MakeShaderInput(sm1.meta.spd), false);
      var sm2 := sm1.(pipes := sm1.pipes[rp := pipe]);
      Ok((f.(storage := f.storage[h := sm2], serial := f.serial + 1), View(pipe)))
  }

  /** A second `get` with the same spec and pass returns the same pipeline and builds nothing. */
  lemma GetTwice(f: Factory, spec: Spec, h: Hash, rp: RenderPass, reflect: ShaderSpec -> seq<SetData>, built: bool, built': bool)
    requires spec.shader.moduleUris != [] && rp != 0 && Inv(f)
    requires Get(f, spec, h, rp, reflect, built).Ok?
    ensures var (f1, v1) := Get(f, spec, h, rp, reflect, built).value;
            Get(f1, spec, h, rp, reflect, built') == Ok((f1, v1))
  {
  }

  /** `contains(spec, renderPass)`: the spec is stored and has a pipe for the pass. */
  function ContainsPipe(f: Factory, h: Hash, rp: RenderPass): (r: bool)
    ensures r ==> Find(f, h).Some?
  {
    h in f.storage && rp in f.storage[h].pipes
  }

  /** `find(spec)`: the stored spec, or null. */
  function Find(f: Factory, h: Hash): (r: Option<Spec>)
    ensures r.Some? <==> h in f.storage
    ensures r.Some? ==> r.value == f.storage[h].spec
  {
    if h in f.storage then Some(f.storage[h].spec) else None
  }

  /** `specCount()`: the number of stored spec hashes. */
  function SpecCount(f: Factory): (n: nat)
    ensures n == 0 <==> f.storage == map[]
  {
    |f.storage.Keys|
  }

  /** `pipeCount(spec)`: the pipes of a stored spec, 0 for an unknown one. */
  function PipeCount(f: Factory, h: Hash): (n: nat)
    ensures h !in f.storage ==> n == 0
    ensures n == 0 <==> forall rp :: !ContainsPipe(f, h, rp)
  {
    if h in f.storage then
      var pipes := f.storage[h].pipes;
      if pipes == map[] then 0
      else
        var rp :| rp in pipes;
        assert rp in pipes.Keys && ContainsPipe(f, h, rp);
        |pipes.Keys|
    else 0
  }

  /** `clear(spec)`: drops the spec's pipes and keeps its entry. */
  function ClearSpec(f: Factory, h: Hash): (r: Factory)
    ensures forall k :: k in r.storage <==> k in f.storage
    ensures h in f.storage ==> r.storage[h] == f.storage[h].(pipes := map[])
    ensures forall k :: k != h && k in f.storage ==> r.storage[k] == f.storage[k]
    ensures Inv(f) ==> Inv(r)
  {
    if h in f.storage then f.(storage := f.storage[h := f.storage[h].(pipes := map[])]) else f
  }

  /** `clear()`: every entry is dropped. */
  function ClearAll(f: Factory): (r: Factory)
    ensures r.storage == map[] && SpecCount(r) == 0 && Inv(r)
  {
    f.(storage := map[])
  }

  /** The first `get` for a spec that builds stores the spec with one pipe, for the pass asked. */
  lemma GetStores(f: Factory, spec: Spec, h: Hash, rp: RenderPass, reflect: ShaderSpec -> seq<SetData>)
    requires spec.shader.moduleUris != [] && rp != 0 && h !in f.storage
    ensures var f1 := Get(f, spec, h, rp, reflect, true).value.0;
            Find(f1, h) == Some(spec) && ContainsPipe(f1, h, rp) && PipeCount(f1, h) == 1 &&
            SpecCount(f1) == SpecCount(f) + 1
  {
    var f1 := Get(f, spec, h, rp, reflect, true).value.0;
    assert f1.storage.Keys == f.storage.Keys + {h};
    assert f1.storage[h].pipes.Keys == {rp};
  }

  /** A stored spec outlives `clear(spec)`, which empties its pipes, but not `clear()`. */
  lemma ClearKeepsEntry(f: Factory, h: Hash)
    requires h in f.storage
    ensures Find(ClearSpec(f, h), h) == Find(f, h) && PipeCount(ClearSpec(f, h), h) == 0
    ensures SpecCount(ClearSpec(f, h)) == SpecCount(f) && Find(ClearAll(f), h).None?
  {
    assert ClearSpec(f, h).storage.Keys == f.storage.Keys;
  }

  /** The first `get` for a spec stores it; the entry outlives `clear(spec)`, which empties its pipes, but not `clear()`. */
  lemma GetThenClear(f: Factory, spec: Spec, h: Hash, rp: RenderPass, reflect: ShaderSpec -> seq<SetData>)
    requires spec.shader.moduleUris != [] && rp != 0 && h !in f.storage
    ensures var f1 := Get(f, spec, h, rp, reflect, true).value.0;
            Find(f1, h) == Some(spec) && ContainsPipe(f1, h, rp) && PipeCount(f1, h) == 1 &&
            SpecCount(f1) == SpecCount(f) + 1
    ensures var f1 := Get(f, spec, h, rp, reflect, true).value.0;
            Find(ClearSpec(f1, h), h) == Some(spec) && PipeCount(ClearSpec(f1, h), h) == 0 &&
            SpecCount(ClearSpec(f1, h)) == SpecCount(f1) && Find(ClearAll(f1), h).None?
  {
    GetStores(f, spec, h, rp, reflect);
    ClearKeepsEntry(Get(f, spec, h, rp, reflect, true).value.0, h);
  }

  // ---------------------------------------------------------------- hot reload

  /** The spec loads the module `uri`. */
  predicate Uses(sm: SpecMap, uri: Hash) {
    uri in sm.spec.shader.moduleUris
  }

  /** The stored specs that use `uri`. */
  function Users(f: Factory, uri: Hash): (s: set<Hash>)
    ensures forall h :: h in s <==> h in f.storage && Uses(f.storage[h], uri)
  {
    set h | h in f.storage && Uses(f.storage[h], uri)
  }

  /**
   * `markStale(uri)`: every spec using `uri` loses all its pipes and gets a
   * rebuilt meta; the result counts those specs, each once.
   */
  function MarkStale(f: Factory, uri: Hash, reflect: ShaderSpec -> seq<SetData>): (r: (Factory, nat))
    ensures r.1 == |Users(f, uri)|
    ensures r.0.storage.Keys == f.storage.Keys && r.0.buffering == f.buffering && r.0.serial == f.serial
    ensures forall h :: h in f.storage && Uses(f.storage[h], uri) ==>
              r.0.storage[h] == SpecMap(map[], f.storage[h].spec, MakeMeta(f, f.storage[h].spec.shader, reflect, f.storage[h].meta.generation + 1))
    ensures forall h :: h in f.storage && !Uses(f.storage[h], uri) ==> r.0.storage[h] == f.storage[h]
  {
    var storage := map h | h in f.storage ::
      if Uses(f.storage[h], uri) then
        SpecMap(map[], f.storage[h].spec, MakeMeta(f, f.storage[h].spec.shader, reflect, f.storage[h].meta.generation + 1))
      else f.storage[h];
    (f.(storage := storage), |Users(f, uri)|)
  }

  /**
   * After `markStale(uri)` a spec that used `uri` has no pipes, so the next
   * `get` builds a new pipe with the rebuilt layout, while specs that do not
   * use `uri` keep theirs; the count never exceeds `specCount`.
   */
  lemma MarkStaleThenGet(f: Factory, uri: Hash, reflect: ShaderSpec -> seq<SetData>, spec: Spec, h: Hash, rp: RenderPass)
    requires Inv(f) && spec.shader.moduleUris != [] && rp != 0
    requires h in f.storage && Uses(f.storage[h], uri)
    ensures var (f1, n) := MarkStale(f, uri, reflect);
            Inv(f1) && 1 <= n <= SpecCount(f) && PipeCount(f1, h) == 0 && !Cached(f1, h, rp)
    ensures var (f1, _) := MarkStale(f, uri, reflect);
            Get(f1, spec, h, rp, reflect, false).Fatal? &&
            Get(f1, spec, h, rp, reflect, true).value.1.layout == f.storage[h].meta.generation + 1
    ensures var v := Get(MarkStale(f, uri, reflect).0, spec, h, rp, reflect, true).value.1;
            forall k, p :: k in f.storage && p in f.storage[k].pipes ==>
              v.pipeline != f.storage[k].pipes[p].pipeline && v != View(f.storage[k].pipes[p])
    ensures rp in f.storage[h].pipes ==>
              Get(MarkStale(f, uri, reflect).0, spec, h, rp, reflect, true).value.1.layout > f.storage[h].pipes[rp].layout
  {
    var (f1, n) := MarkStale(f, uri, reflect);
    assert h in Users(f, uri);
    assert Users(f, uri) <= f.storage.Keys;
    SubsetCard(Users(f, uri), f.storage.Keys);
  }

  lemma SubsetCard<T>(a: set<T>, b: set<T>)
    requires a <= b
    ensures |a| <= |b|
  {
    assert b == a + (b - a);
  }

  /** `markStale` on a URI no spec uses changes nothing and counts 0. */
  lemma MarkStaleUnused(f: Factory, uri: Hash, reflect: ShaderSpec -> seq<SetData>)
    requires forall h :: h in f.storage ==> !Uses(f.storage[h], uri)
    ensures MarkStale(f, uri, reflect) == (f, 0)
  {
    assert Users(f, uri) == {};
    var f1 := MarkStale(f, uri, reflect).0;
    assert f1.storage == f.storage;
  }
}
