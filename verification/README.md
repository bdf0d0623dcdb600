# LittleEngineVk core, modelled in Dafny

This project models the engine-independent core of LittleEngineVk, a Vulkan
game engine written in C++. Each part is a pure state machine whose contracts
and lemmas state what the engine promises.

The parts modelled are:

- **hashing:** the string `Hash`, and the order-sensitive `HashGen` used to key pipeline specs;
- **deferred destruction:** the defer queue, which runs each callback after a number of frames;
- **staging transfers:** buffer, command and fence recycling, and the batch retirement in `update`;
- **pipeline factory:** the shader-input pools, the spec cache that builds pipes per render pass, and `markStale` for hot reload;
- **descriptor helpers:** the updater that checks bindings and falls back to default textures, the descriptor map handing out set indices, and the binder;
- **vertex input:** the full and quick descriptions and the default `Vertex`;
- **render contexts:** the newer context (buffering validation, sync ring, main pass) and the legacy one (frame state machine, pipelines, pre-rotation);
- **surface classification:** sRGB, RGBA and BGRA formats, and out-of-date results;
- **device:** the `Unique` handle wrappers, buffer usage, and `destroy`;
- **asset store:** add, load, find, unload, reload, the hot-reload update, and the index;
- **asset converters:** pipeline flags and render layers to and from JSON;
- **strings and data store:** the string utilities and the typed id store;
- **ECS registry:** signatures, components and views;
- **file monitor:** timestamp and contents modes;
- **Vulkan frame ring:** create, reset, sync and rotation;
- **shader loading:** GLSL/SPIR-V extension dispatch, compilation and the per-stage modules.

Vulkan, VMA, the file system, the compiler, the clock and `std::hash` are not
called. Their outcomes are parameters of the operations: an acquired image, a
signalled fence set, the reflected set layouts, a `string -> u64` hash, the
files present. Handles are natural numbers, with 0 standing for the null
handle. An `ENSURE` or `ASSERT` failure in the code is a `Fatal` result; an
`EXPECT` on a caller's input is a `requires`. There are two exceptions:

- In `RenderContext::beginFrame`, the `ENSURE(false, ...)` at
  libs/graphics/src/render_context.cpp:140 is followed by cleanup and a
  `nullopt` return. `LegacyRenderContext.BeginFrame` therefore models it as
  logged, with execution going on: the status stays `Drawing` and no frame
  is returned.
- In the registry's view, the `ASSERT` at
  libs/engine/include/engine/ecs/registry.hpp:284 checks an invariant of the
  registry: every entity with flags has a component map. `Registry.View`
  and `Registry.ViewAsWritten` take that invariant, `Registry.Inv`, as a
  `requires` instead of a `Fatal` branch. `Registry.ComponentOpsKeepInv`
  proves that adding and destroying components keep it.

The project has one module per source component:

| Module | File |
|---|---|
| `Hashing` | `hashing.dfy` |
| `HashGen` | `hash_gen.dfy` |
| `DeferQueue` | `defer_queue.dfy` |
| `Transfer` | `transfer.dfy` |
| `PipelineFactory` | `pipeline_factory.dfy` (includes `ShaderInput`) |
| `DescriptorHelper` | `descriptor_helper.dfy` |
| `VertexInput` | `vertex_input.dfy` |
| `RenderContext` | `render_context.dfy` |
| `LegacyRenderContext` | `legacy_render_context.dfy` |
| `Surface` | `surface.dfy` |
| `Device` | `device.dfy` |
| `AssetStore` | `asset_store.dfy` |
| `AssetConverters` | `asset_converters.dfy` |
| `Strings` | `strings.dfy` |
| `DataStore` | `data_store.dfy` |
| `Registry` | `registry.dfy` |
| `FileMonitor` | `file_monitor.dfy` |
| `FrameRing` | `frame_ring.dfy` |
| `Shader` | `shader.dfy` |
| `Wrappers` (shared `Option`/`Result`/`Count`) | `wrappers.dfy` |
| `Arith` (shared modular-arithmetic lemmas) | `arith.dfy` |

## Model

| member | source | states |
|---|---|---|
| Hashing.Default | levk/core/include/levk/core/hash.hpp:17-22 | a default `Hash` has value 0 |
| Hashing.OfString | levk/core/include/levk/core/hash.hpp:36-39 | hashing a string gives the default hash for the empty string, and the string's `std::hash` otherwise |
| Hashing.StdHash | levk/core/include/levk/core/hash.hpp:76-78 | `std::hash<Hash>` yields the value that rebuilds the same hash |
| Hashing.SizeRoundTrip | levk/core/include/levk/core/hash.hpp:32-49 | `Hash(size_t)` and `operator size_t` are mutually inverse |
| Hashing.FromSize | levk/core/include/levk/core/hash.hpp:32 | `Hash(size_t)` keeps the value, so 0 gives the default hash |
| Hashing.ToSize | levk/core/include/levk/core/hash.hpp:49 | `operator size_t` gives the value back; `Hashing.SizeRoundTrip` states the round trip |
| Hashing.EqualityIsValueEquality | levk/core/include/levk/core/hash.hpp:27 | two hashes are equal exactly when their values are |
| Hashing.OfLiteralAsWritten | levk/core/include/levk/core/hash.hpp:43-44 | the literal constructor as written hashes every literal, including `""` |
| Hashing.EmptyLiteralMismatch | levk/core/include/levk/core/hash.hpp:36-44 | for a string hash with a non-zero empty-string hash, `Hash("")` from a literal differs from `Hash(std::string(""))` and from the default |
| Hashing.OfLiteral | levk/core/include/levk/core/hash.hpp:43-44 | the corrected literal constructor maps `""` to the default hash and agrees with the as-written one otherwise |
| Hashing.LiteralAgreesWithString | levk/core/include/levk/core/hash.hpp:36-44 | with the correction, the literal and string constructors agree on every input |
| HashGen.Xor | levk/graphics/include/levk/graphics/utils/utils.hpp:146 | bit `i` of the xor is set exactly when the operands' bits differ |
| HashGen.Shl | levk/graphics/include/levk/graphics/utils/utils.hpp:146 | bit `i` of `v << n` is bit `i - n` of `v`, or 0 below `n` |
| HashGen.Fresh | levk/graphics/include/levk/graphics/utils/utils.hpp:63-68 | a new generator holds hash 0 at offset 0 |
| HashGen.Value | levk/graphics/include/levk/graphics/utils/utils.hpp:63-68 | the generator's value is the accumulated hash |
| HashGen.NextOffset | levk/graphics/include/levk/graphics/utils/utils.hpp:147 | the offset advances by one and wraps at `sizeof(size_t)` |
| HashGen.Feed | levk/graphics/include/levk/graphics/utils/utils.hpp:143-149 | `<<` xors the value shifted by the current offset into the hash and keeps the generator valid |
| HashGen.XorTwice | levk/graphics/include/levk/graphics/utils/utils.hpp:146 | xoring the same word twice restores the hash |
| HashGen.FeedUndo | levk/graphics/include/levk/graphics/utils/utils.hpp:146 | xoring the shifted value again undoes one `<<` on the hash |
| HashGen.FeedAllConcat | levk/graphics/include/levk/graphics/utils/utils.hpp:143-149 | feeding `a + b` is feeding `a`, then `b` |
| HashGen.FeedAllValid | levk/graphics/include/levk/graphics/utils/utils.hpp:147 | any sequence of `<<` keeps the offset below `sizeof(size_t)` |
| HashGen.FeedAllOffset | levk/graphics/include/levk/graphics/utils/utils.hpp:147 | after `n` values the offset has moved `n` places round `sizeof(size_t)` |
| HashGen.FeedLinear | levk/graphics/include/levk/graphics/utils/utils.hpp:146 | `<<` commutes with xoring a constant into the hash |
| HashGen.FeedAllLinear | levk/graphics/include/levk/graphics/utils/utils.hpp:143-149 | a whole sequence of `<<` commutes with xoring a constant into the hash |
| HashGen.FeedTwiceCancels | levk/graphics/include/levk/graphics/utils/utils.hpp:143-149 | a value fed twice, exactly `sizeof(size_t)` places apart, cancels: the hash equals feeding zero in both places |
| HashGen.LapOffset | levk/graphics/include/levk/graphics/utils/utils.hpp:147 | after `sizeof(size_t)` values the offset is back where it started |
| HashGen.FeedSplit | levk/graphics/include/levk/graphics/utils/utils.hpp:146 | feeding `v` is feeding zero plus xoring the shifted `v` |
| HashGen.FeedCancel | levk/graphics/include/levk/graphics/utils/utils.hpp:146 | feeding `v` onto a hash that already holds `v` at this offset clears it |
| HashGen.FeedAllAround | levk/graphics/include/levk/graphics/utils/utils.hpp:143-149 | feeding `[a] + w + [b]` splits into its first value, the middle and its last value |
| DeferQueue.Tick | libs/graphics/src/context/defer_queue.cpp:11-13 | a tick keeps the callback and lowers a positive delay by exactly one |
| DeferQueue.DecrementImpl | libs/graphics/src/context/defer_queue.cpp:8-19 | `decrementImpl` keeps one entry per deferred |
| DeferQueue.DecrementImplTicks | libs/graphics/src/context/defer_queue.cpp:11-13 | every entry is ticked in place |
| DeferQueue.Invoke | libs/graphics/src/context/defer_queue.cpp:21-27 | only set callbacks are invoked |
| DeferQueue.InvokeCount | libs/graphics/src/context/defer_queue.cpp:21-27 | each callback runs as often as it was collected |
| DeferQueue.ClearImpl | libs/graphics/src/context/defer_queue.cpp:29-32 | only entries with a non-zero delay survive |
| DeferQueue.ClearImplSpec | libs/graphics/src/context/defer_queue.cpp:29-32 | an entry survives exactly when its delay is non-zero; a queue with no due entry is unchanged |
| DeferQueue.Decrement | libs/graphics/src/context/defer_queue.cpp:35-41 | the returned count is the number still queued, and all of them still wait |
| DeferQueue.DueSpec | libs/graphics/src/context/defer_queue.cpp:14-16 | a callback is collected exactly when some entry had a delay of at most one |
| DeferQueue.DecrementSpec | libs/graphics/src/context/defer_queue.cpp:35-41 | entries with a delay above one stay ticked, and exactly the callbacks that fell due run |
| DeferQueue.Flush | libs/graphics/src/context/defer_queue.cpp:43-51 | `flush` empties the queue and reports zero pending |
| DeferQueue.FlushSpec | libs/graphics/src/context/defer_queue.cpp:43-51 | `flush` runs every queued callback, once per entry |
| DeferQueue.Callbacks | libs/graphics/src/context/defer_queue.cpp:43-51 | the callbacks of a queue, in order |
| DeferQueue.CallbacksDefers | libs/graphics/src/context/defer_queue.cpp:43-51 | a callback appears among the callbacks once per entry of it |
| DeferQueue.DefersCons | libs/graphics/src/context/defer_queue.cpp:8-19 | the delays of one callback split at the head of the queue |
| DeferQueue.DecrementImplDefers | libs/graphics/src/context/defer_queue.cpp:8-19 | per callback, `decrementImpl` lowers every delay and collects the due ones |
| DeferQueue.ClearImplDefers | libs/graphics/src/context/defer_queue.cpp:29-32 | per callback, `clearImpl` keeps the positive delays |
| DeferQueue.DecrementDefers | libs/graphics/src/context/defer_queue.cpp:35-41 | per callback, `decrement` keeps the lowered positive delays and runs the due ones |
| DeferQueue.DecrementConcat | libs/graphics/src/context/defer_queue.cpp:35-41 | `decrement` acts on each entry independently |
| DeferQueue.DecrementImplConcat | libs/graphics/src/context/defer_queue.cpp:8-19 | `decrementImpl` acts on each entry independently |
| DeferQueue.ClearImplConcat | libs/graphics/src/context/defer_queue.cpp:29-32 | `clearImpl` acts on each entry independently |
| DeferQueue.InvokeConcat | libs/graphics/src/context/defer_queue.cpp:21-27 | callbacks are invoked in queue order |
| DeferQueue.AfterSingle | libs/graphics/src/context/defer_queue.cpp:35-41 | an entry deferred by `n` frames waits `n - j` more after `j` decrements |
| DeferQueue.AfterStep | libs/graphics/src/context/defer_queue.cpp:35-41 | one more decrement lowers a single delay and drops it once due |
| DeferQueue.Single | libs/graphics/src/context/defer_queue.cpp:11-16 | a single delay above one is lowered, and one of at most one is due |
| DeferQueue.AfterShift | libs/graphics/src/context/defer_queue.cpp:35-41 | `k` decrements are `k - 1` decrements followed by one |
| DeferQueue.AfterEmpty | libs/graphics/src/context/defer_queue.cpp:35-41 | a callback not queued stays absent |
| DeferQueue.FiresOnNthDecrement | libs/graphics/src/context/defer_queue.cpp:35-41 | an entry deferred by `n >= 1` frames runs on the `n`-th decrement and on no other |
| DeferQueue.FiresUpToN | libs/graphics/src/context/defer_queue.cpp:35-41 | within the first `n` decrements it runs only on the `n`-th |
| DeferQueue.SilentAfterN | libs/graphics/src/context/defer_queue.cpp:35-41 | after the `n`-th decrement it never runs again |
| DeferQueue.AfterSplit | libs/graphics/src/context/defer_queue.cpp:35-41 | `a + b` decrements are `a` decrements followed by `b` |
| DeferQueue.ZeroFiresFirst | libs/graphics/src/context/defer_queue.cpp:8-19 | an entry with delay 0 runs on the next decrement and is dropped |
| Transfer.Pow2 | levk/graphics/src/device/transfer.cpp:9-13 | powers of two are positive |
| Transfer.Pow2Monotone | levk/graphics/src/device/transfer.cpp:9-13 | powers of two grow with the exponent |
| Transfer.Pow2Add | levk/graphics/src/device/transfer.cpp:9-13 | `2^(a+b) == 2^a * 2^b` |
| Transfer.Pow2Of63 | levk/graphics/src/device/transfer.cpp:9-13 | the largest staging size is `2^63` |
| Transfer.CeilFromSpec | levk/graphics/src/device/transfer.cpp:9-13 | the doubling loop of `ceilPOT` ends on a power of two that covers the size and is at most twice it |
| Transfer.CeilPOTSpec | levk/graphics/src/device/transfer.cpp:9-13 | `ceilPOT(size)` is a power of two, at least 2 and at least `size`, and at most twice `size` above 2 |
| Transfer.CeilPOTMinimal | levk/graphics/src/device/transfer.cpp:9-13 | `ceilPOT(size)` is the least power of two of at least 2 that covers `size` |
| Transfer.CeilFrom | levk/graphics/src/device/transfer.cpp:9-13 | the doubling loop stops at a value no smaller than its start or the size |
| Transfer.CeilPOT | levk/graphics/src/device/transfer.cpp:9-13 | `ceilPOT(size)` is at least 2 and at least `size` |
| Transfer.MakeStagingBuffer | levk/graphics/src/device/transfer.cpp:61-69 | a new staging buffer's write size is `ceilPOT(size)`, and it takes the next fresh id |
| Transfer.NextBuffer | levk/graphics/src/device/transfer.cpp:108-119 | size 0 gives no buffer; otherwise the first pooled buffer that is large enough is taken out of the pool, or a new one is made when none is; every id stays below the next fresh one |
| Transfer.NextCommand | levk/graphics/src/device/transfer.cpp:128-139 | the most recently returned command buffer is reused, else a fresh one is made |
| Transfer.NextFence | levk/graphics/src/device/transfer.cpp:150-157 | the most recently returned fence is reused, else a fresh one is made |
| Transfer.NewStage | levk/graphics/src/device/transfer.cpp:100 | a stage has a buffer exactly when the size is non-zero, and that buffer covers the size; the stage's ids were handed out before the next fresh one |
| Transfer.AddStage | levk/graphics/src/device/transfer.cpp:102-106 | `addStage` appends the stage and its promise to the active batch and changes nothing else |
| Transfer.Scavenge | levk/graphics/src/device/transfer.cpp:141-148 | a retired stage's command buffer, buffer and fence go back to the pools; distinct fences stay distinct |
| Transfer.ScavengeThenNext | levk/graphics/src/device/transfer.cpp:128-157 | the pools are last-in first-out: after `scavenge`, `nextCommand` hands back the stage's command buffer and `nextFence` the fence if it was new, leaving those pools as before |
| Transfer.ScavengeAll | levk/graphics/src/device/transfer.cpp:141-148 | scavenging a batch's stages adds one command buffer per entry after those pooled, keeps the pooled buffers in front, and pools the fence when there is an entry |
| Transfer.SweepBatches | levk/graphics/src/device/transfer.cpp:72-84 | the sweep keeps no more batches than it had, and only adds to the command and fence pools |
| Transfer.NextCommandFresh | levk/graphics/src/device/transfer.cpp:128-139 | `nextCommand` keeps every held id below the next fresh one and returns such an id |
| Transfer.NextFenceFresh | levk/graphics/src/device/transfer.cpp:150-157 | `nextFence` keeps every held id below the next fresh one and returns such an id |
| Transfer.NextCommandIsNew | levk/graphics/src/device/transfer.cpp:128-139 | with an empty pool, `nextCommand` allocates a command buffer no active or submitted stage holds |
| Transfer.NextFenceIsNew | levk/graphics/src/device/transfer.cpp:150-157 | with an empty pool, `nextFence` makes a fence no submitted batch waits on |
| Transfer.AddStageFresh | levk/graphics/src/device/transfer.cpp:102-106 | adding a stage whose ids are below the next fresh one keeps every held id below it |
| Transfer.ScavengeAllFresh | levk/graphics/src/device/transfer.cpp:141-148 | scavenging stages with old ids into pools with old ids leaves only old ids pooled |
| Transfer.SweepFresh | levk/graphics/src/device/transfer.cpp:72-84 | the sweep moves only old ids into the pools and keeps only batches with old ids |
| Transfer.UpdateFresh | levk/graphics/src/device/transfer.cpp:71-98 | `update` keeps every held id below the next fresh one |
| Transfer.Promises | levk/graphics/src/device/transfer.cpp:72-84 | the promises of a batch's entries, in order |
| Transfer.Commands | levk/graphics/src/device/transfer.cpp:141-148 | the command buffers of a batch's entries, in order |
| Transfer.Update | levk/graphics/src/device/transfer.cpp:71-98 | `update` resets the active batch and returns the number of batches still in flight |
| Transfer.ScavengeAllCommands | levk/graphics/src/device/transfer.cpp:141-148 | scavenging a batch returns all its command buffers in order, and keeps fences distinct |
| Transfer.SweepResolves | levk/graphics/src/device/transfer.cpp:72-84 | exactly the promises of retired batches are resolved, in order |
| Transfer.SweepReturnsCommands | levk/graphics/src/device/transfer.cpp:72-84 | exactly the command buffers of retired batches go back to the pool |
| Transfer.SweepFencesDistinct | levk/graphics/src/device/transfer.cpp:72-84 | retiring batches never puts a fence into the pool twice |
| Transfer.PromisesConcat | levk/graphics/src/device/transfer.cpp:72-84 | the promises of two lists of entries concatenate |
| Transfer.CommandsConcat | levk/graphics/src/device/transfer.cpp:141-148 | the commands of two lists of entries concatenate |
| Transfer.SweepKeeps | levk/graphics/src/device/transfer.cpp:72-84 | unsignalled batches and padded signalled batches are kept, and the rest retire |
| Transfer.Retiring | levk/graphics/src/device/transfer.cpp:72-84 | at most every batch retires |
| Transfer.UpdateSpec | levk/graphics/src/device/transfer.cpp:71-98 | `update` resolves the retired promises and submits the active batch only when it has entries |
| Transfer.UpdateKeepsFencesDistinct | levk/graphics/src/device/transfer.cpp:71-98 | `update` never leaves a fence twice in the free list |
| PipelineFactory.DefaultPoolData | levk/graphics/include/levk/graphics/render/pipeline_factory.hpp:29-37 | default pool data has no sets and double buffering |
| PipelineFactory.MakeShaderInput | levk/graphics/src/render/pipeline_factory.cpp:9-20 | one pool per reflected set, carrying its number, layout and bindings, with `eNone` buffering replaced by double |
| PipelineFactory.SetOf | levk/graphics/src/render/pipeline_factory.cpp:27-30 | a set is available exactly for a pooled set number, with that pool's bindings |
| PipelineFactory.Swap | levk/graphics/src/render/pipeline_factory.cpp:32-34 | `swap` rotates every pool and keeps the set numbers |
| PipelineFactory.ShaderInputContains | levk/graphics/src/render/pipeline_factory.cpp:22-25 | `contains` holds exactly for a reflected set whose layout is not null, and `swap` does not change it |
| PipelineFactory.Contains | levk/graphics/src/render/pipeline_factory.cpp:22-25 | a set is contained only when `set` can hand it out |
| PipelineFactory.MakeSpec | levk/graphics/src/render/pipeline_factory.cpp:41-48 | a spec keeps its shader and flags, and falls back to the default `Vertex` input when none is given |
| PipelineFactory.DefaultSpec | levk/graphics/include/levk/graphics/render/pipeline_factory.hpp:45 | `spec(shader)` with its default arguments has every fixed-state flag and the default `Vertex` input |
| PipelineFactory.View | levk/graphics/include/levk/graphics/render/pipeline_factory.hpp:61-68 | a pipe's view exposes its input, pipeline and layout |
| PipelineFactory.NewFactory | levk/graphics/include/levk/graphics/render/pipeline_factory.hpp:86 | a new factory has empty storage and satisfies the factory's invariant |
| PipelineFactory.MakeMeta | levk/graphics/src/render/pipeline_factory.cpp:144-177 | the meta of a spec holds its reflected pool data at the factory's buffering |
| PipelineFactory.Get | levk/graphics/src/render/pipeline_factory.cpp:62-82 | `get` returns the cached pipe for the render pass if there is one; otherwise it builds one with a new id, stores it under the spec, and leaves every other spec and pass alone; building failure is fatal; every stored pipe keeps an id below the next one and a layout no newer than its spec's meta |
| PipelineFactory.GetTwice | levk/graphics/src/render/pipeline_factory.cpp:62-82 | a second `get` of the same spec and pass returns the cached pipe and changes nothing |
| PipelineFactory.Find | levk/graphics/src/render/pipeline_factory.cpp:89-92 | `find` returns the stored spec exactly for a stored hash |
| PipelineFactory.PipeCount | levk/graphics/src/render/pipeline_factory.cpp:109-112 | `pipeCount` is 0 exactly when the spec has no pipe for any pass |
| PipelineFactory.ClearSpec | levk/graphics/src/render/pipeline_factory.cpp:114-116 | `clear(spec)` drops that spec's pipes, keeps every entry and keeps the factory's invariant |
| PipelineFactory.ClearAll | levk/graphics/include/levk/graphics/render/pipeline_factory.hpp:55-56 | `clear()` drops every spec |
| PipelineFactory.GetStores | levk/graphics/src/render/pipeline_factory.cpp:84-92 | the first `get` of a spec stores it with one pipe and adds one to `specCount` |
| PipelineFactory.ClearKeepsEntry | levk/graphics/src/render/pipeline_factory.cpp:114-116 | a stored spec outlives `clear(spec)` with no pipes, but not `clear()` |
| PipelineFactory.GetThenClear | levk/graphics/src/render/pipeline_factory.cpp:62-116 | a spec stored by `get` is found with one pipe, keeps its entry with no pipes after `clear(spec)`, and is gone after `clear()` |
| PipelineFactory.ContainsPipe | levk/graphics/src/render/pipeline_factory.cpp:84-87 | `contains(spec, renderPass)` holds only for a spec that `find` finds |
| PipelineFactory.SpecCount | levk/graphics/include/levk/graphics/render/pipeline_factory.hpp:55 | `specCount` is 0 exactly when nothing is stored |
| PipelineFactory.Users | levk/graphics/src/render/pipeline_factory.cpp:94-107 | the specs whose shader uses a URI |
| PipelineFactory.MarkStale | levk/graphics/src/render/pipeline_factory.cpp:94-107 | `markStale(uri)` drops the pipes of every spec that uses the URI, rebuilds its meta and returns how many there were; other specs are untouched |
| PipelineFactory.MarkStaleThenGet | levk/graphics/src/render/pipeline_factory.cpp:62-107 | after `markStale`, a user of the URI has no pipes, and the next `get` builds a pipeline unlike every pipeline stored before, with a newer layout |
| PipelineFactory.SubsetCard | levk/graphics/src/render/pipeline_factory.cpp:94-107 | a subset is no larger than its superset, so the stale count is at most `specCount` |
| PipelineFactory.MarkStaleUnused | levk/graphics/src/render/pipeline_factory.cpp:94-107 | a URI no spec uses leaves the factory unchanged and counts 0 |
| DescriptorHelper.NewUpdater | levk/graphics/include/levk/graphics/render/descriptor_helper.hpp:41 | a new updater has no checked bindings and no writes |
| DescriptorHelper.Check | levk/graphics/src/render/descriptor_helper.cpp:24-34 | a binding passes when the updater is valid and the binding was cached or the set has it with the wanted types; passing caches it |
| DescriptorHelper.CheckCached | levk/graphics/src/render/descriptor_helper.cpp:24-34 | once passed, a binding passes again whatever types are asked |
| DescriptorHelper.CheckedBindingInSet | levk/graphics/src/render/descriptor_helper.cpp:24-34 | every binding that passes belongs to the set |
| DescriptorHelper.SafeTex | levk/graphics/src/render/descriptor_helper.cpp:36-41 | a usable texture is kept; otherwise the cubemap or texture fallback is chosen by the wanted type |
| DescriptorHelper.SafeTexUsable | levk/graphics/src/render/descriptor_helper.cpp:36-41 | with good fallbacks, the texture chosen is always usable for the wanted type |
| DescriptorHelper.UpdateBuffer | levk/graphics/src/render/descriptor_helper.cpp:8-14 | a buffer is written exactly when its binding passes the check |
| DescriptorHelper.UpdateTexture | levk/graphics/src/render/descriptor_helper.cpp:16-22 | a texture is written, through the fallback, exactly when its binding passes |
| DescriptorHelper.UpdateData | levk/graphics/include/levk/graphics/render/descriptor_helper.hpp:90-97 | data is written exactly when its binding passes with the given descriptor type |
| DescriptorHelper.InvalidUpdaterWritesNothing | levk/graphics/include/levk/graphics/render/descriptor_helper.hpp:43 | an updater without a set writes nothing and reports failure |
| DescriptorHelper.CacheIgnoresType | levk/graphics/src/render/descriptor_helper.cpp:24-34 | a binding with another descriptor type is rejected first, but accepted once a buffer update cached it |
| DescriptorHelper.NewMap | levk/graphics/include/levk/graphics/render/descriptor_helper.hpp:20 | a new map's counters all start at 0 |
| DescriptorHelper.SetFallback | levk/graphics/include/levk/graphics/render/descriptor_helper.hpp:31-32 | setting the fallback changes nothing else |
| DescriptorHelper.NextSet | levk/graphics/src/render/descriptor_helper.cpp:45-52 | `nextSet` on a set the input has hands out its counter as the index, records it and bumps the counter; otherwise it returns an invalid updater and changes nothing |
| DescriptorHelper.Handed | levk/graphics/src/render/descriptor_helper.cpp:45-52 | `n` successive `nextSet` calls hand out `n` indices |
| DescriptorHelper.NextSetCounts | levk/graphics/src/render/descriptor_helper.cpp:45-52 | successive calls hand out consecutive indices from the counter on and leave other sets' counters alone |
| DescriptorHelper.NewMapCountsFromZero | levk/graphics/src/render/descriptor_helper.cpp:43-52 | a new map hands out 0, 1, 2, … for a set the input has |
| DescriptorHelper.NextSetAbsent | levk/graphics/src/render/descriptor_helper.cpp:43-52 | a set the input lacks gets an updater that writes nothing |
| DescriptorHelper.Selected | levk/graphics/src/render/descriptor_helper.cpp:54-58 | the set numbers to bind are exactly those with an index that the input has, in increasing order |
| DescriptorHelper.Bind | levk/graphics/src/render/descriptor_helper.cpp:54-58 | one bind per selected set, at its assigned index |
| DescriptorHelper.BindExactly | levk/graphics/src/render/descriptor_helper.cpp:54-58 | a set is bound exactly when it has an index and a layout, at that index, in set order |
| DescriptorHelper.NextSetUpdaterChecksPool | levk/graphics/src/render/descriptor_helper.cpp:24-52 | an updater from `nextSet` accepts exactly the bindings of that set's pool |
| VertexInput.Wrap | levk/graphics/src/render/context.cpp:49-58 | the `u32` cast is the identity below 2^32 |
| VertexInput.TypeAttributes | levk/graphics/src/render/context.cpp:53-60 | a type's members become attributes at its binding with consecutive locations |
| VertexInput.Layout | levk/graphics/src/render/context.cpp:47-62 | one binding per vertex type |
| VertexInput.Full | levk/graphics/src/render/context.cpp:44-64 | the full form has one binding per vertex type |
| VertexInput.StartShift | levk/graphics/src/render/context.cpp:58 | the location delta of type `i + 1` is the first type's member count plus that of type `i` among the rest |
| VertexInput.LayoutCount | levk/graphics/src/render/context.cpp:53-60 | there is one attribute per member of every type |
| VertexInput.LayoutBinding | levk/graphics/src/render/context.cpp:48-52 | type `i` is bound at `bindStart + i` with its own stride and rate |
| VertexInput.LayoutAttribute | levk/graphics/src/render/context.cpp:53-60 | member `j` of type `i` carries its type's binding and the next location, with no gaps across types |
| VertexInput.Start | levk/graphics/src/render/context.cpp:53-60 | the first location offset of type `i` is the member count of the types before it; `VertexInput.LayoutAttribute` states its use |
| VertexInput.AttributeInHead | levk/graphics/src/render/context.cpp:53-60 | the first type's attributes open the list |
| VertexInput.AttributeInTail | levk/graphics/src/render/context.cpp:53-61 | the rest follow, shifted by the first type's member count |
| VertexInput.AllBindings | levk/graphics/src/render/context.cpp:48-52 | every type gets its own binding |
| VertexInput.AllAttributes | levk/graphics/src/render/context.cpp:53-60 | every member of every type gets its own attribute |
| VertexInput.LayoutSpec | levk/graphics/src/render/context.cpp:44-64 | the full form's bindings and attributes, for all types and members at once |
| VertexInput.Quick | levk/graphics/src/render/context.cpp:66-83 | one per-vertex binding, and one attribute per member with locations from 0 |
| VertexInput.QuickIsFull | levk/graphics/src/render/context.cpp:44-83 | the quick form is the full form for a single per-vertex type with locations from 0 |
| VertexInput.DefaultVertex | levk/graphics/src/render/context.cpp:33-42 | the default `Vertex` gives four attributes at locations 0–3 with the position, colour, normal and texture-coordinate formats |
| RenderContext.ValidateBuffering | levk/graphics/src/render/context.cpp:17-22 | fatal unless there are at least two images and some buffering; warns exactly on buffering two or more above the image count, and on buffering below double |
| RenderContext.SyncIndex | levk/graphics/src/render/context.cpp:103 | the sync set in use is within the ring |
| RenderContext.New | levk/graphics/src/render/context.cpp:85-92 | construction succeeds exactly when validation does, with one sync per buffered frame and the default defer equal to the buffering |
| RenderContext.BeginMainPass | levk/graphics/src/render/context.cpp:101-110 | a pass is opened exactly on a drawable framebuffer with an acquired image, which is kept |
| RenderContext.Submit | levk/graphics/src/render/context.cpp:128-136 | true exactly on a drawable framebuffer when both submit and present succeed |
| RenderContext.EndMainPass | levk/graphics/src/render/context.cpp:112-122 | submits only if an image was acquired, forgets it, and always decrements deferred destruction and rotates the syncs |
| RenderContext.SkippedFrameStillRotates | levk/graphics/src/render/context.cpp:101-122 | a skipped frame advances the ring and the defer queue like a drawn one |
| RenderContext.DrawnFrame | levk/graphics/src/render/context.cpp:101-122 | a drawn frame opens on the acquired image and reports submit and present |
| RenderContext.SyncReuse | levk/graphics/src/render/context.cpp:119-120 | each `endMainPass` moves to the next sync set round the ring |
| LegacyRenderContext.New | libs/graphics/src/render_context.cpp:79-82 | a new context is ready, with no pipelines |
| LegacyRenderContext.MoveConstruct | libs/graphics/src/render_context.cpp:84-87 | the moved-to context takes the state and the source becomes idle |
| LegacyRenderContext.MoveAssign | libs/graphics/src/render_context.cpp:89-99 | self-assignment changes nothing; otherwise the target takes the state and the source becomes idle |
| LegacyRenderContext.MovedFromIsInert | libs/graphics/src/render_context.cpp:84-87 | a moved-from context cannot wait, begin or end a frame |
| LegacyRenderContext.WaitForFrame | libs/graphics/src/render_context.cpp:105-121 | waiting succeeds when ready or waiting, and a waiting context becomes ready after a deferred decrement |
| LegacyRenderContext.BeginFrame | libs/graphics/src/render_context.cpp:123-146 | a frame begins exactly when ready, not paused, acquired and begun, and then has a command buffer |
| LegacyRenderContext.EndFrame | libs/graphics/src/render_context.cpp:157-182 | ending a drawn frame submits, and rotates the syncs only when presented; otherwise nothing happens |
| LegacyRenderContext.Reconstructed | libs/graphics/src/render_context.cpp:184-193 | a stale swapchain that is rebuilt puts the context back to waiting |
| LegacyRenderContext.FrameCycle | libs/graphics/src/render_context.cpp:105-182 | begin, end, wait returns a ready context to ready with one submit |
| LegacyRenderContext.OneFrameInFlight | libs/graphics/src/render_context.cpp:105-146 | while drawing, no frame can begin and waiting fails |
| LegacyRenderContext.FailedPresentKeepsSync | libs/graphics/src/render_context.cpp:157-182 | a failed present does not rotate the syncs |
| LegacyRenderContext.NeverIdleWithoutMove | libs/graphics/src/render_context.cpp:105-193 | only a move makes a context idle |
| LegacyRenderContext.DestroyRender | libs/graphics/src/render_context.cpp:30-36 | destroying a `Render` with a command buffer ends the frame; otherwise it does nothing |
| LegacyRenderContext.MoveRender | libs/graphics/src/render_context.cpp:14-15 | a moved-from `Render` has no command buffer |
| LegacyRenderContext.RenderEndsFrameOnce | libs/graphics/src/render_context.cpp:14-36 | a moved `Render` ends its frame exactly once |
| LegacyRenderContext.AssignRender | libs/graphics/src/render_context.cpp:17-24 | assigning a `Render` first ends the target's frame, then takes the source's |
| LegacyRenderContext.MakePipeline | libs/graphics/src/render_context.cpp:195-204 | a pipeline is made exactly for a new id |
| LegacyRenderContext.DestroyPipeline | libs/graphics/src/render_context.cpp:206-212 | destroying reports whether the id was present and removes it |
| LegacyRenderContext.Pipeline | libs/graphics/src/render_context.cpp:214-223 | a pipeline is found exactly for a stored id |
| LegacyRenderContext.PipelineLifecycle | libs/graphics/src/render_context.cpp:195-223 | make, find and destroy of one id leave other ids alone |
| LegacyRenderContext.HasPipeline | libs/graphics/src/render_context.cpp:214-216 | `hasPipeline` holds for a stored id; `LegacyRenderContext.Pipeline` finds exactly those |
| LegacyRenderContext.PreRotateDegreesAsWritten | libs/graphics/src/render_context.cpp:225-239 | the as-written switch gives 90 for a 90° transform and 0 for a 270° one |
| LegacyRenderContext.PreRotate270Lost | libs/graphics/src/render_context.cpp:235 | as written, a 270° transform is treated as no rotation |
| LegacyRenderContext.PreRotateDegrees | libs/graphics/src/render_context.cpp:225-239 | corrected: each transform rotates by its own quarter turns, below 360° |
| LegacyRenderContext.PreRotateInjective | libs/graphics/src/render_context.cpp:225-239 | corrected: distinct transforms rotate differently and agree with the code except at 270° |
| Surface.ClassesExact | levk/graphics/include/levk/graphics/render/surface.hpp:96-129 | the sRGB, RGBA and BGRA classes are exactly their format lists |
| Surface.RgbaBgraDisjoint | levk/graphics/include/levk/graphics/render/surface.hpp:107-129 | no format is both RGBA and BGRA |
| Surface.SrgbOverlaps | levk/graphics/include/levk/graphics/render/surface.hpp:96-129 | only the two 8-bit sRGB formats are also RGBA or BGRA |
| Surface.OutOfDateExact | levk/graphics/include/levk/graphics/render/surface.hpp:131-138 | a result is out of date exactly when it is out-of-date or suboptimal |
| Surface.ValidExact | levk/graphics/include/levk/graphics/render/surface.hpp:43 | a size is valid exactly when both sides are positive |
| Surface.Srgb | levk/graphics/include/levk/graphics/render/surface.hpp:96-105 | `srgb` holds exactly for the five sRGB formats |
| Surface.Rgba | levk/graphics/include/levk/graphics/render/surface.hpp:107-117 | `rgba` holds exactly for the six 8-bit RGBA formats |
| Surface.Bgra | levk/graphics/include/levk/graphics/render/surface.hpp:119-129 | `bgra` holds exactly for the six 8-bit BGRA formats |
| Surface.OutOfDate | levk/graphics/include/levk/graphics/render/surface.hpp:131-138 | `outOfDate` holds exactly for the out-of-date and suboptimal results |
| Surface.Valid | levk/graphics/include/levk/graphics/render/surface.hpp:43 | a framebuffer size is valid when both sides are positive; `Surface.ValidExact` states the consequences |
| Device.Empty | levk/graphics/include/levk/graphics/device/device.hpp:140 | a default `Unique` is false |
| Device.Drop | levk/graphics/include/levk/graphics/device/device.hpp:144-148 | the destructor calls the deleter once exactly when the wrapper is true |
| Device.MoveConstruct | levk/graphics/include/levk/graphics/device/device.hpp:142 | the new wrapper takes the contents and the source releases nothing |
| Device.MoveAssign | levk/graphics/include/levk/graphics/device/device.hpp:143-159 | move assignment swaps the two wrappers' contents |
| Device.MovesConserveReleases | levk/graphics/include/levk/graphics/device/device.hpp:142-159 | moves neither lose nor duplicate a deleter call |
| Device.MovedFromReleasesNothing | levk/graphics/include/levk/graphics/device/device.hpp:142-146 | a moved-from wrapper releases nothing and the target releases what the source would have |
| Device.DropVoid | levk/graphics/include/levk/graphics/device/device.hpp:171-175 | `Unique<void>` calls its deleter once exactly when it has a device |
| Device.MoveConstructVoid | levk/graphics/include/levk/graphics/device/device.hpp:169 | the moved-from `Unique<void>` is false |
| Device.MoveAssignVoid | levk/graphics/include/levk/graphics/device/device.hpp:170-180 | move assignment swaps the devices |
| Device.VoidMovesConserveReleases | levk/graphics/include/levk/graphics/device/device.hpp:169-180 | `Unique<void>` moves neither lose nor duplicate a deleter call |
| Device.BufferUsageOf | levk/graphics/include/levk/graphics/device/device.hpp:183-188 | storage usage exactly for a storage-buffer descriptor, uniform otherwise |
| Device.Destroy | levk/graphics/include/levk/graphics/device/device.hpp:190-196 | `destroy` skips null handles |
| Device.DestroyCount | levk/graphics/include/levk/graphics/device/device.hpp:190-196 | every non-null handle is destroyed once per occurrence, and null ones never |
| Device.DefaultV | levk/graphics/include/levk/graphics/device/device.hpp:78-81 | a handle is default exactly when it is the null handle |
| Device.Truthy | levk/graphics/include/levk/graphics/device/device.hpp:148 | a wrapper is true when it has a device and a non-null handle; `Device.Drop` and `Device.Empty` state its uses |
| AssetStore.AddAsset | levk/engine/include/levk/engine/assets/asset_store.hpp:184-192 | an asset is stored under the hash of its URI, replacing any old one; none adds nothing |
| AssetStore.Add | levk/engine/include/levk/engine/assets/asset_store.hpp:122-130 | `add` returns the object and makes it findable under its URI and type |
| AssetStore.Load | levk/engine/include/levk/engine/assets/asset_store.hpp:132-139 | a successful load stores a loaded asset; a failed one changes nothing |
| AssetStore.Find | levk/engine/include/levk/engine/assets/asset_store.hpp:141-149 | `find` returns the object exactly for a stored key of the asked type |
| AssetStore.UnloadTyped | levk/engine/include/levk/engine/assets/asset_store.hpp:171-182 | typed `unload` removes exactly a stored key of that type |
| AssetStore.Unload | levk/engine/src/assets/asset_store.cpp:6-13 | `unload` reports whether the key existed, removes it and keeps the others |
| AssetStore.Reload | levk/engine/include/levk/engine/assets/asset_store.hpp:156-169 | reloading a missing or other-typed key does nothing; an unloaded asset is fatal; a reload signals the asset's URI |
| AssetStore.TypedImpliesUntyped | levk/engine/include/levk/engine/assets/asset_store.hpp:151-182 | typed `exists` and `unload` imply and agree with the untyped ones |
| AssetStore.ExistsTyped | levk/engine/include/levk/engine/assets/asset_store.hpp:151-154 | typed `exists` holds exactly for a stored key of that type with an object |
| AssetStore.Exists | levk/engine/src/assets/asset_store.cpp:4 | untyped `exists` holds for a stored key; `AssetStore.TypedImpliesUntyped` relates it to the typed one |
| AssetStore.AddOverwrites | levk/engine/include/levk/engine/assets/asset_store.hpp:122-130 | adding the same URI with another type hides the old one |
| AssetStore.FailedLoadKeepsOld | levk/engine/include/levk/engine/assets/asset_store.hpp:132-139 | a failed load keeps the store |
| AssetStore.AddedNeverDirty | levk/engine/include/levk/engine/assets/asset_store.hpp:110-130 | a plain `add` is never dirty |
| AssetStore.Update | levk/engine/src/assets/asset_store.cpp:21-36 | `update` reloads exactly the dirty assets whose reload succeeds, and counts them |
| AssetStore.Clear | levk/engine/src/assets/asset_store.cpp:38-43 | `clear` removes every asset and resource |
| AssetStore.Index | levk/engine/src/assets/asset_store.cpp:45-64 | every type in the index has at least one URI |
| AssetStore.Group | levk/engine/src/assets/asset_store.cpp:45-64 | a type with a passing asset gets a non-empty group |
| AssetStore.IndexSpec | levk/engine/src/assets/asset_store.cpp:45-64 | a URI is listed under a type exactly when an asset of that type passes the type and name filters |
| AssetStore.IndexUnfiltered | levk/engine/src/assets/asset_store.cpp:45-64 | with no filters, every asset is listed under its type |
| AssetStore.IndexSignFilter | levk/engine/src/assets/asset_store.cpp:45-64 | a type filter excludes every other type |
| AssetStore.OnModified | levk/engine/src/assets/asset_store.cpp:15-19 | a modification is signalled, with the URI, exactly for an existing key |
| AssetStore.AddKeepsKeyed | levk/engine/include/levk/engine/assets/asset_store.hpp:122-139 | `add` and `load` keep every asset stored under the hash of its URI |
| AssetConverters.Named | levk/engine/src/assets/asset_converters.cpp:17-37 | a name maps back to the one flag that has it |
| AssetConverters.Names | levk/engine/src/assets/asset_converters.cpp:10-13 | the names listed are exactly those of the flags set |
| AssetConverters.Serialise | levk/engine/src/assets/asset_converters.cpp:4-15 | all flags serialise as `["all"]`, others as their names |
| AssetConverters.Parse | levk/engine/src/assets/asset_converters.cpp:17-37 | a non-array parses to no flags |
| AssetConverters.ParseItemsReference | levk/engine/src/assets/asset_converters.cpp:17-37 | parsing gives all flags if `"all"` appears, else the flags named |
| AssetConverters.ParseReference | levk/engine/src/assets/asset_converters.cpp:17-37 | a flag is parsed exactly when it is named, or `"all"` appears |
| AssetConverters.RoundTrip | levk/engine/src/assets/asset_converters.cpp:4-37 | parsing a serialised flag set gives it back |
| AssetConverters.SerialiseInjective | levk/engine/src/assets/asset_converters.cpp:4-15 | distinct flag sets serialise differently |
| AssetConverters.SerialiseLayer | levk/engine/src/assets/asset_converters.cpp:39-44 | a layer serialises its flags and order |
| AssetConverters.ParseLayer | levk/engine/src/assets/asset_converters.cpp:46-54 | an empty mode or topology keeps the default, others are looked up; flags and order are parsed |
| AssetConverters.LayerRoundTrip | levk/engine/src/assets/asset_converters.cpp:39-54 | with consistent name tables, parsing a serialised layer gives it back |
| Strings.FindFrom | levk/core/src/utils/string.cpp:22-33 | the first occurrence of a character from a position on |
| Strings.Find | levk/core/src/utils/string.cpp:113-117 | the first occurrence of a character, none exactly when absent |
| Strings.FindLast | levk/core/src/utils/string.cpp:88-92 | the last occurrence of a character, none exactly when absent |
| Strings.FindColons | levk/core/src/utils/string.cpp:22-33 | the first `::` of a name |
| Strings.MinimalName | levk/core/src/utils/string.cpp:22-33 | `minimalName` keeps a suffix of the name and leaves no qualifier to strip |
| Strings.MinimalNameIdempotent | levk/core/src/utils/string.cpp:22-33 | applying `minimalName` twice changes nothing |
| Strings.MinimalNamePlain | levk/core/src/utils/string.cpp:22-33 | a name without colons is kept |
| Strings.MinimalNameDropsQualifier | levk/core/src/utils/string.cpp:22-33 | a leading namespace is dropped |
| Strings.FirstColonsAfter | levk/core/src/utils/string.cpp:22-33 | the first `::` follows a colon-free qualifier |
| Strings.MinimalNameExamples | levk/core/src/utils/string.cpp:22-33 | `a::b::c` becomes `c` |
| Strings.RemoveNamespaces | levk/core/src/utils/string.cpp:88-92 | everything up to the last colon is removed |
| Strings.Bisect | levk/core/src/utils/string.cpp:113-117 | the input splits around the first delimiter, or is kept whole without one |
| Strings.Tokenise | levk/core/include/levk/core/utils/string.hpp:85-99 | at most `n` tokens, none holding the delimiter |
| Strings.ConcatenateLength | levk/core/include/levk/core/utils/string.hpp:101-111 | the joined length is the parts' total plus one delimiter between each pair |
| Strings.Concatenate | levk/core/include/levk/core/utils/string.hpp:101-111 | the parts in order with the delimiter between neighbours; `Strings.ConcatenateLength` and `Strings.ConcatenateThenTokenise` state its length and inverse |
| Strings.ConcatenatePair | levk/core/include/levk/core/utils/string.hpp:101-111 | joining splits at the first part |
| Strings.TokeniseThenConcatenate | levk/core/include/levk/core/utils/string.hpp:85-111 | joining the tokens of a text with fewer than `n` delimiters and no trailing one gives the text back |
| Strings.ConcatenateThenTokenise | levk/core/include/levk/core/utils/string.hpp:85-111 | tokenising at most `n` delimiter-free strings, joined, gives them back when the last is non-empty |
| Strings.TokeniseWhole | levk/core/include/levk/core/utils/string.hpp:85-99 | a text without the delimiter is one token |
| Strings.TokeniseStep | levk/core/include/levk/core/utils/string.hpp:85-99 | the first token ends at the first delimiter |
| Strings.TokeniseExamples | levk/core/include/levk/core/utils/string.hpp:85-99 | a leading delimiter gives an empty token, and the limit cuts tokens off |
| Strings.Replace | levk/core/src/utils/string.cpp:125-134 | the first matching pair replaces a character; no match keeps it |
| Strings.Substitute | levk/core/src/utils/string.cpp:125-134 | every character is replaced by its own first matching pair |
| Strings.SubstituteSinglePass | levk/core/src/utils/string.cpp:125-134 | replacements are not chained |
| Strings.FromCharsBool | levk/core/src/utils/string.cpp:94-104 | exactly the three spellings of true and of false parse |
| Strings.Digit | levk/core/include/levk/core/utils/string.hpp:113-117 | a digit character has its own value |
| Strings.DigitRun | levk/core/include/levk/core/utils/string.hpp:113-117 | the leading run of digits |
| Strings.FromChars | levk/core/include/levk/core/utils/string.hpp:113-117 | a parsed number lies in range, and an empty string does not parse |
| Strings.To | levk/core/include/levk/core/utils/string.hpp:78-83 | `to` gives the parsed value, or the fallback |
| Strings.ToBool | levk/core/include/levk/core/utils/string.hpp:78-83 | `to<bool>` gives the parsed value, or the fallback |
| Strings.Decimal | levk/core/include/levk/core/utils/string.hpp:113-117 | a non-empty run of digits |
| Strings.DecimalValue | levk/core/include/levk/core/utils/string.hpp:113-117 | the digits of `n` read back as `n` |
| Strings.FromCharsDecimal | levk/core/include/levk/core/utils/string.hpp:113-117 | the decimal digits of an in-range number parse to it, whatever non-digits follow |
| Strings.FromCharsNegative | levk/core/include/levk/core/utils/string.hpp:113-117 | a minus sign parses for a signed range |
| Strings.FromCharsUnsignedMinus | levk/core/include/levk/core/utils/string.hpp:113-117 | a minus sign fails for an unsigned range |
| Strings.ToText | levk/core/src/utils/string.cpp:106-111 | one character per byte, with the byte's value |
| Strings.FromText | levk/core/src/utils/string.cpp:106-111 | a text converts back exactly when every character fits a byte |
| Strings.ToTextRoundTrip | levk/core/src/utils/string.cpp:106-111 | converting bytes to text and back gives them back |
| DataStore.Emplace | libs/core/include/core/utils/data_store.hpp:16-19 | `emplace` adds a new id, never overwrites, and fails on a type mismatch |
| DataStore.Set | libs/core/include/core/utils/data_store.hpp:11-14 | `set` makes a new id findable at its type |
| DataStore.Erase | libs/core/include/core/utils/data_store.hpp:21 | `erase` removes the id and keeps every other |
| DataStore.Find | libs/core/include/core/utils/data_store.hpp:23-27 | `find` returns the value exactly for an id stored at that type |
| DataStore.Get | libs/core/include/core/utils/data_store.hpp:29-32 | `get` returns the stored value |
| DataStore.EmplaceThenFind | libs/core/include/core/utils/data_store.hpp:16-34 | an emplaced id is contained and found |
| DataStore.EmplaceNeverOverwrites | libs/core/include/core/utils/data_store.hpp:16-27 | emplacing an existing id changes nothing |
| DataStore.EraseThenContains | libs/core/include/core/utils/data_store.hpp:21-34 | an erased id is gone and others are kept |
| DataStore.EmplaceEraseRoundTrip | libs/core/include/core/utils/data_store.hpp:16-21 | emplace then erase restores the store |
| DataStore.Contains | libs/core/include/core/utils/data_store.hpp:34 | `contains` holds for a stored id; `DataStore.EmplaceThenFind` and `DataStore.EraseThenContains` state how it changes |
| Registry.DefaultMaskExcludes | libs/engine/include/engine/ecs/registry.hpp:104-108 | the default view excludes exactly destroyed or disabled entities |
| Registry.Signature | libs/engine/include/engine/ecs/registry.hpp:140-153 | a type's signature is cached on first use and reused afterwards |
| Registry.SignatureStable | libs/engine/include/engine/ecs/registry.hpp:140-153 | computing another type's signature does not change an earlier one |
| Registry.AddComponent | libs/engine/include/engine/ecs/registry.hpp:162-170 | adding to a live entity stores the component, and adding to a missing one does nothing |
| Registry.Component | libs/engine/include/engine/ecs/registry.hpp:239-271 | a component is found exactly when stored |
| Registry.Lookup | libs/engine/include/engine/ecs/registry.hpp:239-248 | a signature is found in a component map exactly when present |
| Registry.DestroyComponent | libs/engine/include/engine/ecs/registry.hpp:196-210 | removal reports whether the component existed and touches no other component or entity |
| Registry.ComponentOpsKeepInv | libs/engine/include/engine/ecs/registry.hpp:162-210 | component changes keep every stored entity live |
| Registry.AddThenDestroy | libs/engine/include/engine/ecs/registry.hpp:162-210 | destroying an added component succeeds and removes it |
| Registry.Row | libs/engine/include/engine/ecs/registry.hpp:290 | a view row looks up each signature in order |
| Registry.ViewAsWritten | libs/engine/include/engine/ecs/registry.hpp:273-295 | as written, a view checks only the first and last signatures |
| Registry.ViewAsWrittenMissesMiddle | libs/engine/include/engine/ecs/registry.hpp:277 | an entity missing a middle component is still viewed as written |
| Registry.View | libs/engine/include/engine/ecs/registry.hpp:273-295 | corrected: an entity is viewed exactly when it matches the mask and has every component |
| Registry.ViewExcludesMissingMiddle | libs/engine/include/engine/ecs/registry.hpp:273-295 | corrected: the same entity is excluded |
| Registry.ViewsAgreeOnTwo | libs/engine/include/engine/ecs/registry.hpp:273-295 | for two signatures the as-written and corrected views agree |
| Registry.ViewAsWrittenEnds | libs/engine/include/engine/ecs/registry.hpp:273-295 | as written, the first and last components are always present |
| FileMonitor.Update | levk/core/src/io/file_monitor.cpp:20-56 | a missing file is not found, an unchanged timestamp is up to date, and contents change only with new payload |
| FileMonitor.FirstObservationUpToDate | levk/core/src/io/file_monitor.cpp:20-56 | the first observation records the time and is up to date |
| FileMonitor.TimestampChangeModified | levk/core/src/io/file_monitor.cpp:26-48 | in timestamp mode a new time is a modification |
| FileMonitor.SameContentsSuppress | levk/core/src/io/file_monitor.cpp:29-46 | in contents mode the same contents are not a modification |
| FileMonitor.NewContentsModified | levk/core/src/io/file_monitor.cpp:29-48 | in contents mode new contents are a modification and are kept |
| FileMonitor.SecondPollUpToDate | levk/core/src/io/file_monitor.cpp:49-51 | polling the same state again is up to date |
| FileMonitor.ReappearRechecks | levk/core/src/io/file_monitor.cpp:20-56 | a file that reappears with its old time is reported modified |
| FileMonitor.TextOf | levk/core/src/io/file_monitor.cpp:58-65 | text is available only in text mode |
| FileMonitor.BytesOf | levk/core/src/io/file_monitor.cpp:67-74 | bytes are available only in binary mode |
| FileMonitor.UpdateThenText | levk/core/src/io/file_monitor.cpp:20-65 | new text is what `text()` returns |
| FrameRing.FreshFrames | libs/engine/src/vuk/renderer.cpp:54-89 | `n` fresh nascent frames with consecutive ids |
| FrameRing.Create | libs/engine/src/vuk/renderer.cpp:25-93 | an empty ring gets `frameCount` nascent frames; otherwise nothing changes |
| FrameRing.Destroy | libs/engine/src/vuk/renderer.cpp:95-110 | every frame is released and the ring emptied |
| FrameRing.Reset | libs/engine/src/vuk/renderer.cpp:112-127 | frames are rebuilt nascent |
| FrameRing.FrameSync | libs/engine/src/vuk/renderer.cpp:212-216 | the current frame, if the index is in range |
| FrameRing.Next | libs/engine/src/vuk/renderer.cpp:218-223 | the current frame is marked used and the index moves round the ring |
| FrameRing.Render | libs/engine/src/vuk/renderer.cpp:129-185 | render waits unless the frame is nascent and advances only on acquire and present |
| FrameRing.OpsKeepInv | libs/engine/src/vuk/renderer.cpp:25-223 | every operation keeps the index in range |
| FrameRing.NextN | libs/engine/src/vuk/renderer.cpp:218-223 | `k` calls to `next` keep the index in range |
| FrameRing.Slot | libs/engine/src/vuk/renderer.cpp:218-223 | the slot `m` steps on is in range |
| FrameRing.NextNIndex | libs/engine/src/vuk/renderer.cpp:218-223 | after `k` calls the index is `k` steps on |
| FrameRing.NextNVisited | libs/engine/src/vuk/renderer.cpp:218-223 | every slot passed is no longer nascent |
| FrameRing.SlotShift | libs/engine/src/vuk/renderer.cpp:218-223 | one `next` shifts the slots by one |
| FrameRing.NextKeepsDone | libs/engine/src/vuk/renderer.cpp:218-223 | a used frame stays used |
| FrameRing.FullLap | libs/engine/src/vuk/renderer.cpp:218-223 | a full lap returns the index and leaves no frame nascent |
| FrameRing.LapVisits | libs/engine/src/vuk/renderer.cpp:218-223 | a full lap uses every frame |
| Shader.Extension | libs/engine/src/gfx/draw/shader.cpp:194-202 | the extension is the suffix from the last dot, or empty without a dot |
| Shader.ExtensionAt | libs/engine/src/gfx/draw/shader.cpp:194-202 | the extension starts at the last dot |
| Shader.ExtensionExamples | libs/engine/src/gfx/draw/shader.cpp:194-202 | `.vert`, `.spv` and the empty extension |
| Shader.Compile | libs/engine/src/gfx/draw/shader.cpp:233-257 | compiling needs the compiler, a source and no existing destination unless overwriting, and then succeeds as the compiler does |
| Shader.CompileTo | libs/engine/src/gfx/draw/shader.cpp:259-264 | compiling to `.spv` refuses an existing output unless overwriting |
| Shader.CompileOverwrite | libs/engine/src/gfx/draw/shader.cpp:233-257 | with overwrite, the destination does not matter |
| Shader.CompileFreshDestination | libs/engine/src/gfx/draw/shader.cpp:233-257 | for a new destination, overwrite does not matter |
| Shader.StatusCheck | libs/engine/src/gfx/draw/shader.cpp:266-274 | the compiler's status check passes when it is online; `Shader.Compile` fails without it |
| Shader.IsGlsl | libs/engine/src/gfx/draw/shader.cpp:24 | `.vert` and `.frag` are the extensions compiled as GLSL |
| Shader.GlslToSpirV | libs/engine/src/gfx/draw/shader.cpp:152-179 | GLSL loads the compiled SPIR-V, or empties on failure |
| Shader.LoadEntry | libs/engine/src/gfx/draw/shader.cpp:16-44 | GLSL compiles, `.spv` reads, other extensions are skipped, and a missing reader or file aborts |
| Shader.CodeMapAsWritten | libs/engine/src/gfx/draw/shader.cpp:129-150 | as written, a failed compile still enters the stage |
| Shader.CodeMap | libs/engine/src/gfx/draw/shader.cpp:129-150 | corrected: only loaded stages enter the map |
| Shader.LoadAllSpirV | libs/engine/src/gfx/draw/shader.cpp:181-192 | one module per stage in the map |
| Shader.ModuleOf | libs/engine/src/gfx/draw/shader.cpp:54-58 | a stage's module, if loaded |
| Shader.Modules | libs/engine/src/gfx/draw/shader.cpp:60-72 | every loaded module by stage |
| Shader.ModulesAfterLoad | libs/engine/src/gfx/draw/shader.cpp:54-72 | after loading, modules exist exactly for the stages given |
| Shader.ModulesAgree | libs/engine/src/gfx/draw/shader.cpp:54-72 | `module` and `modules` agree |
| Shader.ConstructAsWritten | libs/engine/src/gfx/draw/shader.cpp:16-44 | as written, construction from ids loads the as-written code map |
| Shader.FailedCompileLeavesEmptyModule | libs/engine/src/gfx/draw/shader.cpp:141 | a GLSL stage that fails to compile leaves an empty module |
| Shader.Construct | libs/engine/src/gfx/draw/shader.cpp:16-44 | corrected: construction from ids loads only successful stages |
| Shader.ConstructFromIds | libs/engine/src/gfx/draw/shader.cpp:16-44 | corrected: a stage has a module exactly when it loaded |
| Shader.ConstructorsAgreeOnSuccess | libs/engine/src/gfx/draw/shader.cpp:16-44 | the two agree on every stage that did not fail to compile |

## Left out

- Threads, mutexes and locks around the defer queue, the transfer and the
  asset store: every operation is modelled as one atomic step.
- Vulkan and VMA calls, command recording, queue submission, image layout
  transitions and the renderer: their outcomes are parameters (an acquired
  image, success flags, signalled fences).
- SPIR-V reflection: the set layouts of a shader are a parameter of
  `PipelineFactory.MakeMeta`.
- Floating point and the pre-rotation matrix: pre-rotation is modelled by
  its degrees only.
- The header that declares `Vertex` is not part of this model: its size and
  field offsets are a parameter of `VertexInput.DefaultVertex`.
- The render context's header is not part of this model. `Buffering` is
  modelled as a count (eNone 0 to eTriple 3).
- `Pipe::stale` is never set by the code, so it is not modelled.
- `DescriptorPool::unassigned` is taken to mean a set with a null layout.
- `DescriptorSet::contains` and `textureType` are modelled from their use in
  the helper: the binding must exist and have the wanted types.
- The draw-binding header and its `max_bindings_v` are a parameter (the
  number of set slots).
- Signals: `onModified` returns the URI it would signal instead of calling
  listeners.
- The typed index variant, the one-component view, `spawnEntity`, entity
  naming and attach/detach are not modelled. Neither is the registry's
  `count<Comps...>()` (libs/engine/include/engine/ecs/registry.hpp:67-72),
  which only returns the number of component types it is given, a
  compile-time constant.
- The line-width and name tables of render layers are a parameter of
  `AssetConverters.ParseLayer`.
- Resources in the asset store are kept only as a set to clear.
- AssetStore.Index: the groups carry no `typeName`, the display name each
  asset keeps for its type. The model keys groups by sign only. Each group's
  URIs are a set: the source walks an unordered map of assets, so their
  order is unspecified.
- Transfer.CeilPOT: requires `size <= 2^63`. Above that, doubling a 64-bit
  value overflows to 0 and the loop in the source never ends.
- Hot reload of shaders (`Shader::update`) and the file monitor's use by the
  store are not modelled. The monitor itself is.
- The legacy render context's `vertexInput` overloads (libs render_context.cpp:38-77)
  repeat the newer ones; they are not modelled separately.
- Demangling with `__cxa_demangle` is left out; `minimalName` and
  `removeNamespaces` act on the demangled name.
- DeferQueue.DecrementImpl: its own contract states only the length; what
  it does to each entry and which callbacks it collects is in
  `DecrementImplTicks` and `DueSpec`.
- Device.MoveAssign: requires both wrappers to have the same deleter, which
  C++ enforces by the type.
- VertexInput.Wrap: `u32` casts are modelled as wrapping modulo 2^32; the
  contracts state the identity only below 2^32.

## Findings

| source | as written | input that shows it | evidently intended | confidence | as-written member | corrected member |
|---|---|---|---|---|---|---|
| libs/engine/include/engine/ecs/registry.hpp:277 | `view` checks only the first and last component signatures | an entity with components 10 and 30, viewed for 10, 20, 30 | every requested component is checked | not executed | Registry.ViewAsWritten, Registry.ViewAsWrittenMissesMiddle | Registry.View, Registry.ViewExcludesMissingMiddle |
| levk/core/include/levk/core/hash.hpp:43-44 | the literal constructor hashes `""`, while the string constructor maps it to 0 | `Hash("")` against `Hash(std::string(""))`, when the string hash of `""` is non-zero | both constructors agree | not executed | Hashing.OfLiteralAsWritten, Hashing.EmptyLiteralMismatch | Hashing.OfLiteral, Hashing.LiteralAgreesWithString |
| libs/engine/src/gfx/draw/shader.cpp:141 | `codeMap[type]` is inserted before compilation succeeds | a `.vert` source whose compile fails | a failed stage is left out | not executed | Shader.ConstructAsWritten, Shader.FailedCompileLeavesEmptyModule | Shader.Construct, Shader.ConstructFromIds |
| libs/graphics/src/render_context.cpp:235 | the 270° case yields no rotation | a surface transform of 270° | 270° rotation | not executed | LegacyRenderContext.PreRotateDegreesAsWritten, LegacyRenderContext.PreRotate270Lost | LegacyRenderContext.PreRotateDegrees, LegacyRenderContext.PreRotateInjective |
