/**
 * The ownership wrapper and small helpers of the graphics device
 * (levk/graphics/include/levk/graphics/device/device.hpp), and the `Defer`
 * alias (levk/graphics/include/levk/graphics/utils/defer.hpp) that routes the
 * same deletion through the device's deferred queue.
 */
module Device {
  import opened Wrappers

  /** A Vulkan handle; 0 is the default-constructed (null) handle. */
  type Handle = nat

  const NullHandle: Handle := 0

  /** A device, by id; `None` is a null `Opt<Device>`. */
  type DeviceRef = Option<nat>

  /** `default_v(t)`: the handle equals a default-constructed one. */
  predicate DefaultV(t: Handle) {
    t == NullHandle
  }

  /** When a deleter releases its handle: `Device::Deleter` at once, `DeferDeleter` through the deferred queue. */
  datatype Disposal = Now | Later

  /** One deleter call: which device, which handle (0 for `Unique<void>`), and when. */
  datatype Release = Release(device: nat, handle: Handle, when: Disposal)

  /** `Unique<T, Del>`: a handle, the device that owns it, and the deleter kind. */
  datatype Unique = Unique(t: Handle, device: DeviceRef, disposal: Disposal)

  /** A default-constructed `Unique`. */
  function Empty(disposal: Disposal): (u: Unique)
    ensures !Truthy(u)
  {
    Unique(NullHandle, None, disposal)
  }

  /** `explicit operator bool`. */
  predicate Truthy(u: Unique) {
    u.device.Some? && !DefaultV(u.t)
  }

  /** The deleter calls the destructor makes: one exactly when the wrapper is truthy. */
  function Drop(u: Unique): (r: seq<Release>)
    ensures |r| <= 1
    ensures |r| == 1 <==> Truthy(u)
    ensures |r| == 1 ==> r[0] == Release(u.device.value, u.t, u.disposal)
  {
    if u.device.Some? && u.t != NullHandle then [Release(u.device.value, u.t, u.disposal)] else []
  }

  /** Move construction: the new wrapper takes the contents, the source is left empty. */
  function MoveConstruct(rhs: Unique): (r: (Unique, Unique))
    ensures r.0.t == rhs.t && r.0.device == rhs.device
    ensures !Truthy(r.1) && Drop(r.1) == []
  {
    (Unique(rhs.t, rhs.device, rhs.disposal), Unique(NullHandle, None, rhs.disposal))
  }

  /** Move assignment: the two wrappers swap contents (`exchg`). */
  function MoveAssign(lhs: Unique, rhs: Unique): (r: (Unique, Unique))
    requires lhs.disposal == rhs.disposal
    ensures r.0.t == rhs.t && r.0.device == rhs.device
    ensures r.1.t == lhs.t && r.1.device == lhs.device
  {
    (Unique(rhs.t, rhs.device, lhs.disposal), Unique(lhs.t, lhs.device, rhs.disposal))
  }

  /**
   * Moves neither lose nor duplicate a release: destroying both wrappers after
   * a move makes the same deleter calls as destroying them before it.
   */
  lemma MovesConserveReleases(a: Unique, b: Unique)
    requires a.disposal == b.disposal
    ensures var (x, y) := MoveConstruct(a); multiset(Drop(x) + Drop(y)) == multiset(Drop(a))
    ensures var (x, y) := MoveAssign(a, b); multiset(Drop(x) + Drop(y)) == multiset(Drop(a) + Drop(b))
  {
  }

  /** A moved-from wrapper releases nothing, so a handle is never released twice. */
  lemma MovedFromReleasesNothing(a: Unique)
    ensures Drop(MoveConstruct(a).1) == []
    ensures Truthy(a) ==> Drop(MoveConstruct(a).0) == Drop(a)
  {
  }

  /** `Unique<void, Del>`: only a device, whose deleter runs when it is set. */
  datatype UniqueVoid = UniqueVoid(device: DeviceRef, disposal: Disposal)

  predicate TruthyVoid(u: UniqueVoid) {
    u.device.Some?
  }

  function DropVoid(u: UniqueVoid): (r: seq<Release>)
    ensures |r| == 1 <==> TruthyVoid(u)
    ensures |r| <= 1
  {
    if u.device.Some? then [Release(u.device.value, NullHandle, u.disposal)] else []
  }

  function MoveConstructVoid(rhs: UniqueVoid): (r: (UniqueVoid, UniqueVoid))
    ensures r.0.device == rhs.device && !TruthyVoid(r.1)
  {
    (UniqueVoid(rhs.device, rhs.disposal), UniqueVoid(None, rhs.disposal))
  }

  function MoveAssignVoid(lhs: UniqueVoid, rhs: UniqueVoid): (r: (UniqueVoid, UniqueVoid))
    ensures r.0.device == rhs.device && r.1.device == lhs.device
  {
    (UniqueVoid(rhs.device, lhs.disposal), UniqueVoid(lhs.device, rhs.disposal))
  }

  /** The same conservation for the handle-less wrapper. */
  lemma VoidMovesConserveReleases(a: UniqueVoid, b: UniqueVoid)
    requires a.disposal == b.disposal
    ensures var (x, y) := MoveConstructVoid(a); multiset(DropVoid(x) + DropVoid(y)) == multiset(DropVoid(a))
    ensures var (x, y) := MoveAssignVoid(a, b); multiset(DropVoid(x) + DropVoid(y)) == multiset(DropVoid(a) + DropVoid(b))
  {
  }

  /** Descriptor types, as far as `bufferUsage` tells them apart. */
  datatype DescriptorType = UniformBuffer | StorageBuffer | CombinedImageSampler | OtherDescriptor(code: int)

  datatype BufferUsage = UniformUsage | StorageUsage

  /** `bufferUsage`: storage buffers are storage, everything else uniform. */
  function BufferUsageOf(t: DescriptorType): (r: BufferUsage)
    ensures r == StorageUsage <==> t == StorageBuffer
  {
    match t
    case StorageBuffer => StorageUsage
    case _ => UniformUsage
  }

  /** `destroy(t...)`: the handles handed to the device, in order, null ones skipped. */
  function Destroy(handles: seq<Handle>): (r: seq<Handle>)
    ensures |r| <= |handles|
    ensures forall i :: 0 <= i < |r| ==> !DefaultV(r[i])
  {
    if handles == [] then []
    else (if DefaultV(handles[0]) then [] else [handles[0]]) + Destroy(handles[1..])
  }

  /** Each non-null handle is destroyed once per time it is passed, and a null one never. */
  lemma {:induction false} DestroyCount(handles: seq<Handle>, h: Handle)
    ensures Count(Destroy(handles), h) == if DefaultV(h) then 0 else Count(handles, h)
    decreases |handles|
  {
    if handles != [] {
      DestroyCount(handles[1..], h);
      var head := if DefaultV(handles[0]) then [] else [handles[0]];
      CountConcat(head, Destroy(handles[1..]), h);
      assert head == [] || head == [handles[0]] + [];
    }
  }
}
