/**
 * The round-robin frame ring of the older Vulkan renderer
 * (libs/engine/src/vuk/renderer.cpp): per-frame sync objects created in
 * bulk, a current index that advances after each presented frame, and the
 * "nascent" mark that skips waiting on a fence nothing has signalled yet.
 * Device calls are left out; acquire and present outcomes are parameters.
 */
module FrameRing {
  import opened Wrappers
  import opened Arith

  /**
   * `FrameSync`, reduced to the id standing for its semaphores, fence,
   * buffer and command pool, and the nascent mark. The header that declares
   * it is not part of this model; a frame is taken to start nascent, since
   * its fence is created unsignalled and waiting on it would never return.
   */
  datatype Frame = Frame(id: nat, nascent: bool)

  /** `m_frames`, `m_index`, `m_frameCount`, whether the presenter callbacks are registered, and the next fresh id. */
  datatype Ring = Ring(frames: seq<Frame>, index: nat, frameCount: nat, registered: bool, serial: nat)

  /** The index points at a frame, or there are none and it is 0. */
  predicate Inv(r: Ring) {
    (r.frames == [] && r.index == 0) || r.index < |r.frames|
  }

  /** `frameCount` fresh nascent frames, numbered from `serial`. */
  function FreshFrames(serial: nat, n: nat): (fs: seq<Frame>)
    ensures |fs| == n
    ensures forall i :: 0 <= i < n ==> fs[i] == Frame(serial + i, true)
  {
    seq(n, i requires 0 <= i < n => Frame(serial + i, true))
  }

  /**
   * `create(frameCount)`: only when there are no frames and the count is
   * positive; then exactly `frameCount` frames, and the presenter callbacks
   * registered once.
   */
  function Create(r: Ring, frameCount: nat): (r': Ring)
    requires frameCount < 256
    ensures r.frames == [] && frameCount > 0 ==> |r'.frames| == frameCount && r'.frameCount == frameCount && r'.registered
    ensures r.frames == [] && frameCount > 0 ==> forall i :: 0 <= i < |r'.frames| ==> r'.frames[i].nascent
    ensures !(r.frames == [] && frameCount > 0) ==> r' == r
    ensures r'.index == r.index
  {
    if r.frames == [] && frameCount > 0 then
      r.(frames := FreshFrames(r.serial, frameCount), frameCount := frameCount, registered := true, serial := r.serial + frameCount)
    else r
  }

  /** `destroy()`: the ids released, the frames cleared and the index back at 0; nothing when there are no frames. */
  function Destroy(r: Ring): (res: (Ring, seq<nat>))
    ensures res.0.frames == [] && res.0.index == (if r.frames == [] then r.index else 0)
    ensures |res.1| == |r.frames| && forall i :: 0 <= i < |r.frames| ==> res.1[i] == r.frames[i].id
    ensures res.0.frameCount == r.frameCount
  {
    if r.frames == [] then (r, [])
    else (r.(frames := [], index := 0), seq(|r.frames|, i requires 0 <= i < |r.frames| => r.frames[i].id))
  }

  /** `reset()`: recreates the frames if they were destroyed, then marks every frame nascent. */
  function Reset(r: Ring): (r': Ring)
    requires r.frameCount < 256
    ensures r.frameCount > 0 ==> |r'.frames| > 0 && forall i :: 0 <= i < |r'.frames| ==> r'.frames[i].nascent
    ensures r.frameCount > 0 && r.frames != [] ==> |r'.frames| == |r.frames| && forall i :: 0 <= i < |r.frames| ==> r'.frames[i].id == r.frames[i].id
    ensures r.frameCount == 0 ==> r' == r
    ensures r'.index == r.index
  {
    if r.frameCount > 0 then
      var c := Create(r, r.frameCount);
      c.(frames := seq(|c.frames|, i requires 0 <= i < |c.frames| => c.frames[i].(nascent := true)))
    else r
  }

  /** `frameSync()`: the current frame; an index past the end fails the `ASSERT` and `at`. */
  function FrameSync(r: Ring): (res: Result<Frame>)
    ensures res.Ok? <==> r.index < |r.frames|
    ensures res.Ok? ==> res.value == r.frames[r.index]
  {
    if r.index < |r.frames| then Ok(r.frames[r.index]) else Fatal("invalid frame index")
  }

  /** `next()`: the current frame is no longer nascent and the index moves on, wrapping. */
  function Next(r: Ring): (r': Ring)
    requires r.index < |r.frames|
    ensures |r'.frames| == |r.frames| && r'.index == (r.index + 1) % |r.frames|
    ensures !r'.frames[r.index].nascent
    ensures forall i :: 0 <= i < |r.frames| && i != r.index ==> r'.frames[i] == r.frames[i]
    ensures r'.frames[r.index].id == r.frames[r.index].id
  {
    r.(frames := r.frames[r.index := r.frames[r.index].(nascent := false)], index := (r.index + 1) % |r.frames|)
  }

  /** What one `render` call did: its result and whether it waited on the frame's fence. */
  datatype Rendered = Rendered(ring: Ring, ok: bool, waited: bool)

  /**
   * `render(write, draw, clear)`: waits on the fence only for a frame that is
   * not nascent; a failed acquire returns false with the ring unchanged; the
   * ring advances only when present succeeds.
   */
  function Render(r: Ring, acquired: bool, presented: bool): (res: Result<Rendered>)
    ensures res.Ok? <==> r.index < |r.frames|
    ensures res.Ok? ==> res.value.waited == !r.frames[r.index].nascent
    ensures res.Ok? ==> (res.value.ok <==> acquired && presented)
    ensures res.Ok? && res.value.ok ==> res.value.ring == Next(r)
    ensures res.Ok? && !res.value.ok ==> res.value.ring == r
  {
    match FrameSync(r)
    case Fatal(why) => Fatal(why)
    case Ok(frame) =>
      var waited := !frame.nascent;
      if !acquired then Ok(Rendered(r, false, waited))
      else if presented then Ok(Rendered(Next(r), true, waited))
      else Ok(Rendered(r, false, waited))
  }

  /** Every operation keeps the index on a frame. */
  lemma OpsKeepInv(r: Ring, frameCount: nat, acquired: bool, presented: bool)
    requires Inv(r) && frameCount < 256 && r.frameCount < 256
    ensures Inv(Create(r, frameCount)) && Inv(Destroy(r).0) && Inv(Reset(r))
    ensures r.index < |r.frames| ==> Inv(Next(r))
    ensures var res := Render(r, acquired, presented); res.Ok? ==> Inv(res.value.ring)
  {
  }

  /** `k` calls of `next`. */
  function NextN(r: Ring, k: nat): (r': Ring)
    requires r.index < |r.frames|
    ensures |r'.frames| == |r.frames| && r'.index < |r'.frames|
    decreases k
  {
    if k == 0 then r else NextN(Next(r), k - 1)
  }

  /** The slot `m` places after the index. */
  function Slot(r: Ring, m: nat): (j: nat)
    requires r.frames != []
    ensures j < |r.frames|
  {
    (r.index + m) % |r.frames|
  }

  /** After `k` presented frames the index has moved `k` places round the ring. */
  lemma {:induction false} NextNIndex(r: Ring, k: nat)
    requires r.index < |r.frames|
    ensures NextN(r, k).index == Slot(r, k)
    decreases k
  {
    if k > 0 {
      var r1 := Next(r);
      NextNIndex(r1, k - 1);
      ModAdd(r.index + 1, k - 1, |r.frames|);
    } else {
      assert r.index % |r.frames| == r.index;
    }
  }

  /** Each frame visited on the way is no longer nascent. */
  lemma {:induction false} NextNVisited(r: Ring, k: nat, m: nat)
    requires r.index < |r.frames| && m < k
    ensures !NextN(r, k).frames[Slot(r, m)].nascent
    decreases k
  {
    var r1 := Next(r);
    if m == 0 {
      assert Slot(r, 0) == r.index;
      NextKeepsDone(r1, k - 1, r.index);
    } else {
      NextNVisited(r1, k - 1, m - 1);
      SlotShift(r, m - 1);
    }
  }

  /** One `next` later, the slot `m + 1` places on is `m` places on. */
  lemma SlotShift(r: Ring, m: nat)
    requires r.index < |r.frames|
    ensures Slot(Next(r), m) == Slot(r, m + 1)
  {
    var n := |r.frames|;
    var i := r.index + 1;
    ModAdd(i, m, n);
    assert Next(r).index == i % n;
    assert r.index + (m + 1) == i + m;
  }

  /** A frame that is no longer nascent stays so through further `next` calls. */
  lemma {:induction false} NextKeepsDone(r: Ring, k: nat, j: nat)
    requires r.index < |r.frames| && j < |r.frames| && !r.frames[j].nascent
    ensures !NextN(r, k).frames[j].nascent
    decreases k
  {
    if k > 0 {
      NextKeepsDone(Next(r), k - 1, j);
    }
  }

  /** A full lap of presented frames leaves the index where it began and no frame nascent. */
  lemma FullLap(r: Ring)
    requires r.index < |r.frames|
    ensures NextN(r, |r.frames|).index == r.index
    ensures forall j :: 0 <= j < |r.frames| ==> !NextN(r, |r.frames|).frames[j].nascent
  {
    var n := |r.frames|;
    NextNIndex(r, n);
    ModUnique(r.index + n, 1, r.index, n);
    forall j | 0 <= j < n
      ensures !NextN(r, n).frames[j].nascent
    {
      LapVisits(r, j);
    }
  }

  /** Frame `j` is visited within the first lap from the current index. */
  lemma LapVisits(r: Ring, j: nat)
    requires r.index < |r.frames| && j < |r.frames|
    ensures !NextN(r, |r.frames|).frames[j].nascent
  {
    var n := |r.frames|;
    var m: nat := if j >= r.index then j - r.index else j + n - r.index;
    assert Slot(r, m) == j by {
      if j >= r.index {
        ModUnique(r.index + m, 0, j, n);
      } else {
        ModUnique(r.index + m, 1, j, n);
      }
    }
    NextNVisited(r, n, m);
  }
}
