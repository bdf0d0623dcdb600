/**
 * The render context of the older graphics library
 * (libs/graphics/src/render_context.cpp): the `Ready → Drawing → Waiting →
 * Ready` status machine driven by `beginFrame`, `endFrame` and
 * `waitForFrame`, the move operations that leave the source `Idle`, the
 * pipeline map, and `Render`, the handle whose destruction ends the frame.
 * Swapchain flags and the outcomes of acquire, command-buffer begin and
 * present are parameters; the fence wait, the transfer poll and all
 * recording are left out.
 */
module LegacyRenderContext {
  import opened Wrappers

  datatype Status = Ready | Drawing | Waiting | Idle

  /** `Hash`, by value (its header is not part of this model). */
  type Hash = nat

  /** A pipeline, by id. */
  type PipelineId = nat

  /**
   * The context's state: its status, how many times the sync ring has
   * rotated (`m_sync.next()`), how many times deferred destruction was
   * decremented, how many frames were submitted, and the pipelines by id.
   */
  datatype Context = Context(status: Status, rotations: nat, decrements: nat, submitted: nat, pipes: map<Hash, PipelineId>)

  /** `RenderContext(swapchain, rotateCount, secondaryCmdCount)`: a new context is `Ready` with nothing done yet. */
  function New(): (c: Context)
    ensures c.status == Ready && c.pipes == map[]
    ensures c.rotations == 0 && c.decrements == 0 && c.submitted == 0
  {
    Context(Ready, 0, 0, 0, map[])
  }

  /**
   * `RenderContext(RenderContext&&)`: the new context takes the source's
   * state and the source is left `Idle`. The moved-from pipeline map is
   * taken to be empty.
   */
  function MoveConstruct(rhs: Context): (r: (Context, Context))
    ensures r.0 == rhs
    ensures r.1.status == Idle && r.1.pipes == map[]
  {
    (rhs, rhs.(status := Idle, pipes := map[]))
  }

  /** `operator=(RenderContext&&)`: nothing on self-assignment; otherwise as the move constructor. */
  function MoveAssign(lhs: Context, rhs: Context, same: bool): (r: (Context, Context))
    ensures same ==> r == (lhs, rhs)
    ensures !same ==> r.0 == rhs && r.1.status == Idle
  {
    if same then (lhs, rhs) else MoveConstruct(rhs)
  }

  /** A move never leaves two contexts able to render: the source can no longer begin, wait or end a frame. */
  lemma MovedFromIsInert(rhs: Context, paused: bool, acquired: bool, begun: bool, presented: bool)
    ensures var (_, src) := MoveConstruct(rhs);
            !WaitForFrame(src).ok && BeginFrame(src, paused, acquired, begun).frame.None? && !EndFrame(src, presented).ok
  {
  }

  // ---------------------------------------------------------------- status machine

  datatype Waited = Waited(ctx: Context, ok: bool)

  /**
   * `waitForFrame()`: true at once when `Ready`; from `Waiting` it waits on
   * the drawing fence, decrements deferred destruction and becomes `Ready`;
   * from any other status it fails.
   */
  function WaitForFrame(c: Context): (r: Waited)
    ensures r.ok <==> c.status == Ready || c.status == Waiting
    ensures c.status == Waiting ==> r.ctx == c.(status := Ready, decrements := c.decrements + 1)
    ensures c.status != Waiting ==> r.ctx == c
  {
    if c.status == Ready then Waited(c, true)
    else if c.status != Waiting then Waited(c, false)
    else Waited(c.(status := Ready, decrements := c.decrements + 1), true)
  }

  /** A frame handed out by `beginFrame`: the acquired image and the primary command buffer, by id. */
  datatype Frame = Frame(image: nat, commandBuffer: nat)

  datatype Begun = Begun(ctx: Context, frame: Option<Frame>)

  /**
   * `beginFrame(info)`: only from `Ready`, and not while the swapchain is
   * paused or out of date or when acquire fails; in each of those cases
   * nothing is returned and the status is kept. Once an image is acquired
   * the status is `Drawing`; if the command buffer then fails to begin, the
   * `ENSURE` is logged and nothing is returned, but the status stays
   * `Drawing`. The frame's image and command buffer are placeholders: only
   * whether the command buffer is null matters to `Render`.
   */
  function BeginFrame(c: Context, paused: bool, acquired: bool, begun: bool): (r: Begun)
    ensures r.frame.Some? <==> c.status == Ready && !paused && acquired && begun
    ensures c.status == Ready && !paused && acquired ==> r.ctx == c.(status := Drawing)
    ensures !(c.status == Ready && !paused && acquired) ==> r.ctx == c
    ensures r.frame.Some? ==> r.frame.value.commandBuffer != 0
  {
    if c.status != Ready then Begun(c, None)
    else if paused then Begun(c, None)
    else if !acquired then Begun(c, None)
    else if !begun then Begun(c.(status := Drawing), None)
    else Begun(c.(status := Drawing), Some(Frame(0, 1 + c.rotations)))
  }

  datatype Ended = Ended(ctx: Context, ok: bool)

  /**
   * `endFrame()`: only from `Drawing`; submits, becomes `Waiting`, presents,
   * and rotates the syncs only when present succeeds.
   */
  function EndFrame(c: Context, presented: bool): (r: Ended)
    ensures c.status != Drawing ==> r == Ended(c, false)
    ensures c.status == Drawing ==> r.ctx.status == Waiting && r.ctx.submitted == c.submitted + 1
    ensures c.status == Drawing ==> (r.ok <==> presented)
    ensures c.status == Drawing ==> r.ctx.rotations == if presented then c.rotations + 1 else c.rotations
    ensures r.ctx.pipes == c.pipes && r.ctx.decrements == c.decrements
  {
    if c.status != Drawing then Ended(c, false)
    else
      var waiting := c.(status := Waiting, submitted := c.submitted + 1);
      if !presented then Ended(waiting, false)
      else Ended(waiting.(rotations := waiting.rotations + 1), true)
  }

  /**
   * `reconstructed(framebufferSize)`: true, and `Waiting`, only when the
   * swapchain is out of date or paused and rebuilding it succeeds.
   */
  function Reconstructed(c: Context, stale: bool, rebuilt: bool): (r: Ended)
    ensures r.ok <==> stale && rebuilt
    ensures r.ok ==> r.ctx == c.(status := Waiting)
    ensures !r.ok ==> r.ctx == c
  {
    if stale && rebuilt then Ended(c.(status := Waiting), true) else Ended(c, false)
  }

  /**
   * One full frame from `Ready`: begin, end with a successful present, and
   * wait. The context is `Ready` again with one more rotation, one more
   * submission and one more deferred decrement.
   */
  lemma FrameCycle(c: Context)
    requires c.status == Ready
    ensures var b := BeginFrame(c, false, true, true);
            var e := EndFrame(b.ctx, true);
            var w := WaitForFrame(e.ctx);
            b.frame.Some? && e.ok && w.ok &&
            w.ctx == c.(rotations := c.rotations + 1, submitted := c.submitted + 1, decrements := c.decrements + 1)
  {
  }

  /** While a frame is being drawn no other frame can begin and waiting fails; only `endFrame` or `reconstructed` move on. */
  lemma OneFrameInFlight(c: Context, paused: bool, acquired: bool, begun: bool)
    requires c.status == Drawing
    ensures BeginFrame(c, paused, acquired, begun) == Begun(c, None)
    ensures WaitForFrame(c) == Waited(c, false)
    ensures Reconstructed(c, true, true).ctx.status == Waiting
  {
  }

  /**
   * A failed present still leaves the context `Waiting`, so the next
   * `waitForFrame` succeeds, but the same sync set is used again.
   */
  lemma FailedPresentKeepsSync(c: Context)
    requires c.status == Drawing
    ensures var e := EndFrame(c, false);
            !e.ok && WaitForFrame(e.ctx).ok && WaitForFrame(e.ctx).ctx.rotations == c.rotations
  {
  }

  /** The statuses reachable from a new context never include `Idle`: only a move leaves a context `Idle`. */
  lemma NeverIdleWithoutMove(c: Context, paused: bool, acquired: bool, begun: bool, presented: bool, stale: bool, rebuilt: bool)
    requires c.status != Idle
    ensures WaitForFrame(c).ctx.status != Idle
    ensures BeginFrame(c, paused, acquired, begun).ctx.status != Idle
    ensures EndFrame(c, presented).ctx.status != Idle
    ensures Reconstructed(c, stale, rebuilt).ctx.status != Idle
  {
  }

  // ---------------------------------------------------------------- Render handle

  /** `Render`: holds a frame whose command buffer is null (0) once moved from. */
  datatype Render = Render(frame: Frame)

  /** `Render::destroy()`: ends the frame only when it holds a non-null command buffer. */
  function DestroyRender(c: Context, h: Render, presented: bool): (r: Ended)
    ensures h.frame.commandBuffer == 0 ==> r == Ended(c, false)
    ensures h.frame.commandBuffer != 0 ==> r == EndFrame(c, presented)
  {
    if h.frame.commandBuffer != 0 then EndFrame(c, presented) else Ended(c, false)
  }

  /** `Render(Render&&)`: the new handle takes the frame; the source is left with `Frame()`. */
  function MoveRender(rhs: Render): (r: (Render, Render))
    ensures r.0 == rhs && r.1.frame.commandBuffer == 0
  {
    (rhs, Render(Frame(0, 0)))
  }

  /**
   * A frame begun and wrapped in a `Render`, then moved: destroying the
   * moved-from handle does nothing and destroying the new one ends the
   * frame, so the frame is ended exactly once.
   */
  lemma RenderEndsFrameOnce(c: Context, presented: bool)
    requires c.status == Ready
    ensures var b := BeginFrame(c, false, true, true);
            var (h, src) := MoveRender(Render(b.frame.value));
            var d1 := DestroyRender(b.ctx, src, presented);
            var d2 := DestroyRender(d1.ctx, h, presented);
            d1.ctx == b.ctx && d2.ctx.status == Waiting && d2.ctx.submitted == c.submitted + 1
  {
  }

  /**
   * `Render::operator=(Render&&)`: unless assigning to itself, the target's
   * own frame is ended first, then it takes the source's frame and the
   * source is emptied.
   */
  function AssignRender(c: Context, lhs: Render, rhs: Render, same: bool, presented: bool): (r: (Context, Render, Render))
    ensures same ==> r == (c, lhs, rhs)
    ensures !same ==> r.0 == DestroyRender(c, lhs, presented).ctx && r.1 == rhs && r.2.frame.commandBuffer == 0
  {
    if same then (c, lhs, rhs)
    else (DestroyRender(c, lhs, presented).ctx, rhs, Render(Frame(0, 0)))
  }

  // ---------------------------------------------------------------- pipelines

  /** `makePipeline(id, info)`: emplaces a new pipeline; a taken id fails the insertion and throws. */
  function MakePipeline(c: Context, id: Hash, pipe: PipelineId): (r: Result<Context>)
    ensures r.Ok? <==> id !in c.pipes
    ensures r.Ok? ==> r.value == c.(pipes := c.pipes[id := pipe])
  {
    if id in c.pipes then Fatal("Map insertion failure") else Ok(c.(pipes := c.pipes[id := pipe]))
  }

  /** `destroyPipeline(id)`: true exactly when the id was present, which it no longer is. */
  function DestroyPipeline(c: Context, id: Hash): (r: (Context, bool))
    ensures r.1 <==> id in c.pipes
    ensures r.0.pipes == c.pipes - {id} && r.0.status == c.status
  {
    if id in c.pipes then (c.(pipes := c.pipes - {id}), true) else (c, false)
  }

  /** `hasPipeline(id)`. */
  predicate HasPipeline(c: Context, id: Hash) {
    id in c.pipes
  }

  /** `pipeline(id)`: the pipeline under `id`, or an empty view. */
  function Pipeline(c: Context, id: Hash): (r: Option<PipelineId>)
    ensures r.Some? <==> HasPipeline(c, id)
    ensures r.Some? ==> r.value == c.pipes[id]
  {
    if id in c.pipes then Some(c.pipes[id]) else None
  }

  /** Make, look up and destroy agree: a made pipeline is found until destroyed, and other ids are untouched. */
  lemma PipelineLifecycle(c: Context, id: Hash, other: Hash, pipe: PipelineId)
    requires !HasPipeline(c, id) && other != id
    ensures var m := MakePipeline(c, id, pipe);
            m.Ok? && Pipeline(m.value, id) == Some(pipe) && Pipeline(m.value, other) == Pipeline(c, other)
    ensures var m := MakePipeline(c, id, pipe).value;
            MakePipeline(m, id, pipe).Fatal?
    ensures var m := MakePipeline(c, id, pipe).value;
            var (d, ok) := DestroyPipeline(m, id);
            ok && !HasPipeline(d, id) && d.pipes == c.pipes
  {
  }

  // ---------------------------------------------------------------- pre-rotation

  /** The surface's current transform. */
  datatype Transform = Identity | Rotate90 | Rotate180 | Rotate270 | OtherTransform

  /**
   * The angle `preRotate()` rotates by, in degrees, as written: the third
   * test repeats `eRotate180`, so `eRotate270` falls through with angle 0.
   */
  function PreRotateDegreesAsWritten(t: Transform): (deg: int)
    ensures t == Rotate270 ==> deg == 0
    ensures t == Rotate90 ==> deg == 90
  {
    if t == Identity then 0
    else if t == Rotate90 then 90
    else if t == Rotate180 then 180
    else if t == Rotate180 then 270
    else 0
  }

  /** A surface turned by 270 degrees gets no pre-rotation at all, as if it were not turned. */
  lemma PreRotate270Lost()
    ensures PreRotateDegreesAsWritten(Rotate270) == PreRotateDegreesAsWritten(Identity)
  {
  }

  /** The number of quarter turns a rotating transform stands for. */
  function QuarterTurns(t: Transform): nat {
    match t
    case Rotate90 => 1
    case Rotate180 => 2
    case Rotate270 => 3
    case _ => 0
  }

  /** `preRotate()` with the last test on `eRotate270`: the angle matches the transform. */
  function PreRotateDegrees(t: Transform): (deg: int)
    ensures deg == 90 * QuarterTurns(t)
    ensures 0 <= deg < 360
  {
    if t == Identity then 0
    else if t == Rotate90 then 90
    else if t == Rotate180 then 180
    else if t == Rotate270 then 270
    else 0
  }

  /** Distinct rotations get distinct angles, and the two versions differ only on `eRotate270`. */
  lemma PreRotateInjective(a: Transform, b: Transform)
    requires a != OtherTransform && b != OtherTransform && a != b
    ensures PreRotateDegrees(a) != PreRotateDegrees(b)
    ensures a != Rotate270 ==> PreRotateDegrees(a) == PreRotateDegreesAsWritten(a)
  {
  }
}
