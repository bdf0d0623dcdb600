/**
 * The render context of the newer graphics library
 * (levk/graphics/src/render/context.cpp): buffering validation, the sync
 * ring the constructor fills, and the main pass that `beginMainPass` opens
 * and `endMainPass` always closes. Acquire, submit and present outcomes are
 * parameters; recording and the renderer itself are left out.
 */
module RenderContext {
  import opened Wrappers
  import opened Arith

  /** `Buffering`: eNone 0, eSingle 1, eDouble 2, eTriple 3 (its header is not part of this model). */
  type Buffering = nat

  const None_: Buffering := 0
  const Single: Buffering := 1
  const Double: Buffering := 2

  /** `Extent2D`. */
  datatype Extent = Extent(x: nat, y: nat)

  /** A framebuffer that can be drawn to: neither side is zero. */
  predicate Drawable(fb: Extent) {
    fb.x != 0 && fb.y != 0
  }

  datatype Warning = MuchMoreThanImages | LessThanDouble

  /**
   * `validateBuffering(images, buffering)`: fatal unless the swapchain has
   * more than one image and buffering is not `eNone`; otherwise the
   * warnings logged.
   */
  function ValidateBuffering(images: Buffering, buffering: Buffering): (r: Result<seq<Warning>>)
    ensures r.Ok? <==> images > Single && buffering > None_
    ensures r.Ok? ==> (MuchMoreThanImages in r.value <==> buffering - images > 1)
    ensures r.Ok? ==> (LessThanDouble in r.value <==> buffering < Double)
  {
    if !(images > Single) then Fatal("Insufficient swapchain images")
    else if !(buffering > None_) then Fatal("Insufficient buffering")
    else
      var much := if buffering - images > 1 then [MuchMoreThanImages] else [];
      Ok(much + if buffering < Double then [LessThanDouble] else [])
  }

  /** The swapchain image acquired for the current frame. */
  datatype Acquire = Acquire(image: nat)

  /**
   * The context's state: its buffering, the number of sync sets, how many
   * times the sync ring has rotated, `DeferQueue::defaultDefer`, the image
   * acquired for the current pass, and how many times deferred destruction
   * was decremented.
   */
  datatype Context = Context(buffering: Buffering, syncs: nat, rotations: nat, defaultDefer: nat,
                             acquired: Option<Acquire>, decrements: nat)

  /** The sync set in use: the ring index after `rotations` calls of `next()`. */
  function SyncIndex(c: Context): (i: nat)
    requires c.syncs > 0
    ensures i < c.syncs
  {
    c.rotations % c.syncs
  }

  /**
   * `RenderContext(vram, getSpirV, vsync, fbSize, buffering)`: validates the
   * buffering against the surface's image count, sets the default defer
   * delay to the buffering and pushes one sync set per buffered frame.
   */
  function New(images: Buffering, buffering: Buffering): (r: Result<Context>)
    ensures r.Ok? <==> ValidateBuffering(images, buffering).Ok?
    ensures r.Ok? ==> r.value.syncs == buffering && r.value.defaultDefer == buffering && r.value.syncs > 0
    ensures r.Ok? ==> r.value.acquired.None? && r.value.rotations == 0 && r.value.decrements == 0
  {
    match ValidateBuffering(images, buffering)
    case Fatal(why) => Fatal(why)
    case Ok(_) => Ok(Context(buffering, buffering, 0, buffering, None, 0))
  }

  /** A main render pass, by the image it draws to. */
  datatype RenderPass = RenderPass(image: nat)

  /**
   * `beginMainPass(rb, fbSize)`: nothing for a zero-sized framebuffer or
   * when acquire fails; otherwise the acquired image is kept and the pass
   * on it is returned.
   */
  function BeginMainPass(c: Context, fb: Extent, acquired: Option<Acquire>): (r: (Context, Option<RenderPass>))
    ensures r.1.Some? <==> Drawable(fb) && acquired.Some?
    ensures r.1.Some? ==> r.0 == c.(acquired := acquired) && r.1.value.image == acquired.value.image
    ensures r.1.None? ==> r.0 == c
  {
    if !Drawable(fb) then (c, None)
    else if acquired.None? then (c, None)
    else (c.(acquired := acquired), Some(RenderPass(acquired.value.image)))
  }

  /**
   * `submit(cb, acquired, fbSize)`: false for a zero-sized framebuffer;
   * otherwise both submit and present are attempted, and the result is
   * true only if both succeed. The `EXPECT` on submit only logs.
   */
  function Submit(fb: Extent, submitted: bool, presented: bool): (ok: bool)
    ensures ok <==> Drawable(fb) && submitted && presented
  {
    if !Drawable(fb) then false else submitted && presented
  }

  /**
   * `endMainPass(rp, fbSize)`: submits only when an image was acquired, and
   * then forgets it; deferred destruction is decremented and the syncs
   * rotate every time, acquired or not.
   */
  function EndMainPass(c: Context, fb: Extent, submitted: bool, presented: bool): (r: (Context, bool))
    ensures r.1 <==> c.acquired.Some? && Submit(fb, submitted, presented)
    ensures r.0.acquired.None?
    ensures r.0.rotations == c.rotations + 1 && r.0.decrements == c.decrements + 1
    ensures r.0.buffering == c.buffering && r.0.syncs == c.syncs && r.0.defaultDefer == c.defaultDefer
  {
    var ok := if c.acquired.Some? then Submit(fb, submitted, presented) else false;
    (c.(acquired := None, rotations := c.rotations + 1, decrements := c.decrements + 1), ok)
  }

  /**
   * `endMainPass` without a `beginMainPass` that acquired still moves on
   * to the next sync set: the pair of calls for a skipped frame advances
   * the ring exactly as a drawn frame does.
   */
  lemma SkippedFrameStillRotates(c: Context, fb: Extent, submitted: bool, presented: bool)
    requires c.acquired.None?
    ensures var (b, pass) := BeginMainPass(c, Extent(0, fb.y), Some(Acquire(0)));
            var (e, ok) := EndMainPass(b, fb, submitted, presented);
            pass.None? && !ok && e == c.(rotations := c.rotations + 1, decrements := c.decrements + 1)
  {
  }

  /** A drawn frame: the pass is opened on the acquired image and closing it reports the submit and present. */
  lemma DrawnFrame(c: Context, fb: Extent, image: nat, submitted: bool, presented: bool)
    requires c.acquired.None? && Drawable(fb)
    ensures var (b, pass) := BeginMainPass(c, fb, Some(Acquire(image)));
            var (e, ok) := EndMainPass(b, fb, submitted, presented);
            pass == Some(RenderPass(image)) && (ok <==> submitted && presented) &&
            e == c.(rotations := c.rotations + 1, decrements := c.decrements + 1)
  {
  }

  /** Each `endMainPass` moves on to the next sync set round the ring. */
  lemma SyncReuse(c: Context, fb: Extent, submitted: bool, presented: bool)
    requires c.syncs > 0
    ensures var e := EndMainPass(c, fb, submitted, presented).0;
            SyncIndex(e) == (SyncIndex(c) + 1) % c.syncs
  {
    ModAdd(c.rotations, 1, c.syncs);
  }
}
