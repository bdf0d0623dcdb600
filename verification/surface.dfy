/**
 * The static predicates of the swapchain surface
 * (levk/graphics/include/levk/graphics/render/surface.hpp): framebuffer
 * validity, colour-format classes and the out-of-date result test.
 */
module Surface {
  /** The `vk::Format` values the predicates name; every other format is `OtherFormat`. */
  datatype Format =
    | R8G8B8Srgb | B8G8R8Srgb | R8G8B8A8Srgb | B8G8R8A8Srgb | A8B8G8R8SrgbPack32
    | R8G8B8A8Uint | R8G8B8A8Unorm | R8G8B8A8Sint | R8G8B8A8Snorm | R8G8B8A8Uscaled
    | B8G8R8A8Uint | B8G8R8A8Unorm | B8G8R8A8Sint | B8G8R8A8Snorm | B8G8R8A8Uscaled
    | OtherFormat(code: int)

  /** The `vk::Result` values the engine distinguishes. */
  datatype VkResult = Success | SuboptimalKHR | ErrorOutOfDateKHR | OtherResult(code: int)

  /** A framebuffer size in pixels, as signed components. */
  datatype Size = Size(x: int, y: int)

  /** `valid(framebufferSize)`. */
  predicate Valid(size: Size) {
    size.x > 0 && size.y > 0
  }

  /** `srgb(format)`. */
  function Srgb(format: Format): (r: bool)
    ensures r <==> format in SrgbFormats
  {
    match format
    case R8G8B8Srgb | B8G8R8Srgb | R8G8B8A8Srgb | B8G8R8A8Srgb | A8B8G8R8SrgbPack32 => true
    case _ => false
  }

  /** `rgba(format)`. */
  function Rgba(format: Format): (r: bool)
    ensures r <==> format in RgbaFormats
  {
    match format
    case R8G8B8A8Uint | R8G8B8A8Unorm | R8G8B8A8Sint | R8G8B8A8Snorm | R8G8B8A8Uscaled | R8G8B8A8Srgb => true
    case _ => false
  }

  /** `bgra(format)`. */
  function Bgra(format: Format): (r: bool)
    ensures r <==> format in BgraFormats
  {
    match format
    case B8G8R8A8Uint | B8G8R8A8Unorm | B8G8R8A8Sint | B8G8R8A8Snorm | B8G8R8A8Uscaled | B8G8R8A8Srgb => true
    case _ => false
  }

  /** `outOfDate(result)`. */
  function OutOfDate(result: VkResult): (r: bool)
    ensures r <==> result in {ErrorOutOfDateKHR, SuboptimalKHR}
  {
    match result
    case ErrorOutOfDateKHR | SuboptimalKHR => true
    case _ => false
  }

  /** The formats each class is meant to hold, listed independently of the predicates. */
  const SrgbFormats: set<Format> := {R8G8B8Srgb, B8G8R8Srgb, R8G8B8A8Srgb, B8G8R8A8Srgb, A8B8G8R8SrgbPack32}
  const RgbaFormats: set<Format> := {R8G8B8A8Uint, R8G8B8A8Unorm, R8G8B8A8Sint, R8G8B8A8Snorm, R8G8B8A8Uscaled, R8G8B8A8Srgb}
  const BgraFormats: set<Format> := {B8G8R8A8Uint, B8G8R8A8Unorm, B8G8R8A8Sint, B8G8R8A8Snorm, B8G8R8A8Uscaled, B8G8R8A8Srgb}

  /** Each predicate accepts exactly its listed formats: five sRGB, six RGBA, six BGRA. */
  lemma ClassesExact(f: Format)
    ensures Srgb(f) <==> f in SrgbFormats
    ensures Rgba(f) <==> f in RgbaFormats
    ensures Bgra(f) <==> f in BgraFormats
    ensures |SrgbFormats| == 5 && |RgbaFormats| == 6 && |BgraFormats| == 6
  {
  }

  /** No format is both RGBA and BGRA. */
  lemma RgbaBgraDisjoint(f: Format)
    ensures !(Rgba(f) && Bgra(f))
  {
  }

  /** The two 4-channel sRGB formats are the only ones in two classes. */
  lemma SrgbOverlaps(f: Format)
    ensures Srgb(f) && Rgba(f) <==> f == R8G8B8A8Srgb
    ensures Srgb(f) && Bgra(f) <==> f == B8G8R8A8Srgb
  {
  }

  /** Exactly two results count as out of date; success does not. */
  lemma OutOfDateExact(r: VkResult)
    ensures OutOfDate(r) <==> r in {ErrorOutOfDateKHR, SuboptimalKHR}
    ensures !OutOfDate(Success)
  {
  }

  /** A size with a zero or negative side is invalid, whatever the other side. */
  lemma ValidExact(size: Size)
    ensures Valid(size) <==> size.x >= 1 && size.y >= 1
    ensures !Valid(Size(0, size.y)) && !Valid(Size(size.x, 0))
  {
  }
}
