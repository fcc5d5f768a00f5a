/**
  Negotiation of the presentation configuration (src/main.rs): the clamp helper,
  the surface-format, present-mode, extent and image-count choosers, over one
  device's surface-support snapshot.
 */
module SwapNegotiation {
  import opened Wrappers
  import opened VkTypes

  /** SwapChainSupportDetails: one device's answers about one surface. */
  datatype SupportDetails = SupportDetails(
    capabilities: SurfaceCapabilities,
    formats: seq<SurfaceFormat>,
    presentModes: seq<PresentMode>)

  /** The window size as the window system reports it (width, height). */
  type WindowSize = (i32, i32)

  const PREFERRED_FORMAT: SurfaceFormat := SurfaceFormat(FORMAT_R8G8B8A8_UNORM, COLOR_SPACE_SRGB_NONLINEAR)

  // ---------------------------------------------------------------------------
  // Clamping

  /**
    `Bounded::bounded` as written: it asserts that the bounds are strictly
    ordered, so callers must pass lo < hi.
   */
  function Bounded(x: u32, lo: u32, hi: u32): (r: u32)
    requires lo < hi
    ensures lo <= r <= hi
    ensures lo <= x <= hi ==> r == x
    ensures x < lo ==> r == lo
    ensures hi < x ==> r == hi
  {
    if x < lo then lo else if x > hi then hi else x
  }

  /**
    The clamp the callers need: the same three cases without the strict
    assertion, so that a one-point range [lo, lo] is accepted.
   */
  function Clamp(x: u32, lo: u32, hi: u32): (r: u32)
    ensures lo <= hi ==> lo <= r <= hi
    ensures lo <= x <= hi ==> r == x
  {
    if x < lo then lo else if x > hi then hi else x
  }

  /** Clamping picks the point of [lo, hi] nearest to x. */
  lemma ClampIsNearest(x: u32, lo: u32, hi: u32, y: u32)
    requires lo <= y <= hi
    ensures var r := Clamp(x, lo, hi);
      (if r <= x then x - r else r - x) <= (if y <= x then x - y else y - x)
  {
  }

  /** Where `bounded` does not panic it agrees with Clamp. */
  lemma BoundedIsClamp(x: u32, lo: u32, hi: u32)
    requires lo < hi
    ensures Bounded(x, lo, hi) == Clamp(x, lo, hi)
  {
  }

  // ---------------------------------------------------------------------------
  // Surface format

  /** The position of the first entry equal to `f`, as `Iterator::find` scans. */
  function FindFirst(formats: seq<SurfaceFormat>, f: SurfaceFormat): (r: Option<nat>)
    ensures r.None? <==> f !in formats
    ensures r.Some? ==>
      && r.value < |formats| && formats[r.value] == f
      && forall j :: 0 <= j < r.value ==> formats[j] != f
  {
    if |formats| == 0 then None
    else if formats[0] == f then Some(0)
    else match FindFirst(formats[1..], f)
      case None => None
      case Some(i) => Some(i + 1)
  }

  /** The snapshot's "any format will do" answer: one entry whose format is undefined. */
  predicate AnyFormatAllowed(formats: seq<SurfaceFormat>)
  {
    |formats| == 1 && formats[0].format == FORMAT_UNDEFINED
  }

  /** `SwapChainSupportDetails::choose_format`. */
  function ChooseFormat(formats: seq<SurfaceFormat>): (r: Option<SurfaceFormat>)
    ensures r.None? <==> |formats| == 0
    ensures AnyFormatAllowed(formats) ==> r == Some(PREFERRED_FORMAT)
    ensures !AnyFormatAllowed(formats) && r.Some? ==>
      && r.value in formats
      && (PREFERRED_FORMAT in formats ==> r.value == PREFERRED_FORMAT)
      && (PREFERRED_FORMAT !in formats ==> r.value == formats[0])
  {
    if AnyFormatAllowed(formats) then Some(PREFERRED_FORMAT)
    else
      match FindFirst(formats, PREFERRED_FORMAT)
      case Some(i) => Some(formats[i])
      case None => if |formats| > 0 then Some(formats[0]) else None
  }

  /** The single-undefined case ignores the entry's colour space. */
  lemma ChooseFormatIgnoresColorSpaceOfUndefined(cs: ColorSpace)
    ensures ChooseFormat([SurfaceFormat(FORMAT_UNDEFINED, cs)]) == Some(PREFERRED_FORMAT)
  {
  }

  // ---------------------------------------------------------------------------
  // Present mode

  /** `SwapChainSupportDetails::choose_present_mode`: `Iterator::max` under the enum order. */
  function ChoosePresentMode(modes: seq<PresentMode>): (r: Option<PresentMode>)
    ensures r.None? <==> |modes| == 0
    ensures r.Some? ==> r.value in modes && forall m :: m in modes ==> Rank(m) <= Rank(r.value)
  {
    if |modes| == 0 then None
    else
      match ChoosePresentMode(modes[1..])
      case None => Some(modes[0])
      case Some(best) =>
        // `max` keeps the later element on ties; equal ranks are equal modes
        if Rank(modes[0]) > Rank(best) then Some(modes[0]) else Some(best)
  }

  /** The choice depends only on which modes are offered, not on their order. */
  lemma ChoosePresentModeOnlySeesMembers(a: seq<PresentMode>, b: seq<PresentMode>)
    requires forall m :: m in a <==> m in b
    ensures ChoosePresentMode(a) == ChoosePresentMode(b)
  {
  }

  // ---------------------------------------------------------------------------
  // Extent

  /** The current extent is the sentinel: the swapchain's extent decides the surface's. */
  predicate ExtentUnconstrained(caps: SurfaceCapabilities)
  {
    caps.currentExtent.width == U32_MAX
  }

  /**
    `SwapChainSupportDetails::choose_swap_extent` as written: None stands for the
    panic of `bounded`'s assertion when a component's range is a single point.
   */
  function ChooseSwapExtentAsWritten(caps: SurfaceCapabilities, window: WindowSize): (r: Option<Extent2D>)
    ensures !ExtentUnconstrained(caps) ==> r == Some(caps.currentExtent)
    ensures ExtentUnconstrained(caps) ==>
      (r.None? <==> !(caps.minImageExtent.width < caps.maxImageExtent.width
                      && caps.minImageExtent.height < caps.maxImageExtent.height))
    ensures r.Some? && ExtentUnconstrained(caps) ==> r == Some(ChooseSwapExtent(caps, window))
  {
    if !ExtentUnconstrained(caps) then Some(caps.currentExtent)
    else
      var (w, h) := window;
      var lo, hi := caps.minImageExtent, caps.maxImageExtent;
      if lo.width < hi.width && lo.height < hi.height then
        Some(Extent2D(Bounded(AsU32(w), lo.width, hi.width), Bounded(AsU32(h), lo.height, hi.height)))
      else None
  }

  /** A single-point extent range, which Vulkan permits, makes the as-written chooser panic. */
  lemma SwapExtentPanicsOnFixedRange()
    ensures var fixed := Extent2D(800, 600);
      var caps := SurfaceCapabilities(2, 3, Extent2D(U32_MAX, U32_MAX), fixed, fixed, 1);
      && WellFormed(caps)
      && ChooseSwapExtentAsWritten(caps, (800, 600)).None?
      && ChooseSwapExtent(caps, (800, 600)) == fixed
  {
  }

  /** `choose_swap_extent` with the non-strict clamp. */
  function ChooseSwapExtent(caps: SurfaceCapabilities, window: WindowSize): (r: Extent2D)
    ensures !ExtentUnconstrained(caps) ==> r == caps.currentExtent
    ensures ExtentUnconstrained(caps) && WellFormed(caps) ==>
      && caps.minImageExtent.width <= r.width <= caps.maxImageExtent.width
      && caps.minImageExtent.height <= r.height <= caps.maxImageExtent.height
    ensures ExtentUnconstrained(caps) ==>
      && (caps.minImageExtent.width <= AsU32(window.0) <= caps.maxImageExtent.width ==> r.width == AsU32(window.0))
      && (caps.minImageExtent.height <= AsU32(window.1) <= caps.maxImageExtent.height ==> r.height == AsU32(window.1))
  {
    if !ExtentUnconstrained(caps) then caps.currentExtent
    else
      var (w, h) := window;
      Extent2D(Clamp(AsU32(w), caps.minImageExtent.width, caps.maxImageExtent.width),
               Clamp(AsU32(h), caps.minImageExtent.height, caps.maxImageExtent.height))
  }

  /** An out-of-range window size is clamped to the nearest allowed extent, not rejected. */
  lemma SwapExtentClampsOutOfRange(caps: SurfaceCapabilities, window: WindowSize)
    requires ExtentUnconstrained(caps) && WellFormed(caps)
    ensures var r := ChooseSwapExtent(caps, window);
      && (AsU32(window.0) < caps.minImageExtent.width ==> r.width == caps.minImageExtent.width)
      && (AsU32(window.0) > caps.maxImageExtent.width ==> r.width == caps.maxImageExtent.width)
      && (AsU32(window.1) < caps.minImageExtent.height ==> r.height == caps.minImageExtent.height)
      && (AsU32(window.1) > caps.maxImageExtent.height ==> r.height == caps.maxImageExtent.height)
  {
  }

  // ---------------------------------------------------------------------------
  // Image count

  /**
    `triple_buffer_image_count` as written: None stands for the panic of
    `bounded`'s assertion when the maximum equals the minimum.
   */
  function TripleBufferImageCountAsWritten(caps: SurfaceCapabilities): (r: Option<u32>)
    ensures caps.maxImageCount == 0 ==> r == Some(WrappingIncrement(caps.minImageCount))
    ensures caps.maxImageCount > 0 ==> (r.None? <==> caps.maxImageCount <= caps.minImageCount)
    ensures r.Some? ==> r == Some(TripleBufferImageCount(caps))
  {
    var desired := WrappingIncrement(caps.minImageCount);
    if caps.maxImageCount > 0 then
      if caps.minImageCount < caps.maxImageCount then
        Some(Bounded(desired, caps.minImageCount, caps.maxImageCount))
      else None
    else Some(desired)
  }

  /** A device offering exactly two images (minimum == maximum, which Vulkan permits) makes it panic. */
  lemma ImageCountPanicsOnEqualBounds()
    ensures var caps := SurfaceCapabilities(2, 2, Extent2D(640, 480), Extent2D(1, 1), Extent2D(4096, 4096), 1);
      && WellFormed(caps)
      && TripleBufferImageCountAsWritten(caps).None?
      && TripleBufferImageCount(caps) == 2
  {
  }

  /** `triple_buffer_image_count` with the non-strict clamp. */
  function TripleBufferImageCount(caps: SurfaceCapabilities): (r: u32)
    ensures caps.maxImageCount == 0 && caps.minImageCount < U32_MAX ==>
      r as int == caps.minImageCount as int + 1
    ensures caps.maxImageCount > 0 && caps.minImageCount <= caps.maxImageCount ==>
      caps.minImageCount <= r <= caps.maxImageCount
    ensures caps.maxImageCount > 0 && caps.minImageCount < caps.maxImageCount ==>
      r as int == caps.minImageCount as int + 1
  {
    var desired := WrappingIncrement(caps.minImageCount);
    if caps.maxImageCount > 0 then Clamp(desired, caps.minImageCount, caps.maxImageCount)
    else desired
  }

  /** The two capability reports used as examples: (2, 3) gives 3 and (1, unbounded) gives 2. */
  lemma ImageCountExamples(e: Extent2D)
    ensures TripleBufferImageCount(SurfaceCapabilities(2, 3, e, e, e, 0)) == 3
    ensures TripleBufferImageCount(SurfaceCapabilities(1, 0, e, e, e, 0)) == 2
  {
  }
}
