/**
  Physical-device and queue-family selection (src/main.rs): the iterator chain
  over the enumerated devices, lifted into functions over a device record whose
  fields are the answers of the driver's queries for that device and surface.
 */
module DeviceSelection {
  import opened Wrappers
  import opened VkTypes
  import opened SwapNegotiation

  /** One VkQueueFamilyProperties entry, with the surface-support answer for its index. */
  datatype QueueFamily = QueueFamily(queueCount: u32, queueFlags: QueueFlags, supportsSurface: bool)

  /** What the driver reports about one enumerated physical device. */
  datatype PhysicalDevice = PhysicalDevice(
    queueFamilies: seq<QueueFamily>,
    extensions: seq<string>,
    deviceType: PhysicalDeviceType,
    geometryShader: u32,      // VkBool32
    support: SupportDetails)

  /** `REQUIRED_EXTENSIONS`: the swapchain device extension. */
  const REQUIRED_EXTENSIONS: seq<string> := ["VK_KHR_swapchain"]

  // ---------------------------------------------------------------------------
  // Extension check

  /** `check_physical_device_extension_support`: every required name is available. */
  function ExtensionsSupported(available: seq<string>, required: seq<string>): (r: bool)
    ensures r <==> forall i :: 0 <= i < |required| ==> required[i] in available
  {
    if |required| == 0 then true
    else required[0] in available && ExtensionsSupported(available, required[1..])
  }

  /** The check does not depend on the order or repetition of the required names. */
  lemma ExtensionsSupportedBySet(available: seq<string>, a: seq<string>, b: seq<string>)
    requires forall n :: n in a <==> n in b
    ensures ExtensionsSupported(available, a) == ExtensionsSupported(available, b)
  {
    if ExtensionsSupported(available, a) {
      forall i | 0 <= i < |b| ensures b[i] in available {
        assert b[i] in a;
      }
    } else {
      var i :| 0 <= i < |a| && a[i] !in available;
      assert a[i] in b;
    }
  }

  // ---------------------------------------------------------------------------
  // Queue families

  /** A family with at least one queue and the graphics bit among its flags. */
  predicate IsGraphicsFamily(f: QueueFamily)
  {
    f.queueCount > 0 && f.queueFlags & QUEUE_GRAPHICS_BIT == QUEUE_GRAPHICS_BIT
  }

  /** The ordered set of graphics family indices. */
  function GraphicsFamilies(families: seq<QueueFamily>): set<nat>
  {
    set i: nat | i < |families| && IsGraphicsFamily(families[i])
  }

  /** The ordered set of family indices that can present to the surface. */
  function PresentationFamilies(families: seq<QueueFamily>): set<nat>
  {
    set i: nat | i < |families| && families[i].supportsSurface
  }

  /** The least element of `s` in [lo, hi), scanning upwards as a BTreeSet iterates. */
  function LeastFrom(s: set<nat>, lo: nat, hi: nat): (r: Option<nat>)
    requires lo <= hi
    decreases hi - lo
    ensures r.None? <==> forall x :: x in s ==> !(lo <= x < hi)
    ensures r.Some? ==>
      && lo <= r.value < hi && r.value in s
      && forall x :: x in s && lo <= x < hi ==> r.value <= x
  {
    if lo == hi then None
    else if lo in s then Some(lo)
    else LeastFrom(s, lo + 1, hi)
  }

  /** The first element of a set of indices below `bound`: `iter().next()` on a BTreeSet. */
  function Least(s: set<nat>, bound: nat): (r: Option<nat>)
    requires forall x :: x in s ==> x < bound
    ensures r.None? <==> s == {}
    ensures r.Some? ==> r.value in s && forall x :: x in s ==> r.value <= x
  {
    LeastFrom(s, 0, bound)
  }

  /**
    The per-device queue-family step of the selection chain: the least index
    that does both, else the least of each set, else the device is dropped.
   */
  function FindQueueFamilies(families: seq<QueueFamily>): (r: Option<(nat, nat)>)
    ensures r.None? <==> GraphicsFamilies(families) == {} || PresentationFamilies(families) == {}
    ensures r.Some? ==>
      && r.value.0 in GraphicsFamilies(families)
      && r.value.1 in PresentationFamilies(families)
    ensures GraphicsFamilies(families) * PresentationFamilies(families) != {} ==>
      && r.Some? && r.value.0 == r.value.1
      && forall c :: c in GraphicsFamilies(families) * PresentationFamilies(families) ==> r.value.0 <= c
    ensures GraphicsFamilies(families) * PresentationFamilies(families) == {} && r.Some? ==>
      && (forall g :: g in GraphicsFamilies(families) ==> r.value.0 <= g)
      && (forall p :: p in PresentationFamilies(families) ==> r.value.1 <= p)
  {
    var gfx := GraphicsFamilies(families);
    var present := PresentationFamilies(families);
    var n := |families|;
    match Least(gfx * present, n)
    case Some(c) => Some((c, c))
    case None =>
      match (Least(gfx, n), Least(present, n))
      case (Some(g), Some(p)) => Some((g, p))
      case _ => None
  }

  /** Family 0 only draws and family 1 only presents: the split pair (0, 1). */
  lemma SplitFamiliesExample()
    ensures FindQueueFamilies([QueueFamily(1, QUEUE_GRAPHICS_BIT, false), QueueFamily(1, 0x4, true)]) == Some((0, 1))
  {
    var fams := [QueueFamily(1, QUEUE_GRAPHICS_BIT, false), QueueFamily(1, 0x4, true)];
    assert 0 in GraphicsFamilies(fams) && 1 !in GraphicsFamilies(fams);
    assert 1 in PresentationFamilies(fams) && 0 !in PresentationFamilies(fams);
  }

  // ---------------------------------------------------------------------------
  // Device selection

  /** What the selection chain yields for the chosen device. */
  datatype Selection = Selection(
    device: nat,               // position in the enumeration
    graphicsFamily: nat,
    presentationFamily: nat,
    surfaceFormat: SurfaceFormat,
    presentMode: PresentMode,
    swapExtent: Extent2D,
    swapImageCount: u32,
    support: SupportDetails)

  /** The application's fitness test: a discrete GPU with geometry shaders. */
  predicate Fit(dev: PhysicalDevice)
  {
    dev.deviceType == DiscreteGpu && dev.geometryShader != 0
  }

  /**
    The chain's filters: a graphics family and a presenting family, every
    required extension, at least one surface format and one present mode.
   */
  predicate PassesFilters(dev: PhysicalDevice)
  {
    && GraphicsFamilies(dev.queueFamilies) != {}
    && PresentationFamilies(dev.queueFamilies) != {}
    && (forall name :: name in REQUIRED_EXTENSIONS ==> name in dev.extensions)
    && |dev.support.formats| > 0
    && |dev.support.presentModes| > 0
  }

  /** Reference statement of which devices the chain accepts. */
  predicate Suitable(dev: PhysicalDevice)
  {
    PassesFilters(dev) && Fit(dev)
  }

  /**
    The chain's filters for one device, before the fitness test: queue
    families, then the extension check, then a format and a present mode.
   */
  function Candidate(dev: PhysicalDevice, index: nat, window: WindowSize): (r: Option<Selection>)
    ensures r.Some? <==> PassesFilters(dev)
    ensures r.Some? ==>
      && r.value.device == index
      && Some((r.value.graphicsFamily, r.value.presentationFamily)) == FindQueueFamilies(dev.queueFamilies)
      && Some(r.value.surfaceFormat) == ChooseFormat(dev.support.formats)
      && Some(r.value.presentMode) == ChoosePresentMode(dev.support.presentModes)
      && r.value.swapExtent == ChooseSwapExtent(dev.support.capabilities, window)
      && r.value.swapImageCount == TripleBufferImageCount(dev.support.capabilities)
      && r.value.support == dev.support
  {
    match FindQueueFamilies(dev.queueFamilies)
    case None => None
    case Some((g, p)) =>
      if !ExtensionsSupported(dev.extensions, REQUIRED_EXTENSIONS) then None
      else
        match (ChooseFormat(dev.support.formats), ChoosePresentMode(dev.support.presentModes))
        case (Some(f), Some(m)) =>
          Some(Selection(index, g, p, f, m,
                         ChooseSwapExtent(dev.support.capabilities, window),
                         TripleBufferImageCount(dev.support.capabilities),
                         dev.support))
        case _ => None
  }

  /** The first device from position `start` on that passes every filter and the fitness test. */
  function SelectFrom(devices: seq<PhysicalDevice>, window: WindowSize, start: nat): (r: Option<Selection>)
    requires start <= |devices|
    decreases |devices| - start
    ensures r.None? <==> forall j :: start <= j < |devices| ==> !Suitable(devices[j])
    ensures r.Some? ==>
      && start <= r.value.device < |devices|
      && Suitable(devices[r.value.device])
      && Candidate(devices[r.value.device], r.value.device, window) == Some(r.value)
      && forall j :: start <= j < r.value.device ==> !Suitable(devices[j])
  {
    if start == |devices| then None
    else
      var dev := devices[start];
      if PassesFilters(dev) && Fit(dev) then Candidate(dev, start, window)
      else
        assert !Suitable(dev);
        SelectFrom(devices, window, start + 1)
  }

  /** The whole chain: `.find(...)` on the enumerated devices; None is "no suitable device". */
  function SelectDevice(devices: seq<PhysicalDevice>, window: WindowSize): (r: Option<Selection>)
    ensures r.None? <==> forall j :: 0 <= j < |devices| ==> !Suitable(devices[j])
    ensures r.Some? ==>
      && r.value.device < |devices|
      && Suitable(devices[r.value.device])
      && Candidate(devices[r.value.device], r.value.device, window) == Some(r.value)
      && forall j :: 0 <= j < r.value.device ==> !Suitable(devices[j])
  {
    SelectFrom(devices, window, 0)
  }

  /** Scanning from position `k`, past devices that are all unsuitable, gives the same choice as scanning from 0. */
  lemma {:induction false} SkipUnsuitablePrefix(devices: seq<PhysicalDevice>, window: WindowSize, k: nat)
    requires k <= |devices|
    requires forall j :: 0 <= j < k ==> !Suitable(devices[j])
    ensures SelectFrom(devices, window, 0) == SelectFrom(devices, window, k)
    decreases k
  {
    if k > 0 {
      SkipUnsuitablePrefix(devices, window, k - 1);
      assert !Suitable(devices[k - 1]);
      assert SelectFrom(devices, window, k - 1) == SelectFrom(devices, window, k);
    }
  }

  /**
    The configuration negotiated for the chosen device is one the device
    accepts: a listed format (or the preferred one when any will do), an image
    count within the device's range, and an extent within its range or the one
    it mandates.
   */
  lemma SelectedConfigurationIsValid(devices: seq<PhysicalDevice>, window: WindowSize)
    requires SelectDevice(devices, window).Some?
    requires var s := SelectDevice(devices, window).value;
      WellFormed(devices[s.device].support.capabilities)
      && devices[s.device].support.capabilities.minImageCount < U32_MAX
    ensures var s := SelectDevice(devices, window).value;
      var caps := s.support.capabilities;
      && (s.surfaceFormat in s.support.formats || AnyFormatAllowed(s.support.formats))
      && s.presentMode in s.support.presentModes
      && caps.minImageCount <= s.swapImageCount
      && (caps.maxImageCount > 0 ==> s.swapImageCount <= caps.maxImageCount)
      && (ExtentUnconstrained(caps) ==>
            && caps.minImageExtent.width <= s.swapExtent.width <= caps.maxImageExtent.width
            && caps.minImageExtent.height <= s.swapExtent.height <= caps.maxImageExtent.height)
      && (!ExtentUnconstrained(caps) ==> s.swapExtent == caps.currentExtent)
  {
  }

  /** With no device enumerated, selection fails. */
  lemma NoDevicesNoSelection(window: WindowSize)
    ensures SelectDevice([], window).None?
  {
  }

  // ---------------------------------------------------------------------------
  // The chain as written: the choosers run before the fitness test

  /** How the chain as written ends: a device, the `expect` failure, or a panic inside a chooser. */
  datatype Outcome = Chosen(selection: Selection) | NoSuitableDevice | Panicked

  /**
    The device passes the chain's filters, and the as-written extent or
    image-count chooser, which the `flat_map` calls before `find` sees the
    device, trips `bounded`'s assertion.
   */
  predicate PanicsOn(dev: PhysicalDevice, window: WindowSize)
  {
    && PassesFilters(dev)
    && (|| ChooseSwapExtentAsWritten(dev.support.capabilities, window).None?
        || TripleBufferImageCountAsWritten(dev.support.capabilities).None?)
  }

  /**
    The chain from position `start` on with the as-written choosers. Where it
    does not panic it agrees with the corrected selection; when it panics is
    stated by AsWrittenPanicsIff.
   */
  function SelectFromAsWritten(devices: seq<PhysicalDevice>, window: WindowSize, start: nat): (r: Outcome)
    requires start <= |devices|
    decreases |devices| - start
    ensures r.Chosen? ==> SelectFrom(devices, window, start) == Some(r.selection)
    ensures r.NoSuitableDevice? ==> SelectFrom(devices, window, start).None?
  {
    if start == |devices| then NoSuitableDevice
    else
      match Candidate(devices[start], start, window)
      case None => SelectFromAsWritten(devices, window, start + 1)
      case Some(s) =>
        if PanicsOn(devices[start], window) then Panicked
        else if Fit(devices[start]) then Chosen(s)
        else SelectFromAsWritten(devices, window, start + 1)
  }

  /**
    The chain as written panics iff some device passing the filters trips a
    chooser's assertion before any suitable device is reached.
   */
  lemma {:induction false} AsWrittenPanicsIff(devices: seq<PhysicalDevice>, window: WindowSize, start: nat)
    requires start <= |devices|
    decreases |devices| - start
    ensures SelectFromAsWritten(devices, window, start).Panicked? <==>
      exists j :: start <= j < |devices| && PanicsOn(devices[j], window)
        && forall k :: start <= k < j ==> !Suitable(devices[k])
  {
    if start < |devices| {
      AsWrittenPanicsIff(devices, window, start + 1);
      var dev := devices[start];
      var c := Candidate(dev, start, window);
      if c.Some? && PanicsOn(dev, window) {
        assert SelectFromAsWritten(devices, window, start).Panicked?;
        assert PanicsOn(devices[start], window);
      } else if c.Some? && Fit(dev) {
        assert Suitable(dev);
        assert !SelectFromAsWritten(devices, window, start).Panicked?;
      } else {
        assert !Suitable(dev) && !PanicsOn(dev, window);
        assert SelectFromAsWritten(devices, window, start) == SelectFromAsWritten(devices, window, start + 1);
        if exists j :: start + 1 <= j < |devices| && PanicsOn(devices[j], window)
             && forall k :: start + 1 <= k < j ==> !Suitable(devices[k]) {
          var j :| start + 1 <= j < |devices| && PanicsOn(devices[j], window)
             && forall k :: start + 1 <= k < j ==> !Suitable(devices[k]);
          assert forall k :: start <= k < j ==> !Suitable(devices[k]);
        }
      }
    }
  }

  /** The whole chain as written. */
  function SelectDeviceAsWritten(devices: seq<PhysicalDevice>, window: WindowSize): (r: Outcome)
    ensures r.Chosen? ==> SelectDevice(devices, window) == Some(r.selection)
    ensures r.NoSuitableDevice? ==> SelectDevice(devices, window).None?
  {
    SelectFromAsWritten(devices, window, 0)
  }

  /**
    An integrated GPU offering exactly two images, enumerated ahead of a
    suitable discrete GPU: the corrected selection picks the discrete GPU,
    the chain as written panics on the integrated one.
   */
  lemma EarlierDevicePanicsAsWritten(window: WindowSize)
    ensures var family := QueueFamily(1, QUEUE_GRAPHICS_BIT, true);
      var formats := [PREFERRED_FORMAT];
      var fixed := Extent2D(640, 480);
      var caps0 := SurfaceCapabilities(2, 2, fixed, fixed, fixed, 1);
      var caps1 := SurfaceCapabilities(2, 3, fixed, fixed, fixed, 1);
      var dev0 := PhysicalDevice([family], REQUIRED_EXTENSIONS, IntegratedGpu, 1, SupportDetails(caps0, formats, [Fifo]));
      var dev1 := PhysicalDevice([family], REQUIRED_EXTENSIONS, DiscreteGpu, 1, SupportDetails(caps1, formats, [Fifo]));
      && WellFormed(caps0) && WellFormed(caps1)
      && SelectDevice([dev0, dev1], window).Some?
      && SelectDevice([dev0, dev1], window).value.device == 1
      && SelectDeviceAsWritten([dev0, dev1], window).Panicked?
  {
    var family := QueueFamily(1, QUEUE_GRAPHICS_BIT, true);
    var formats := [PREFERRED_FORMAT];
    var fixed := Extent2D(640, 480);
    var caps0 := SurfaceCapabilities(2, 2, fixed, fixed, fixed, 1);
    var caps1 := SurfaceCapabilities(2, 3, fixed, fixed, fixed, 1);
    var dev0 := PhysicalDevice([family], REQUIRED_EXTENSIONS, IntegratedGpu, 1, SupportDetails(caps0, formats, [Fifo]));
    var dev1 := PhysicalDevice([family], REQUIRED_EXTENSIONS, DiscreteGpu, 1, SupportDetails(caps1, formats, [Fifo]));
    var devices := [dev0, dev1];
    assert 0 in GraphicsFamilies([family]) && 0 in PresentationFamilies([family]);
    assert Candidate(dev0, 0, window).Some? && PanicsOn(dev0, window);
    assert SelectFromAsWritten(devices, window, 0) == Panicked;
    assert Candidate(dev1, 1, window).Some? && Fit(dev1) && !Fit(dev0);
    assert SelectFrom(devices, window, 1) == Candidate(dev1, 1, window);
    assert SelectFrom(devices, window, 0) == SelectFrom(devices, window, 1);
  }
}
