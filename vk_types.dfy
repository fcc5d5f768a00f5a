/**
  The slice of the Vulkan 1.0 data model that capability negotiation reads:
  fixed-width integers, surface capabilities, surface formats and present modes.
  Enumerant values are the ones the Vulkan 1.0 specification assigns.
 */
module VkTypes {

  /** Vulkan's `uint32_t`. */
  newtype u32 = x: int | 0 <= x < 0x1_0000_0000

  /** C's `int`, which is what the window system reports a window size in. */
  newtype i32 = x: int | -0x8000_0000 <= x < 0x8000_0000

  /** `std::u32::MAX`, the largest `u32`. */
  const U32_MAX: u32 := 0xFFFF_FFFF

  /** Rust's `x as u32` for an `i32`: the same 32 bits read as unsigned. */
  function AsU32(x: i32): (r: u32)
    ensures r as int == x as int % 0x1_0000_0000
  {
    if x < 0 then (x as int + 0x1_0000_0000) as u32 else x as int as u32
  }

  /** Rust's `x + 1` on a `u32` in a release build: wraps around at 2^32. */
  function WrappingIncrement(x: u32): (r: u32)
    ensures r as int == (x as int + 1) % 0x1_0000_0000
  {
    if x == U32_MAX then 0 else x + 1
  }

  /** VkExtent2D. */
  datatype Extent2D = Extent2D(width: u32, height: u32)

  /** VkSurfaceCapabilitiesKHR (the fields negotiation reads). */
  datatype SurfaceCapabilities = SurfaceCapabilities(
    minImageCount: u32,
    maxImageCount: u32,        // 0 means "no limit"
    currentExtent: Extent2D,   // width U32_MAX means "the swapchain decides"
    minImageExtent: Extent2D,
    maxImageExtent: Extent2D,
    currentTransform: u32)

  /**
    What the Vulkan 1.0 specification (Window System Integration chapter, the
    description of VkSurfaceCapabilitiesKHR) guarantees of a capability report:
    at least one image, a maximum that is 0 or no less than the minimum, and an
    extent range that is not empty.
   */
  predicate WellFormed(caps: SurfaceCapabilities)
  {
    && caps.minImageCount >= 1
    && (caps.maxImageCount == 0 || caps.minImageCount <= caps.maxImageCount)
    && caps.minImageExtent.width <= caps.maxImageExtent.width
    && caps.minImageExtent.height <= caps.maxImageExtent.height
  }

  /** VkFormat, VkColorSpaceKHR: enumerants by their numeric value. */
  type Format = nat
  type ColorSpace = nat

  const FORMAT_UNDEFINED: Format := 0
  const FORMAT_R8G8B8A8_UNORM: Format := 37
  const COLOR_SPACE_SRGB_NONLINEAR: ColorSpace := 0

  /** VkSurfaceFormatKHR. */
  datatype SurfaceFormat = SurfaceFormat(format: Format, colorSpace: ColorSpace)

  /** VkPresentModeKHR, in the order of its enumerant values. */
  datatype PresentMode = Immediate | Mailbox | Fifo | FifoRelaxed

  /** The enumerant value, which is what the derived ordering of the enum compares. */
  function Rank(m: PresentMode): (r: nat)
    ensures r < 4
  {
    match m
    case Immediate => 0
    case Mailbox => 1
    case Fifo => 2
    case FifoRelaxed => 3
  }

  /** VkPhysicalDeviceType. */
  datatype PhysicalDeviceType = OtherType | IntegratedGpu | DiscreteGpu | VirtualGpu | Cpu

  /** VkSharingMode. */
  datatype SharingMode = Exclusive | Concurrent

  /** VkQueueFlags and its graphics bit. */
  type QueueFlags = bv32
  const QUEUE_GRAPHICS_BIT: QueueFlags := 0x1
}
