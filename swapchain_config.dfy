/**
  The swapchain create info assembled from the selection (src/main.rs), and
  `update_sharing_mode`, which rewrites its sharing mode in place.
 */
module SwapchainConfig {
  import opened VkTypes
  import opened SwapNegotiation
  import opened DeviceSelection
  import opened QueueSetup

  /** VkSwapchainCreateInfoKHR, the fields negotiation decides. */
  class SwapchainCreateInfo {
    var surface: nat
    var minImageCount: u32
    var imageFormat: Format
    var imageColorSpace: ColorSpace
    var imageExtent: Extent2D
    var imageArrayLayers: u32
    var imageSharingMode: SharingMode
    var queueFamilyIndexCount: nat
    var queueFamilyIndices: seq<nat>
    var preTransform: u32
    var presentMode: PresentMode
    var clipped: bool

    /** The count field describes the index list it points at. */
    predicate Valid()
      reads this
    {
      queueFamilyIndexCount == |queueFamilyIndices|
    }

    /** The struct literal: negotiated values, the unique index list, sharing mode Exclusive. */
    constructor (surface: nat, sel: Selection)
      ensures Valid()
      ensures this.surface == surface
      ensures minImageCount == sel.swapImageCount
      ensures imageFormat == sel.surfaceFormat.format && imageColorSpace == sel.surfaceFormat.colorSpace
      ensures imageExtent == sel.swapExtent && imageArrayLayers == 1
      ensures imageSharingMode == Exclusive
      ensures queueFamilyIndices == UniqueQueueFamilyIndices(sel.graphicsFamily, sel.presentationFamily)
      ensures preTransform == sel.support.capabilities.currentTransform
      ensures presentMode == sel.presentMode && clipped
    {
      this.surface := surface;
      minImageCount := sel.swapImageCount;
      imageFormat := sel.surfaceFormat.format;
      imageColorSpace := sel.surfaceFormat.colorSpace;
      imageExtent := sel.swapExtent;
      imageArrayLayers := 1;
      imageSharingMode := Exclusive;
      var indices := UniqueQueueFamilyIndices(sel.graphicsFamily, sel.presentationFamily);
      queueFamilyIndexCount := |indices|;
      queueFamilyIndices := indices;
      preTransform := sel.support.capabilities.currentTransform;
      presentMode := sel.presentMode;
      clipped := true;
    }

    /** `update_sharing_mode`: Concurrent when more than one family shares the images. */
    method UpdateSharingMode()
      modifies this`imageSharingMode
      ensures imageSharingMode == if queueFamilyIndexCount > 1 then Concurrent else Exclusive
      ensures queueFamilyIndexCount == old(queueFamilyIndexCount)
      ensures queueFamilyIndices == old(queueFamilyIndices)
      ensures minImageCount == old(minImageCount) && imageExtent == old(imageExtent)
      ensures imageFormat == old(imageFormat) && imageColorSpace == old(imageColorSpace)
      ensures presentMode == old(presentMode) && preTransform == old(preTransform)
      ensures surface == old(surface) && imageArrayLayers == old(imageArrayLayers) && clipped == old(clipped)
    {
      imageSharingMode := if queueFamilyIndexCount > 1 then Concurrent else Exclusive;
    }
  }

  /**
    The create info the program hands to the driver: built from the selection,
    then its sharing mode updated. Images are shared concurrently exactly when
    the graphics and presentation families differ.
   */
  method MakeSwapchainCreateInfo(surface: nat, sel: Selection) returns (info: SwapchainCreateInfo)
    ensures fresh(info) && info.Valid()
    ensures info.imageSharingMode == if sel.graphicsFamily != sel.presentationFamily then Concurrent else Exclusive
    ensures info.queueFamilyIndices == UniqueQueueFamilyIndices(sel.graphicsFamily, sel.presentationFamily)
    ensures info.minImageCount == sel.swapImageCount && info.imageExtent == sel.swapExtent
    ensures info.imageFormat == sel.surfaceFormat.format && info.imageColorSpace == sel.surfaceFormat.colorSpace
    ensures info.presentMode == sel.presentMode
    ensures info.preTransform == sel.support.capabilities.currentTransform
    ensures info.surface == surface && info.imageArrayLayers == 1 && info.clipped
  {
    info := new SwapchainCreateInfo(surface, sel);
    info.UpdateSharingMode();
  }
}
