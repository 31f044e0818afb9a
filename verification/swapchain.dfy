/**
 The choices createSwapChain makes from what the surface reports
 (src/Vulkan/vulkanSwapchain.cpp): surface format, present mode, extent,
 image count and image sharing mode. Formats, colour spaces and present
 modes are abstract enumerations naming the values the code tests for; the
 framebuffer size GLFW reports is an input.
 */
module Swapchain {
  import opened Base
  import opened Device

  datatype Format = B8G8R8A8Srgb | OtherFormat(code: nat)

  datatype ColorSpace = SrgbNonlinear | OtherColorSpace(code: nat)

  /** VkSurfaceFormatKHR. */
  datatype SurfaceFormat = SurfaceFormat(format: Format, colorSpace: ColorSpace)

  /** The format chooseSwapSurfaceFormat looks for. */
  const PreferredFormat: SurfaceFormat := SurfaceFormat(B8G8R8A8Srgb, SrgbNonlinear)

  function FirstPreferred(formats: seq<SurfaceFormat>, i: nat): (k: nat)
    requires i <= |formats|
    ensures i <= k <= |formats|
    ensures k < |formats| ==> formats[k] == PreferredFormat
    ensures forall j :: i <= j < k ==> formats[j] != PreferredFormat
    decreases |formats| - i
  {
    if i == |formats| then i
    else if formats[i].format == B8G8R8A8Srgb && formats[i].colorSpace == SrgbNonlinear then i
    else FirstPreferred(formats, i + 1)
  }

  /** chooseSwapSurfaceFormat: the sRGB BGRA format when it is offered, else
      the first format offered. Indexing an empty list is undefined, so the
      list must not be empty (device rating guarantees it). */
  function ChooseSurfaceFormat(formats: seq<SurfaceFormat>): (r: SurfaceFormat)
    requires |formats| > 0
    ensures r in formats
    ensures PreferredFormat in formats ==> r == PreferredFormat
    ensures PreferredFormat !in formats ==> r == formats[0]
  {
    var k := FirstPreferred(formats, 0);
    if k < |formats| then formats[k] else formats[0]
  }

  datatype PresentMode = Immediate | Mailbox | Fifo | FifoRelaxed | OtherPresentMode(code: nat)

  /** chooseSwapPresentMode: the loop looks for mailbox; otherwise FIFO,
      which every Vulkan surface supports, is returned without looking. */
  function ChoosePresentMode(modes: seq<PresentMode>): (r: PresentMode)
    ensures r == Mailbox <==> Mailbox in modes
    ensures r != Mailbox ==> r == Fifo
  {
    if |modes| == 0 then Fifo
    else if modes[0] == Mailbox then Mailbox
    else ChoosePresentMode(modes[1..])
  }

  /** The choice depends only on which modes are offered, not on their order. */
  lemma {:induction false} ChoosePresentModeOrderFree(a: seq<PresentMode>, b: seq<PresentMode>)
    requires forall m :: m in a <==> m in b
    ensures ChoosePresentMode(a) == ChoosePresentMode(b)
  {
    if Mailbox in a {
      assert Mailbox in b;
    }
  }

  datatype Extent2D = Extent2D(width: U32, height: U32)

  /** VkSurfaceCapabilitiesKHR, the fields the swapchain code reads. */
  datatype Capabilities = Capabilities(
    minImageCount: U32, maxImageCount: U32,
    currentExtent: Extent2D, minImageExtent: Extent2D, maxImageExtent: Extent2D)

  /** chooseSwapExtent. With the width UINT32_MAX the surface leaves the
      size to the application, and the framebuffer size in pixels is
      clamped into the allowed range; std::clamp is only defined when that
      range is not empty. */
  function ChooseExtent(caps: Capabilities, framebufferWidth: Int32, framebufferHeight: Int32): (r: Extent2D)
    requires caps.currentExtent.width == U32Max ==>
      caps.minImageExtent.width <= caps.maxImageExtent.width && caps.minImageExtent.height <= caps.maxImageExtent.height
    ensures caps.currentExtent.width != U32Max ==> r == caps.currentExtent
    ensures caps.currentExtent.width == U32Max ==>
      && caps.minImageExtent.width <= r.width <= caps.maxImageExtent.width
      && caps.minImageExtent.height <= r.height <= caps.maxImageExtent.height
    ensures caps.currentExtent.width == U32Max && 0 <= framebufferWidth && caps.minImageExtent.width <= framebufferWidth <= caps.maxImageExtent.width ==>
      r.width == framebufferWidth
    ensures caps.currentExtent.width == U32Max && 0 <= framebufferHeight && caps.minImageExtent.height <= framebufferHeight <= caps.maxImageExtent.height ==>
      r.height == framebufferHeight
  {
    if caps.currentExtent.width != U32Max then caps.currentExtent
    else
      Extent2D(Clamp(IntToU32(framebufferWidth), caps.minImageExtent.width, caps.maxImageExtent.width),
               Clamp(IntToU32(framebufferHeight), caps.minImageExtent.height, caps.maxImageExtent.height))
  }

  /** A negative framebuffer width wraps to a huge unsigned value and is
      clamped to the largest allowed width, not the smallest. */
  lemma NegativeWidthClampsHigh(caps: Capabilities, framebufferHeight: Int32)
    requires caps.currentExtent.width == U32Max
    requires caps.minImageExtent.width <= caps.maxImageExtent.width < 0x8000_0000
    requires caps.minImageExtent.height <= caps.maxImageExtent.height
    ensures ChooseExtent(caps, -1, framebufferHeight).width == caps.maxImageExtent.width
  {
  }

  /** The image count createSwapChain requests: one more than the minimum
      (in uint32 arithmetic), lowered to the maximum when there is one. */
  function ImageCount(caps: Capabilities): (r: U32)
    ensures caps.maxImageCount > 0 ==> r <= caps.maxImageCount
    ensures caps.minImageCount < U32Max && (caps.maxImageCount == 0 || caps.minImageCount < caps.maxImageCount) ==>
      r == caps.minImageCount + 1
    ensures caps.minImageCount < U32Max && 0 < caps.maxImageCount <= caps.minImageCount ==> r == caps.maxImageCount
  {
    var imageCount := AddU32(caps.minImageCount, 1);
    if caps.maxImageCount > 0 && imageCount > caps.maxImageCount then caps.maxImageCount else imageCount
  }

  /** A surface that reports a consistent range gets a count within it. */
  lemma ImageCountWithinRange(caps: Capabilities)
    requires caps.minImageCount < U32Max
    requires caps.maxImageCount == 0 || caps.minImageCount <= caps.maxImageCount
    ensures caps.minImageCount <= ImageCount(caps)
    ensures caps.maxImageCount > 0 ==> ImageCount(caps) <= caps.maxImageCount
    ensures ImageCount(caps) > 0
  {
  }

  datatype SharingMode = Exclusive | Concurrent

  /** The sharing fields of VkSwapchainCreateInfoKHR. */
  datatype Sharing = Sharing(mode: SharingMode, queueFamilyIndices: seq<nat>)

  /** The sharing rule of createSwapChain: both families are read with
      `value()`, which throws when one is missing. */
  function ChooseSharing(indices: QueueFamilyIndices): (r: Result<Sharing, DeviceError>)
    ensures r.Success? <==> indices.IsComplete()
    ensures r.Success? ==> (r.value.mode == Concurrent <==> indices.graphicsFamily != indices.presentFamily)
    ensures r.Success? && r.value.mode == Concurrent ==>
      r.value.queueFamilyIndices == [indices.graphicsFamily.value, indices.presentFamily.value]
    ensures r.Success? && r.value.mode == Exclusive ==> r.value.queueFamilyIndices == []
  {
    var g :- if indices.graphicsFamily.Some? then Success(indices.graphicsFamily.value) else Failure(MissingQueueFamily);
    var p :- if indices.presentFamily.Some? then Success(indices.presentFamily.value) else Failure(MissingQueueFamily);
    if g != p then Success(Sharing(Concurrent, [g, p])) else Success(Sharing(Exclusive, []))
  }

  /** The images are shared concurrently exactly when createLogicalDevice
      creates queues in two distinct families. */
  lemma SharingMatchesQueues(indices: QueueFamilyIndices)
    ensures ChooseSharing(indices).Success? <==> UniqueQueueFamilies(indices).Success?
    ensures ChooseSharing(indices).Success? ==>
      (ChooseSharing(indices).value.mode == Concurrent <==> |UniqueQueueFamilies(indices).value| == 2)
  {
  }
}
