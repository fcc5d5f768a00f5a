# vk-playground: capability negotiation and handle ownership, in Dafny

This project models the part of the vk-playground Vulkan demo that makes decisions. The rest of the program only calls into Vulkan and GLFW. The model covers:

- **Swap-configuration negotiation.** This is the `bounded` clamp helper and the choosers for the surface format, the present mode, the swap extent and the image count. They work over a device's support snapshot (capabilities, formats, present modes) and the window size (module `SwapNegotiation`).
- **Physical-device and queue-family selection.** In the source this is one iterator chain inside `main`. Here it becomes functions over a device record, built from what the driver reports about that device: queue families with their surface-support answers, extension names, device type, geometry-shader feature and support snapshot (module `DeviceSelection`). The extension check is part of this module.
- **Queue plumbing.** This is the de-duplicated, sorted queue-family index list and the one-or-two queue create infos (module `QueueSetup`).
- **The swapchain create info.** It is a class, because `update_sharing_mode` rewrites its sharing mode in place (module `SwapchainConfig`).
- **The `VkOwned` ownership wrapper.** It is a class with a `dropped` flag and a ghost log of destructor calls (module `VkMem`).

Shared Vulkan types, with the enumerant values from the Vulkan 1.0 specification, are in `VkTypes`. `Option` is in `Wrappers`.

Choices made in the model:

- The ash call `queue_flags.subset(QUEUE_GRAPHICS_BIT)` is read as "the graphics bit is among the flags". In the ash version used, `a.subset(b)` means `a & b == b`.
- Present modes are ordered by enumerant value: Immediate < Mailbox < Fifo < FifoRelaxed. `choose_present_mode` takes the enum maximum, so it prefers FifoRelaxed whenever the device offers it.
- The code passes the de-duplicated queue-family list in both sharing modes, so the list has one element when the mode is Exclusive. Only the sharing mode depends on the list's length.
- The window size is the pair of `i32`s that GLFW reports. The cast `as u32` is modelled explicitly, so a negative value reinterprets its bits.
- `min_image_count + 1` is modelled with release-build wrap-around. Every contract that relies on it being `min_image_count + 1` states `minImageCount < U32_MAX` as its assumption.
- The choosers that the rest of the model uses are the corrected ones from "## Findings". They clamp into `[lo, hi]` without the strict assertion.

## Model

| member | source | states |
|---|---|---|
| `SwapNegotiation.Bounded` | src/main.rs:149-160 | Requires `lo < hi`, as the assertion does. The result lies in `[lo, hi]`. It is `x` when `x` is in range, `lo` below the range and `hi` above it |
| `SwapNegotiation.Clamp` | src/main.rs:149-160 | The clamp the callers need: for `lo <= hi` the result lies in `[lo, hi]`, and an in-range `x` is returned unchanged |
| `SwapNegotiation.ClampIsNearest` | src/main.rs:149-160 | The clamped value is the point of `[lo, hi]` nearest to `x` |
| `SwapNegotiation.BoundedIsClamp` | src/main.rs:149-160 | Wherever `bounded`'s assertion holds, it gives the same value as `Clamp` |
| `SwapNegotiation.FindFirst` | src/main.rs:187-188 | `find` gives None iff the format is absent. Otherwise it gives the first position holding it |
| `SwapNegotiation.ChooseFormat` | src/main.rs:182-195 | None iff the list is empty. A list of exactly one entry with format Undefined gives PREFERRED_FORMAT (R8G8B8A8_UNORM, SRGB_NONLINEAR). Otherwise the result is a list member: PREFERRED_FORMAT if listed (format and colour space both matching), else the first entry |
| `SwapNegotiation.ChooseFormatIgnoresColorSpaceOfUndefined` | src/main.rs:183-185 | The single-Undefined case gives the preferred format whatever the entry's colour space |
| `SwapNegotiation.ChoosePresentMode` | src/main.rs:197-202 | None iff the list is empty. Otherwise the result is a listed mode that ranks no lower than any listed mode |
| `SwapNegotiation.ChoosePresentModeOnlySeesMembers` | src/main.rs:197-202 | Two lists with the same members give the same choice, whatever their order or repetitions |
| `SwapNegotiation.ChooseSwapExtentAsWritten` | src/main.rs:204-218 | As written: a current width other than `u32::MAX` returns the current extent verbatim, height included. Under the sentinel it panics (None) iff a component's range is not strictly ordered. Otherwise it equals the corrected chooser |
| `SwapNegotiation.SwapExtentPanicsOnFixedRange` | src/main.rs:212-213 | A well-formed report with a single-point extent range makes the as-written chooser panic, while the corrected one returns that extent |
| `SwapNegotiation.ChooseSwapExtent` | src/main.rs:204-218 | A non-sentinel current extent is returned verbatim. Under the sentinel each component lies within `[min_image_extent, max_image_extent]`, and an in-range window size is kept as is |
| `SwapNegotiation.SwapExtentClampsOutOfRange` | src/main.rs:209-214 | Under the sentinel, a window size below or above the range is clamped to the range's near end, not rejected |
| `SwapNegotiation.TripleBufferImageCountAsWritten` | src/main.rs:221-230 | As written: `max == 0` gives `min + 1`. With `max > 0` it panics (None) iff `max <= min`. Otherwise it equals the corrected count |
| `SwapNegotiation.ImageCountPanicsOnEqualBounds` | src/main.rs:225 | A well-formed report with min = max = 2 makes the as-written count panic, while the corrected one gives 2 |
| `SwapNegotiation.TripleBufferImageCount` | src/main.rs:221-230 | `max == 0` (unbounded) gives exactly `min + 1`. With `max > 0` the count lies in `[min, max]`, and it is `min + 1` whenever `min < max` |
| `SwapNegotiation.ImageCountExamples` | src/main.rs:221-230 | min 2, max 3 gives 3; min 1, max 0 gives 2 |
| `VkTypes.AsU32` | src/main.rs:210 | `i32 as u32` is reduction modulo 2^32: the result is congruent to the value and lies in the `u32` range |
| `VkTypes.WrappingIncrement` | src/main.rs:222 | `u32 + 1` in a release build is the successor modulo 2^32 |
| `DeviceSelection.ExtensionsSupported` | src/main.rs:126-138 | True iff every required name is in the available list |
| `DeviceSelection.ExtensionsSupportedBySet` | src/main.rs:135-137 | The check depends only on the set of required names |
| `DeviceSelection.LeastFrom` | src/main.rs:360-366 | None iff the set has no element in `[lo, hi)`. Otherwise it gives the least such element |
| `DeviceSelection.Least` | src/main.rs:365-366 | `iter().next()` on an ordered set: None iff the set is empty, otherwise its minimum |
| `DeviceSelection.FindQueueFamilies` | src/main.rs:350-371 | None iff the graphics families (queue count > 0, graphics bit set) or the presenting families are empty. A graphics index and a presenting index otherwise. When the sets meet, the least common index serves both roles. When they do not, each role gets its own set's minimum |
| `DeviceSelection.SplitFamiliesExample` | src/main.rs:350-371 | Family 0 graphics-only and family 1 present-only gives (0, 1) |
| `DeviceSelection.Candidate` | src/main.rs:373-383 | A device passes the chain's filters iff it has both kinds of family, every required extension, a format and a present mode. Its result carries the queue pair, format, present mode, extent, image count and snapshot from the choosers |
| `DeviceSelection.SelectFrom` | src/main.rs:346-390 | The first device at or after `start` that is Suitable, or None iff there is none |
| `DeviceSelection.SelectDevice` | src/main.rs:346-390 | None ("no suitable device") iff no enumerated device passes the filters and is a discrete GPU with geometry shaders. Otherwise it gives the first such device, with the corrected choosers' values for it |
| `DeviceSelection.SkipUnsuitablePrefix` | src/main.rs:384-389 | Devices ahead of the choice that are not suitable do not affect it |
| `DeviceSelection.SelectFromAsWritten` | src/main.rs:372-390 | The chain as written, which runs the as-written extent and image-count choosers on every device that passes the filters before `find` tests fitness. When it chooses a device or runs out of devices, it agrees with the corrected selection |
| `DeviceSelection.AsWrittenPanicsIff` | src/main.rs:372-390 | The chain as written panics iff some device that passes the filters trips a chooser's assertion, and no suitable device comes before it |
| `DeviceSelection.SelectDeviceAsWritten` | src/main.rs:345-390 | The whole chain as written agrees with `SelectDevice` whenever it does not panic |
| `DeviceSelection.EarlierDevicePanicsAsWritten` | src/main.rs:372-390 | An integrated GPU offering exactly two images, enumerated before a suitable discrete GPU, panics the chain as written. The corrected selection picks the discrete GPU |
| `DeviceSelection.SelectedConfigurationIsValid` | src/main.rs:374-383 | For a well-formed capability report: the chosen format is listed (or any format is allowed), the mode is listed, the image count is within range, and the extent is within range or the one mandated |
| `DeviceSelection.NoDevicesNoSelection` | src/main.rs:341-390 | An empty enumeration fails |
| `QueueSetup.InsertSorted` | src/main.rs:471-473 | Inserting into a sorted, repeat-free list keeps it so. It adds exactly `x`, growing by one iff `x` was absent |
| `QueueSetup.CollectSorted` | src/main.rs:471-475 | Collecting through an ordered set gives a strictly increasing list of exactly the input's elements |
| `QueueSetup.UniqueQueueFamilyIndices` | src/main.rs:470-475 | The index list is strictly increasing and holds exactly {graphics, presentation}: one element iff they are equal, else two |
| `QueueSetup.UniqueIndicesExamples` | src/main.rs:470-475 | (0, 1) and (1, 0) give [0, 1]. (i, i) gives [i] |
| `QueueSetup.QueueCreateInfos` | src/main.rs:405-435 | One create info iff the families are equal, else two. The first is for graphics, each asks for one queue, and together they cover exactly {graphics, presentation} |
| `QueueSetup.QueueCreateInfosMatchIndexList` | src/main.rs:405-435 | The device's queue create infos and the swapchain's index list have the same length and the same families |
| `SwapchainConfig.SwapchainCreateInfo.constructor` | src/main.rs:476-495 | The struct literal: negotiated count, format, colour space, extent, present mode and transform, one array layer, clipped, the unique index list with its count, and sharing mode Exclusive |
| `SwapchainConfig.SwapchainCreateInfo.UpdateSharingMode` | src/main.rs:242-250 | Sharing mode becomes Concurrent iff the index count exceeds 1, else Exclusive. Only that field changes |
| `SwapchainConfig.MakeSwapchainCreateInfo` | src/main.rs:476-496 | After the update, images are shared concurrently iff the graphics and presentation families differ. The index list is the unique list. The surface, image count, format, colour space, extent, present mode and transform come from the selection, with one array layer and clipping on |
| `VkMem.VkOwned.constructor` | src/vk_mem.rs:9-14 | Stores the value unchanged and the destructor. Nothing is destroyed, and the owner is live |
| `VkMem.VkOwned.Read` | src/vk_mem.rs:4 | Reading a live owner returns the stored value and changes nothing |
| `VkMem.VkOwned.Drop` | src/vk_mem.rs:17-20 | Calls the destructor exactly once, appending (destructor, value) to the log, and leaves the value unchanged |
| `VkMem.OwnReadDrop` | src/vk_mem.rs:3-20 | Creating, reading N times and dropping returns the stored value on every read. The destructor runs exactly once, with that value, whatever N |

## Left out

- Every Vulkan, GLFW and ash call. The model does not query the driver: physical-device queries, extension enumeration, surface support and the support snapshot become fields of `DeviceSelection.PhysicalDevice`.
- The `unwrap` panics on failed queries (`SwapChainSupportDetails::new`, `enumerate_device_extension_properties`) are not modelled, because the query results are given data.
- src/safe_create.rs, src/safe_ext.rs and src/glfw_surface.rs are not part of this model. They wrap driver calls whose only logic ("wrap on success") `VkMem.VkOwned` already covers.
- Instance, debug-callback, logical-device, pipeline, render-pass, framebuffer and command-buffer assembly in `main` are left out. They are raw pointers, C strings and fixed floating-point pipeline state.
- `draw_frame` and the semaphore protocol are left out, because they are concurrency with the GPU. The GLFW event loop and `device_wait_idle` are left out too.
- The queue lookup after device creation (src/main.rs:501-511) is left out. It only reuses the graphics queue when the families are equal.
- `read_full_file` (file I/O), `debug_report_callback` and the logging calls are left out, as is the `GlfwVulkanExtensions` raw-pointer slice.
- Queue priorities are left out (floating point).
- `VkMem.VkOwned`: what the destructor does to the driver is abstract. The ghost log records only which destructor was called with which value. Rust's move semantics are represented by the `!dropped` preconditions of `Read` and `Drop`, which the compiler enforces in the source.
- Queue-family indices are `nat`. The program's `as u32` casts of them are not modelled, because Vulkan reports family counts as `u32`.
- `DeviceSelection.SelectDevice`: uses the corrected choosers. The chain as written also calls the extent and image-count choosers on devices that pass the filters but fail the fitness test, so their panics can end the chain before a later suitable device is reached. `DeviceSelection.SelectDeviceAsWritten` and `DeviceSelection.AsWrittenPanicsIff` model that behaviour.
- `SwapNegotiation.TripleBufferImageCount`: the exact `min + 1` results are stated only for `minImageCount < U32_MAX`. At `U32_MAX` the sum wraps in a release build and panics in a debug build.

## Findings

| source | as written | input that shows it | evidently intended | confidence | as-written member | corrected member |
|---|---|---|---|---|---|---|
| src/main.rs:151 and src/main.rs:225 | `triple_buffer_image_count` clamps with `bounded`, which asserts `min < max` strictly | capabilities with `minImageCount == maxImageCount == 2`, which Vulkan permits (`maxImageCount` is 0 or at least `minImageCount`): the assertion panics. The device need not be the one chosen: any device that passes the filters and comes before the chosen one panics the chain (`DeviceSelection.EarlierDevicePanicsAsWritten`) | clamp into the closed range, giving 2 | not executed; high that it panics on such a report | `SwapNegotiation.TripleBufferImageCountAsWritten`, shown by `SwapNegotiation.ImageCountPanicsOnEqualBounds` | `SwapNegotiation.TripleBufferImageCount` (uses `SwapNegotiation.Clamp`) |
| src/main.rs:151 and src/main.rs:212-213 | `choose_swap_extent` clamps each window dimension with `bounded`, which asserts `min < max` strictly | current extent is the `u32::MAX` sentinel and `min_image_extent == max_image_extent == 800x600`: the assertion panics, including on a device that passes the filters but is not the one chosen | clamp into the closed range, giving 800x600 | not executed; high that it panics on such a report | `SwapNegotiation.ChooseSwapExtentAsWritten`, shown by `SwapNegotiation.SwapExtentPanicsOnFixedRange` | `SwapNegotiation.ChooseSwapExtent` (uses `SwapNegotiation.Clamp`) |
