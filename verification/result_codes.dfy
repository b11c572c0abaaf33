/** vulkan_result_to_string: the lookup from a Vulkan result code to the
    entry of a fixed 23-entry table of diagnostic strings. The numeric
    values of the result codes are those of the Vulkan 1.0 headers. */
module ResultCodes {
  import opened Base

  // Result codes of the Vulkan 1.0 core and of the surface, swapchain and
  // display extensions, with their values in vulkan.h.
  const VkSuccess := 0
  const VkNotReady := 1
  const VkTimeout := 2
  const VkEventSet := 3
  const VkEventReset := 4
  const VkIncomplete := 5
  const VkErrorOutOfHostMemory := -1
  const VkErrorOutOfDeviceMemory := -2
  const VkErrorInitializationFailed := -3
  const VkErrorDeviceLost := -4
  const VkErrorMemoryMapFailed := -5
  const VkErrorLayerNotPresent := -6
  const VkErrorExtensionNotPresent := -7
  const VkErrorFeatureNotPresent := -8
  const VkErrorIncompatibleDriver := -9
  const VkErrorTooManyObjects := -10
  const VkErrorFormatNotSupported := -11
  const VkErrorFragmentedPool := -12
  const VkErrorSurfaceLostKhr := -1000000000
  const VkErrorNativeWindowInUseKhr := -1000000001
  const VkSuboptimalKhr := 1000001003
  const VkErrorOutOfDateKhr := -1000001004
  const VkErrorIncompatibleDisplayKhr := -1000003001

  /** One line of the table: the result's name and its description. */
  datatype Entry = Entry(name: string, description: string)
  {
    /** The string the table holds: name, " - ", description. */
    function Text(): string
    {
      name + " - " + description
    }
  }

  /** The string table of vulkan_utils.c, in its order, each entry split at
      its " - " into the result's name and its description. */
  const Entries: seq<Entry> := [
    Entry("VK_INCOMPLETE",
     "A return array was too small for the result"),
    Entry("VK_EVENT_RESET",
     "An event is unsignaled"),
    Entry("VK_EVENT_SET",
     "An event is signaled"),
    Entry("VK_TIMEOUT",
     "A wait operation has not completed in the specified time"),
    Entry("VK_NOT_READY",
     "A fence or query has not yet completed"),
    Entry("VK_SUCCESS",
     "Command successfully completed"),
    Entry("VK_ERROR_OUT_OF_HOST_MEMORY",
     "A host memory allocation has failed."),
    Entry("VK_ERROR_OUT_OF_DEVICE_MEMORY",
     "A device memory allocation has failed."),
    Entry("VK_ERROR_INITIALIZATION_FAILED",
     "Initialization of an object could not be completed for implementation-specific reasons."),
    Entry("VK_ERROR_DEVICE_LOST",
     "The logical or physical device has been lost. See Lost Device"),
    Entry("VK_ERROR_MEMORY_MAP_FAILED",
     "Mapping of a memory object has failed."),
    Entry("VK_ERROR_LAYER_NOT_PRESENT",
     "A requested layer is not present or could not be loaded."),
    Entry("VK_ERROR_EXTENSION_NOT_PRESENT",
     "A requested extension is not supported."),
    Entry("VK_ERROR_FEATURE_NOT_PRESENT",
     "A requested feature is not supported."),
    Entry("VK_ERROR_INCOMPATIBLE_DRIVER",
     "The requested version of Vulkan is not supported by the driver or is otherwise incompatible for implementation-specific reasons."),
    Entry("VK_ERROR_TOO_MANY_OBJECTS",
     "Too many objects of the type have already been created."),
    Entry("VK_ERROR_FORMAT_NOT_SUPPORTED",
     "A requested format is not supported on this device."),
    Entry("VK_ERROR_FRAGMENTED_POOL",
     "A requested pool allocation has failed due to fragmentation of the pool’s memory."),
    Entry("VK_ERROR_SURFACE_LOST_KHR",
     "A surface is no longer available."),
    Entry("VK_ERROR_NATIVE_WINDOW_IN_USE_KHR",
     "The requested window is already connected to a VkSurfaceKHR, or to some other non-Vulkan API."),
    Entry("VK_SUBOPTIMAL_KHR",
     "A swapchain no longer matches the surface properties exactly, but can still be used to present to the surface successfully"),
    Entry("VK_ERROR_OUT_OF_DATE_KHR",
     "A surface has changed in such a way that it is no longer compatible with the swapchain, and further presentation requests using the swapchain will fail. Applications must query the new surface properties and recreate their swapchain if they wish to continue presenting to the surface."),
    Entry("VK_ERROR_INCOMPATIBLE_DISPLAY_KHR",
     "The display used by a swapchain does not use the same presentable image layout, or is incompatible in a way that prevents sharing an image")
  ]

  /** The table index vulkan_result_to_string reads for `code`: the five
      extension codes have fixed slots 18..22; every other code reads slot
      5 - code, which the function asserts lies in 0..17. `None` is that
      assertion failing. */
  function ResultIndex(code: int): (r: Option<nat>)
    ensures r.Some? ==> r.value < |Entries|
    ensures r.Some? <==> (-12 <= code <= 5 || code in KhrCodes)
  {
    if code == VkErrorSurfaceLostKhr then Some(18)
    else if code == VkErrorNativeWindowInUseKhr then Some(19)
    else if code == VkSuboptimalKhr then Some(20)
    else if code == VkErrorOutOfDateKhr then Some(21)
    else if code == VkErrorIncompatibleDisplayKhr then Some(22)
    else if 0 <= 5 - code <= 17 then Some(5 - code)
    else None
  }

  /** The five extension result codes the table covers. */
  const KhrCodes: seq<int> := [
    VkErrorSurfaceLostKhr, VkErrorNativeWindowInUseKhr, VkSuboptimalKhr,
    VkErrorOutOfDateKhr, VkErrorIncompatibleDisplayKhr]

  /** vulkan_result_to_string: the table string for `code`, or `None` where
      the function's assertion fails. */
  function ResultToString(code: int): (r: Option<string>)
    ensures r.Some? <==> (-12 <= code <= 5 || code in KhrCodes)
    ensures r.Some? ==> exists i :: 0 <= i < |Entries| && r.value == Entries[i].Text()
  {
    match ResultIndex(code)
    case Some(i) => Some(Entries[i].Text())
    case None => None
  }

  /** The Vulkan name of each code the table covers, written independently
      of the table. */
  function CodeName(code: int): Option<string>
  {
    if code == VkSuccess then Some("VK_SUCCESS")
    else if code == VkNotReady then Some("VK_NOT_READY")
    else if code == VkTimeout then Some("VK_TIMEOUT")
    else if code == VkEventSet then Some("VK_EVENT_SET")
    else if code == VkEventReset then Some("VK_EVENT_RESET")
    else if code == VkIncomplete then Some("VK_INCOMPLETE")
    else if code == VkErrorOutOfHostMemory then Some("VK_ERROR_OUT_OF_HOST_MEMORY")
    else if code == VkErrorOutOfDeviceMemory then Some("VK_ERROR_OUT_OF_DEVICE_MEMORY")
    else if code == VkErrorInitializationFailed then Some("VK_ERROR_INITIALIZATION_FAILED")
    else if code == VkErrorDeviceLost then Some("VK_ERROR_DEVICE_LOST")
    else if code == VkErrorMemoryMapFailed then Some("VK_ERROR_MEMORY_MAP_FAILED")
    else if code == VkErrorLayerNotPresent then Some("VK_ERROR_LAYER_NOT_PRESENT")
    else if code == VkErrorExtensionNotPresent then Some("VK_ERROR_EXTENSION_NOT_PRESENT")
    else if code == VkErrorFeatureNotPresent then Some("VK_ERROR_FEATURE_NOT_PRESENT")
    else if code == VkErrorIncompatibleDriver then Some("VK_ERROR_INCOMPATIBLE_DRIVER")
    else if code == VkErrorTooManyObjects then Some("VK_ERROR_TOO_MANY_OBJECTS")
    else if code == VkErrorFormatNotSupported then Some("VK_ERROR_FORMAT_NOT_SUPPORTED")
    else if code == VkErrorFragmentedPool then Some("VK_ERROR_FRAGMENTED_POOL")
    else if code == VkErrorSurfaceLostKhr then Some("VK_ERROR_SURFACE_LOST_KHR")
    else if code == VkErrorNativeWindowInUseKhr then Some("VK_ERROR_NATIVE_WINDOW_IN_USE_KHR")
    else if code == VkSuboptimalKhr then Some("VK_SUBOPTIMAL_KHR")
    else if code == VkErrorOutOfDateKhr then Some("VK_ERROR_OUT_OF_DATE_KHR")
    else if code == VkErrorIncompatibleDisplayKhr then Some("VK_ERROR_INCOMPATIBLE_DISPLAY_KHR")
    else None
  }

  /** `name` followed by " - " starts the string `s`. */
  predicate DescribedAs(s: string, name: string)
  {
    |name| + 3 <= |s| && s[..|name| + 3] == name + " - "
  }

  /** Every table string starts with its entry's name. */
  lemma TextStartsWithName(e: Entry)
    ensures DescribedAs(e.Text(), e.name)
  {
    assert (e.name + " - " + e.description)[..|e.name| + 3] == e.name + " - ";
  }

  /** The lookup accepts exactly the codes that have a name, and every code
      it accepts lands on the string that describes that very code. */
  lemma LookupNamesTheCode(code: int)
    ensures ResultToString(code).Some? <==> CodeName(code).Some?
    ensures ResultToString(code).Some? ==>
      DescribedAs(ResultToString(code).value, CodeName(code).value)
  {
    var r := ResultIndex(code);
    if r.Some? {
      assert Entries[r.value].name == CodeName(code).value;
      TextStartsWithName(Entries[r.value]);
    }
  }

  /** VK_SUCCESS reads slot 5, VK_ERROR_OUT_OF_HOST_MEMORY slot 6, and codes
      just outside the table trip the assertion. */
  lemma LookupExamples()
    ensures ResultIndex(VkSuccess) == Some(5)
    ensures ResultIndex(VkErrorOutOfHostMemory) == Some(6)
    ensures ResultToString(VkSuccess) == Some(Entries[5].Text()) && Entries[5].name == "VK_SUCCESS"
    ensures ResultToString(6) == None && ResultToString(-13) == None
  {
  }

  /** The five extension codes read slots 18 to 22 in order. */
  lemma KhrSlots()
    ensures forall i :: 0 <= i < |KhrCodes| ==> ResultIndex(KhrCodes[i]) == Some(18 + i)
  {
  }

  /** Distinct accepted codes read distinct slots, and every slot is read by
      some code: the lookup is a bijection onto the table. */
  lemma LookupIsBijective(c1: int, c2: int)
    ensures ResultIndex(c1).Some? && ResultIndex(c1) == ResultIndex(c2) ==> c1 == c2
    ensures forall i :: 0 <= i < 18 ==> ResultIndex(5 - i) == Some(i)
  {
  }
}
