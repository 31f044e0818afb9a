/**
 Physical-device selection and queue-family lookup (src/Vulkan/vulkanDevice.cpp).
 What the Vulkan queries report about a device is an input record; the
 device handles themselves are positions in the enumeration order. A call
 to `exit` or a throwing `optional::value()` is a Failure.
 */
module Device {
  import opened Base

  /** What one queue family reports: the graphics bit of its queue flags,
      and whether it can present to the surface. */
  datatype QueueFamily = QueueFamily(graphics: bool, present: bool)

  /** QueueFamilyIndices as vulkanDevice.cpp uses it, with a present family
      (the header's declaration has only the graphics family). */
  datatype QueueFamilyIndices = QueueFamilyIndices(graphicsFamily: Option<nat>, presentFamily: Option<nat>) {
    predicate IsComplete() {
      graphicsFamily.Some? && presentFamily.Some?
    }

    /** The later of the two indices: the family at which a complete scan stopped. */
    function Later(): nat
      requires IsComplete()
    {
      if graphicsFamily.value < presentFamily.value then presentFamily.value else graphicsFamily.value
    }
  }

  ghost predicate HasGraphics(fams: seq<QueueFamily>) {
    exists i :: 0 <= i < |fams| && fams[i].graphics
  }

  ghost predicate HasPresent(fams: seq<QueueFamily>) {
    exists i :: 0 <= i < |fams| && fams[i].present
  }

  /** `slot` holds the last family before `upto` with the flag, or None if
      there is none. */
  ghost predicate LastBefore(fams: seq<QueueFamily>, upto: nat, slot: Option<nat>, graphics: bool)
    requires upto <= |fams|
  {
    match slot
    case None => forall j :: 0 <= j < upto ==> (if graphics then !fams[j].graphics else !fams[j].present)
    case Some(g) =>
      && g < upto
      && (if graphics then fams[g].graphics else fams[g].present)
      && forall j :: g < j < upto ==> (if graphics then !fams[j].graphics else !fams[j].present)
  }

  /** The slot after looking at family i: i when it has the flag, else unchanged. */
  function Record(slot: Option<nat>, flag: bool, i: nat): Option<nat> {
    if flag then Some(i) else slot
  }

  /** One iteration of the scan keeps each slot the last qualifying family seen. */
  lemma ScanStep(fams: seq<QueueFamily>, i: nat, g: Option<nat>, p: Option<nat>)
    requires i < |fams|
    requires LastBefore(fams, i, g, true) && LastBefore(fams, i, p, false)
    ensures LastBefore(fams, i + 1, Record(g, fams[i].graphics, i), true)
    ensures LastBefore(fams, i + 1, Record(p, fams[i].present, i), false)
  {
  }

  /** The iteration that completes the indices stops the scan at family i:
      before it one of the two flags was never seen. */
  lemma ScanComplete(fams: seq<QueueFamily>, i: nat, g: Option<nat>, p: Option<nat>)
    requires i < |fams|
    requires LastBefore(fams, i, g, true) && LastBefore(fams, i, p, false)
    requires !(g.Some? && p.Some?)
    requires Record(g, fams[i].graphics, i).Some? && Record(p, fams[i].present, i).Some?
    ensures QueueFamilyIndices(Record(g, fams[i].graphics, i), Record(p, fams[i].present, i)).Later() == i
    ensures (forall j :: 0 <= j < i ==> !fams[j].graphics) || (forall j :: 0 <= j < i ==> !fams[j].present)
    ensures HasGraphics(fams) && HasPresent(fams)
  {
    ScanStep(fams, i, g, p);
    var gi, pi := Record(g, fams[i].graphics, i).value, Record(p, fams[i].present, i).value;
    assert fams[gi].graphics && fams[pi].present;
  }

  /** A scan that runs off the end found one of the two flags nowhere. */
  lemma ScanExhausted(fams: seq<QueueFamily>, g: Option<nat>, p: Option<nat>)
    requires LastBefore(fams, |fams|, g, true) && LastBefore(fams, |fams|, p, false)
    requires !(g.Some? && p.Some?)
    ensures !(HasGraphics(fams) && HasPresent(fams))
  {
  }

  /** The loop of findQueueFamilies from family i on; `g` and `p` are what it
      has recorded so far, which is not yet complete. */
  function ScanFamilies(fams: seq<QueueFamily>, i: nat, g: Option<nat>, p: Option<nat>): (r: QueueFamilyIndices)
    requires i <= |fams|
    requires LastBefore(fams, i, g, true) && LastBefore(fams, i, p, false)
    requires !(g.Some? && p.Some?)
    ensures r.IsComplete() ==>
      && r.Later() < |fams|
      && LastBefore(fams, r.Later() + 1, r.graphicsFamily, true) && LastBefore(fams, r.Later() + 1, r.presentFamily, false)
      && ((forall j :: 0 <= j < r.Later() ==> !fams[j].graphics) || (forall j :: 0 <= j < r.Later() ==> !fams[j].present))
    ensures !r.IsComplete() ==> LastBefore(fams, |fams|, r.graphicsFamily, true) && LastBefore(fams, |fams|, r.presentFamily, false)
    ensures r.IsComplete() <==> HasGraphics(fams) && HasPresent(fams)
    decreases |fams| - i
  {
    if i == |fams| then
      ScanExhausted(fams, g, p);
      QueueFamilyIndices(g, p)
    else
      var g', p' := Record(g, fams[i].graphics, i), Record(p, fams[i].present, i);
      ScanStep(fams, i, g, p);
      if g'.Some? && p'.Some? then
        ScanComplete(fams, i, g, p);
        QueueFamilyIndices(g', p')
      else ScanFamilies(fams, i + 1, g', p')
  }

  /** findQueueFamilies: the families are scanned in index order, each flag's
      slot taking every qualifying index, until both slots are filled. */
  function FindQueueFamilies(fams: seq<QueueFamily>): (r: QueueFamilyIndices)
    ensures r.graphicsFamily.Some? ==> r.graphicsFamily.value < |fams| && fams[r.graphicsFamily.value].graphics
    ensures r.presentFamily.Some? ==> r.presentFamily.value < |fams| && fams[r.presentFamily.value].present
    ensures r.IsComplete() ==>
      && (forall j :: r.graphicsFamily.value < j <= r.Later() ==> !fams[j].graphics)
      && (forall j :: r.presentFamily.value < j <= r.Later() ==> !fams[j].present)
      && ((forall j :: 0 <= j < r.Later() ==> !fams[j].graphics) || (forall j :: 0 <= j < r.Later() ==> !fams[j].present))
    ensures !r.IsComplete() ==> LastBefore(fams, |fams|, r.graphicsFamily, true) && LastBefore(fams, |fams|, r.presentFamily, false)
    ensures r.IsComplete() <==> HasGraphics(fams) && HasPresent(fams)
  {
    ScanFamilies(fams, 0, None, None)
  }

  /** The two family indices this device would use, in the form of a
      concrete scan result. */
  lemma FindQueueFamiliesExample()
    ensures FindQueueFamilies([QueueFamily(false, true), QueueFamily(true, false), QueueFamily(true, true)])
      == QueueFamilyIndices(Some(1), Some(0))
    ensures FindQueueFamilies([QueueFamily(true, false), QueueFamily(true, false), QueueFamily(false, true)])
      == QueueFamilyIndices(Some(1), Some(2))
  {
  }

  /** checkDeviceExtensionSupport's loop: each available name is erased from
      the set of required names. */
  function EraseAvailable(required: set<string>, available: seq<string>): (r: set<string>)
    ensures forall x :: x in r <==> x in required && x !in available
  {
    if |available| == 0 then required
    else EraseAvailable(required - {available[0]}, available[1..])
  }

  /** checkDeviceExtensionSupport. */
  function CheckExtensionSupport(required: set<string>, available: seq<string>): (r: bool)
    ensures r <==> forall x :: x in required ==> x in available
  {
    EraseAvailable(required, available) == {}
  }

  /** What the Vulkan queries report about one physical device. */
  datatype DeviceInfo = DeviceInfo(
    discrete: bool,
    maxImageDimension2D: U32,
    extensions: seq<string>,
    formatCount: nat,
    presentModeCount: nat,
    samplerAnisotropy: bool,
    queueFamilies: seq<QueueFamily>)

  /** The int value a sum in uint32 arithmetic converts back to (two's
      complement, as every supported compiler does). */
  function ToInt32(x: U32): (r: int)
    ensures -0x8000_0000 <= r < 0x8000_0000
    ensures x < 0x8000_0000 ==> r == x
    ensures x >= 0x8000_0000 ==> r < 0
  {
    if x < 0x8000_0000 then x else x - U32Modulus
  }

  /** Everything rateDeviceSuitability requires of a usable device. The
      swapchain is only queried when the extensions are supported. */
  predicate Usable(d: DeviceInfo, required: set<string>) {
    var extensionsSupported := CheckExtensionSupport(required, d.extensions);
    var swapChainAdequate := extensionsSupported && d.formatCount > 0 && d.presentModeCount > 0;
    FindQueueFamilies(d.queueFamilies).IsComplete() && extensionsSupported && swapChainAdequate && d.samplerAnisotropy
  }

  /** rateDeviceSuitability. `score += maxImageDimension2D` adds an
      unsigned value to an int, so the sum is taken in uint32 arithmetic. */
  function RateDevice(d: DeviceInfo, required: set<string>): (r: int)
    ensures !Usable(d, required) ==> r == 0
    ensures Usable(d, required) && (if d.discrete then 1000 else 0) + d.maxImageDimension2D < 0x8000_0000 ==>
      r == (if d.discrete then 1000 else 0) + d.maxImageDimension2D
    ensures r > 0 ==> Usable(d, required)
  {
    var score := if d.discrete then 1000 else 0;
    var score := ToInt32(AddU32(score, d.maxImageDimension2D));
    if !Usable(d, required) then 0 else score
  }

  /** A device is usable exactly when the rating's four conditions hold, in
      terms of what the device reports. */
  lemma UsableMeans(d: DeviceInfo, required: set<string>)
    ensures Usable(d, required) <==>
      && HasGraphics(d.queueFamilies) && HasPresent(d.queueFamilies)
      && (forall x :: x in required ==> x in d.extensions)
      && d.formatCount > 0 && d.presentModeCount > 0
      && d.samplerAnisotropy
  {
  }

  /** A discrete GPU outscores an integrated one of the same image limit,
      as long as the scores stay within int. */
  lemma DiscretePreferred(d: DeviceInfo, required: set<string>)
    requires Usable(d, required) && d.maxImageDimension2D + 1000 < 0x8000_0000
    ensures RateDevice(d.(discrete := true), required) == RateDevice(d.(discrete := false), required) + 1000
  {
  }

  datatype DeviceError = NoVulkanDevices | NoSuitableDevice | MissingQueueFamily

  /** pickPhysicalDevice's selection loop as written: the `break` stops at the
      first device whose score beats 0. */
  function PickDeviceAsWritten(scores: seq<int>): (r: Result<nat, DeviceError>)
    ensures r == Failure(NoVulkanDevices) <==> |scores| == 0
    ensures r == Failure(NoSuitableDevice) <==> |scores| > 0 && forall i :: 0 <= i < |scores| ==> scores[i] <= 0
    ensures r.Success? ==> r.value < |scores| && scores[r.value] > 0 && forall i :: 0 <= i < r.value ==> scores[i] <= 0
  {
    if |scores| == 0 then Failure(NoVulkanDevices)
    else
      var k := FirstPositive(scores, 0);
      if k == |scores| then Failure(NoSuitableDevice) else Success(k)
  }

  function FirstPositive(scores: seq<int>, i: nat): (k: nat)
    requires i <= |scores|
    ensures i <= k <= |scores|
    ensures k < |scores| ==> scores[k] > 0
    ensures forall j :: i <= j < k ==> scores[j] <= 0
    decreases |scores| - i
  {
    if i == |scores| then i
    else if scores[i] > 0 then i
    else FirstPositive(scores, i + 1)
  }

  /** The loop without the `break`, from position i on: a device replaces
      the best so far only when it scores strictly higher. */
  function ScanHighest(scores: seq<int>, i: nat, best: Option<nat>, highest: int): (r: Option<nat>)
    requires i <= |scores| && highest >= 0
    requires best.None? ==> highest == 0 && forall j :: 0 <= j < i ==> scores[j] <= 0
    requires best.Some? ==> best.value < i && scores[best.value] == highest > 0
    requires best.Some? ==> forall j :: 0 <= j < i ==> scores[j] <= highest
    requires best.Some? ==> forall j :: 0 <= j < best.value ==> scores[j] < highest
    ensures r.None? ==> forall j :: 0 <= j < |scores| ==> scores[j] <= 0
    ensures r.Some? ==> r.value < |scores| && scores[r.value] > 0
    ensures r.Some? ==> forall j :: 0 <= j < |scores| ==> scores[j] <= scores[r.value]
    ensures r.Some? ==> forall j :: 0 <= j < r.value ==> scores[j] < scores[r.value]
    decreases |scores| - i
  {
    if i == |scores| then best
    else if scores[i] > highest then ScanHighest(scores, i + 1, Some(i), scores[i])
    else ScanHighest(scores, i + 1, best, highest)
  }

  /** The selection the comment before the loop describes: the earliest
      device with the highest score, and no device when that score is 0. */
  function PickDevice(scores: seq<int>): (r: Result<nat, DeviceError>)
    ensures r == Failure(NoVulkanDevices) <==> |scores| == 0
    ensures r == Failure(NoSuitableDevice) <==> |scores| > 0 && forall i :: 0 <= i < |scores| ==> scores[i] <= 0
    ensures r.Success? ==> r.value < |scores| && scores[r.value] > 0
    ensures r.Success? ==> forall i :: 0 <= i < |scores| ==> scores[i] <= scores[r.value]
    ensures r.Success? ==> forall i :: 0 <= i < r.value ==> scores[i] < scores[r.value]
  {
    if |scores| == 0 then Failure(NoVulkanDevices)
    else
      match ScanHighest(scores, 0, None, 0)
      case None => Failure(NoSuitableDevice)
      case Some(k) => Success(k)
  }

  /** Both selections fail in the same cases, and they agree whenever at
      most one device is usable. */
  lemma PicksAgree(scores: seq<int>)
    ensures PickDeviceAsWritten(scores).Failure? <==> PickDevice(scores).Failure?
    ensures PickDeviceAsWritten(scores).Failure? ==> PickDeviceAsWritten(scores) == PickDevice(scores)
    ensures (forall i, j :: 0 <= i < j < |scores| && scores[i] > 0 ==> scores[j] <= 0) ==>
      PickDeviceAsWritten(scores) == PickDevice(scores)
  {
  }

  /** An integrated GPU enumerated before a better discrete one is picked
      as written, although the discrete one scores higher. */
  lemma PickDeviceFirstPositiveCounterexample()
    ensures PickDeviceAsWritten([1, 2000]) == Success(0)
    ensures PickDevice([1, 2000]) == Success(1)
  {
    assert FirstPositive([1, 2000], 0) == 0;
    assert ScanHighest([1, 2000], 0, None, 0) == ScanHighest([1, 2000], 1, Some(0), 1);
  }

  /** Every device's score. */
  function Scores(devices: seq<DeviceInfo>, required: set<string>): (r: seq<int>)
    ensures |r| == |devices|
    ensures forall i :: 0 <= i < |devices| ==> r[i] == RateDevice(devices[i], required)
  {
    seq(|devices|, i requires 0 <= i < |devices| => RateDevice(devices[i], required))
  }

  /** pickPhysicalDevice with the intended selection. */
  function PickPhysicalDevice(devices: seq<DeviceInfo>, required: set<string>): (r: Result<nat, DeviceError>)
    ensures r == Failure(NoVulkanDevices) <==> |devices| == 0
    ensures r.Success? ==> r.value < |devices| && Usable(devices[r.value], required)
    ensures r.Success? ==> forall i :: 0 <= i < |devices| ==>
      RateDevice(devices[i], required) <= RateDevice(devices[r.value], required)
  {
    PickDevice(Scores(devices, required))
  }

  /** No device is picked when none rates above zero. */
  lemma PickPhysicalDeviceFails(devices: seq<DeviceInfo>, required: set<string>)
    requires |devices| > 0
    ensures PickPhysicalDevice(devices, required) == Failure(NoSuitableDevice) <==>
      forall i :: 0 <= i < |devices| ==> RateDevice(devices[i], required) <= 0
  {
    var s := Scores(devices, required);
    if forall i :: 0 <= i < |devices| ==> RateDevice(devices[i], required) <= 0 {
      assert forall i :: 0 <= i < |s| ==> s[i] <= 0;
    }
  }

  /** The queue families createLogicalDevice requests a queue from: the set
      of the two indices. `value()` throws when either is missing. */
  function UniqueQueueFamilies(indices: QueueFamilyIndices): (r: Result<set<nat>, DeviceError>)
    ensures r.Success? <==> indices.IsComplete()
    ensures r.Success? ==> indices.graphicsFamily.value in r.value && indices.presentFamily.value in r.value
    ensures r.Success? ==> forall q :: q in r.value ==> q == indices.graphicsFamily.value || q == indices.presentFamily.value
    ensures r.Success? ==> |r.value| == if indices.graphicsFamily == indices.presentFamily then 1 else 2
  {
    match (indices.graphicsFamily, indices.presentFamily)
    case (Some(g), Some(p)) => Success({g, p})
    case _ => Failure(MissingQueueFamily)
  }
}
