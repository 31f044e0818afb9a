/**
 Two helpers of src/Rendering/Vulkan/vulkanBufferUtils.cpp: the search for a
 memory type with the requested properties, over the memory types the
 physical device reports, and the null-handle guards of destroyBuffer.
 */
module BufferUtils {
  import opened Base

  /** A VkFlags / uint32_t bit mask. */
  type Mask = bv32

  /** VK_MAX_MEMORY_TYPES: the device never reports more memory types. */
  const MaxMemoryTypes: nat := 32

  /** Memory type i qualifies: bit i of the filter is set, and its property
      flags include every requested property. `1 << i` is taken at 32 bits,
      so bit 31 is the sign bit of the shifted int. */
  predicate Qualifies(typeFilter: Mask, properties: Mask, propertyFlags: seq<Mask>, i: nat)
    requires i < |propertyFlags| <= MaxMemoryTypes
  {
    typeFilter & (1 << i) != 0 && propertyFlags[i] & properties == properties
  }

  datatype MemoryError = NoSuitableMemoryType

  /** findMemoryType: the lowest qualifying memory type; with none the
      program exits. */
  method FindMemoryType(typeFilter: Mask, properties: Mask, propertyFlags: seq<Mask>) returns (r: Result<nat, MemoryError>)
    requires |propertyFlags| <= MaxMemoryTypes
    ensures r.Success? ==> r.value < |propertyFlags| && Qualifies(typeFilter, properties, propertyFlags, r.value)
    ensures r.Success? ==> forall j :: 0 <= j < r.value ==> !Qualifies(typeFilter, properties, propertyFlags, j)
    ensures r.Failure? <==> forall j :: 0 <= j < |propertyFlags| ==> !Qualifies(typeFilter, properties, propertyFlags, j)
  {
    var i := 0;
    while i < |propertyFlags|
      invariant 0 <= i <= |propertyFlags|
      invariant forall j :: 0 <= j < i ==> !Qualifies(typeFilter, properties, propertyFlags, j)
    {
      if typeFilter & (1 << i) != 0 && propertyFlags[i] & properties == properties {
        assert Qualifies(typeFilter, properties, propertyFlags, i);
        return Success(i);
      }
      i := i + 1;
    }
    return Failure(NoSuitableMemoryType);
  }

  /** A requested property set of zero constrains nothing but the filter. */
  lemma NoPropertiesNeedOnlyFilter(typeFilter: Mask, propertyFlags: seq<Mask>, i: nat)
    requires i < |propertyFlags| <= MaxMemoryTypes
    ensures Qualifies(typeFilter, 0, propertyFlags, i) <==> typeFilter & (1 << i) != 0
  {
  }

  /** A Vulkan handle: VK_NULL_HANDLE or a live object. */
  datatype Handle = NullHandle | Live(id: nat)

  /** The destroy calls destroyBuffer makes. */
  datatype DestroyCall = DestroyBufferCall(buffer: nat) | FreeMemoryCall(memory: nat)

  /** destroyBuffer: the buffer is destroyed, then its memory freed, each
      only when its handle is not null. */
  function DestroyBuffer(memory: Handle, buffer: Handle): (r: seq<DestroyCall>)
    ensures |r| == (if buffer.Live? then 1 else 0) + (if memory.Live? then 1 else 0)
    ensures forall b :: DestroyBufferCall(b) in r <==> buffer == Live(b)
    ensures forall m :: FreeMemoryCall(m) in r <==> memory == Live(m)
    ensures |r| == 2 ==> r[0].DestroyBufferCall? && r[1].FreeMemoryCall?
  {
    (if buffer.Live? then [DestroyBufferCall(buffer.id)] else [])
    + (if memory.Live? then [FreeMemoryCall(memory.id)] else [])
  }

  /** Destroying an already-cleared pair of handles does nothing. */
  lemma DestroyNullIsNoop()
    ensures DestroyBuffer(NullHandle, NullHandle) == []
  {
  }
}
