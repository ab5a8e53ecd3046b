/** `DescriptorHeap` (main/Renderer.h, main/Renderer.cpp): a descriptor heap and the handle
    increment captured when it was created, with handle arithmetic `start + increment * k`. The
    device that creates the heap is a parameter: its HRESULT, the heap's start addresses and the
    increment it reports are inputs to `Create`. */
module Descriptors {
  import opened DirectXHelper

  const TwoTo64: int := 0x1_0000_0000_0000_0000

  /** `UINT`. */
  type Uint = x: int | 0 <= x < TwoTo32
  /** `SIZE_T` / `UINT64`, the width of a CPU or GPU descriptor handle. */
  type Uint64 = x: int | 0 <= x < TwoTo64

  datatype HeapType = CbvSrvUav | Sampler | Rtv | Dsv

  /** The fields of `D3D12_DESCRIPTOR_HEAP_DESC` the renderer sets (NodeMask is always 0). */
  datatype HeapDesc = HeapDesc(heapType: HeapType, numDescriptors: Uint, shaderVisible: bool)

  /** A created heap: its description and the handles of its first descriptor. */
  datatype HeapObject = HeapObject(desc: HeapDesc, cpuStart: Uint64, gpuStart: Uint64)

  /** `handle.ptr += mSize * offset`: the product of two `UINT`s wraps at 2^32 before it is added
      to the 64-bit handle, which wraps at 2^64. */
  function HandleOffset(start: Uint64, size: Uint, offset: Uint): (h: Uint64)
  {
    (start + (size * offset) % TwoTo32) % TwoTo64
  }

  /** Away from overflow a handle is exactly `start + size * offset`. */
  lemma HandleOffsetExact(start: Uint64, size: Uint, offset: Uint)
    requires size * offset < TwoTo32
    requires start + size * offset < TwoTo64
    ensures HandleOffset(start, size, offset) == start + size * offset
  {
    ModSmall(size * offset, TwoTo32);
    ModSmall(start + size * offset, TwoTo64);
  }

  /** Away from overflow consecutive descriptors are `size` bytes apart. */
  lemma HandleOffsetStep(start: Uint64, size: Uint, offset: Uint)
    requires offset + 1 < TwoTo32
    requires size * (offset + 1) < TwoTo32
    requires start + size * (offset + 1) < TwoTo64
    ensures HandleOffset(start, size, offset + 1) == HandleOffset(start, size, offset) + size
  {
    assert size * (offset + 1) == size * offset + size;
    HandleOffsetExact(start, size, offset);
    HandleOffsetExact(start, size, offset + 1);
  }

  lemma ModSmall(x: int, m: int)
    requires 0 <= x < m
    ensures x % m == x
  {
  }

  /** Distinct descriptors of a heap that fits without overflow have distinct handles: the views
      the renderer writes into one heap never overwrite each other. */
  lemma HandlesDistinct(start: Uint64, size: Uint, capacity: Uint, i: Uint, j: Uint)
    requires size > 0
    requires i < capacity && j < capacity && i != j
    requires size * capacity < TwoTo32
    requires start + size * capacity < TwoTo64
    ensures HandleOffset(start, size, i) != HandleOffset(start, size, j)
  {
    MulMonotone(size, i, capacity);
    MulMonotone(size, j, capacity);
    HandleOffsetExact(start, size, i);
    HandleOffsetExact(start, size, j);
    if i < j {
      MulStrict(size, i, j);
    } else {
      MulStrict(size, j, i);
    }
  }

  lemma MulMonotone(a: nat, b: nat, c: nat)
    requires b <= c
    ensures a * b <= a * c
  {
  }

  lemma MulStrict(a: nat, b: nat, c: nat)
    requires a > 0 && b < c
    ensures a * b < a * c
  {
  }

  /** Without the no-overflow condition handles can collide: a 2^31-byte increment maps
      descriptor 2 onto descriptor 0, since nothing bounds the offset. */
  lemma HandlesWrap()
    ensures HandleOffset(0, 0x8000_0000, 2) == HandleOffset(0, 0x8000_0000, 0)
  {
  }

  class DescriptorHeap {
    /** `mHeap`: null until a successful `Create`. */
    var heap: Option<HeapObject>
    /** `mSize`: the handle increment of the heap's type. */
    var size: Uint

    /** A value-initialised member (`mRTVHeap()` and the others): no heap, increment 0. */
    constructor ()
      ensures heap == None && size == 0
    {
      heap := None;
      size := 0;
    }

    /** `Create`: ask the device for a heap of `desc`. The device answers `hr`; on success it hands
        back a heap whose first descriptor sits at `cpuStart`/`gpuStart` and reports the handle
        increment of `desc`'s type. The increment is recorded only on success, and the HRESULT is
        returned unchanged. `IID_PPV_ARGS(&mHeap)` releases the old heap first, so a failure
        leaves none. */
    method Create(desc: HeapDesc, hr: HResult, cpuStart: Uint64, gpuStart: Uint64, increment: Uint) returns (r: HResult)
      modifies this
      ensures r == hr
      ensures !Failed(hr) ==> heap == Some(HeapObject(desc, cpuStart, gpuStart)) && size == increment
      ensures Failed(hr) ==> heap == None && size == old(size)
    {
      if !Failed(hr) {
        heap := Some(HeapObject(desc, cpuStart, gpuStart));
        size := increment;
      } else {
        heap := None;
      }
      r := hr;
    }

    /** `GetHeap`: the heap captured at `Create`, unchanged. */
    method GetHeap() returns (h: Option<HeapObject>)
      ensures h == heap
    {
      h := heap;
    }

    /** `GetSize`: the increment captured at `Create`, unchanged. */
    method GetSize() returns (s: Uint)
      ensures s == size
    {
      s := size;
    }

    /** `GetCPUDescriptorHandle(offset)`: the heap's CPU start plus `size * offset`, with no check
        of `offset` against the heap's capacity. The heap must exist. */
    method GetCPUDescriptorHandle(offset: Uint) returns (h: Uint64)
      requires heap.Some?
      ensures h == HandleOffset(heap.value.cpuStart, size, offset)
      ensures size * offset < TwoTo32 && heap.value.cpuStart + size * offset < TwoTo64 ==>
        h == heap.value.cpuStart + size * offset
    {
      h := HandleOffset(heap.value.cpuStart, size, offset);
      if size * offset < TwoTo32 && heap.value.cpuStart + size * offset < TwoTo64 {
        HandleOffsetExact(heap.value.cpuStart, size, offset);
      }
    }

    /** `GetGPUDescriptorHandle(offset)`: the same arithmetic from the GPU start. */
    method GetGPUDescriptorHandle(offset: Uint) returns (h: Uint64)
      requires heap.Some?
      ensures h == HandleOffset(heap.value.gpuStart, size, offset)
      ensures size * offset < TwoTo32 && heap.value.gpuStart + size * offset < TwoTo64 ==>
        h == heap.value.gpuStart + size * offset
    {
      h := HandleOffset(heap.value.gpuStart, size, offset);
      if size * offset < TwoTo32 && heap.value.gpuStart + size * offset < TwoTo64 {
        HandleOffsetExact(heap.value.gpuStart, size, offset);
      }
    }

    /** Descriptor `k` lies inside the created heap. */
    predicate Holds(k: nat)
      reads this
    {
      heap.Some? && k < heap.value.desc.numDescriptors
    }
  }
}
