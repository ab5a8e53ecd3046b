/** `Renderer` (main/Renderer.h, main/Renderer.cpp): the object that owns the per-frame fences,
    the four descriptor heaps and the two mapped constant buffers, and drives each frame. Its
    fields are updated in place; each method is proved to move `State()` exactly as the pure
    function of the same name in `FrameSync` does, so everything proved there about frames holds
    of this class. Commands given to the driver are recorded in `trace`, and `processed` counts
    how many of them the GPU has finished. */
module Renderer {
  import opened DirectXHelper
  import opened FrameSync
  import opened Descriptors
  import opened Geometry

  /** The four heap descriptions of `createDescriptorHeap`, in the order it creates them. */
  const RtvHeapDesc: HeapDesc := HeapDesc(Rtv, FrameCount, false)
  const CbvHeapDesc: HeapDesc := HeapDesc(CbvSrvUav, 2, true)
  const SrvHeapDesc: HeapDesc := HeapDesc(CbvSrvUav, 1, true)
  const DsvHeapDesc: HeapDesc := HeapDesc(Dsv, 1, false)

  /** What the device answers to one `CreateDescriptorHeap` call: the HRESULT, the start handles
      of the new heap and the increment of its descriptor type. */
  datatype HeapAnswer = HeapAnswer(hr: HResult, cpuStart: Uint64, gpuStart: Uint64, increment: Uint)

  /** `mDataPtr[0]` points at the object constant buffer and `mDataPtr[1]` at the scene (camera)
      constant buffer. */
  predicate IsDataSlot(slot: int) {
    slot == 0 || slot == 1
  }

  /** Root parameter 0 of `loadRootSignature` is a table of two CBV ranges of one descriptor each,
      appended one after the other: it spans two consecutive descriptors of the CBV heap. */
  const CbvTableSize: nat := 2

  /** A created heap whose handles stay exact: a non-zero increment, and neither the byte
      offset of its last descriptor nor its end address overflows. */
  predicate NoWrap(h: DescriptorHeap)
    reads h
  {
    h.heap.Some? && h.size > 0
    && h.size * h.heap.value.desc.numDescriptors < TwoTo32
    && h.heap.value.cpuStart + h.size * h.heap.value.desc.numDescriptors < TwoTo64
  }

  /** Index of the first heap answer that reports failure, or `|answers|` when none does. */
  function FirstFailure(answers: seq<HeapAnswer>): (k: nat)
    ensures k <= |answers|
    ensures forall j :: 0 <= j < k ==> !Failed(answers[j].hr)
    ensures k < |answers| ==> Failed(answers[k].hr)
  {
    if answers == [] then 0
    else if Failed(answers[0].hr) then 0
    else 1 + FirstFailure(answers[1..])
  }

  /** The heap description `createDescriptorHeap` uses in its `k`-th block. */
  function HeapDescAt(k: nat): HeapDesc
    requires k < 4
  {
    [RtvHeapDesc, CbvHeapDesc, SrvHeapDesc, DsvHeapDesc][k]
  }

  /** Every descriptor a frame's commands address lies inside its heap: the render target of the
      current back buffer and the depth-stencil view in the heaps `createDescriptorHeap` sizes,
      and the whole two-descriptor CBV table in the CBV heap. */
  lemma FrameDescriptorsInRange(fi: nat, hasCamera: bool, indexCount: nat)
    requires fi < FrameCount
    ensures forall e :: e in FrameCommands(fi, hasCamera, indexCount) ==>
      (e.ClearTargets? ==> e.rtv < RtvHeapDesc.numDescriptors && e.dsv < DsvHeapDesc.numDescriptors)
      && (e.BindConstants? ==> e.table + CbvTableSize <= CbvHeapDesc.numDescriptors)
      && (e.Barrier? ==> e.buffer < RtvHeapDesc.numDescriptors)
  {
  }

  class Renderer {
    /** `mFrameIndex`: the back buffer being recorded. */
    var frameIndex: nat
    /** `mFenceValues[FrameCount]`: the value each slot's fence must reach before the slot is reused. */
    var fenceValues: array<nat>
    /** Every command given to the command queue, in order, and how many the GPU has finished. */
    var trace: seq<Event>
    var processed: nat
    var rtvHeap: DescriptorHeap
    var cbvHeap: DescriptorHeap
    var srvHeap: DescriptorHeap
    var dsvHeap: DescriptorHeap
    /** The bytes behind `mDataPtr[0]` and `mDataPtr[1]`. */
    var objectBuffer: array<bv8>
    var sceneBuffer: array<bv8>
    /** `mIndexCount`: the number of indices drawn per frame. */
    var indexCount: nat

    /** The synchronisation state the functions of `FrameSync` speak about. */
    function State(): Sync
      reads this, fenceValues
    {
      Sync(frameIndex, fenceValues[..], trace, processed)
    }

    /** The fields that stay fixed once the renderer is initialised. */
    twostate predicate SameResources()
      reads this
    {
      rtvHeap == old(rtvHeap) && cbvHeap == old(cbvHeap) && srvHeap == old(srvHeap) && dsvHeap == old(dsvHeap)
      && objectBuffer == old(objectBuffer) && sceneBuffer == old(sceneBuffer)
      && fenceValues == old(fenceValues) && indexCount == old(indexCount)
    }

    /** The four heaps were created with the descriptions above. */
    predicate HeapsCreated()
      reads this`rtvHeap, this`cbvHeap, this`srvHeap, this`dsvHeap, rtvHeap, cbvHeap, srvHeap, dsvHeap
    {
      rtvHeap.heap.Some? && rtvHeap.heap.value.desc == RtvHeapDesc
      && cbvHeap.heap.Some? && cbvHeap.heap.value.desc == CbvHeapDesc
      && srvHeap.heap.Some? && srvHeap.heap.value.desc == SrvHeapDesc
      && dsvHeap.heap.Some? && dsvHeap.heap.value.desc == DsvHeapDesc
    }

    /** The heaps exist, the two constant buffers are mapped and distinct, and the quad's index
        count is recorded. */
    predicate Initialised()
      reads this`fenceValues, this`rtvHeap, this`cbvHeap, this`srvHeap, this`dsvHeap
      reads this`objectBuffer, this`sceneBuffer, this`indexCount, rtvHeap, cbvHeap, srvHeap, dsvHeap
    {
      fenceValues.Length == FrameCount
      && HeapsCreated()
      && objectBuffer != sceneBuffer
      && objectBuffer.Length == ObjectConstantBufferSize()
      && sceneBuffer.Length == CameraConstantBufferSize()
      && indexCount == |QuadIndices|
    }

    predicate Valid()
      reads this, fenceValues, rtvHeap, cbvHeap, srvHeap, dsvHeap
    {
      Initialised() && Inv(State())
    }

    predicate DistinctHeaps()
      reads this
    {
      rtvHeap != cbvHeap && rtvHeap != srvHeap && rtvHeap != dsvHeap
      && cbvHeap != srvHeap && cbvHeap != dsvHeap && srvHeap != dsvHeap
    }

    /** The member `createDescriptorHeap` creates in its `k`-th block. */
    function HeapAt(k: nat): DescriptorHeap
      requires k < 4
      reads this
    {
      [rtvHeap, cbvHeap, srvHeap, dsvHeap][k]
    }

    /** The mapped buffer behind `mDataPtr[slot]`. */
    function DataBuffer(slot: int): array<bv8>
      requires IsDataSlot(slot)
      reads this
    {
      if slot == 0 then objectBuffer else sceneBuffer
    }

    /** The constructor's member initialisers: frame 0, every fence value 0, value-initialised
        (empty) heaps, no mapped buffers and no indices. */
    constructor ()
      ensures frameIndex == 0 && fenceValues.Length == FrameCount
      ensures forall f :: 0 <= f < FrameCount ==> fenceValues[f] == 0
      ensures trace == [] && processed == 0 && indexCount == 0
      ensures rtvHeap.heap == None && cbvHeap.heap == None && srvHeap.heap == None && dsvHeap.heap == None
      ensures fresh(rtvHeap) && fresh(cbvHeap) && fresh(srvHeap) && fresh(dsvHeap) && fresh(fenceValues)
      ensures DistinctHeaps()
      ensures objectBuffer.Length == 0 && sceneBuffer.Length == 0
    {
      frameIndex := 0;
      fenceValues := new nat[FrameCount](_ => 0);
      trace := [];
      processed := 0;
      rtvHeap := new DescriptorHeap();
      cbvHeap := new DescriptorHeap();
      srvHeap := new DescriptorHeap();
      dsvHeap := new DescriptorHeap();
      objectBuffer := new bv8[0];
      sceneBuffer := new bv8[0];
      indexCount := 0;
    }

    /** `createSyncObject`: zero every fence value, bump the current slot's to 1, signal it and
        wait for it. Only the first call on a fresh renderer is modelled. */
    method CreateSyncObject()
      requires fenceValues.Length == FrameCount && frameIndex < FrameCount
      requires trace == [] && processed == 0
      modifies this, fenceValues
      ensures SameResources() && frameIndex == old(frameIndex)
      ensures State() == CreateSync(frameIndex)
    {
      for i := 0 to FrameCount
        modifies fenceValues
        invariant forall j :: 0 <= j < i ==> fenceValues[j] == 0
      {
        fenceValues[i] := 0;
      }
      fenceValues[frameIndex] := fenceValues[frameIndex] + 1;
      assert fenceValues[..] == seq(FrameCount, _ => 0)[frameIndex := 1];
      QueueSignal(frameIndex, fenceValues[frameIndex]);
      LastIndexAppendOne([], SignalFence(frameIndex, 1), SignalOn(frameIndex));
      WaitOnFence(frameIndex, fenceValues[frameIndex]);
    }

    /** `mCommandQueue->Signal(mFences[f], v)`: the signal joins the queue after everything
        submitted so far. */
    method QueueSignal(f: nat, v: nat)
      modifies this
      ensures SameResources() && frameIndex == old(frameIndex)
      ensures State() == Signal(old(State()), f, v)
    {
      trace := trace + [SignalFence(f, v)];
    }

    /** `mFences[f]->GetCompletedValue()`. */
    method GetCompletedValue(f: nat) returns (v: nat)
      requires processed <= |trace|
      ensures v == Completed(State(), f)
    {
      v := LastOn(trace[..processed], f);
    }

    /** `SetEventOnCompletion(target, mFenceEvent)` and `WaitForSingleObjectEx`: the CPU blocks
        until the GPU has reached a signal of `target` on fence `f`. */
    method WaitOnFence(f: nat, target: nat)
      requires processed <= |trace| && LastOn(trace, f) >= target
      modifies this
      ensures SameResources() && frameIndex == old(frameIndex)
      ensures State() == WaitUntil(old(State()), f, target)
    {
      processed := WakeAt(trace, processed, f, target);
      trace := trace + [WaitFence(f, target)];
    }

    /** `moveToNextFrame`: signal the current slot's fence value, switch to the back buffer the
        swap chain reports (`bb`), wait if that slot's fence has not reached its value, then set
        the new slot's value one past the signalled one. */
    method MoveToNextFrame(bb: nat)
      requires Inv(State()) && bb < FrameCount
      modifies this, fenceValues
      ensures SameResources()
      ensures State() == MoveToNext(old(State()), bb)
    {
      ghost var s0 := State();
      SignalCurrentOn(s0, bb);
      var currentFenceValue := fenceValues[frameIndex];
      QueueSignal(frameIndex, currentFenceValue);
      frameIndex := bb;
      var completed := GetCompletedValue(frameIndex);
      if completed < fenceValues[frameIndex] {
        WaitOnFence(frameIndex, fenceValues[frameIndex]);
      }
      fenceValues[frameIndex] := currentFenceValue + 1;
    }

    /** `waitForGpu`: signal the current slot's value, wait until the GPU reaches it, then bump
        the value. */
    method WaitForGpu()
      requires Inv(State())
      modifies this, fenceValues
      ensures SameResources()
      ensures State() == FrameSync.WaitForGpu(old(State()))
    {
      ghost var s0 := State();
      WaitForGpuBumpsLast(s0);
      var v := fenceValues[frameIndex];
      QueueSignal(frameIndex, v);
      WaitOnFence(frameIndex, v);
      fenceValues[frameIndex] := v + 1;
    }

    /** `onDestroy`: `waitForGpu`. Once a frame has moved on, this leaves the GPU idle. Closing
        the event handle is not modelled. */
    method OnDestroy()
      requires Inv(State())
      modifies this, fenceValues
      ensures SameResources()
      ensures State() == FrameSync.WaitForGpu(old(State()))
      ensures Inv(State())
      ensures Ahead(old(State())) ==> Idle(State())
    {
      ghost var s0 := State();
      WaitForGpu();
      WaitForGpuState(s0);
      if Ahead(s0) {
        WaitForGpuDrains(s0);
      }
    }

    /** `createDescriptorHeap`: create the RTV, CBV, SRV and DSV heaps in that order, each through
        `ThrowIfFailed`. The first failing `Create` throws: the heaps before it exist, the failing
        one holds none, and the later ones are not touched. */
    method CreateDescriptorHeap(answers: seq<HeapAnswer>) returns (o: Outcome)
      requires |answers| == 4 && DistinctHeaps()
      modifies rtvHeap, cbvHeap, srvHeap, dsvHeap
      ensures o.Pass? <==> FirstFailure(answers) == 4
      ensures o.Fail? ==> o.exception == StdException
      ensures forall k :: 0 <= k < 4 && k < FirstFailure(answers) ==>
        HeapAt(k).heap == Some(HeapObject(HeapDescAt(k), answers[k].cpuStart, answers[k].gpuStart))
        && HeapAt(k).size == answers[k].increment
      ensures forall k :: 0 <= k < 4 && k == FirstFailure(answers) ==> HeapAt(k).heap == None
      ensures forall k :: 0 <= k < 4 && k > FirstFailure(answers) ==>
        HeapAt(k).heap == old(HeapAt(k).heap) && HeapAt(k).size == old(HeapAt(k).size)
    {
      var hr := rtvHeap.Create(RtvHeapDesc, answers[0].hr, answers[0].cpuStart, answers[0].gpuStart, answers[0].increment);
      o := ThrowIfFailed(hr);
      if o.Fail? {
        return;
      }
      hr := cbvHeap.Create(CbvHeapDesc, answers[1].hr, answers[1].cpuStart, answers[1].gpuStart, answers[1].increment);
      o := ThrowIfFailed(hr);
      if o.Fail? {
        return;
      }
      hr := srvHeap.Create(SrvHeapDesc, answers[2].hr, answers[2].cpuStart, answers[2].gpuStart, answers[2].increment);
      o := ThrowIfFailed(hr);
      if o.Fail? {
        return;
      }
      hr := dsvHeap.Create(DsvHeapDesc, answers[3].hr, answers[3].cpuStart, answers[3].gpuStart, answers[3].increment);
      o := ThrowIfFailed(hr);
    }

    /** The handles `setDescriptorResource` writes views into: render target `n` at descriptor
        `n` of the RTV heap for every back buffer, the depth-stencil view at DSV descriptor 0,
        the object and scene constant buffers at CBV descriptors 0 and 1. Every one lies inside
        its heap, and when a heap's increment is non-zero and its handles do not wrap the views
        written into it never overlap. */
    method DescriptorViewHandles() returns (rtvs: seq<Uint64>, dsv: Uint64, cbvs: seq<Uint64>)
      requires HeapsCreated()
      ensures |rtvs| == FrameCount && |cbvs| == CbvHeapDesc.numDescriptors
      ensures forall n :: 0 <= n < |rtvs| ==>
        rtvHeap.Holds(n) && rtvs[n] == HandleOffset(rtvHeap.heap.value.cpuStart, rtvHeap.size, n)
      ensures dsvHeap.Holds(0) && dsv == HandleOffset(dsvHeap.heap.value.cpuStart, dsvHeap.size, 0)
      ensures forall n :: 0 <= n < |cbvs| ==>
        cbvHeap.Holds(n) && cbvs[n] == HandleOffset(cbvHeap.heap.value.cpuStart, cbvHeap.size, n)
      ensures NoWrap(rtvHeap) ==> forall i, j :: 0 <= i < j < |rtvs| ==> rtvs[i] != rtvs[j]
      ensures NoWrap(cbvHeap) ==> cbvs[0] != cbvs[1]
    {
      rtvs := [];
      for n := 0 to FrameCount
        invariant |rtvs| == n
        invariant forall k :: 0 <= k < n ==> rtvs[k] == HandleOffset(rtvHeap.heap.value.cpuStart, rtvHeap.size, k)
      {
        var h := rtvHeap.GetCPUDescriptorHandle(n);
        rtvs := rtvs + [h];
      }
      dsv := dsvHeap.GetCPUDescriptorHandle(0);
      var objectView := cbvHeap.GetCPUDescriptorHandle(0);
      var sceneView := cbvHeap.GetCPUDescriptorHandle(1);
      cbvs := [objectView, sceneView];
      if NoWrap(rtvHeap) {
        forall i, j | 0 <= i < j < |rtvs|
          ensures rtvs[i] != rtvs[j]
        {
          HandlesDistinct(rtvHeap.heap.value.cpuStart, rtvHeap.size, FrameCount, i, j);
        }
      }
      if NoWrap(cbvHeap) {
        HandlesDistinct(cbvHeap.heap.value.cpuStart, cbvHeap.size, 2, 0, 1);
      }
    }

    /** The handles `record` uses: the current back buffer's render target, depth-stencil
        descriptor 0 and the GPU handle of CBV descriptor 0 that starts the constant-buffer
        table. Each addressed descriptor lies inside its heap. */
    method FrameHandles() returns (rtv: Uint64, dsv: Uint64, table: Uint64)
      requires Initialised() && frameIndex < FrameCount
      ensures rtvHeap.Holds(frameIndex) && rtv == HandleOffset(rtvHeap.heap.value.cpuStart, rtvHeap.size, frameIndex)
      ensures dsvHeap.Holds(0) && dsv == HandleOffset(dsvHeap.heap.value.cpuStart, dsvHeap.size, 0)
      ensures cbvHeap.Holds(CbvTableSize - 1) && table == HandleOffset(cbvHeap.heap.value.gpuStart, cbvHeap.size, 0)
    {
      rtv := rtvHeap.GetCPUDescriptorHandle(frameIndex);
      dsv := dsvHeap.GetCPUDescriptorHandle(0);
      var heap := cbvHeap.GetHeap();
      table := cbvHeap.GetGPUDescriptorHandle(0);
    }

    /** `begin`: reset the current slot's allocator and the command list, and move the back
        buffer from present to render target. */
    method Begin()
      modifies this
      ensures SameResources() && frameIndex == old(frameIndex) && processed == old(processed)
      ensures trace == old(trace) + BeginCommands(frameIndex)
    {
      trace := trace + BeginCommands(frameIndex);
    }

    /** `record`: set the root signature; with a camera, clear the current render target and
        depth buffer, bind the constant-buffer table and draw `mIndexCount` indices. */
    method Record(hasCamera: bool)
      requires Initialised() && frameIndex < FrameCount
      modifies this
      ensures SameResources() && frameIndex == old(frameIndex) && processed == old(processed)
      ensures trace == old(trace) + RecordCommands(frameIndex, hasCamera, indexCount)
    {
      trace := trace + [SetRootSignature];
      if hasCamera {
        var rtv, dsv, table := FrameHandles();
        trace := trace + [ClearTargets(frameIndex, 0), BindConstants(0), DrawIndexed(indexCount)];
      }
    }

    /** `end`: move the back buffer back to present and close the command list. */
    method End()
      modifies this
      ensures SameResources() && frameIndex == old(frameIndex) && processed == old(processed)
      ensures trace == old(trace) + EndCommands(frameIndex)
    {
      trace := trace + EndCommands(frameIndex);
    }

    /** `onRender`: record and submit the frame, present it through `ThrowIfFailed`, and move to
        the next frame. The catch clause is `HandleException`. With a camera the renderer's own
        `mIndexCount` indices are drawn. */
    method OnRender(hasCamera: bool, presentHr: HResult, bb: nat) returns (o: Outcome)
      requires Valid() && bb < FrameCount
      modifies this, fenceValues
      ensures SameResources() && Valid()
      ensures (State(), o) == RenderFrame(old(State()), hasCamera, indexCount, presentHr, bb)
    {
      ghost var s0 := State();
      Begin();
      Record(hasCamera);
      End();
      trace := trace + [ExecuteList, PresentFrame(1, 0)];
      ghost var submitted := State();
      assert submitted == Submit(s0, hasCamera, indexCount);
      SubmitKeepsInv(s0, hasCamera, indexCount);
      o := ThrowIfFailed(presentHr);
      if o.Pass? {
        MoveToNextFrame(bb);
        MoveToNextKeeps(submitted, bb);
      } else {
        o := HandleException(o.exception, bb);
      }
    }

    /** The catch clause of `onRender`: an `HrException` reporting device removal or reset moves
        on to the next frame and is swallowed; anything else propagates unchanged. */
    method HandleException(e: Exception, bb: nat) returns (o: Outcome)
      requires Valid() && bb < FrameCount
      modifies this, fenceValues
      ensures SameResources() && Valid()
      ensures (State(), o) == CatchRenderException(old(State()), e, bb)
    {
      if e.HrException? && (e.error == DXGI_ERROR_DEVICE_REMOVED || e.error == DXGI_ERROR_DEVICE_RESET) {
        ghost var s0 := State();
        MoveToNextFrame(bb);
        MoveToNextKeeps(s0, bb);
        o := Pass;
      } else {
        o := Fail(e);
      }
    }

    /** `onRegisterDataBuffer`: copy `data` to the start of the buffer mapped at `mDataPtr[slot]`.
        The source checks neither the slot nor the size; both are preconditions here. The other
        buffer and the rest of this one keep their bytes. */
    method OnRegisterDataBuffer(slot: int, data: seq<bv8>)
      requires IsDataSlot(slot) && |data| <= DataBuffer(slot).Length
      modifies DataBuffer(slot)
      ensures DataBuffer(slot)[..] == data + old(DataBuffer(slot)[|data|..])
    {
      var buffer := DataBuffer(slot);
      forall i | 0 <= i < |data| {
        buffer[i] := data[i];
      }
    }

    /** `onInit`: `loadPipeline` takes the swap chain's current back buffer `bb` as the frame
        index and creates the synchronisation objects; `loadPipelineAssets` creates the
        descriptor heaps, writes the views and maps the constant buffers; `createAssets` records
        the quad's index count. The device answers to the four heap creations are `answers`; a
        failing one throws and leaves the rest undone. */
    method OnInit(bb: nat, answers: seq<HeapAnswer>) returns (o: Outcome)
      requires bb < FrameCount && |answers| == 4
      requires fenceValues.Length == FrameCount && trace == [] && processed == 0 && DistinctHeaps()
      modifies this, fenceValues, rtvHeap, cbvHeap, srvHeap, dsvHeap
      ensures rtvHeap == old(rtvHeap) && cbvHeap == old(cbvHeap) && srvHeap == old(srvHeap) && dsvHeap == old(dsvHeap)
      ensures fenceValues == old(fenceValues) && DistinctHeaps()
      ensures State() == CreateSync(bb)
      ensures o.Pass? <==> FirstFailure(answers) == 4
      ensures o.Fail? ==> o.exception == StdException
      ensures o.Pass? ==> Valid() && fresh(objectBuffer) && fresh(sceneBuffer)
    {
      frameIndex := bb;
      CreateSyncObject();
      o := CreateDescriptorHeap(answers);
      if o.Fail? {
        return;
      }
      assert HeapAt(0) == rtvHeap && HeapAt(1) == cbvHeap && HeapAt(2) == srvHeap && HeapAt(3) == dsvHeap;
      var rtvs, dsv, cbvs := DescriptorViewHandles();
      SetResourceDataPtr();
      CreateAssets();
      CreateSyncEstablishes(bb);
    }

    /** `setResourceDataPtr`: map the object and scene constant buffers, each as wide as its
        constant-buffer structure, at `mDataPtr[0]` and `mDataPtr[1]`. */
    method SetResourceDataPtr()
      modifies this
      ensures frameIndex == old(frameIndex) && trace == old(trace) && processed == old(processed)
      ensures fenceValues == old(fenceValues) && indexCount == old(indexCount)
      ensures rtvHeap == old(rtvHeap) && cbvHeap == old(cbvHeap) && srvHeap == old(srvHeap) && dsvHeap == old(dsvHeap)
      ensures fresh(objectBuffer) && fresh(sceneBuffer) && objectBuffer != sceneBuffer
      ensures objectBuffer.Length == ObjectConstantBufferSize() && sceneBuffer.Length == CameraConstantBufferSize()
    {
      objectBuffer := new bv8[ObjectConstantBufferSize()];
      sceneBuffer := new bv8[CameraConstantBufferSize()];
    }

    /** The part of `createAssets` the frame loop depends on: `mIndexCount` becomes the number
        of indices of the quad. */
    method CreateAssets()
      modifies this
      ensures frameIndex == old(frameIndex) && trace == old(trace) && processed == old(processed)
      ensures fenceValues == old(fenceValues) && objectBuffer == old(objectBuffer) && sceneBuffer == old(sceneBuffer)
      ensures rtvHeap == old(rtvHeap) && cbvHeap == old(cbvHeap) && srvHeap == old(srvHeap) && dsvHeap == old(dsvHeap)
      ensures indexCount == |QuadIndices| == 6
    {
      indexCount := |QuadIndices|;
    }
  }
}