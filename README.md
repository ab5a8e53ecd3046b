# Frame-slot bookkeeping of a DirectX 12 sample renderer

This project models the deterministic core of a small Direct3D 12 sample application in Dafny:

- **The renderer's synchronisation protocol.** The renderer keeps two frame slots. Each slot has a
  back buffer, a command allocator, a fence and a stored fence value. `createSyncObject`,
  `moveToNextFrame` and `waitForGpu` update the current slot index and the stored values.
  `onRender` fixes the order of each frame: begin, record, end, execute, present, move on.
  The GPU is modelled as a FIFO queue. `trace` lists every command given to the driver, and
  `processed` says how far the GPU has got. A fence's completed value is the last signal on it that
  the GPU has reached. A CPU wait advances the GPU just far enough.
  The pure functions of module `FrameSync` state what each operation does. The class
  `Renderer.Renderer` updates the same state in fields, and each of its methods is proved to do
  exactly what its `FrameSync` function does.
- **Descriptor heaps.** A descriptor handle is `start + increment * k`, with the source's 32-bit
  product and 64-bit sum made explicit. Every descriptor the renderer writes or binds lies inside
  its heap.
- **The two mapped constant buffers.** The frame driver writes both buffers before each frame is
  recorded.
- **Static geometry.** This covers the vertex layout, the cube's index-buffer loop, the quad's
  indices and the buffer sizes.
- **Input.** The held/pressed/released tests on key and mouse-button snapshots, and how the
  snapshots move forward.
- **The Input singleton.** Its create/destroy lifecycle.
- **HRESULT helpers.** HRESULT formatting, `ThrowIfFailed`, the assets-directory lookup and the
  full asset path.
- **The frame driver `MainProject`.** The order in which it calls Input, the camera, the plane and
  the renderer.

Every driver answer the code depends on is a parameter:

- the HRESULT of `Present`;
- the HRESULTs, start handles and increments of the four descriptor-heap creations;
- the swap chain's current back-buffer index;
- the keyboard and mouse bytes and the cursor position;
- the module path the OS reports.

The modules are `DirectXHelper`, `Application`, `Descriptors`, `Geometry`, `FrameSync`, `Renderer`,
`Input`, `InputSingleton` and `MainProject`.

## Model

| member | source | states |
|---|---|---|
| DirectXHelper.SignedUnsignedRoundTrip | main/DirectXHelper.h:10 | Reading an HRESULT as unsigned 32-bit (`static_cast<UINT>`) and back gives the same HRESULT. |
| DirectXHelper.HrToString | main/DirectXHelper.h:7-12 | The message is "HRESULT of 0x" followed by exactly 8 hexadecimal digits. |
| DirectXHelper.HrToStringRoundTrip | main/DirectXHelper.h:7-12 | Parsing the 8 digits of `HrToString(hr)` back as unsigned 32-bit and reading them as signed returns `hr`. |
| DirectXHelper.HrToStringInjective | main/DirectXHelper.h:7-12 | Two HRESULTs with the same message are equal. |
| DirectXHelper.ParseHexN | main/DirectXHelper.h:10 | `%08X` formatting inverts: parsing the n-digit hex form of u gives u mod 16^n. |
| DirectXHelper.MakeHrException | main/DirectXHelper.h:14-21 | An `HrException` built from `hr` reports `hr` from `Error()`, and its message parses back to `hr`. |
| DirectXHelper.FailedIsSeverityBit | main/DirectXHelper.h:27 | `FAILED(hr)` (hr < 0) holds exactly when the top bit of the unsigned 32-bit reading is set. |
| DirectXHelper.ThrowIfFailed | main/DirectXHelper.h:25-28 | It throws exactly when `FAILED(hr)`, and what it throws is a plain `std::exception`, never an `HrException`. |
| DirectXHelper.ThrowIfFailedHr | main/DirectXHelper.h:25-28 | The corrected check throws exactly when `FAILED(hr)`, and it throws an `HrException` carrying `hr`. |
| DirectXHelper.LastIndexOf | main/DirectXHelper.h:46 | `wcsrchr` finds the last occurrence of the character, or none; no later position holds it. |
| DirectXHelper.TrimAfterLastBackslashMeaning | main/DirectXHelper.h:46-50 | The cut path is a prefix of the path. With a backslash it ends in the last backslash, and nothing after that point is a backslash. Without one the path is unchanged. |
| DirectXHelper.ModuleFileNameLength | main/DirectXHelper.h:39 | `GetModuleFileName` reports the full buffer size exactly when the path does not fit, and never more than the buffer size. |
| DirectXHelper.AssetsDirectory | main/DirectXHelper.h:30-51 | The lookup succeeds exactly when the module path is non-empty and shorter than the buffer; otherwise it throws `std::exception`. On success the result is the path cut after its last backslash. |
| DirectXHelper.GetModuleFileName | main/DirectXHelper.h:39 | The buffer receives the path and its NUL when the path fits; positions past `pathSize` are untouched. |
| DirectXHelper.GetAssetsPath | main/DirectXHelper.h:30-51 | A null buffer throws. Otherwise it succeeds exactly when `AssetsDirectory` does, and the buffer then reads, as a C string, the path cut after its last backslash. |
| Application.GetAssetFullPath | main/Application.cpp:135-141 | Fetching into a 512-character buffer and appending the name yields exactly `AssetFullPath`. An exception from the lookup propagates with no partial result. |
| Application.AssetFullPathSucceedsIff | main/Application.cpp:137-138 | The full path exists exactly when the module path is non-empty and under 512 characters; a longer path raises `std::exception` rather than being truncated. |
| Application.AssetFullPathShape | main/Application.cpp:139-140 | On success the result is the directory followed by the asset name. Its length is the sum of both, it ends with the name, and the directory ends in a backslash whenever the module path has one. |
| Descriptors.HandleOffsetExact | main/Renderer.cpp:1199-1211 | When neither `increment * k` nor the sum overflows, a handle is exactly `start + increment * k`. |
| Descriptors.HandleOffsetStep | main/Renderer.cpp:1199-1211 | When descriptor k + 1 does not overflow, consecutive descriptors are exactly one increment apart. |
| Descriptors.HandlesDistinct | main/Renderer.cpp:1199-1211 | In a heap whose handles do not overflow, distinct descriptor indices give distinct handles. |
| Descriptors.HandlesWrap | main/Renderer.cpp:1202 | The 32-bit product `mSize * offset` can wrap: with increment 2^31, descriptor 2 lands on descriptor 0. |
| Descriptors.DescriptorHeap.constructor | main/Renderer.h:31-44 | A value-initialised heap holds no heap object, and its increment is 0. |
| Descriptors.DescriptorHeap.Create | main/Renderer.cpp:1189-1197 | The HRESULT is returned unchanged. On success the heap has the requested description and the device's start handles, and the increment is recorded. On failure no heap remains and the increment is unchanged. |
| Descriptors.DescriptorHeap.GetHeap | main/Renderer.h:36 | Returns the heap captured at `Create`. |
| Descriptors.DescriptorHeap.GetSize | main/Renderer.h:37 | Returns the increment captured at `Create`. |
| Descriptors.DescriptorHeap.GetCPUDescriptorHandle | main/Renderer.cpp:1199-1204 | The handle is the CPU start plus `increment * offset` (wrapping as the integer types do). No capacity check is made. Without overflow it is the exact sum. |
| Descriptors.DescriptorHeap.GetGPUDescriptorHandle | main/Renderer.cpp:1206-1211 | The same arithmetic from the GPU start. |
| Geometry.Vertex3DIs48Bytes | main/Renderer.h:9-15 | `Vertex3D` is 48 bytes, with position, normal, texCoord and color at byte offsets 0, 12, 24 and 32. |
| Geometry.AlignUp | main/Renderer.h:18-21 | `align(256)` rounds a size up to the least multiple of the alignment that is at least the size. |
| Geometry.ConstantBuffersAre256Bytes | main/Renderer.h:18-21 | The object constant buffer (one matrix) and the camera constant buffer (two matrices) each occupy exactly one 256-byte block. |
| Geometry.FillCubeIndices | main/Cube.cpp:103-112 | The in-place loop leaves the 36-entry index buffer equal to `CubeIndices()`, where entry 6i+k is 4i plus the k-th entry of the face pattern (0,1,2,1,3,2). |
| Geometry.CubeFaceTriangles | main/Cube.cpp:105-111 | Face i is drawn as the triangles (4i, 4i+1, 4i+2) and (4i+1, 4i+3, 4i+2). |
| Geometry.CubeIndicesValid | main/Cube.cpp:103-112 | The 36 indices form 12 triangles. Every entry of face i lies in 4i..4i+3, so every index is below the 24 vertices. |
| Geometry.CubeUsesEveryVertex | main/Cube.cpp:103-112 | Each of the 24 vertices is referenced by some index. |
| Geometry.CubeBufferSizes | main/Cube.cpp:47-117 | The vertex buffer is 24 * 48 = 1152 bytes and the index buffer 36 * 4 = 144 bytes. The index buffer holds exactly the 36 indices the draw uses, and the vertex buffer holds 24 strides. |
| Geometry.QuadIndicesValid | main/Renderer.cpp:945-995 | The quad's 6 indices form the triangles (0,1,2) and (1,3,2) over 4 vertices, the same winding as a cube face. `mIndexCount` is 6, and the buffers are 192 and 24 bytes. |
| FrameSync.LastIndex | main/Renderer.cpp:1161 | The search a completed-value query rests on finds the last matching command, and none after it matches. |
| FrameSync.CompletedMonotone | main/Renderer.cpp:1161 | A fence's completed value only grows as the GPU advances, and never exceeds the last value signalled on it. |
| FrameSync.WakeAt | main/Renderer.cpp:1163-1164 | A wait resumes at the first GPU position where the fence has reached the target, never earlier. |
| FrameSync.WaitUntil | main/Renderer.cpp:1163-1164 | After `SetEventOnCompletion` and the blocking wait the fence's completed value is at least the target. A fence that had already reached it does not move the GPU. |
| FrameSync.ProgressKeeps | main/Renderer.cpp:1161 | The GPU advancing on its own keeps the invariant, grows every completed value up to the last signal, and keeps drained slots drained. |
| FrameSync.CreateSyncEstablishes | main/Renderer.cpp:737-759 | `createSyncObject` stores 0 for every slot and then 1 for the current one. It signals 1, waits for it, and leaves the invariant holding with the GPU idle. The state is not ahead: the stored 1 has already been signalled. |
| FrameSync.CreateSyncCorrectedFresh | main/Renderer.cpp:743-758 | With the increment after the wait that `waitForGpu` has, the initial state is fresh (the next signal is a new value) and the current slot is drained. |
| FrameSync.SignalCurrent | main/Renderer.cpp:1154-1155 | Signalling the current slot's stored value makes every slot's stored value the last value signalled on its fence. |
| FrameSync.MoveToNextTrace | main/Renderer.cpp:1152-1168 | `moveToNextFrame` signals the old slot's value, then waits exactly when the new slot's fence has not completed its stored value. Without a wait the GPU is not advanced. Afterwards the new slot's fence has reached that value. |
| FrameSync.MoveToNextState | main/Renderer.cpp:1152-1168 | The new slot is the swap chain's index and stores v + 1, where v is the value just signalled. No other slot's stored value changes. The invariant holds, and the next signal is above every earlier one. |
| FrameSync.WaitKeeps | main/Renderer.cpp:1163-1164 | A blocking wait adds one non-signalling command. It changes no stored value and no fence's signal history, and it keeps the invariant. |
| FrameSync.FreshSettled | main/Renderer.cpp:1152-1168 | A fresh state is settled: when no value was signalled twice, every fence's last signal carries a value no earlier signal on it had. |
| FrameSync.MoveToNextDrains | main/Renderer.cpp:1152-1168 | From a settled state, `moveToNextFrame` stays settled and returns only once every command submitted earlier on the new slot has finished, so its allocator can be reset. Settled: the next signal is new, and each other slot's stored value is carried only by its fence's last signal. |
| FrameSync.MoveToNextSettles | main/Renderer.cpp:1152-1168 | From a state whose next signal is new, a `moveToNextFrame` to the other slot leaves the state settled. |
| FrameSync.MoveToNextLeavesFrameInFlight | main/Renderer.cpp:1161-1165 | When the swap chain switches buffers, the frame just submitted is not waited for: the GPU need not have reached its signal when `moveToNextFrame` returns. |
| FrameSync.FirstMoveResignals | main/Renderer.cpp:1154-1155 | After `createSyncObject`, the first `moveToNextFrame` signals 1 again on the fence that has already completed 1, and stores 2 for the new slot. |
| FrameSync.WaitForGpuState | main/Renderer.cpp:1140-1150 | `waitForGpu` signals and waits for the current slot's value v, then stores v + 1 for that slot only. It keeps the invariant and leaves the state ahead. |
| FrameSync.WaitForGpuDrains | main/Renderer.cpp:1140-1150 | From an ahead state, `waitForGpu` leaves the GPU idle: every signal ever issued has been reached. |
| FrameSync.FrameBarriersMatch | main/Renderer.cpp:1019-1120 | Each barrier starts from the state its back buffer is in: PRESENT at `begin`, RENDER_TARGET at `end`. Only the current slot's buffer is touched, and every buffer ends the frame in PRESENT. |
| FrameSync.SubmitKeeps | main/Renderer.cpp:83-101 | A frame's commands signal nothing. Submitting them changes no slot, stored value, fence or GPU position, and keeps the invariant, ahead, fresh, settled and every drained slot. |
| FrameSync.RenderFrameOutcome | main/Renderer.cpp:83-115 | `onRender` as written completes exactly when `Present` succeeds, and it has then moved to the next frame. When `Present` fails it throws `std::exception` after the frame's commands went out, with no slot, stored value or signal changed. |
| FrameSync.RenderFrameOrder | main/Renderer.cpp:83-104 | A successful frame gives the driver, in order: reset the slot's allocator and list, PRESENT to RENDER_TARGET, record, RENDER_TARGET to PRESENT, close, execute, `Present(1, 0)`, signal the slot. Only a wait can follow. |
| FrameSync.DeviceRemovedEscapes | main/Renderer.cpp:107-113 | As written, a `Present` reporting device removal or reset makes `onRender` throw `std::exception`, and the frame does not advance. |
| FrameSync.CorrectedDeviceRemovedMovesOn | main/Renderer.cpp:107-113 | With an `HrException` thrown, device removal or reset moves to the next frame and `onRender` completes. Any other failure is rethrown as that HRESULT's `HrException`, and the frame does not advance. |
| FrameSync.RenderFrameSettled | main/Renderer.cpp:83-115 | From a settled state a frame stays settled whichever way it ends. A frame that moves on returns only when its new slot has no work left on the GPU. |
| FrameSync.AlternatingFramesSettle | main/Renderer.cpp:83-115 | From any state satisfying the invariant, two completed frames that move to different slots leave the state settled. |
| FrameSync.RenderFrameLeavesFrameInFlight | main/Renderer.cpp:1161-1165 | When the swap chain alternates, a completed frame's own signal is not waited for: the GPU need not have reached it when `onRender` returns. |
| FrameSync.RenderFrameSignals | main/Renderer.cpp:1154-1167 | A completed frame signals its slot's stored value, and the new slot stores one more than that. |
| FrameSync.SuccessiveFramesSignalConsecutive | main/Renderer.cpp:1154-1167 | Two successive completed frames signal consecutive values. |
| FrameSync.RenderFrameWithoutWait | main/Renderer.cpp:1161-1165 | When the new slot's fence has already completed its stored value, the frame adds exactly its commands and one signal. The GPU does not advance, and no completed value changes. |
| FrameSync.FirstFramesRace | main/Renderer.cpp:743-758 | As written, from `createSyncObject` on slot 0 the second frame returns to slot 0 without waiting. Frame 0's signal is not waited for: the GPU need not have reached it when slot 0 is reused. |
| FrameSync.FirstFrame | main/Renderer.cpp:1154-1167 | The first frame ends on slot 1 with its signal of 1 on fence 0 not waited for (the GPU need not have reached it), while fence 0 already counts 1 as completed. |
| FrameSync.AsWrittenSettlesAfterTwoFrames | main/Renderer.cpp:1152-1168 | As written, from `createSyncObject` on slot 0, frames that move to slot 1 and back to slot 0 leave a settled state. Whatever back buffer the third frame moves to, it stays settled, and if it moves on it returns only once its new slot has drained. |
| FrameSync.FirstFramesCorrected | main/Renderer.cpp:743-758 | With the corrected start the state is settled from the outset, and returning to slot 0 waits until frame 0 has finished on the GPU. |
| Renderer.FirstFailure | main/Renderer.cpp:278-317 | The index of the first failing heap creation, or 4 when all succeed. Every earlier one succeeded. |
| Renderer.FrameDescriptorsInRange | main/Renderer.cpp:1053-1070 | Every descriptor a frame's commands address lies inside its heap: the render target below `FrameCount`, DSV 0 below 1, and the two-entry CBV table within the 2 CBV descriptors. |
| Renderer.Renderer.constructor | main/Renderer.cpp:20-63 | Frame index 0, every stored fence value 0, four distinct empty heaps, no mapped buffers and no indices. |
| Renderer.Renderer.CreateSyncObject | main/Renderer.cpp:737-759 | The loop zeroes every stored value, the current slot's is bumped to 1, then it signals and waits. The resulting state is `CreateSync`. |
| Renderer.Renderer.QueueSignal | main/Renderer.cpp:1155 | A queue signal appends a signal command, and nothing else changes. |
| Renderer.Renderer.GetCompletedValue | main/Renderer.cpp:1161 | Returns the fence's completed value. |
| Renderer.Renderer.WaitOnFence | main/Renderer.cpp:1163-1164 | The CPU resumes exactly as `WaitUntil` says. |
| Renderer.Renderer.MoveToNextFrame | main/Renderer.cpp:1152-1168 | The fields move exactly as `MoveToNext` says, so the facts proved about it hold. Heaps and buffers are unchanged. |
| Renderer.Renderer.WaitForGpu | main/Renderer.cpp:1140-1150 | The fields move exactly as `FrameSync.WaitForGpu` says. |
| Renderer.Renderer.OnDestroy | main/Renderer.cpp:117-124 | The GPU is drained through `waitForGpu`. The invariant holds, and once a frame has moved on the GPU is idle. |
| Renderer.Renderer.CreateDescriptorHeap | main/Renderer.cpp:278-317 | The heaps are created RTV (FrameCount descriptors), CBV (2), SRV (1), DSV (1). It completes exactly when all four succeed. On the first failure it throws: the earlier heaps exist, the failing one holds none, and the later ones are untouched. |
| Renderer.Renderer.DescriptorViewHandles | main/Renderer.cpp:580-621 | The views are written at RTV descriptor n for each back buffer, DSV 0, and CBV 0 and 1, each inside its heap. When a heap's handles do not wrap, the views in it never overlap. |
| Renderer.Renderer.FrameHandles | main/Renderer.cpp:1053-1070 | `record` uses the current back buffer's RTV, DSV 0 and the GPU handle of CBV 0, and each addressed descriptor lies inside its heap. |
| Renderer.Renderer.Begin | main/Renderer.cpp:1019-1044 | Appends: reset the current slot's allocator, reset the list, then the barrier PRESENT to RENDER_TARGET. The slot index does not change. |
| Renderer.Renderer.Record | main/Renderer.cpp:1046-1093 | Appends the root signature. With a camera it also appends: clear the current RTV and DSV 0, bind the table at CBV 0, draw `mIndexCount` indices. |
| Renderer.Renderer.End | main/Renderer.cpp:1095-1120 | Appends the barrier RENDER_TARGET to PRESENT on the same buffer, then close. |
| Renderer.Renderer.OnRender | main/Renderer.cpp:83-115 | State and outcome are exactly `RenderFrame`'s, so the frame lemmas apply to the class's state. Once two frames have moved to different slots the state is settled, and every later completed frame drains its new slot (`AsWrittenSettlesAfterTwoFrames`, `RenderFrameSettled`). The second frame after `createSyncObject` does not (`FirstFramesRace`). The renderer stays valid. |
| Renderer.Renderer.HandleException | main/Renderer.cpp:107-114 | An `HrException` of device removal or reset moves to the next frame and is swallowed. Anything else propagates unchanged. |
| Renderer.Renderer.OnRegisterDataBuffer | main/Renderer.cpp:78-81 | The slot's buffer starts with the new bytes and keeps its remaining bytes; no other buffer is in its frame. |
| Renderer.Renderer.OnInit | main/Renderer.cpp:70-76 | The frame index is the swap chain's, and the sync state is `CreateSync`. It completes exactly when all heap creations succeed, and the renderer is then valid with fresh mapped buffers. |
| Renderer.Renderer.SetResourceDataPtr | main/Renderer.cpp:626-645 | Maps two distinct buffers, as wide as the object and camera constant buffers. |
| Renderer.Renderer.CreateAssets | main/Renderer.cpp:945-995 | `mIndexCount` becomes the quad's 6 indices. |
| Input.IsDownIsTopBit | main/Input.cpp:158-161 | Testing `& 0x80` is the same as the byte being at least 128. |
| Input.EdgesAreExclusive | main/Input.cpp:163-171 | Pressed and released are never both true. Pressed implies held and released implies not held. A key whose bit changed is exactly one of the two, and one whose bit did not change is neither. |
| Input.ZeroedIsQuiet | main/Input.cpp:104-107 | All-zero snapshots hold, press and release nothing. |
| Input.Input.constructor | main/Input.cpp:7-14 | No DirectInput object, both key arrays zero, cursor looping off, with arrays of 256 and 8 bytes. |
| Input.Input.OnInit | main/Input.cpp:21-110 | `mlpInput` exists exactly when its creation succeeded. When all four setup calls succeed, both key arrays and the old mouse buttons are zero. On an early failure no array is touched. |
| Input.Input.OnUpdate | main/Input.cpp:112-147 | The old key snapshot becomes the current one, and the current one becomes the keyboard bytes when they were read. The old mouse buttons become the current ones, and the current ones become the mouse bytes when they were read. The cursor position is stored. |
| Input.Input.OnDestory | main/Input.cpp:149-156 | The DirectInput object is released, and nothing else changes. A second call does nothing. |
| Input.Input.GetKey | main/Input.cpp:158-161 | True exactly when the key's byte has its top bit set. |
| Input.Input.GetKeyDown | main/Input.cpp:163-166 | True exactly when the key is down now and was up in the previous snapshot. |
| Input.Input.GetKeyUp | main/Input.cpp:168-171 | True exactly when the key is up now and was down in the previous snapshot. |
| Input.Input.GetMouseButton | main/Input.cpp:173-177 | False for every button above 2. Otherwise true exactly when the button is held. |
| Input.Input.GetMouseButtonDown | main/Input.cpp:179-183 | False above button 2. Otherwise true exactly when the button was pressed since the previous snapshot. |
| Input.Input.GetMouseButtonUp | main/Input.cpp:185-189 | False above button 2. Otherwise true exactly when the button was released since the previous snapshot. |
| Input.Input.SetCursorLoop | main/Input.h:53 | Only the flag changes. |
| Input.Input.GetMousePos | main/Input.h:59 | Returns the stored position unchanged. |
| InputSingleton.Singleton.constructor | main/Singleton.h:43 | `mpInstance` starts out null. |
| InputSingleton.Singleton.GetInstance | main/Singleton.h:11-14 | Returns the stored `mpInstance`: null until `createInstance` has run. |
| InputSingleton.Singleton.CreateInstance | main/Singleton.h:23-30 | Allocates a new `Input` only when there is none, and otherwise keeps the existing one. |
| InputSingleton.Singleton.DestoryInstance | main/Singleton.h:32-40 | `mpInstance` is null afterwards, whether or not there was an instance. |
| InputSingleton.SingletonLifecycle | main/Singleton.h:23-40 | Create is idempotent and destroy resets `mpInstance` to null. Create after destroy gives a different instance. |
| MainProject.MainProject.constructor | main/MainProject.cpp:8-15 | No camera, plane or renderer yet. The Input singleton is created, or the existing one is kept. |
| MainProject.MainProject.Dispose | main/MainProject.cpp:17-20 | The Input singleton is destroyed. |
| MainProject.MainProject.OnInit | main/MainProject.cpp:22-37 | Input is initialised, then the camera, plane and a new renderer are created, and the renderer is initialised. The camera and plane are set up only when the renderer's initialisation completes; its exception propagates first. |
| MainProject.MainProject.OnUpdate | main/MainProject.cpp:39-45 | Input's snapshots move forward exactly as `Input.OnUpdate` says. |
| MainProject.MainProject.OnDraw | main/MainProject.cpp:47-53 | Both constant buffers hold exactly the camera's and the plane's bytes before the frame is recorded, and the frame then runs as `RenderFrame` with the camera. When the swap chain switches buffers, the frame just submitted is not waited for: the GPU need not have reached its signal on return. |
| MainProject.MainProject.OnDestroy | main/MainProject.cpp:55-63 | Only when a renderer exists, the GPU is drained through its `onDestroy` and the renderer is released. Then Input is shut down. |

## Left out

- Device, adapter, queue, swap chain, command-list, root-signature, pipeline-state and resource creation, shader compilation and the resource uploads: these are driver calls, and they are treated as succeeding. Only the four descriptor-heap creations and `Present` have modelled HRESULTs.
- The interaction of `Present` with the display: the swap chain's next back-buffer index is an input below `FrameCount`.
- Real blocking and event handles (`SetEventOnCompletion`, `WaitForSingleObjectEx`, `CloseHandle`) and the PIX markers: a wait is the abstract GPU advancing to the first point where the fence reaches its target.
- The 64-bit wrap of the `UINT64` fence values, unreachable in practice: fence values are unbounded naturals.
- Renderer.Renderer.CreateSyncObject: only the call on a freshly constructed renderer (empty queue) is modelled, which is the only call the program makes.
- Renderer.Renderer.Begin: `resetCommandList` is folded into `Begin` as its two reset commands; the `mCommandList->Close()` after `createSyncObject` in `loadPipeline` is not modelled.
- Renderer.Renderer.OnRegisterDataBuffer: the source checks neither the slot nor the size, so an out-of-range slot or an oversized copy is undefined behaviour there; both are preconditions here.
- Renderer.Renderer.OnInit: failures of driver calls other than the four heap creations are not modelled.
- The bundle recorded in `createAssets`, the quad's and cube's floating-point vertex data, and everything about the camera, the plane, transforms and matrices: floating-point math.
- Input.Input.OnInit: DirectInput and window calls are reduced to four HRESULTs; the uninitialised `mMouse` state is modelled as zero.
- Input.Input.OnUpdate: cursor wrapping through `GetWindowInfo`/`SetCursorPos` and mouse re-acquisition are OS calls and are not modelled; the cursor position is an input.
- MainProject.MainProject.OnDestroy: `delete mpRenderer` leaves `mpRenderer` dangling in the source; the model sets the field to null.
- Renderer.Renderer.constructor: the first renderer constructed also registers itself in the static `gInstance` (main/Renderer.cpp:58-61). `Plane::onRender` and `Camera::onRender` reach the renderer through it (main/Renderer.cpp:1233, main/Camera.cpp:141). The model has no static instance: `MainProject.OnDraw` writes through its own renderer field, which is the same object while only one renderer exists.
- Input.Input.OnInit: the failure paths with undefined behaviour are not modelled. After `DirectInput8Create` fails, the source calls `Release` on `mlpInput` (main/Input.cpp:37). After `CreateDevice` fails, it calls `Release` on `mlpMouse`, which the constructor never initialises (main/Input.cpp:7-12, 49). After a failed initialisation, `onUpdate` still calls `GetDeviceState` on `mlpMouse` (main/Input.cpp:143). The model returns early, recording only whether `mlpInput` was created, and its `OnUpdate` takes the mouse read's success as an input whatever `OnInit` did.
- The application's window class, message loop, game thread and shutdown spin-wait: OS glue and cross-thread signalling.

## Findings

The `Renderer` and `MainProject` classes follow the code as written, so that the model shows what the program does. The corrected definitions (`FrameSync.CreateSyncCorrected`, `FrameSync.RenderFrameCorrected`, `DirectXHelper.ThrowIfFailedHr`) sit beside them, and the intended properties are proved about those definitions.

| source | as written | input that shows it | evidently intended | confidence | as-written member | corrected member |
|---|---|---|---|---|---|---|
| main/Renderer.cpp:743-758 | `createSyncObject` signals and waits for 1 on the current slot's fence but does not increment the stored value afterwards. The first `moveToNextFrame` signals 1 again on a fence that has already completed 1. When the swap chain returns to that slot, its wait is already satisfied, and its allocator is reset while frame 0 may still be running on the GPU. From the third frame on the state is settled and each return waits (`FrameSync.AsWrittenSettlesAfterTwoFrames`). | Back buffers 0, 1, 0 with two successful `Present` calls: the second frame returns to slot 0 with the GPU position still at 1, before frame 0's signal. | Increment the stored value after the wait, as `waitForGpu` does, so each signal is a new value and every return to a slot waits for its last frame. | not executed | FrameSync.FirstFramesRace | FrameSync.FirstFramesCorrected |
| main/DirectXHelper.h:27 | `ThrowIfFailed` throws a plain `std::exception`, so the `catch (HrException&)` of `onRender` (main/Renderer.cpp:107-113) never runs. A device removed or reset during `Present` escapes `onRender` without moving to the next frame. | `Present` returning `DXGI_ERROR_DEVICE_REMOVED` (0x887A0005). | `ThrowIfFailed` throws `HrException(hr)`, so the handler moves on after device removal or reset and rethrows anything else. | not executed | FrameSync.DeviceRemovedEscapes | FrameSync.CorrectedDeviceRemovedMovesOn |
