/** `MainProject` (main/MainProject.cpp): the frame driver. It owns the Input singleton for its
    lifetime and calls the camera, the plane and the renderer in a fixed order. The camera and
    the plane appear only through the constant-buffer bytes they hand to the renderer; their
    matrix arithmetic is not part of this model. */
module MainProject {
  import opened DirectXHelper
  import opened FrameSync
  import opened Geometry
  import opened Input
  import opened InputSingleton
  import opened Renderer

  class MainProject {
    /** The static storage of `Common::Singleton<Input>`. */
    var singleton: Singleton
    /** `mpCamera != nullptr` and `mpPlane != nullptr`. */
    var hasCamera: bool
    var hasPlane: bool
    /** Whether `camera->setup()` and `plane->onSetup()` have run. */
    var cameraSetUp: bool
    var planeSetUp: bool
    /** `mpRenderer`. */
    var renderer: Renderer?

    /** The constructor: no camera, plane or renderer yet; the Input singleton is created (or
        the existing one kept). */
    constructor (s: Singleton)
      modifies s
      ensures singleton == s && s.instance != null
      ensures old(s.instance) != null ==> s.instance == old(s.instance)
      ensures old(s.instance) == null ==> fresh(s.instance) && s.instance.Valid()
      ensures !hasCamera && !hasPlane && !cameraSetUp && !planeSetUp && renderer == null
    {
      singleton := s;
      hasCamera := false;
      hasPlane := false;
      cameraSetUp := false;
      planeSetUp := false;
      renderer := null;
      new;
      s.CreateInstance();
    }

    /** The destructor: the Input singleton is destroyed. */
    method Dispose()
      modifies singleton
      ensures singleton.instance == null
    {
      singleton.DestoryInstance();
    }

    /** `onInit`: initialise Input (its four device HRESULTs are `inputHrs`), create the camera,
        the plane and a new renderer, initialise the renderer (back buffer `bb`, heap answers
        `answers`), and only then set up the camera and the plane. An exception from the
        renderer propagates before either is set up. */
    method OnInit(inputHrs: seq<HResult>, bb: nat, answers: seq<HeapAnswer>) returns (o: Outcome)
      requires singleton.instance != null && singleton.instance.Valid()
      requires |inputHrs| == 4 && bb < FrameCount && |answers| == 4
      modifies this, singleton.instance, singleton.instance.oldKeyState, singleton.instance.keyState,
        singleton.instance.oldMouseButton
      ensures singleton == old(singleton) && singleton.instance == old(singleton.instance)
      ensures singleton.instance.Valid() && singleton.instance.inputCreated == !Failed(inputHrs[0])
      ensures hasCamera && hasPlane && renderer != null && fresh(renderer)
      ensures renderer.State() == CreateSync(bb)
      ensures o.Pass? <==> FirstFailure(answers) == 4
      ensures o.Fail? ==> o.exception == StdException
      ensures o.Pass? ==> renderer.Valid() && cameraSetUp && planeSetUp
      ensures o.Fail? ==> cameraSetUp == old(cameraSetUp) && planeSetUp == old(planeSetUp)
    {
      var input := singleton.GetInstance();
      input.OnInit(inputHrs);
      hasCamera := true;
      hasPlane := true;
      var r := new Renderer();
      renderer := r;
      o := r.OnInit(bb, answers);
      if o.Fail? {
        return;
      }
      cameraSetUp := true;
      planeSetUp := true;
    }

    /** `onUpdate`: refresh Input from this tick's keyboard, mouse and cursor readings. The
        camera and plane updates that follow are matrix arithmetic only. */
    method OnUpdate(keyboard: seq<bv8>, keyboardOk: bool, mouse: seq<bv8>, mouseOk: bool, pos: Point)
      requires singleton.instance != null && singleton.instance.Valid()
      requires |keyboard| == KeyCount && |mouse| == MouseButtonCount
      modifies singleton.instance, singleton.instance.oldKeyState, singleton.instance.keyState,
        singleton.instance.mouseButtons, singleton.instance.oldMouseButton
      ensures singleton.instance.Valid()
      ensures singleton.instance.oldKeyState[..] == old(singleton.instance.keyState[..])
      ensures singleton.instance.keyState[..] == if keyboardOk then keyboard else old(singleton.instance.keyState[..])
      ensures singleton.instance.oldMouseButton[..] == old(singleton.instance.mouseButtons[..])
      ensures singleton.instance.mouseButtons[..] == if mouseOk then mouse else old(singleton.instance.mouseButtons[..])
    {
      var input := singleton.GetInstance();
      input.OnUpdate(keyboard, keyboardOk, mouse, mouseOk, pos);
    }

    /** `onDraw`: the camera writes its constants into the scene slot (1), the plane writes its
        constants into the object slot (0), then the renderer records, submits and presents the
        frame with the camera. Both buffers hold exactly the new bytes when the frame is
        recorded. The renderer has no per-frame copy of either buffer, and `moveToNextFrame`
        does not wait for the frame just submitted: when it moved to the other back buffer, that
        frame's signal is not waited for, so the GPU need not have reached it when the next
        `onDraw` overwrites the same buffers. */
    method OnDraw(sceneBytes: seq<bv8>, objectBytes: seq<bv8>, presentHr: HResult, bb: nat) returns (o: Outcome)
      requires renderer != null && renderer.Valid() && hasCamera && hasPlane && bb < FrameCount
      requires |sceneBytes| == CameraConstantBufferSize() && |objectBytes| == ObjectConstantBufferSize()
      modifies renderer, renderer.fenceValues, renderer.objectBuffer, renderer.sceneBuffer
      ensures renderer.Valid()
      ensures renderer.sceneBuffer[..] == sceneBytes && renderer.objectBuffer[..] == objectBytes
      ensures (renderer.State(), o) == RenderFrame(old(renderer.State()), true, |QuadIndices|, presentHr, bb)
      ensures o.Pass? && bb != old(renderer.frameIndex) ==> !SlotDrained(renderer.State(), old(renderer.frameIndex))
    {
      renderer.OnRegisterDataBuffer(1, sceneBytes);
      renderer.OnRegisterDataBuffer(0, objectBytes);
      assert renderer.sceneBuffer[..] == sceneBytes;
      ghost var s0 := renderer.State();
      o := renderer.OnRender(hasCamera, presentHr, bb);
      if o.Pass? && bb != s0.frameIndex {
        RenderFrameOutcome(s0, true, |QuadIndices|, presentHr, bb);
        RenderFrameLeavesFrameInFlight(s0, true, |QuadIndices|, presentHr, bb);
      }
    }

    /** `onDestroy`: if there is a renderer, drain the GPU through its `onDestroy` before it is
        deleted; then shut Input down. */
    method OnDestroy()
      requires singleton.instance != null
      requires renderer != null ==> Inv(renderer.State())
      modifies this, singleton.instance
      modifies if renderer != null then {renderer, renderer.fenceValues} else {}
      ensures renderer == null && singleton == old(singleton) && singleton.instance == old(singleton.instance)
      ensures !singleton.instance.inputCreated
      ensures old(renderer) != null ==> old(renderer).State() == FrameSync.WaitForGpu(old(renderer.State()))
      ensures old(renderer) != null && Ahead(old(renderer.State())) ==> Idle(old(renderer).State())
    {
      if renderer != null {
        renderer.OnDestroy();
        renderer := null;
      }
      var input := singleton.GetInstance();
      input.OnDestory();
    }
  }
}
