/** `Input` (main/Input.h, main/Input.cpp): keyboard and mouse snapshots and the "held /
    pressed / released" tests on them. The keyboard state, mouse buttons and cursor position that
    Windows and DirectInput report are parameters of `OnUpdate`; device creation is reduced to
    the HRESULTs it answers. */
module Input {
  import opened DirectXHelper

  /** `BYTE mKeyState[256]`, `BYTE mOldKeyState[256]`: one byte per virtual key. */
  const KeyCount: nat := 256
  /** `DIMOUSESTATE2::rgbButtons[8]` and `BYTE mOldMouseButton[8]`. */
  const MouseButtonCount: nat := 8
  /** Buttons 0 (left), 1 (right) and 2 (centre) are the ones the queries answer for. */
  const LastMouseButton: nat := 2
  /** The "down" bit of a key or button byte. */
  const DownBit: bv8 := 0x80

  /** `POINT`. */
  datatype Point = Point(x: int, y: int)

  /** A state byte reports its key or button as down exactly when its top bit is set. */
  predicate IsDown(b: bv8) {
    b & DownBit != 0
  }

  lemma IsDownIsTopBit(b: bv8)
    ensures IsDown(b) <==> b as int >= 128
  {
  }

  /** Held now. */
  predicate Held(now: seq<bv8>, k: nat)
    requires k < |now|
  {
    IsDown(now[k])
  }

  /** Pressed since the previous snapshot: down now, up before. */
  predicate Pressed(now: seq<bv8>, before: seq<bv8>, k: nat)
    requires k < |now| && k < |before|
  {
    IsDown(now[k]) && !IsDown(before[k])
  }

  /** Released since the previous snapshot: up now, down before. */
  predicate Released(now: seq<bv8>, before: seq<bv8>, k: nat)
    requires k < |now| && k < |before|
  {
    !IsDown(now[k]) && IsDown(before[k])
  }

  /** The three tests partition the transitions: a key is never pressed and released at once, a
      press implies held and a release implies not held, and a key whose bit did not change is
      neither pressed nor released. */
  lemma EdgesAreExclusive(now: seq<bv8>, before: seq<bv8>, k: nat)
    requires k < |now| && k < |before|
    ensures !(Pressed(now, before, k) && Released(now, before, k))
    ensures Pressed(now, before, k) ==> Held(now, k)
    ensures Released(now, before, k) ==> !Held(now, k)
    ensures IsDown(now[k]) == IsDown(before[k]) ==> !Pressed(now, before, k) && !Released(now, before, k)
    ensures IsDown(now[k]) != IsDown(before[k]) ==> Pressed(now, before, k) || Released(now, before, k)
  {
  }

  /** All-zero snapshots hold, press and release nothing. */
  lemma ZeroedIsQuiet(now: seq<bv8>, before: seq<bv8>, k: nat)
    requires k < |now| && k < |before|
    requires forall i :: 0 <= i < |now| ==> now[i] == 0
    requires forall i :: 0 <= i < |before| ==> before[i] == 0
    ensures !Held(now, k) && !Pressed(now, before, k) && !Released(now, before, k)
  {
  }

  class Input {
    /** `mlpInput != nullptr`: the DirectInput object exists. */
    var inputCreated: bool
    var oldKeyState: array<bv8>
    var keyState: array<bv8>
    /** `mMouse.rgbButtons`. */
    var mouseButtons: array<bv8>
    var oldMouseButton: array<bv8>
    var mousePos: Point
    var cursorLoop: bool

    /** The four arrays have their declared sizes and are distinct buffers. */
    predicate Valid()
      reads this
    {
      oldKeyState.Length == KeyCount && keyState.Length == KeyCount
      && mouseButtons.Length == MouseButtonCount && oldMouseButton.Length == MouseButtonCount
      && oldKeyState != keyState && mouseButtons != oldMouseButton
    }

    /** The member initialisers: no DirectInput object, both key arrays value-initialised to
        zero, cursor looping off. */
    constructor ()
      ensures Valid() && !inputCreated && !cursorLoop
      ensures forall k :: 0 <= k < KeyCount ==> keyState[k] == 0 && oldKeyState[k] == 0
      ensures fresh(oldKeyState) && fresh(keyState) && fresh(mouseButtons) && fresh(oldMouseButton)
    {
      inputCreated := false;
      oldKeyState := new bv8[KeyCount](_ => 0);
      keyState := new bv8[KeyCount](_ => 0);
      mouseButtons := new bv8[MouseButtonCount](_ => 0);
      oldMouseButton := new bv8[MouseButtonCount](_ => 0);
      mousePos := Point(0, 0);
      cursorLoop := false;
    }

    /** `onInit`: create the DirectInput object, then the mouse device, set its data format and
        cooperative level; `hrs` are the four HRESULTs. The first failure returns early, before
        the snapshots are touched. When all succeed both key arrays and the old mouse buttons
        are zeroed. */
    method OnInit(hrs: seq<HResult>)
      requires Valid() && |hrs| == 4
      modifies this, oldKeyState, keyState, oldMouseButton
      ensures Valid() && oldKeyState == old(oldKeyState) && keyState == old(keyState)
      ensures mouseButtons == old(mouseButtons) && oldMouseButton == old(oldMouseButton)
      ensures mousePos == old(mousePos) && cursorLoop == old(cursorLoop)
      ensures inputCreated == !Failed(hrs[0])
      ensures (forall i :: 0 <= i < 4 ==> !Failed(hrs[i])) ==>
        (forall k :: 0 <= k < KeyCount ==> keyState[k] == 0 && oldKeyState[k] == 0)
        && (forall b :: 0 <= b < MouseButtonCount ==> oldMouseButton[b] == 0)
      ensures (exists i :: 0 <= i < 4 && Failed(hrs[i])) ==>
        unchanged(oldKeyState) && unchanged(keyState) && unchanged(oldMouseButton)
    {
      inputCreated := !Failed(hrs[0]);
      if Failed(hrs[0]) || Failed(hrs[1]) || Failed(hrs[2]) || Failed(hrs[3]) {
        return;
      }
      forall k | 0 <= k < KeyCount {
        oldKeyState[k] := 0;
      }
      forall k | 0 <= k < KeyCount {
        keyState[k] := 0;
      }
      forall b | 0 <= b < MouseButtonCount {
        oldMouseButton[b] := 0;
      }
    }

    /** `onUpdate`: keep the current key bytes as the old snapshot and take `keyboard` as the
        new one when `GetKeyboardState` succeeds; keep the current mouse buttons as the old ones,
        take the cursor position `pos`, and take `mouse` as the new buttons when
        `GetDeviceState` succeeds (on failure it only re-acquires). */
    method OnUpdate(keyboard: seq<bv8>, keyboardOk: bool, mouse: seq<bv8>, mouseOk: bool, pos: Point)
      requires Valid() && |keyboard| == KeyCount && |mouse| == MouseButtonCount
      modifies this, oldKeyState, keyState, mouseButtons, oldMouseButton
      ensures Valid() && oldKeyState == old(oldKeyState) && keyState == old(keyState)
      ensures mouseButtons == old(mouseButtons) && oldMouseButton == old(oldMouseButton)
      ensures inputCreated == old(inputCreated) && cursorLoop == old(cursorLoop)
      ensures oldKeyState[..] == old(keyState[..])
      ensures keyState[..] == if keyboardOk then keyboard else old(keyState[..])
      ensures oldMouseButton[..] == old(mouseButtons[..])
      ensures mouseButtons[..] == if mouseOk then mouse else old(mouseButtons[..])
      ensures mousePos == pos
    {
      forall k | 0 <= k < KeyCount {
        oldKeyState[k] := keyState[k];
      }
      if keyboardOk {
        forall k | 0 <= k < KeyCount {
          keyState[k] := keyboard[k];
        }
      }
      forall b | 0 <= b < MouseButtonCount {
        oldMouseButton[b] := mouseButtons[b];
      }
      mousePos := pos;
      if mouseOk {
        forall b | 0 <= b < MouseButtonCount {
          mouseButtons[b] := mouse[b];
        }
      }
    }

    /** `onDestory`: release the DirectInput object once; a second call does nothing. */
    method OnDestory()
      modifies this
      ensures !inputCreated
      ensures oldKeyState == old(oldKeyState) && keyState == old(keyState)
      ensures mouseButtons == old(mouseButtons) && oldMouseButton == old(oldMouseButton)
      ensures mousePos == old(mousePos) && cursorLoop == old(cursorLoop)
    {
      if inputCreated {
        inputCreated := false;
      }
    }

    /** `getKey`: the key's down bit in the current snapshot. */
    method GetKey(key: bv8) returns (b: bool)
      requires Valid()
      ensures b <==> Held(keyState[..], key as nat)
      ensures b <==> keyState[key] as int >= 128
    {
      b := keyState[key] & DownBit != 0;
      IsDownIsTopBit(keyState[key]);
    }

    /** `getKeyDown`: down now and up in the previous snapshot. */
    method GetKeyDown(key: bv8) returns (b: bool)
      requires Valid()
      ensures b <==> Pressed(keyState[..], oldKeyState[..], key as nat)
    {
      b := keyState[key] & DownBit != 0 && oldKeyState[key] & DownBit == 0;
    }

    /** `getKeyUp`: up now and down in the previous snapshot. */
    method GetKeyUp(key: bv8) returns (b: bool)
      requires Valid()
      ensures b <==> Released(keyState[..], oldKeyState[..], key as nat)
    {
      b := keyState[key] & DownBit == 0 && oldKeyState[key] & DownBit != 0;
    }

    /** `getMouseButton`: false for any button above 2, otherwise its down bit. */
    method GetMouseButton(btn: bv8) returns (b: bool)
      requires Valid()
      ensures b <==> btn as nat <= LastMouseButton && Held(mouseButtons[..], btn as nat)
    {
      if btn > 2 {
        return false;
      }
      b := mouseButtons[btn] & DownBit != 0;
    }

    /** `getMouseButtonDown`: false above button 2, otherwise pressed since the last update. */
    method GetMouseButtonDown(btn: bv8) returns (b: bool)
      requires Valid()
      ensures b <==> btn as nat <= LastMouseButton && Pressed(mouseButtons[..], oldMouseButton[..], btn as nat)
    {
      if btn > 2 {
        return false;
      }
      b := mouseButtons[btn] & DownBit != 0 && oldMouseButton[btn] & DownBit == 0;
    }

    /** `getMouseButtonUp`: false above button 2, otherwise released since the last update. */
    method GetMouseButtonUp(btn: bv8) returns (b: bool)
      requires Valid()
      ensures b <==> btn as nat <= LastMouseButton && Released(mouseButtons[..], oldMouseButton[..], btn as nat)
    {
      if btn > 2 {
        return false;
      }
      b := mouseButtons[btn] & DownBit == 0 && oldMouseButton[btn] & DownBit != 0;
    }

    /** `setCursorLoop`: only the flag changes. */
    method SetCursorLoop(isLoop: bool)
      modifies this
      ensures cursorLoop == isLoop
      ensures inputCreated == old(inputCreated) && mousePos == old(mousePos)
      ensures oldKeyState == old(oldKeyState) && keyState == old(keyState)
      ensures mouseButtons == old(mouseButtons) && oldMouseButton == old(oldMouseButton)
    {
      cursorLoop := isLoop;
    }

    /** `getMousePos`: the position stored by the last update. */
    method GetMousePos() returns (p: Point)
      ensures p == mousePos
    {
      p := mousePos;
    }
  }
}
