/** The renderer's frame-slot protocol (main/Renderer.cpp): `createSyncObject`, the per-frame
    order `begin` / `record` / `end` / execute / `Present` / `moveToNextFrame` of `onRender`, and
    `waitForGpu`, as pure functions over a `Sync` state.

    The GPU is modelled as a FIFO queue. `trace` lists, in order, every command the renderer hands
    to the driver; `processed` is how far into that list the GPU has got. A fence's completed value
    is the value of the last `SignalFence` on it that the GPU has reached (0 for a new fence). A CPU
    wait on a fence moves `processed` forward to the first point where the fence reaches the awaited
    value; any other GPU progress is an explicit `Progress` step. The class in module `Renderer`
    keeps the same state in fields and is proved against these functions. */
module FrameSync {
  import opened DirectXHelper

  /** `FrameCount`: two back buffers, two allocators, two fences, two stored fence values. */
  const FrameCount: nat := 2

  datatype ResourceState = Present | RenderTarget

  /** One command the renderer gives the driver, in the order it gives them. */
  datatype Event =
    | SignalFence(fence: nat, value: nat)       // mCommandQueue->Signal(mFences[fence], value)
    | WaitFence(fence: nat, value: nat)         // SetEventOnCompletion + a blocking wait
    | ResetAllocator(slot: nat)
    | ResetList(slot: nat)
    | Barrier(buffer: nat, before: ResourceState, after: ResourceState)
    | SetRootSignature
    | ClearTargets(rtv: nat, dsv: nat)          // descriptor indices into the RTV and DSV heaps
    | BindConstants(table: nat)                 // descriptor index into the CBV heap
    | DrawIndexed(indexCount: nat)
    | CloseList
    | ExecuteList
    | PresentFrame(syncInterval: nat, flags: nat)

  /** Which commands a search over a trace looks for. */
  datatype Selector = SignalOn(f: nat) | AnySignal | BarrierOn(b: nat)

  predicate Matches(s: Selector, e: Event) {
    match s
    case SignalOn(f) => e.SignalFence? && e.fence == f
    case AnySignal => e.SignalFence?
    case BarrierOn(b) => e.Barrier? && e.buffer == b
  }

  /** Index of the last command of `t` that `s` selects, or -1 when there is none. */
  function LastIndex(t: seq<Event>, s: Selector): (r: int)
    ensures -1 <= r < |t|
    ensures r >= 0 ==> Matches(s, t[r])
    ensures forall j :: r < j < |t| ==> !Matches(s, t[j])
  {
    if t == [] then -1
    else if Matches(s, t[|t| - 1]) then |t| - 1
    else LastIndex(t[..|t| - 1], s)
  }

  /** The last value signalled on fence `f` in `t`, or 0 (the fence's creation value). */
  function LastOn(t: seq<Event>, f: nat): nat {
    var i := LastIndex(t, SignalOn(f));
    if i < 0 then 0 else t[i].value
  }

  /** The last value signalled on any fence in `t`, or 0. */
  function LastValue(t: seq<Event>): nat {
    var i := LastIndex(t, AnySignal);
    if i < 0 then 0 else t[i].value
  }

  /** The state back buffer `b` is left in by the barriers of `t`; a swap-chain buffer starts in
      the PRESENT state. */
  function BufferState(t: seq<Event>, b: nat): ResourceState {
    var i := LastIndex(t, BarrierOn(b));
    if i < 0 then Present else t[i].after
  }

  /** No command of `es` is selected by `s`. */
  predicate NoneMatch(es: seq<Event>, s: Selector) {
    forall k :: 0 <= k < |es| ==> !Matches(s, es[k])
  }

  /** Signal values never decrease along the trace. */
  predicate Sorted(t: seq<Event>) {
    forall i, j :: 0 <= i < j < |t| && t[i].SignalFence? && t[j].SignalFence? ==> t[i].value <= t[j].value
  }

  /** Signal values strictly increase along the trace. */
  predicate StrictlySorted(t: seq<Event>) {
    forall i, j :: 0 <= i < j < |t| && t[i].SignalFence? && t[j].SignalFence? ==> t[i].value < t[j].value
  }

  /** Every signalled value is at least 1, above a new fence's 0. */
  predicate Positive(t: seq<Event>) {
    forall i :: 0 <= i < |t| && t[i].SignalFence? ==> t[i].value >= 1
  }

  // ---------------------------------------------------------------------------
  // Facts about searching a trace

  /** `LastIndex` is the only index with its two properties. */
  lemma LastIndexUnique(t: seq<Event>, s: Selector, r: int)
    requires -1 <= r < |t|
    requires r >= 0 ==> Matches(s, t[r])
    requires forall j :: r < j < |t| ==> !Matches(s, t[j])
    ensures LastIndex(t, s) == r
  {
    var q := LastIndex(t, s);
    assert r >= 0 ==> r <= q;
    assert q >= 0 ==> q <= r;
  }

  /** Searching an extended trace finds the extension's last match, or else the old one. */
  lemma LastIndexAppend(t: seq<Event>, es: seq<Event>, s: Selector)
    ensures LastIndex(t + es, s) == if LastIndex(es, s) >= 0 then |t| + LastIndex(es, s) else LastIndex(t, s)
  {
    var u := t + es;
    var e := LastIndex(es, s);
    var r := if e >= 0 then |t| + e else LastIndex(t, s);
    forall j | r < j < |u|
      ensures !Matches(s, u[j])
    {
      if j >= |t| {
        assert u[j] == es[j - |t|];
      } else {
        assert u[j] == t[j];
      }
    }
    if r >= 0 {
      if e >= 0 {
        assert u[r] == es[e];
      } else {
        assert u[r] == t[r];
      }
    }
    LastIndexUnique(u, s, r);
  }

  /** Appending commands none of which `s` selects leaves the search's answer alone. */
  lemma LastIndexAppendNone(t: seq<Event>, es: seq<Event>, s: Selector)
    requires NoneMatch(es, s)
    ensures LastIndex(t + es, s) == LastIndex(t, s)
  {
    LastIndexAppend(t, es, s);
    assert LastIndex(es, s) == -1;
  }

  /** Appending a command `s` selects makes it the answer. */
  lemma LastIndexAppendOne(t: seq<Event>, e: Event, s: Selector)
    requires Matches(s, e)
    ensures LastIndex(t + [e], s) == |t|
  {
    LastIndexAppend(t, [e], s);
  }

  /** In a sorted trace the last signal on any one fence is bounded by the last signal overall,
      and every signal is. */
  lemma LastValueBounds(t: seq<Event>, f: nat)
    requires Sorted(t)
    ensures LastOn(t, f) <= LastValue(t)
    ensures forall i :: 0 <= i < |t| && t[i].SignalFence? ==> t[i].value <= LastValue(t)
  {
    var last := LastIndex(t, AnySignal);
    forall i | 0 <= i < |t| && t[i].SignalFence?
      ensures t[i].value <= LastValue(t)
    {
      assert Matches(AnySignal, t[i]);
      assert i <= last;
    }
    var k := LastIndex(t, SignalOn(f));
    if k >= 0 {
      assert t[k].SignalFence?;
    }
  }

  /** The completed value of a fence only grows as the GPU advances, and never exceeds the last
      value signalled on it. */
  lemma CompletedMonotone(t: seq<Event>, n: nat, m: nat, f: nat)
    requires Sorted(t)
    requires n <= m <= |t|
    ensures LastOn(t[..n], f) <= LastOn(t[..m], f) <= LastOn(t, f)
  {
    var i := LastIndex(t[..n], SignalOn(f));
    var k := LastIndex(t[..m], SignalOn(f));
    var l := LastIndex(t, SignalOn(f));
    if i >= 0 {
      assert t[..n][i] == t[i] && t[..m][i] == t[i];
      assert Matches(SignalOn(f), t[..m][i]);
      assert i <= k;
      assert t[..m][k] == t[k];
    }
    if k >= 0 {
      assert t[..m][k] == t[k];
      assert Matches(SignalOn(f), t[k]);
      assert k <= l;
    }
  }

  /** With strictly increasing positive values, a fence whose completed value has reached the last
      value signalled on it has no signal left unprocessed. */
  lemma DrainedWhenReached(t: seq<Event>, p: nat, f: nat)
    requires StrictlySorted(t) && Positive(t)
    requires p <= |t|
    requires LastOn(t[..p], f) >= LastOn(t, f)
    ensures LastIndex(t, SignalOn(f)) < p
  {
    var k := LastIndex(t, SignalOn(f));
    if k >= 0 {
      assert t[k].value >= 1;
      var i := LastIndex(t[..p], SignalOn(f));
      assert i >= 0;
      assert t[..p][i] == t[i];
      assert Matches(SignalOn(f), t[i]);
      assert i == k;
    }
  }

  /** The last signal on fence `f` carries a value no earlier signal on `f` reached: a fence that
      has completed that value has reached that very signal. */
  predicate LastUnique(t: seq<Event>, f: nat) {
    forall i :: 0 <= i < LastIndex(t, SignalOn(f)) && Matches(SignalOn(f), t[i]) ==> t[i].value < LastOn(t, f)
  }

  /** With positive values, a fence whose completed value has reached the value of its last signal,
      carried by no earlier signal on it, has no signal left unprocessed. */
  lemma ReachedUnique(t: seq<Event>, p: nat, f: nat)
    requires Positive(t) && LastUnique(t, f)
    requires p <= |t|
    requires LastOn(t[..p], f) >= LastOn(t, f)
    ensures LastIndex(t, SignalOn(f)) < p
  {
    var k := LastIndex(t, SignalOn(f));
    if k >= 0 {
      assert t[k].value >= 1;
      var i := LastIndex(t[..p], SignalOn(f));
      assert i >= 0;
      assert t[..p][i] == t[i];
      assert Matches(SignalOn(f), t[i]);
      assert i <= k;
      assert i == k;
    }
  }

  /** Strictly increasing values make every fence's last signal unique. */
  lemma StrictlySortedUnique(t: seq<Event>, f: nat)
    requires StrictlySorted(t)
    ensures LastUnique(t, f)
  {
    var k := LastIndex(t, SignalOn(f));
    forall i | 0 <= i < k && Matches(SignalOn(f), t[i])
      ensures t[i].value < LastOn(t, f)
    {
      assert t[k].SignalFence?;
    }
  }

  /** Commands that signal nothing keep a fence's last signal unique. */
  lemma QuietKeepsUnique(t: seq<Event>, es: seq<Event>, f: nat)
    requires NoneMatch(es, AnySignal)
    requires LastUnique(t, f)
    ensures LastUnique(t + es, f)
  {
    forall k | 0 <= k < |es|
      ensures !Matches(SignalOn(f), es[k])
    {
      assert !Matches(AnySignal, es[k]);
    }
    LastIndexAppendNone(t, es, SignalOn(f));
    QuietAppend(t, es);
    var u := t + es;
    forall i | 0 <= i < LastIndex(u, SignalOn(f)) && Matches(SignalOn(f), u[i])
      ensures u[i].value < LastOn(u, f)
    {
      assert u[i] == t[i];
    }
  }

  /** A signal above every value signalled before is unique on its fence, and leaves the other
      fences' last signals as unique as they were. */
  lemma SignalUnique(t: seq<Event>, f: nat, v: nat, g: nat)
    requires Sorted(t)
    requires v > LastValue(t)
    ensures LastUnique(t + [SignalFence(f, v)], f)
    ensures g != f && LastUnique(t, g) ==> LastUnique(t + [SignalFence(f, v)], g)
  {
    var e := SignalFence(f, v);
    var u := t + [e];
    SignalAppend(t, f, v);
    LastValueBounds(t, f);
    LastIndexAppendOne(t, e, SignalOn(f));
    forall i | 0 <= i < LastIndex(u, SignalOn(f)) && Matches(SignalOn(f), u[i])
      ensures u[i].value < LastOn(u, f)
    {
      assert u[i] == t[i];
    }
    if g != f && LastUnique(t, g) {
      LastIndexAppendNone(t, [e], SignalOn(g));
      forall i | 0 <= i < LastIndex(u, SignalOn(g)) && Matches(SignalOn(g), u[i])
        ensures u[i].value < LastOn(u, g)
      {
        assert u[i] == t[i];
      }
    }
  }

  /** Appending commands that signal nothing changes no fence's signal history. */
  lemma QuietAppend(t: seq<Event>, es: seq<Event>)
    requires NoneMatch(es, AnySignal)
    ensures forall f :: LastOn(t + es, f) == LastOn(t, f)
    ensures LastValue(t + es) == LastValue(t)
    ensures Sorted(t) ==> Sorted(t + es)
    ensures StrictlySorted(t) ==> StrictlySorted(t + es)
    ensures Positive(t) ==> Positive(t + es)
  {
    forall f
      ensures LastOn(t + es, f) == LastOn(t, f)
    {
      forall k | 0 <= k < |es|
        ensures !Matches(SignalOn(f), es[k])
      {
        assert !Matches(AnySignal, es[k]);
      }
      LastIndexAppendNone(t, es, SignalOn(f));
      var i := LastIndex(t, SignalOn(f));
      if i >= 0 {
        assert (t + es)[i] == t[i];
      }
    }
    LastIndexAppendNone(t, es, AnySignal);
    var i := LastIndex(t, AnySignal);
    if i >= 0 {
      assert (t + es)[i] == t[i];
    }
    forall i | |t| <= i < |t + es|
      ensures !(t + es)[i].SignalFence?
    {
      assert (t + es)[i] == es[i - |t|];
      assert !Matches(AnySignal, es[i - |t|]);
    }
  }

  /** Appending a signal of `v` on fence `f` makes `v` the last value on `f` and overall, leaves the
      other fences alone, and keeps the value order when `v` is not below what came before. */
  lemma SignalAppend(t: seq<Event>, f: nat, v: nat)
    ensures LastOn(t + [SignalFence(f, v)], f) == v
    ensures forall g :: g != f ==> LastOn(t + [SignalFence(f, v)], g) == LastOn(t, g)
    ensures LastValue(t + [SignalFence(f, v)]) == v
    ensures forall b :: BufferState(t + [SignalFence(f, v)], b) == BufferState(t, b)
    ensures Sorted(t) && v >= LastValue(t) ==> Sorted(t + [SignalFence(f, v)])
    ensures StrictlySorted(t) && v > LastValue(t) ==> StrictlySorted(t + [SignalFence(f, v)])
    ensures Positive(t) && v >= 1 ==> Positive(t + [SignalFence(f, v)])
  {
    var e := SignalFence(f, v);
    var u := t + [e];
    LastIndexAppendOne(t, e, SignalOn(f));
    LastIndexAppendOne(t, e, AnySignal);
    forall g | g != f
      ensures LastOn(u, g) == LastOn(t, g)
    {
      LastIndexAppendNone(t, [e], SignalOn(g));
      var i := LastIndex(t, SignalOn(g));
      if i >= 0 {
        assert u[i] == t[i];
      }
    }
    forall b
      ensures BufferState(u, b) == BufferState(t, b)
    {
      LastIndexAppendNone(t, [e], BarrierOn(b));
      var i := LastIndex(t, BarrierOn(b));
      if i >= 0 {
        assert u[i] == t[i];
      }
    }
    if Sorted(t) && v >= LastValue(t) {
      LastValueBounds(t, f);
      forall i, j | 0 <= i < j < |u| && u[i].SignalFence? && u[j].SignalFence?
        ensures u[i].value <= u[j].value
      {
        assert u[i] == t[i];
        if j < |t| {
          assert u[j] == t[j];
        }
      }
    }
    if StrictlySorted(t) && v > LastValue(t) {
      LastValueBounds(t, f);
      forall i, j | 0 <= i < j < |u| && u[i].SignalFence? && u[j].SignalFence?
        ensures u[i].value < u[j].value
      {
        assert u[i] == t[i];
        if j < |t| {
          assert u[j] == t[j];
        }
      }
    }
  }

  // ---------------------------------------------------------------------------
  // The renderer's synchronisation state

  /** `mFrameIndex`, `mFenceValues[FrameCount]`, the commands given so far and the GPU's progress
      through them. */
  datatype Sync = Sync(frameIndex: nat, fenceValues: seq<nat>, trace: seq<Event>, processed: nat)

  /** What holds between frames. Every slot other than the current one stores the last value
      signalled on its fence; the current slot stores a value no smaller than any signalled yet,
      the one its next signal uses. Signals never go down, and every back buffer is back in the
      PRESENT state. */
  predicate Inv(st: Sync) {
    && |st.fenceValues| == FrameCount
    && st.frameIndex < FrameCount
    && st.processed <= |st.trace|
    && Sorted(st.trace)
    && Positive(st.trace)
    && (forall f :: 0 <= f < FrameCount && f != st.frameIndex ==> st.fenceValues[f] == LastOn(st.trace, f))
    && st.fenceValues[st.frameIndex] >= LastValue(st.trace)
    && st.fenceValues[st.frameIndex] >= 1
    && (forall b :: 0 <= b < FrameCount ==> BufferState(st.trace, b) == Present)
  }

  /** The current slot's next signal is above every value signalled so far. */
  predicate Ahead(st: Sync) {
    Inv(st) && st.fenceValues[st.frameIndex] > LastValue(st.trace)
  }

  /** Ahead, and no value has ever been signalled twice: a fence's value then names one signal. */
  predicate Fresh(st: Sync) {
    Ahead(st) && StrictlySorted(st.trace)
  }

  /** Ahead, and every slot other than the current one stores a value that only its fence's last
      signal carries: waiting for that value waits for that very signal. The state the renderer
      reaches once two frames in a row have moved to different slots. */
  predicate Settled(st: Sync) {
    Ahead(st) && forall f :: 0 <= f < FrameCount && f != st.frameIndex ==> LastUnique(st.trace, f)
  }

  /** `mFences[f]->GetCompletedValue()`. */
  function Completed(st: Sync, f: nat): nat
    requires st.processed <= |st.trace|
  {
    LastOn(st.trace[..st.processed], f)
  }

  /** Every signal ever issued on fence `f` has been reached by the GPU, so (the queue being FIFO)
      every command submitted before it has finished. */
  predicate SlotDrained(st: Sync, f: nat) {
    LastIndex(st.trace, SignalOn(f)) < st.processed
  }

  /** The GPU has reached every signal issued so far. */
  predicate Idle(st: Sync) {
    LastIndex(st.trace, AnySignal) < st.processed
  }

  /** `mCommandQueue->Signal(mFences[f], v)`. */
  function Signal(st: Sync, f: nat, v: nat): Sync {
    st.(trace := st.trace + [SignalFence(f, v)])
  }

  /** Commands that signal nothing, appended to the trace. */
  function Append(st: Sync, es: seq<Event>): Sync {
    st.(trace := st.trace + es)
  }

  /** Where the GPU is when fence `f` first reaches `target`, starting from position `n`. */
  function WakeAt(t: seq<Event>, n: nat, f: nat, target: nat): (m: nat)
    requires n <= |t|
    requires LastOn(t, f) >= target
    ensures n <= m <= |t|
    ensures LastOn(t[..m], f) >= target
    ensures forall k :: n <= k < m ==> LastOn(t[..k], f) < target
    decreases |t| - n
  {
    if n == |t| then
      assert t[..n] == t;
      n
    else if LastOn(t[..n], f) >= target then n
    else WakeAt(t, n + 1, f, target)
  }

  /** `SetEventOnCompletion(target)` followed by a blocking wait: the CPU resumes once the fence's
      completed value reaches `target`, and the GPU has gone no further than that requires. The
      wait can only end if the value has been signalled. */
  function WaitUntil(st: Sync, f: nat, target: nat): (r: Sync)
    requires st.processed <= |st.trace|
    requires LastOn(st.trace, f) >= target
    ensures st.processed <= r.processed <= |st.trace| && r.processed <= |r.trace|
    ensures Completed(r, f) >= target
    ensures Completed(st, f) >= target ==> r.processed == st.processed
  {
    var m := WakeAt(st.trace, st.processed, f, target);
    var r := st.(trace := st.trace + [WaitFence(f, target)], processed := m);
    assert r.trace[..m] == st.trace[..m];
    r
  }

  /** The GPU advances to position `n` on its own. */
  function Progress(st: Sync, n: nat): Sync
    requires st.processed <= n <= |st.trace|
  {
    st.(processed := n)
  }

  /** The GPU advancing on its own keeps the invariant and never undoes a drained slot; a fence's
      completed value only grows. */
  lemma ProgressKeeps(st: Sync, n: nat, f: nat)
    requires Inv(st)
    requires st.processed <= n <= |st.trace|
    ensures Inv(Progress(st, n))
    ensures Completed(st, f) <= Completed(Progress(st, n), f) <= LastOn(st.trace, f)
    ensures SlotDrained(st, f) ==> SlotDrained(Progress(st, n), f)
  {
    CompletedMonotone(st.trace, st.processed, n, f);
  }

  // ---------------------------------------------------------------------------
  // createSyncObject

  /** `createSyncObject` as written: every stored value 0, then the current slot's 1; signal 1 on
      that slot's fence and block until it completes. */
  function CreateSync(bb: nat): Sync
    requires bb < FrameCount
  {
    var init := Sync(bb, seq(FrameCount, _ => 0)[bb := 1], [], 0);
    LastIndexAppendOne([], SignalFence(bb, 1), SignalOn(bb));
    WaitUntil(Signal(init, bb, 1), bb, 1)
  }

  /** After `createSyncObject` the invariant holds and the GPU has reached the only signal. The
      current slot still stores 1, the value already signalled, so the state is not `Ahead`: the
      first `moveToNextFrame` signals 1 a second time. */
  lemma CreateSyncEstablishes(bb: nat)
    requires bb < FrameCount
    ensures var st := CreateSync(bb);
      && Inv(st)
      && st.frameIndex == bb
      && (forall f :: 0 <= f < FrameCount ==> st.fenceValues[f] == if f == bb then 1 else 0)
      && st.trace == [SignalFence(bb, 1), WaitFence(bb, 1)]
      && Completed(st, bb) == 1
      && Idle(st)
      && !Ahead(st)
  {
    CreateSyncShape(bb);
    InitialState(bb);
  }

  /** The facts about the spelled-out state behind `CreateSyncEstablishes`. */
  lemma InitialState(bb: nat)
    requires bb < FrameCount
    ensures var st := Sync(bb, seq(FrameCount, _ => 0)[bb := 1], [SignalFence(bb, 1), WaitFence(bb, 1)], 1);
      && Inv(st) && Completed(st, bb) == 1 && Idle(st) && !Ahead(st)
  {
    var tr := [SignalFence(bb, 1), WaitFence(bb, 1)];
    InitialSearches(bb);
    assert tr[..1] == [SignalFence(bb, 1)];
    LastIndexUnique(tr[..1], SignalOn(bb), 0);
  }

  /** Where each selector's last match sits in the trace `createSyncObject` leaves. */
  lemma InitialSearches(bb: nat)
    ensures var tr := [SignalFence(bb, 1), WaitFence(bb, 1)];
      && LastIndex(tr, AnySignal) == 0
      && (forall f :: LastIndex(tr, SignalOn(f)) == if f == bb then 0 else -1)
      && (forall b :: LastIndex(tr, BarrierOn(b)) == -1)
  {
    var tr := [SignalFence(bb, 1), WaitFence(bb, 1)];
    LastIndexUnique(tr, AnySignal, 0);
    forall f
      ensures LastIndex(tr, SignalOn(f)) == if f == bb then 0 else -1
    {
      LastIndexUnique(tr, SignalOn(f), if f == bb then 0 else -1);
    }
    forall b
      ensures LastIndex(tr, BarrierOn(b)) == -1
    {
      LastIndexUnique(tr, BarrierOn(b), -1);
    }
  }

  /** The state `createSyncObject` leaves, spelled out: the GPU has processed the signal and
      stops in front of the wait. */
  lemma CreateSyncShape(bb: nat)
    requires bb < FrameCount
    ensures CreateSync(bb) == Sync(bb, seq(FrameCount, _ => 0)[bb := 1], [SignalFence(bb, 1), WaitFence(bb, 1)], 1)
  {
    var t := [SignalFence(bb, 1)];
    LastIndexAppendOne([], SignalFence(bb, 1), SignalOn(bb));
    assert [] + t == t;
    assert t[..0] == [] && t[..1] == t;
    assert WakeAt(t, 0, bb, 1) == 1;
  }

  /** The evidently intended `createSyncObject`: as the sample's `waitForGpu` does, the stored
      value is incremented once the wait returns, so the next signal on the fence is a new value. */
  function CreateSyncCorrected(bb: nat): Sync
    requires bb < FrameCount
  {
    var st := CreateSync(bb);
    st.(fenceValues := st.fenceValues[bb := 2])
  }

  /** The corrected start is `Fresh`, and the current slot's work is finished. */
  lemma CreateSyncCorrectedFresh(bb: nat)
    requires bb < FrameCount
    ensures Fresh(CreateSyncCorrected(bb))
    ensures SlotDrained(CreateSyncCorrected(bb), bb)
  {
    CreateSyncEstablishes(bb);
    var st := CreateSync(bb);
    LastIndexAppendOne([], SignalFence(bb, 1), AnySignal);
    assert [] + [SignalFence(bb, 1)] == [SignalFence(bb, 1)];
    LastIndexAppendNone([SignalFence(bb, 1)], [WaitFence(bb, 1)], AnySignal);
    LastIndexAppendNone([SignalFence(bb, 1)], [WaitFence(bb, 1)], SignalOn(bb));
  }

  // ---------------------------------------------------------------------------
  // moveToNextFrame and waitForGpu

  /** Signalling the current slot's stored value makes every slot's stored value the last value
      signalled on its fence, and keeps the invariant's order facts. */
  lemma SignalCurrent(st: Sync)
    requires Inv(st)
    ensures var s := Signal(st, st.frameIndex, st.fenceValues[st.frameIndex]);
      && (forall f :: 0 <= f < FrameCount ==> LastOn(s.trace, f) == st.fenceValues[f])
      && LastValue(s.trace) == st.fenceValues[st.frameIndex]
      && Sorted(s.trace) && Positive(s.trace)
      && (forall b :: 0 <= b < FrameCount ==> BufferState(s.trace, b) == Present)
      && (Fresh(st) ==> StrictlySorted(s.trace))
  {
    var v := st.fenceValues[st.frameIndex];
    SignalAppend(st.trace, st.frameIndex, v);
    LastValueBounds(st.trace, st.frameIndex);
  }

  /** The same, for one fence: after the current slot's signal, fence `f` has been signalled up
      to the value stored for it. */
  lemma SignalCurrentOn(st: Sync, f: nat)
    requires Inv(st) && f < FrameCount
    ensures LastOn(Signal(st, st.frameIndex, st.fenceValues[st.frameIndex]).trace, f) == st.fenceValues[f]
  {
    SignalCurrent(st);
  }

  /** `moveToNextFrame`: signal the current slot's stored value v; take the swap chain's current
      back buffer `bb` as the new slot; block only if that slot's fence has not completed its stored
      value; store v + 1 for the new slot. */
  function MoveToNext(st: Sync, bb: nat): Sync
    requires Inv(st)
    requires bb < FrameCount
  {
    var target := st.fenceValues[bb];
    var moved := SignalAndSwitch(st, bb);
    SignalCurrent(st);
    if Completed(moved, bb) < target then WaitUntil(moved, bb, target) else moved
  }

  /** The part of `moveToNextFrame` before its wait: signal the current slot's stored value v,
      make `bb` current and store v + 1 for it. */
  function SignalAndSwitch(st: Sync, bb: nat): Sync
    requires Inv(st)
    requires bb < FrameCount
  {
    var v := st.fenceValues[st.frameIndex];
    Signal(st, st.frameIndex, v).(frameIndex := bb, fenceValues := st.fenceValues[bb := v + 1])
  }

  lemma SignalAndSwitchAhead(st: Sync, bb: nat)
    requires Inv(st)
    requires bb < FrameCount
    ensures Ahead(SignalAndSwitch(st, bb))
    ensures LastValue(SignalAndSwitch(st, bb).trace) == st.fenceValues[st.frameIndex]
    ensures Fresh(st) ==> Fresh(SignalAndSwitch(st, bb))
  {
    SignalCurrent(st);
  }

  /** The trace `moveToNextFrame` leaves: the old slot's signal, then a wait exactly when the new
      slot's fence had not completed its stored value; without a wait the GPU is not advanced.
      Afterwards the new slot's fence has completed the value stored for it. */
  lemma MoveToNextTrace(st: Sync, bb: nat)
    requires Inv(st)
    requires bb < FrameCount
    ensures var r := MoveToNext(st, bb);
      var signalled := st.trace + [SignalFence(st.frameIndex, st.fenceValues[st.frameIndex])];
      var mustWait := Completed(st, bb) < st.fenceValues[bb];
      && r.trace == signalled + (if mustWait then [WaitFence(bb, st.fenceValues[bb])] else [])
      && (!mustWait ==> r.processed == st.processed)
      && r.processed <= |signalled|
      && Completed(r, bb) >= st.fenceValues[bb]
  {
    var s := Signal(st, st.frameIndex, st.fenceValues[st.frameIndex]);
    assert s.trace[..st.processed] == st.trace[..st.processed];
  }

  /** Commands that neither signal nor touch a back buffer keep the invariant and every fence's
      history; the GPU's position is unchanged. */
  lemma AppendKeeps(st: Sync, es: seq<Event>)
    requires NoneMatch(es, AnySignal)
    requires forall b :: 0 <= b < FrameCount ==> NoneMatch(es, BarrierOn(b))
    ensures var r := Append(st, es);
      && (Inv(st) ==> Inv(r))
      && (Ahead(st) ==> Ahead(r))
      && (Fresh(st) ==> Fresh(r))
      && (forall f :: LastOn(r.trace, f) == LastOn(st.trace, f))
      && (forall f :: SlotDrained(st, f) ==> SlotDrained(r, f))
      && (st.processed <= |st.trace| ==> forall f :: Completed(r, f) == Completed(st, f))
  {
    var r := Append(st, es);
    QuietAppend(st.trace, es);
    forall b | 0 <= b < FrameCount
      ensures BufferState(r.trace, b) == BufferState(st.trace, b)
    {
      LastIndexAppendNone(st.trace, es, BarrierOn(b));
      var i := LastIndex(st.trace, BarrierOn(b));
      if i >= 0 {
        assert r.trace[i] == st.trace[i];
      }
    }
    forall f
      ensures LastIndex(r.trace, SignalOn(f)) == LastIndex(st.trace, SignalOn(f))
    {
      forall k | 0 <= k < |es|
        ensures !Matches(SignalOn(f), es[k])
      {
        assert !Matches(AnySignal, es[k]);
      }
      LastIndexAppendNone(st.trace, es, SignalOn(f));
    }
    if st.processed <= |st.trace| {
      assert r.trace[..st.processed] == st.trace[..st.processed];
    }
  }

  /** What `moveToNextFrame` does to the stored values: `bb` becomes current and stores v + 1,
      where v is the value just signalled, and no other slot's stored value changes. The invariant
      is kept, and the next signal will be one above the last: the state is `Ahead`. */
  lemma MoveToNextState(st: Sync, bb: nat)
    requires Inv(st)
    requires bb < FrameCount
    ensures var r := MoveToNext(st, bb);
      var v := st.fenceValues[st.frameIndex];
      && Inv(r) && Ahead(r)
      && r.frameIndex == bb
      && r.fenceValues[bb] == v + 1
      && (forall f :: 0 <= f < FrameCount && f != bb ==> r.fenceValues[f] == st.fenceValues[f])
      && LastValue(r.trace) == v
  {
    var n := SignalAndSwitch(st, bb);
    SignalCurrent(st);
    if Completed(n, bb) < st.fenceValues[bb] {
      SwitchThenWait(st, bb);
    } else {
      SignalAndSwitchAhead(st, bb);
    }
  }

  /** The waiting branch of `moveToNextFrame`: the wait keeps what the switch established. */
  lemma SwitchThenWait(st: Sync, bb: nat)
    requires Inv(st)
    requires bb < FrameCount
    requires LastOn(SignalAndSwitch(st, bb).trace, bb) >= st.fenceValues[bb]
    ensures var r := WaitUntil(SignalAndSwitch(st, bb), bb, st.fenceValues[bb]);
      var v := st.fenceValues[st.frameIndex];
      && Ahead(r) && (Fresh(st) ==> Fresh(r))
      && r.frameIndex == bb
      && r.fenceValues == st.fenceValues[bb := v + 1]
      && LastValue(r.trace) == v
      && LastOn(r.trace, bb) == LastOn(SignalAndSwitch(st, bb).trace, bb)
  {
    SignalAndSwitchAhead(st, bb);
    WaitKeeps(SignalAndSwitch(st, bb), bb, st.fenceValues[bb]);
  }

  /** The invariant alone, for callers that need nothing else. */
  lemma MoveToNextKeeps(st: Sync, bb: nat)
    requires Inv(st)
    requires bb < FrameCount
    ensures Inv(MoveToNext(st, bb))
  {
    MoveToNextState(st, bb);
  }

  /** A blocking wait adds one command that signals nothing: the stored values, every fence's
      history and the invariants are kept. */
  lemma WaitKeeps(st: Sync, f: nat, target: nat)
    requires st.processed <= |st.trace| && LastOn(st.trace, f) >= target
    ensures var r := WaitUntil(st, f, target);
      && r.frameIndex == st.frameIndex && r.fenceValues == st.fenceValues
      && r.trace == st.trace + [WaitFence(f, target)]
      && (Inv(st) ==> Inv(r))
      && (Ahead(st) ==> Ahead(r))
      && (Fresh(st) ==> Fresh(r))
      && (forall g :: LastOn(r.trace, g) == LastOn(st.trace, g))
      && LastValue(r.trace) == LastValue(st.trace)
  {
    var r := WaitUntil(st, f, target);
    var w := [WaitFence(f, target)];
    AppendKeeps(st, w);
    QuietAppend(st.trace, w);
    assert r == Append(st, w).(processed := r.processed);
  }

  /** A fresh state is settled: with no value signalled twice, every last signal is unique. */
  lemma FreshSettled(st: Sync)
    requires Fresh(st)
    ensures Settled(st)
  {
    forall f | 0 <= f < FrameCount && f != st.frameIndex
      ensures LastUnique(st.trace, f)
    {
      StrictlySortedUnique(st.trace, f);
    }
  }

  /** The trace `moveToNextFrame` leaves keeps each fence's last signal, and its uniqueness, from
      the trace after the signal: a wait signals nothing. */
  lemma MoveToNextUnique(st: Sync, bb: nat, f: nat)
    requires Inv(st)
    requires bb < FrameCount
    requires LastUnique(Signal(st, st.frameIndex, st.fenceValues[st.frameIndex]).trace, f)
    ensures LastUnique(MoveToNext(st, bb).trace, f)
    ensures LastOn(MoveToNext(st, bb).trace, f) == LastOn(Signal(st, st.frameIndex, st.fenceValues[st.frameIndex]).trace, f)
  {
    var signalled := Signal(st, st.frameIndex, st.fenceValues[st.frameIndex]).trace;
    MoveToNextTrace(st, bb);
    var es := MoveToNext(st, bb).trace[|signalled|..];
    assert MoveToNext(st, bb).trace == signalled + es;
    assert NoneMatch(es, AnySignal);
    QuietKeepsUnique(signalled, es, f);
    QuietAppend(signalled, es);
  }

  /** From a settled state, `moveToNextFrame` stays settled and returns only once every command
      submitted earlier on the new slot has finished on the GPU: its allocator can be reset. */
  lemma MoveToNextDrains(st: Sync, bb: nat)
    requires Settled(st)
    requires bb < FrameCount
    ensures Settled(MoveToNext(st, bb))
    ensures SlotDrained(MoveToNext(st, bb), bb)
  {
    var r := MoveToNext(st, bb);
    var fi := st.frameIndex;
    var v := st.fenceValues[fi];
    MoveToNextState(st, bb);
    MoveToNextTrace(st, bb);
    SignalCurrentOn(st, bb);
    forall f | 0 <= f < FrameCount
      ensures LastUnique(r.trace, f)
    {
      SignalUnique(st.trace, fi, v, f);
      MoveToNextUnique(st, bb, f);
    }
    ReachedUnique(r.trace, r.processed, bb);
  }

  /** As written, the renderer settles: from a state whose next signal is new, a move to the
      other slot leaves the slot it came from with a unique last signal. */
  lemma MoveToNextSettles(st: Sync, bb: nat)
    requires Ahead(st)
    requires bb < FrameCount && bb != st.frameIndex
    ensures Settled(MoveToNext(st, bb))
  {
    var fi := st.frameIndex;
    MoveToNextState(st, bb);
    SignalUnique(st.trace, fi, st.fenceValues[fi], fi);
    MoveToNextUnique(st, bb, fi);
  }

  /** When the swap chain moves to the other buffer, `moveToNextFrame` does not wait for the frame
      it has just submitted: that frame's signal is not waited for, so the GPU need not have
      reached it when the next frame's constant buffers are written; only the slot from two frames
      back has been waited on. */
  lemma MoveToNextLeavesFrameInFlight(st: Sync, bb: nat)
    requires Inv(st)
    requires bb < FrameCount && bb != st.frameIndex
    ensures !SlotDrained(MoveToNext(st, bb), st.frameIndex)
    ensures MoveToNext(st, bb).processed <= |st.trace|
  {
    var r := MoveToNext(st, bb);
    var n := SignalAndSwitch(st, bb);
    var target := st.fenceValues[bb];
    SignalCurrent(st);
    MoveToNextTrace(st, bb);
    LastIndexAppendOne(st.trace, SignalFence(st.frameIndex, st.fenceValues[st.frameIndex]), SignalOn(st.frameIndex));
    if r != n {
      assert n.trace[..|st.trace|] == st.trace;
      var m := WakeAt(n.trace, n.processed, bb, target);
      assert r.processed == m;
      assert LastOn(n.trace[..|st.trace|], bb) >= target;
      assert m <= |st.trace|;
      LastIndexAppendNone(n.trace, [WaitFence(bb, target)], SignalOn(st.frameIndex));
    }
  }

  /** The first-frame behaviour as written: `createSyncObject` leaves the fence of slot `bb0` at 1
      with 1 stored, so the first `moveToNextFrame` signals 1 again on a fence that has already
      completed 1. */
  lemma FirstMoveResignals(bb0: nat, bb: nat)
    requires bb0 < FrameCount && bb < FrameCount
    ensures Inv(CreateSync(bb0)) && Completed(CreateSync(bb0), bb0) == 1
    ensures var s1 := MoveToNext(CreateSync(bb0), bb);
      |s1.trace| > 2 && |s1.fenceValues| == FrameCount
    ensures var s1 := MoveToNext(CreateSync(bb0), bb);
      s1.trace[2] == SignalFence(bb0, 1) && s1.fenceValues[bb] == 2
  {
    CreateSyncEstablishes(bb0);
    MoveToNextTrace(CreateSync(bb0), bb);
    MoveToNextState(CreateSync(bb0), bb);
  }

  /** `waitForGpu`: signal the current slot's stored value v, block until the fence completes it,
      then store v + 1 for the same slot. */
  function WaitForGpu(st: Sync): Sync
    requires Inv(st)
  {
    var v := st.fenceValues[st.frameIndex];
    SignalCurrent(st);
    WaitUntil(SignalAndSwitch(st, st.frameIndex), st.frameIndex, v)
  }

  /** `waitForGpu` stores the bumped value only after the wait: the same state as signalling and
      waiting with the old values, then storing v + 1. */
  lemma WaitForGpuBumpsLast(st: Sync)
    requires Inv(st)
    ensures LastOn(Signal(st, st.frameIndex, st.fenceValues[st.frameIndex]).trace, st.frameIndex) >= st.fenceValues[st.frameIndex]
    ensures var v := st.fenceValues[st.frameIndex];
      WaitForGpu(st) == WaitUntil(Signal(st, st.frameIndex, v), st.frameIndex, v).(fenceValues := st.fenceValues[st.frameIndex := v + 1])
  {
    SignalCurrent(st);
  }

  /** `waitForGpu` keeps the slot, signals and waits for the slot's stored value v, stores v + 1
      there and leaves the other slots' stored values alone; the invariant is kept, `Fresh` too,
      and the state is `Ahead` afterwards. */
  lemma WaitForGpuState(st: Sync)
    requires Inv(st)
    ensures var r := WaitForGpu(st);
      var v := st.fenceValues[st.frameIndex];
      && Inv(r) && Ahead(r)
      && (Fresh(st) ==> Fresh(r))
      && r.frameIndex == st.frameIndex
      && r.fenceValues[st.frameIndex] == v + 1
      && (forall f :: 0 <= f < FrameCount && f != st.frameIndex ==> r.fenceValues[f] == st.fenceValues[f])
      && r.trace == st.trace + [SignalFence(st.frameIndex, v), WaitFence(st.frameIndex, v)]
      && Completed(r, st.frameIndex) >= v
  {
    var v := st.fenceValues[st.frameIndex];
    SignalAndSwitchAhead(st, st.frameIndex);
    SignalCurrent(st);
    WaitKeeps(SignalAndSwitch(st, st.frameIndex), st.frameIndex, v);
  }

  /** When the stored value is ahead of every signal (after any `moveToNextFrame` or `waitForGpu`),
      `waitForGpu` returns only once the GPU has reached every signal issued: it is idle, as the
      renderer's `onDestroy` relies on. */
  lemma WaitForGpuDrains(st: Sync)
    requires Ahead(st)
    ensures Idle(WaitForGpu(st))
  {
    var r := WaitForGpu(st);
    var v := st.fenceValues[st.frameIndex];
    var s := Signal(st, st.frameIndex, v);
    WaitForGpuState(st);
    LastValueBounds(st.trace, st.frameIndex);
    var m := r.processed;
    assert m == WakeAt(s.trace, s.processed, st.frameIndex, v);
    var i := LastIndex(s.trace[..m], SignalOn(st.frameIndex));
    assert i >= 0;
    assert s.trace[..m][i] == s.trace[i];
    assert i >= |st.trace|;
    LastIndexAppendOne(st.trace, SignalFence(st.frameIndex, v), AnySignal);
    LastIndexAppendNone(s.trace, [WaitFence(st.frameIndex, v)], AnySignal);
  }

  // ---------------------------------------------------------------------------
  // The frame: begin, record, end, execute, Present, moveToNextFrame

  /** `begin` (with `resetCommandList`): reset the current slot's allocator, reset the list on it,
      and transition that slot's back buffer from PRESENT to RENDER_TARGET. */
  function BeginCommands(fi: nat): seq<Event> {
    [ResetAllocator(fi), ResetList(fi), Barrier(fi, Present, RenderTarget)]
  }

  /** `record`: the root signature always; with a camera, clear the slot's render target (RTV
      descriptor `fi`) and the depth buffer (DSV descriptor 0), bind the constant-buffer table
      (CBV descriptor 0) and draw `indexCount` indices. */
  function RecordCommands(fi: nat, hasCamera: bool, indexCount: nat): seq<Event> {
    [SetRootSignature] + if hasCamera then [ClearTargets(fi, 0), BindConstants(0), DrawIndexed(indexCount)] else []
  }

  /** `end`: transition the slot's back buffer back to PRESENT, then close the list. */
  function EndCommands(fi: nat): seq<Event> {
    [Barrier(fi, RenderTarget, Present), CloseList]
  }

  /** Everything `onRender` gives the driver before `moveToNextFrame`: the recorded list, its
      execution, and `Present(1, 0)`. */
  function FrameCommands(fi: nat, hasCamera: bool, indexCount: nat): seq<Event> {
    BeginCommands(fi) + RecordCommands(fi, hasCamera, indexCount) + EndCommands(fi) + [ExecuteList, PresentFrame(1, 0)]
  }

  function Submit(st: Sync, hasCamera: bool, indexCount: nat): Sync {
    Append(st, FrameCommands(st.frameIndex, hasCamera, indexCount))
  }

  /** The state a back buffer is in after more commands: the last barrier on it among them, if
      any, decides. */
  lemma BufferStateAppend(t: seq<Event>, es: seq<Event>, b: nat)
    ensures LastIndex(es, BarrierOn(b)) >= 0 ==> BufferState(t + es, b) == es[LastIndex(es, BarrierOn(b))].after
    ensures LastIndex(es, BarrierOn(b)) < 0 ==> BufferState(t + es, b) == BufferState(t, b)
  {
    LastIndexAppend(t, es, BarrierOn(b));
    var k := LastIndex(es, BarrierOn(b));
    if k >= 0 {
      assert (t + es)[|t| + k] == es[k];
    } else {
      var i := LastIndex(t, BarrierOn(b));
      if i >= 0 {
        assert (t + es)[i] == t[i];
      }
    }
  }

  /** Each barrier of a frame starts from the state the back buffer is in: PRESENT at `begin`,
      RENDER_TARGET at `end`; only the current slot's buffer is touched, and it ends the frame back
      in PRESENT. */
  lemma FrameBarriersMatch(st: Sync, hasCamera: bool, indexCount: nat)
    requires Inv(st)
    ensures var fi := st.frameIndex;
      var begun := st.trace + BeginCommands(fi);
      var recorded := begun + RecordCommands(fi, hasCamera, indexCount);
      && BufferState(st.trace, fi) == Present
      && BufferState(begun, fi) == RenderTarget
      && BufferState(recorded, fi) == RenderTarget
      && forall b :: 0 <= b < FrameCount ==> BufferState(Submit(st, hasCamera, indexCount).trace, b) == Present
  {
    var fi := st.frameIndex;
    var begin := BeginCommands(fi);
    var rec := RecordCommands(fi, hasCamera, indexCount);
    var tail := EndCommands(fi) + [ExecuteList, PresentFrame(1, 0)];
    var begun := st.trace + begin;
    var recorded := begun + rec;
    LastIndexUnique(begin, BarrierOn(fi), 2);
    BufferStateAppend(st.trace, begin, fi);
    LastIndexUnique(rec, BarrierOn(fi), -1);
    BufferStateAppend(begun, rec, fi);
    assert Submit(st, hasCamera, indexCount).trace == recorded + tail;
    forall b | 0 <= b < FrameCount
      ensures BufferState(recorded + tail, b) == Present
    {
      if b == fi {
        LastIndexUnique(tail, BarrierOn(b), 0);
        BufferStateAppend(recorded, tail, b);
      } else {
        LastIndexUnique(begin, BarrierOn(b), -1);
        LastIndexUnique(rec, BarrierOn(b), -1);
        LastIndexUnique(tail, BarrierOn(b), -1);
        BufferStateAppend(st.trace, begin, b);
        BufferStateAppend(begun, rec, b);
        BufferStateAppend(recorded, tail, b);
      }
    }
  }

  /** The invariant alone, for callers that need nothing else. */
  lemma SubmitKeepsInv(st: Sync, hasCamera: bool, indexCount: nat)
    requires Inv(st)
    ensures Inv(Submit(st, hasCamera, indexCount))
  {
    SubmitKeeps(st, hasCamera, indexCount);
  }

  /** A frame's commands signal nothing, so submitting them changes no fence, no stored value and
      no GPU position, and keeps the invariant, `Ahead`, `Fresh` and every drained slot. */
  lemma SubmitKeeps(st: Sync, hasCamera: bool, indexCount: nat)
    requires Inv(st)
    ensures var r := Submit(st, hasCamera, indexCount);
      && Inv(r)
      && r.frameIndex == st.frameIndex && r.fenceValues == st.fenceValues && r.processed == st.processed
      && (Ahead(st) ==> Ahead(r))
      && (Fresh(st) ==> Fresh(r))
      && (Settled(st) ==> Settled(r))
      && (forall f :: LastOn(r.trace, f) == LastOn(st.trace, f))
      && (forall f :: Completed(r, f) == Completed(st, f))
      && (forall f :: SlotDrained(st, f) ==> SlotDrained(r, f))
  {
    var r := Submit(st, hasCamera, indexCount);
    var es := FrameCommands(st.frameIndex, hasCamera, indexCount);
    assert NoneMatch(es, AnySignal);
    QuietAppend(st.trace, es);
    FrameBarriersMatch(st, hasCamera, indexCount);
    forall f
      ensures LastIndex(r.trace, SignalOn(f)) == LastIndex(st.trace, SignalOn(f))
    {
      assert NoneMatch(es, SignalOn(f));
      LastIndexAppendNone(st.trace, es, SignalOn(f));
    }
    assert r.trace[..st.processed] == st.trace[..st.processed];
    forall f | LastUnique(st.trace, f)
      ensures LastUnique(r.trace, f)
    {
      QuietKeepsUnique(st.trace, es, f);
    }
  }

  /** `onRender` given how the check of `Present`'s result turned out: on success the frame moves
      on; on an exception the catch handler decides. */
  function RenderFrameWith(st: Sync, hasCamera: bool, indexCount: nat, presented: Outcome, bb: nat): (Sync, Outcome)
    requires Inv(st)
    requires bb < FrameCount
  {
    var s := Submit(st, hasCamera, indexCount);
    SubmitKeeps(st, hasCamera, indexCount);
    match presented
    case Pass => (MoveToNext(s, bb), Pass)
    case Fail(e) => CatchRenderException(s, e, bb)
  }

  /** The `catch (HrException& e)` of `onRender`: device removal or reset still moves to the next
      frame; any other exception leaves the handler (rethrown, or never caught) with the frame
      not advanced. */
  function CatchRenderException(s: Sync, e: Exception, bb: nat): (Sync, Outcome)
    requires Inv(s)
    requires bb < FrameCount
  {
    if e.HrException? && (e.error == DXGI_ERROR_DEVICE_REMOVED || e.error == DXGI_ERROR_DEVICE_RESET) then
      (MoveToNext(s, bb), Pass)
    else
      (s, Fail(e))
  }

  /** `onRender` as written: `Present`'s result goes through `ThrowIfFailed`. */
  function RenderFrame(st: Sync, hasCamera: bool, indexCount: nat, presentHr: HResult, bb: nat): (Sync, Outcome)
    requires Inv(st)
    requires bb < FrameCount
  {
    RenderFrameWith(st, hasCamera, indexCount, ThrowIfFailed(presentHr), bb)
  }

  /** `onRender` with the evidently intended check, one that throws `HrException`. */
  function RenderFrameCorrected(st: Sync, hasCamera: bool, indexCount: nat, presentHr: HResult, bb: nat): (Sync, Outcome)
    requires Inv(st)
    requires bb < FrameCount
  {
    RenderFrameWith(st, hasCamera, indexCount, ThrowIfFailedHr(presentHr), bb)
  }

  /** `onRender` as written: it completes exactly when `Present` succeeds, and then it has moved to
      the next frame; when `Present` fails it throws `std::exception` after the frame's commands
      went out, with no slot, stored value or signal changed. The invariant holds either way. */
  lemma RenderFrameOutcome(st: Sync, hasCamera: bool, indexCount: nat, presentHr: HResult, bb: nat)
    requires Inv(st)
    requires bb < FrameCount
    ensures Inv(Submit(st, hasCamera, indexCount))
    ensures var (r, o) := RenderFrame(st, hasCamera, indexCount, presentHr, bb);
      && Inv(r)
      && (o.Pass? <==> !Failed(presentHr))
      && (o.Pass? ==> r == MoveToNext(Submit(st, hasCamera, indexCount), bb))
      && (o.Fail? ==> o.exception == StdException && r == Submit(st, hasCamera, indexCount))
  {
    var x := Submit(st, hasCamera, indexCount);
    SubmitKeeps(st, hasCamera, indexCount);
    if Failed(presentHr) {
      assert RenderFrame(st, hasCamera, indexCount, presentHr, bb) == CatchRenderException(x, StdException, bb);
    } else {
      assert RenderFrame(st, hasCamera, indexCount, presentHr, bb) == (MoveToNext(x, bb), Pass);
      MoveToNextState(x, bb);
    }
  }

  /** The order of one successful frame: the slot's allocator and list are reset, the back buffer
      is made a render target, the frame is recorded, the buffer is returned to PRESENT, the list
      is closed and executed, `Present(1, 0)` is called, and then the slot's fence is signalled with
      its stored value. Only a wait for the next slot can follow. */
  lemma RenderFrameOrder(st: Sync, hasCamera: bool, indexCount: nat, presentHr: HResult, bb: nat)
    requires Inv(st)
    requires bb < FrameCount
    requires !Failed(presentHr)
    ensures var r := RenderFrame(st, hasCamera, indexCount, presentHr, bb).0;
      var fi := st.frameIndex;
      var prefix := st.trace + FrameCommands(fi, hasCamera, indexCount) + [SignalFence(fi, st.fenceValues[fi])];
      && prefix <= r.trace
      && (forall k :: |prefix| <= k < |r.trace| ==> r.trace[k].WaitFence?)
  {
    RenderFrameOutcome(st, hasCamera, indexCount, presentHr, bb);
    SubmitKeeps(st, hasCamera, indexCount);
    MoveToNextTrace(Submit(st, hasCamera, indexCount), bb);
  }

  /** The device-removed handler is dead code as written: a `Present` that reports device removal
      or reset makes `ThrowIfFailed` throw `std::exception`, which `catch (HrException&)` does not
      catch, so `onRender` throws and the frame is not advanced. */
  lemma DeviceRemovedEscapes(st: Sync, hasCamera: bool, indexCount: nat, presentHr: HResult, bb: nat)
    requires Inv(st)
    requires bb < FrameCount
    requires presentHr == DXGI_ERROR_DEVICE_REMOVED || presentHr == DXGI_ERROR_DEVICE_RESET
    ensures var (r, o) := RenderFrame(st, hasCamera, indexCount, presentHr, bb);
      && o == Fail(StdException)
      && r.frameIndex == st.frameIndex
      && r.fenceValues == st.fenceValues
      && LastValue(r.trace) == LastValue(st.trace)
  {
    RenderFrameOutcome(st, hasCamera, indexCount, presentHr, bb);
    SubmitKeeps(st, hasCamera, indexCount);
    QuietAppend(st.trace, FrameCommands(st.frameIndex, hasCamera, indexCount));
  }

  /** With the exception carrying its HRESULT, the handler does what it was written for: device
      removal or reset still moves to the next frame and `onRender` completes; any other failure
      is rethrown as the `HrException` of that HRESULT with the frame not advanced. */
  lemma CorrectedDeviceRemovedMovesOn(st: Sync, hasCamera: bool, indexCount: nat, presentHr: HResult, bb: nat)
    requires Inv(st)
    requires bb < FrameCount
    ensures Inv(Submit(st, hasCamera, indexCount))
    ensures var (r, o) := RenderFrameCorrected(st, hasCamera, indexCount, presentHr, bb);
      && Inv(r)
      && (presentHr == DXGI_ERROR_DEVICE_REMOVED || presentHr == DXGI_ERROR_DEVICE_RESET ==>
            o == Pass && r == MoveToNext(Submit(st, hasCamera, indexCount), bb) && r.frameIndex == bb)
      && (o.Fail? <==> Failed(presentHr) && presentHr != DXGI_ERROR_DEVICE_REMOVED && presentHr != DXGI_ERROR_DEVICE_RESET)
      && (o.Fail? ==> o.exception.HrException? && o.exception.error == presentHr && r == Submit(st, hasCamera, indexCount))
  {
    var x := Submit(st, hasCamera, indexCount);
    SubmitKeeps(st, hasCamera, indexCount);
    var thrown := ThrowIfFailedHr(presentHr);
    assert RenderFrameCorrected(st, hasCamera, indexCount, presentHr, bb) == RenderFrameWith(st, hasCamera, indexCount, thrown, bb);
    if thrown.Fail? {
      assert RenderFrameWith(st, hasCamera, indexCount, thrown, bb) == CatchRenderException(x, thrown.exception, bb);
    } else {
      assert RenderFrameWith(st, hasCamera, indexCount, thrown, bb) == (MoveToNext(x, bb), Pass);
    }
    MoveToNextState(x, bb);
  }

  /** Whichever way the frame ends, a settled state stays settled, and a frame that moves on
      returns only when the slot it moved to has no work left on the GPU. */
  lemma RenderFrameSettled(st: Sync, hasCamera: bool, indexCount: nat, presented: Outcome, bb: nat)
    requires Settled(st)
    requires bb < FrameCount
    ensures var (r, o) := RenderFrameWith(st, hasCamera, indexCount, presented, bb);
      && Settled(r)
      && (o.Pass? ==> SlotDrained(r, bb))
  {
    SubmitKeeps(st, hasCamera, indexCount);
    MoveToNextDrains(Submit(st, hasCamera, indexCount), bb);
  }

  /** Two completed frames that move to different slots leave the renderer settled, whatever
      state they start from. */
  lemma AlternatingFramesSettle(st: Sync, hasCamera: bool, indexCount: nat, hr1: HResult, hr2: HResult, bb1: nat, bb2: nat)
    requires Inv(st)
    requires bb1 < FrameCount && bb2 < FrameCount && bb2 != bb1
    requires !Failed(hr1) && !Failed(hr2)
    ensures var s1 := RenderFrame(st, hasCamera, indexCount, hr1, bb1).0;
      && Inv(s1)
      && Settled(RenderFrame(s1, hasCamera, indexCount, hr2, bb2).0)
  {
    RenderFrameOutcome(st, hasCamera, indexCount, hr1, bb1);
    SubmitKeeps(st, hasCamera, indexCount);
    MoveToNextState(Submit(st, hasCamera, indexCount), bb1);
    var s1 := RenderFrame(st, hasCamera, indexCount, hr1, bb1).0;
    RenderFrameOutcome(s1, hasCamera, indexCount, hr2, bb2);
    SubmitKeeps(s1, hasCamera, indexCount);
    MoveToNextSettles(Submit(s1, hasCamera, indexCount), bb2);
  }

  /** When the swap chain alternates, a completed frame has not waited for itself: its own signal
      is not waited for, so the GPU need not have reached it when `onRender` returns, and the next
      frame's constant-buffer writes follow straight after. */
  lemma RenderFrameLeavesFrameInFlight(st: Sync, hasCamera: bool, indexCount: nat, presentHr: HResult, bb: nat)
    requires Inv(st)
    requires bb < FrameCount && bb != st.frameIndex
    requires !Failed(presentHr)
    ensures !SlotDrained(RenderFrame(st, hasCamera, indexCount, presentHr, bb).0, st.frameIndex)
  {
    RenderFrameOutcome(st, hasCamera, indexCount, presentHr, bb);
    SubmitKeeps(st, hasCamera, indexCount);
    MoveToNextLeavesFrameInFlight(Submit(st, hasCamera, indexCount), bb);
  }

  /** A completed frame signals its slot's stored value and leaves the new slot storing the next
      value up. */
  lemma RenderFrameSignals(st: Sync, hasCamera: bool, indexCount: nat, presentHr: HResult, bb: nat)
    requires Inv(st)
    requires bb < FrameCount
    requires !Failed(presentHr)
    ensures var r := RenderFrame(st, hasCamera, indexCount, presentHr, bb).0;
      && Inv(r)
      && LastValue(r.trace) == st.fenceValues[st.frameIndex]
      && r.fenceValues[r.frameIndex] == LastValue(r.trace) + 1
  {
    RenderFrameOutcome(st, hasCamera, indexCount, presentHr, bb);
    var x := Submit(st, hasCamera, indexCount);
    SubmitKeeps(st, hasCamera, indexCount);
    MoveToNextState(x, bb);
  }

  /** Successive completed frames signal consecutive values: each one above the last. */
  lemma SuccessiveFramesSignalConsecutive(st: Sync, hasCamera: bool, indexCount: nat, hr1: HResult, hr2: HResult, bb1: nat, bb2: nat)
    requires Inv(st)
    requires bb1 < FrameCount && bb2 < FrameCount
    requires !Failed(hr1) && !Failed(hr2)
    ensures var s1 := RenderFrame(st, hasCamera, indexCount, hr1, bb1).0;
      && Inv(s1)
      && LastValue(RenderFrame(s1, hasCamera, indexCount, hr2, bb2).0.trace) == LastValue(s1.trace) + 1
  {
    RenderFrameSignals(st, hasCamera, indexCount, hr1, bb1);
    var s1 := RenderFrame(st, hasCamera, indexCount, hr1, bb1).0;
    RenderFrameSignals(s1, hasCamera, indexCount, hr2, bb2);
  }

  /** A completed frame whose next slot's fence has already reached the value stored for it does
      not wait: the GPU is not advanced and no fence's completed value changes. */
  lemma RenderFrameWithoutWait(st: Sync, hasCamera: bool, indexCount: nat, presentHr: HResult, bb: nat)
    requires Inv(st)
    requires bb < FrameCount
    requires !Failed(presentHr)
    requires Completed(st, bb) >= st.fenceValues[bb]
    ensures var r := RenderFrame(st, hasCamera, indexCount, presentHr, bb).0;
      var fi := st.frameIndex;
      && Inv(r)
      && r.trace == st.trace + FrameCommands(fi, hasCamera, indexCount) + [SignalFence(fi, st.fenceValues[fi])]
      && r.processed == st.processed
      && r.frameIndex == bb
      && (forall f :: 0 <= f < FrameCount && f != bb ==> r.fenceValues[f] == st.fenceValues[f])
      && (forall f :: Completed(r, f) == Completed(st, f))
  {
    RenderFrameOutcome(st, hasCamera, indexCount, presentHr, bb);
    var x := Submit(st, hasCamera, indexCount);
    var r := RenderFrame(st, hasCamera, indexCount, presentHr, bb).0;
    SubmitKeeps(st, hasCamera, indexCount);
    MoveToNextTrace(x, bb);
    MoveToNextState(x, bb);
    assert r.trace[..r.processed] == x.trace[..x.processed];
  }

  /** The first-frame race as written. Starting from `createSyncObject` on slot 0, frame 0 is
      submitted and `moveToNextFrame` signals 1 on fence 0 again and moves to slot 1 without
      waiting; frame 1 is submitted and `moveToNextFrame` moves back to slot 0. Fence 0 has already
      completed the stored 1 (from `createSyncObject`), so it does not wait either: frame 0's signal
      is not waited for, the GPU need not have reached it, yet the next `begin` resets slot 0's
      allocator. */
  lemma FirstFramesRace(hasCamera: bool, indexCount: nat, hr1: HResult, hr2: HResult)
    requires !Failed(hr1) && !Failed(hr2)
    ensures Inv(CreateSync(0))
    ensures Inv(RenderFrame(CreateSync(0), hasCamera, indexCount, hr1, 1).0)
    ensures var s1 := RenderFrame(CreateSync(0), hasCamera, indexCount, hr1, 1).0;
      var s2 := RenderFrame(s1, hasCamera, indexCount, hr2, 0).0;
      && s2.frameIndex == 0
      && s2.processed == 1
      && !SlotDrained(s2, 0)
  {
    FirstFrame(hasCamera, indexCount, hr1);
    var s1 := RenderFrame(CreateSync(0), hasCamera, indexCount, hr1, 1).0;
    RenderFrameWithoutWait(s1, hasCamera, indexCount, hr2, 0);
    var s2 := RenderFrame(s1, hasCamera, indexCount, hr2, 0).0;
    var k := |s1.trace| - 1;
    assert s2.trace[k] == s1.trace[k];
    assert Matches(SignalOn(0), s2.trace[k]);
  }

  /** Frame 0 after `createSyncObject` on slot 0: it ends on slot 1 with its own signal, of 1 on
      fence 0, last in the trace and not waited for, so the GPU need not have reached it, while
      fence 0 counts as having completed 1. */
  lemma FirstFrame(hasCamera: bool, indexCount: nat, hr1: HResult)
    requires !Failed(hr1)
    ensures Inv(CreateSync(0))
    ensures var s1 := RenderFrame(CreateSync(0), hasCamera, indexCount, hr1, 1).0;
      && Inv(s1)
      && s1.frameIndex == 1
      && s1.processed == 1
      && s1.fenceValues[0] == 1
      && Completed(s1, 0) == 1
      && |s1.trace| > 1
      && s1.trace[|s1.trace| - 1] == SignalFence(0, 1)
  {
    var s0 := CreateSync(0);
    CreateSyncEstablishes(0);
    RenderFrameWithoutWait(s0, hasCamera, indexCount, hr1, 1);
  }

  /** After the first two frames the program as written settles: from `createSyncObject` on slot 0,
      frames that move to slot 1 and then back to slot 0 leave a settled state, so the third frame,
      and by `RenderFrameSettled` every later one, returns only once its new slot has drained. */
  lemma AsWrittenSettlesAfterTwoFrames(hasCamera: bool, indexCount: nat, hr1: HResult, hr2: HResult, presented: Outcome, bb: nat)
    requires !Failed(hr1) && !Failed(hr2)
    requires bb < FrameCount
    ensures Inv(CreateSync(0))
    ensures var s1 := RenderFrame(CreateSync(0), hasCamera, indexCount, hr1, 1).0;
      && Inv(s1)
      && Settled(RenderFrame(s1, hasCamera, indexCount, hr2, 0).0)
    ensures var s1 := RenderFrame(CreateSync(0), hasCamera, indexCount, hr1, 1).0;
      var s2 := RenderFrame(s1, hasCamera, indexCount, hr2, 0).0;
      var (s3, o) := RenderFrameWith(s2, hasCamera, indexCount, presented, bb);
      && Settled(s3)
      && (o.Pass? ==> SlotDrained(s3, bb))
  {
    CreateSyncEstablishes(0);
    AlternatingFramesSettle(CreateSync(0), hasCamera, indexCount, hr1, hr2, 1, 0);
    var s1 := RenderFrame(CreateSync(0), hasCamera, indexCount, hr1, 1).0;
    var s2 := RenderFrame(s1, hasCamera, indexCount, hr2, 0).0;
    RenderFrameSettled(s2, hasCamera, indexCount, presented, bb);
  }

  /** The same two frames from the corrected `createSyncObject`: the move back to slot 0 waits
      until frame 0 has finished, so slot 0 has no work left on the GPU when its allocator is
      reset. */
  lemma FirstFramesCorrected(hasCamera: bool, indexCount: nat, hr1: HResult, hr2: HResult)
    requires !Failed(hr2)
    ensures Settled(CreateSyncCorrected(0))
    ensures Settled(RenderFrame(CreateSyncCorrected(0), hasCamera, indexCount, hr1, 1).0)
    ensures var s1 := RenderFrame(CreateSyncCorrected(0), hasCamera, indexCount, hr1, 1).0;
      var s2 := RenderFrame(s1, hasCamera, indexCount, hr2, 0).0;
      && s2.frameIndex == 0
      && SlotDrained(s2, 0)
  {
    var s0 := CreateSyncCorrected(0);
    CreateSyncCorrectedFresh(0);
    FreshSettled(s0);
    RenderFrameSettled(s0, hasCamera, indexCount, ThrowIfFailed(hr1), 1);
    var s1 := RenderFrame(s0, hasCamera, indexCount, hr1, 1).0;
    RenderFrameSettled(s1, hasCamera, indexCount, ThrowIfFailed(hr2), 0);
    RenderFrameOutcome(s1, hasCamera, indexCount, hr2, 0);
    MoveToNextState(Submit(s1, hasCamera, indexCount), 0);
  }
}
