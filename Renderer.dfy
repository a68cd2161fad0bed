/** The per-frame render loop of cobalt's Renderer (Renderer.cpp).

    Every Vulkan call the loop makes -- the fence wait and reset, the
    swapchain acquire, the queue submit and present -- and every call of a
    user callback becomes one event appended to a ghost trace. Frame-slot
    objects (command buffer, in-flight fence, acquire semaphore) are named
    by their slot index, per-image submit semaphores by their image index. */
module Renderer {
  import opened Wrappers

  /** UINT32_MAX: the image index acquire_next_image hands back when the
      swapchain could not give an image. */
  const Uint32Max: int := 0xFFFF_FFFF

  /** The numeric value of VK_ERROR_OUT_OF_DATE_KHR. */
  const ErrorOutOfDateKhr: int := -1000001004

  type Uint32 = x: int | 0 <= x <= Uint32Max

  /** A VkResult code, as returned by the present call. */
  type VkResult = int

  /** The identity of a user-supplied std::function. */
  type CallbackId = nat

  /** The two families of semaphores render_sync_ holds. */
  datatype Semaphore =
    | AcquireSemaphore(slot: nat)     // one per frame in flight
    | SubmitSemaphore(image: nat)     // one per swapchain image

  /** The per-slot triple handed out by render_sync_.frame_sync(slot). */
  datatype FrameSync = FrameSync(cmdBuffer: nat, fence: nat, acquireSemaphore: Semaphore)

  /** render_sync_: `frameSlots` frame syncs and `imageSlots` image syncs. */
  datatype RenderSync = RenderSync(frameSlots: nat, imageSlots: nat)
  {
    function FrameSyncOf(slot: nat): (fs: FrameSync)
      requires slot < frameSlots
    {
      FrameSync(slot, slot, AcquireSemaphore(slot))
    }

    function ImageSync(image: nat): (s: Semaphore)
      requires image < imageSlots
    {
      SubmitSemaphore(image)
    }
  }

  /** What happens, in order, during render(). */
  datatype Event =
    | WaitFence(fence: nat)
    | AcquireImage(signal: Semaphore, acquired: Uint32)
    | ResetFence(fence: nat)
    | UpdateUniforms(updateFn: CallbackId, frame: nat)
    | RecordCommands(recordFn: CallbackId, cmdBuffer: nat, image: nat, frame: nat)
    | Submit(wait: Semaphore, cmdBuffer: nat, signal: Semaphore, fence: nat)
    | Present(wait: Semaphore, image: nat)

  predicate IsCallback(e: Event)
  {
    e.UpdateUniforms? || e.RecordCommands?
  }

  // ---------------------------------------------------------------------
  // Specification of one call of render()
  // ---------------------------------------------------------------------

  /** The events one render() emits from frame slot `frame` when the
      swapchain hands back `acquired`, with the callbacks currently set. */
  function RenderEvents(frame: nat, acquired: Uint32,
                        updateFn: Option<CallbackId>, recordFn: Option<CallbackId>): (r: seq<Event>)
    // every call first waits on the slot's fence and then acquires with the
    // slot's acquire semaphore
    ensures 2 <= |r| <= 7
    ensures r[0] == WaitFence(frame) && r[1] == AcquireImage(AcquireSemaphore(frame), acquired)
    // the call stops right after the acquire exactly on the sentinel
    ensures |r| == 2 <==> acquired == Uint32Max
    // otherwise it ends by submitting and then presenting the acquired image
    ensures acquired != Uint32Max ==>
              r[|r| - 2].Submit? && r[|r| - 1] == Present(SubmitSemaphore(acquired), acquired)
  {
    var head := [WaitFence(frame), AcquireImage(AcquireSemaphore(frame), acquired)];
    if acquired == Uint32Max then head
    else
      head + [ResetFence(frame)]
      + (if updateFn.Some? then [UpdateUniforms(updateFn.value, frame)] else [])
      + (if recordFn.Some? then [RecordCommands(recordFn.value, frame, acquired, frame)] else [])
      + [Submit(AcquireSemaphore(frame), frame, SubmitSemaphore(acquired), frame),
         Present(SubmitSemaphore(acquired), acquired)]
  }

  /** current_frame_ after one render(). */
  function NextFrame(frame: nat, acquired: Uint32, maxFrames: nat): (next: nat)
    requires maxFrames > 0
    ensures acquired == Uint32Max ==> next == frame
    ensures acquired != Uint32Max ==> next < maxFrames
  {
    if acquired == Uint32Max then frame else (frame + 1) % maxFrames
  }

  /** Which slot or image each event of a call from slot `frame` that
      acquired `acquired` must name: frame-slot objects by the slot, submit
      semaphores and the presented image by the image index. */
  predicate UsesSlotAndImage(e: Event, frame: nat, acquired: Uint32)
  {
    match e
    case WaitFence(f) => f == frame
    case AcquireImage(s, a) => s == AcquireSemaphore(frame) && a == acquired
    case ResetFence(f) => f == frame
    case UpdateUniforms(_, f) => f == frame
    case RecordCommands(_, cb, img, f) => cb == frame && f == frame && img == acquired
    case Submit(w, cb, s, f) =>
      w == AcquireSemaphore(frame) && cb == frame && f == frame && s == SubmitSemaphore(acquired)
    case Present(w, img) => w == SubmitSemaphore(acquired) && img == acquired
  }

  // ---------------------------------------------------------------------
  // The synchronisation protocol, stated on any trace
  // ---------------------------------------------------------------------

  /** Between positions j and k (exclusive) only callbacks ran. */
  ghost predicate OnlyCallbacks(t: seq<Event>, j: int, k: int)
    requires 0 <= j <= k <= |t|
  {
    forall i :: j < i < k ==> IsCallback(t[i])
  }

  /** Between positions j and k (exclusive) only update callbacks ran. */
  ghost predicate OnlyUpdates(t: seq<Event>, j: int, k: int)
    requires 0 <= j <= k <= |t|
  {
    forall i :: j < i < k ==> t[i].UpdateUniforms?
  }

  /** Position j holds the fence reset of slot `slot`, right after a
      successful acquire of image `image`. */
  ghost predicate ResetAfterAcquireOf(t: seq<Event>, j: int, slot: nat, image: int)
    requires 0 <= j < |t|
  {
    1 <= j && t[j] == ResetFence(slot) && t[j - 1].AcquireImage? && t[j - 1].acquired == image
  }

  /** The ordering rules the event at position k obeys. */
  ghost predicate WellOrderedAt(t: seq<Event>, k: int)
    requires 0 <= k < |t|
  {
    match t[k]
    case WaitFence(_) => true
    case AcquireImage(s, _) =>
      // the acquire uses the slot's acquire semaphore, after waiting on its fence
      1 <= k && s.AcquireSemaphore? && t[k - 1] == WaitFence(s.slot)
    case ResetFence(f) =>
      // the fence is reset only right after a successful acquire for its slot
      1 <= k && t[k - 1].AcquireImage? && t[k - 1].signal == AcquireSemaphore(f)
      && t[k - 1].acquired != Uint32Max
    case UpdateUniforms(_, f) =>
      exists j :: 0 <= j < k && t[j] == ResetFence(f) && OnlyUpdates(t, j, k)
    case RecordCommands(_, cb, img, f) =>
      cb == f && exists j :: 0 <= j < k && ResetAfterAcquireOf(t, j, f, img) && OnlyCallbacks(t, j, k)
    case Submit(w, cb, s, f) =>
      // wait on the slot's acquire semaphore, run the slot's command buffer,
      // signal the acquired image's semaphore and attach the slot's fence,
      // which was reset in this frame
      w == AcquireSemaphore(f) && cb == f && s.SubmitSemaphore?
      && exists j :: 0 <= j < k && ResetAfterAcquireOf(t, j, f, s.image) && OnlyCallbacks(t, j, k)
    case Present(w, img) =>
      // present waits on exactly the semaphore the preceding submit signalled
      1 <= k && t[k - 1].Submit? && t[k - 1].signal == w && w == SubmitSemaphore(img)
  }

  /** The protocol over a whole trace. Every rule but the one for fence
      waits needs an earlier event, so a conforming trace starts with a
      wait. */
  ghost predicate WellOrdered(t: seq<Event>)
    ensures WellOrdered(t) && |t| > 0 ==> WellOrderedAt(t, 0) && t[0].WaitFence?
  {
    forall k :: 0 <= k < |t| ==> WellOrderedAt(t, k)
  }

  // ---------------------------------------------------------------------
  // Lemmas about one call
  // ---------------------------------------------------------------------

  /** An out-of-date acquire ends the call: the fence is not reset, no
      callback runs, nothing is submitted or presented, and current_frame_
      stays where it was. */
  lemma OutOfDateRender(frame: nat, maxFrames: nat, updateFn: Option<CallbackId>, recordFn: Option<CallbackId>)
    requires maxFrames > 0
    ensures forall e :: e in RenderEvents(frame, Uint32Max, updateFn, recordFn) ==>
              !e.ResetFence? && !IsCallback(e) && !e.Submit? && !e.Present?
    ensures NextFrame(frame, Uint32Max, maxFrames) == frame
  {
  }

  /** The update callback runs, with the pre-advance frame, exactly when
      the acquire succeeded and one is set; likewise the record callback,
      which also gets the slot's command buffer and the acquired image. */
  lemma CallbacksInvoked(frame: nat, acquired: Uint32, updateFn: Option<CallbackId>, recordFn: Option<CallbackId>)
    ensures forall c: CallbackId, f: nat ::
              UpdateUniforms(c, f) in RenderEvents(frame, acquired, updateFn, recordFn)
              <==> acquired != Uint32Max && updateFn == Some(c) && f == frame
    ensures forall c: CallbackId, cb: nat, img: nat, f: nat ::
              RecordCommands(c, cb, img, f) in RenderEvents(frame, acquired, updateFn, recordFn)
              <==> acquired != Uint32Max && recordFn == Some(c) && cb == frame && img == acquired && f == frame
  {
  }

  /** Within one call the update callback runs before the record callback. */
  lemma UpdateBeforeRecord(frame: nat, acquired: Uint32, updateFn: Option<CallbackId>, recordFn: Option<CallbackId>)
    ensures var t := RenderEvents(frame, acquired, updateFn, recordFn);
            forall i, j :: 0 <= i < |t| && 0 <= j < |t| && t[i].UpdateUniforms? && t[j].RecordCommands? ==> i < j
  {
  }

  /** Every frame-slot object a call touches is that of slot `frame`, and
      every per-image object is that of the acquired image. */
  lemma SlotAndImageKeptApart(frame: nat, acquired: Uint32, updateFn: Option<CallbackId>, recordFn: Option<CallbackId>)
    ensures forall e :: e in RenderEvents(frame, acquired, updateFn, recordFn) ==> UsesSlotAndImage(e, frame, acquired)
  {
  }

  /** A successful call submits once and presents once, presenting last. */
  lemma SuccessfulRenderSubmitsAndPresents(frame: nat, acquired: Uint32, updateFn: Option<CallbackId>, recordFn: Option<CallbackId>)
    requires acquired != Uint32Max
    ensures var t := RenderEvents(frame, acquired, updateFn, recordFn);
            Submit(AcquireSemaphore(frame), frame, SubmitSemaphore(acquired), frame) in t
            && t[|t| - 1] == Present(SubmitSemaphore(acquired), acquired)
  {
  }

  /** The events of one call obey the protocol. */
  lemma RenderFollowsProtocol(frame: nat, acquired: Uint32, updateFn: Option<CallbackId>, recordFn: Option<CallbackId>)
    ensures WellOrdered(RenderEvents(frame, acquired, updateFn, recordFn))
  {
    var t := RenderEvents(frame, acquired, updateFn, recordFn);
    if acquired != Uint32Max {
      var n := |t|;
      assert ResetAfterAcquireOf(t, 2, frame, acquired);
      assert OnlyCallbacks(t, 2, n - 2);
      forall k | 0 <= k < n
        ensures WellOrderedAt(t, k)
      {
        if t[k].UpdateUniforms? {
          assert k == 3;
          assert OnlyUpdates(t, 2, k);
        } else if t[k].RecordCommands? {
          assert OnlyCallbacks(t, 2, k);
        }
      }
    }
  }

  /** The protocol survives concatenation: a run of calls obeys it. */
  lemma {:induction false} WellOrderedAppend(t: seq<Event>, u: seq<Event>)
    requires WellOrdered(t) && WellOrdered(u)
    ensures WellOrdered(t + u)
  {
    var tu := t + u;
    forall k | 0 <= k < |tu|
      ensures WellOrderedAt(tu, k)
    {
      if k < |t| {
        assert WellOrderedAt(t, k);
        assert forall i :: 0 <= i <= k ==> tu[i] == t[i];
        match t[k]
        case UpdateUniforms(_, f) =>
          var j :| 0 <= j < k && t[j] == ResetFence(f) && OnlyUpdates(t, j, k);
          assert OnlyUpdates(tu, j, k);
        case RecordCommands(_, _, img, f) =>
          var j :| 0 <= j < k && ResetAfterAcquireOf(t, j, f, img) && OnlyCallbacks(t, j, k);
          assert ResetAfterAcquireOf(tu, j, f, img) && OnlyCallbacks(tu, j, k);
        case Submit(_, _, s, f) =>
          var j :| 0 <= j < k && ResetAfterAcquireOf(t, j, f, s.image) && OnlyCallbacks(t, j, k);
          assert ResetAfterAcquireOf(tu, j, f, s.image) && OnlyCallbacks(tu, j, k);
        case _ =>
      } else {
        var m := k - |t|;
        assert WellOrderedAt(u, m);
        assert forall i :: |t| <= i <= k ==> tu[i] == u[i - |t|];
        match u[m]
        case UpdateUniforms(_, f) =>
          var j :| 0 <= j < m && u[j] == ResetFence(f) && OnlyUpdates(u, j, m);
          assert OnlyUpdates(tu, j + |t|, k);
        case RecordCommands(_, _, img, f) =>
          var j :| 0 <= j < m && ResetAfterAcquireOf(u, j, f, img) && OnlyCallbacks(u, j, m);
          assert ResetAfterAcquireOf(tu, j + |t|, f, img) && OnlyCallbacks(tu, j + |t|, k);
        case Submit(_, _, s, f) =>
          var j :| 0 <= j < m && ResetAfterAcquireOf(u, j, f, s.image) && OnlyCallbacks(u, j, m);
          assert ResetAfterAcquireOf(tu, j + |t|, f, s.image) && OnlyCallbacks(tu, j + |t|, k);
        case _ =>
      }
    }
  }

  /** In a trace that obeys the protocol, a fence reset comes right after
      a wait on that same fence and a successful acquire for its slot:
      the reset never happens on a path that returns early. */
  lemma ResetFollowsWaitAndAcquire(t: seq<Event>, k: int)
    requires WellOrdered(t) && 0 <= k < |t| && t[k].ResetFence?
    ensures 2 <= k && t[k - 2] == WaitFence(t[k].fence)
    ensures t[k - 1].AcquireImage? && t[k - 1].signal == AcquireSemaphore(t[k].fence)
    ensures t[k - 1].acquired != Uint32Max
  {
    assert WellOrderedAt(t, k);
    assert WellOrderedAt(t, k - 1);
  }

  /** In a trace that obeys the protocol, the semaphore a present waits on
      is the one the submit right before it signalled for the same image,
      and that submit waited on its own slot's acquire semaphore. */
  lemma PresentWaitsOnSubmit(t: seq<Event>, k: int)
    requires WellOrdered(t) && 0 <= k < |t| && t[k].Present?
    ensures 1 <= k && t[k - 1].Submit?
    ensures t[k - 1].signal == t[k].wait == SubmitSemaphore(t[k].image)
    ensures t[k - 1].wait == AcquireSemaphore(t[k - 1].fence)
  {
    assert WellOrderedAt(t, k);
    assert WellOrderedAt(t, k - 1);
  }

  // ---------------------------------------------------------------------
  // The frame counter over many calls
  // ---------------------------------------------------------------------

  /** One call keeps current_frame_ in [0, maxFrames). */
  lemma NextFrameInRange(frame: nat, acquired: Uint32, maxFrames: nat)
    requires maxFrames > 0 && frame < maxFrames
    ensures NextFrame(frame, acquired, maxFrames) < maxFrames
    ensures acquired != Uint32Max ==> NextFrame(frame, acquired, maxFrames) == (frame + 1) % maxFrames
  {
  }

  /** current_frame_ after a run of calls that acquired `acquisitions`. */
  function FrameAfter(frame: nat, acquisitions: seq<Uint32>, maxFrames: nat): (next: nat)
    requires maxFrames > 0
    ensures frame < maxFrames ==> next < maxFrames
    decreases |acquisitions|
  {
    if acquisitions == [] then frame
    else FrameAfter(NextFrame(frame, acquisitions[0], maxFrames), acquisitions[1..], maxFrames)
  }

  /** How many of the acquisitions succeeded. */
  function Successes(acquisitions: seq<Uint32>): (n: nat)
    ensures n <= |acquisitions|
  {
    if acquisitions == [] then 0
    else (if acquisitions[0] == Uint32Max then 0 else 1) + Successes(acquisitions[1..])
  }

  /** The frame counter advances by one, modulo maxFrames, for each
      successful call, and does not move on an out-of-date one. */
  lemma {:induction false} FrameAfterCountsSuccesses(frame: nat, acquisitions: seq<Uint32>, maxFrames: nat)
    requires maxFrames > 0 && frame < maxFrames
    ensures FrameAfter(frame, acquisitions, maxFrames) == (frame + Successes(acquisitions)) % maxFrames
    decreases |acquisitions|
  {
    if acquisitions != [] {
      var next := NextFrame(frame, acquisitions[0], maxFrames);
      var rest := acquisitions[1..];
      FrameAfterCountsSuccesses(next, rest, maxFrames);
      assert FrameAfter(frame, acquisitions, maxFrames) == FrameAfter(next, rest, maxFrames);
      if acquisitions[0] != Uint32Max {
        assert Successes(acquisitions) == 1 + Successes(rest);
        AdvanceThenAdd(frame, Successes(rest), maxFrames);
      }
    }
  }

  /** Advancing the slot and then adding s is adding s + 1. */
  lemma AdvanceThenAdd(frame: nat, s: nat, m: nat)
    requires m > 0 && frame < m
    ensures ((frame + 1) % m + s) % m == (frame + 1 + s) % m
  {
    if frame + 1 == m {
      assert (frame + 1) % m == 0;
      ModPeriodic(s, m);
    } else {
      assert (frame + 1) % m == frame + 1;
    }
  }

  /** Euclidean division has one quotient and one remainder. */
  lemma DivModUnique(a: int, m: int, q: int, r: int)
    requires m > 0 && 0 <= r < m && a == q * m + r
    ensures a % m == r && a / m == q
  {
    var q', r' := a / m, a % m;
    assert (q - q') * m == r' - r;
    if q > q' {
      MulAtLeast(q - q', m);
    }
    if q' > q {
      MulAtLeast(q' - q, m);
    }
  }

  /** A positive multiple of m is at least m; used by DivModUnique. */
  lemma MulAtLeast(d: int, m: int)
    requires d >= 1 && m > 0
    ensures d * m >= m
    decreases d
  {
    if d > 1 {
      MulAtLeast(d - 1, m);
      assert d * m == (d - 1) * m + m;
    }
  }

  /** Adding one period does not change the remainder; used by AdvanceThenAdd. */
  lemma ModPeriodic(s: nat, m: nat)
    requires m > 0
    ensures (m + s) % m == s % m
  {
    DivModUnique(m + s, m, s / m + 1, s % m);
  }

  /** After N successful calls from slot 0 the next call uses slot
      N mod maxFrames, whatever images were acquired. */
  lemma AllSuccessfulRuns(acquisitions: seq<Uint32>, maxFrames: nat)
    requires maxFrames > 0
    requires forall i :: 0 <= i < |acquisitions| ==> acquisitions[i] != Uint32Max
    ensures FrameAfter(0, acquisitions, maxFrames) == |acquisitions| % maxFrames
  {
    FrameAfterCountsSuccesses(0, acquisitions, maxFrames);
    AllSucceed(acquisitions);
  }

  lemma {:induction false} AllSucceed(acquisitions: seq<Uint32>)
    requires forall i :: 0 <= i < |acquisitions| ==> acquisitions[i] != Uint32Max
    ensures Successes(acquisitions) == |acquisitions|
    decreases |acquisitions|
  {
    if acquisitions != [] {
      AllSucceed(acquisitions[1..]);
    }
  }

  // ---------------------------------------------------------------------
  // The Renderer object
  // ---------------------------------------------------------------------

  /** Regroups a five-piece concatenation; steers the final trace step of Render. */
  lemma AppendRegroup<T>(a: seq<T>, b: seq<T>, c: seq<T>, d: seq<T>, e: seq<T>)
    ensures a + b + c + d + e == a + (b + c + d + e)
  {
  }

  /** One call's events keep a conforming history conforming. */
  lemma KeepsProtocol(before: seq<Event>, frame: nat, acquired: Uint32,
                      updateFn: Option<CallbackId>, recordFn: Option<CallbackId>)
    requires WellOrdered(before)
    ensures WellOrdered(before + RenderEvents(frame, acquired, updateFn, recordFn))
  {
    RenderFollowsProtocol(frame, acquired, updateFn, recordFn);
    WellOrderedAppend(before, RenderEvents(frame, acquired, updateFn, recordFn));
  }

  class Renderer {
    const maxFramesInFlight: nat
    const renderSync: RenderSync
    var currentFrame: nat
    var updateUniformBufferFn: Option<CallbackId>
    var recordCommandBufferFn: Option<CallbackId>
    /** Everything the renderer has done so far. */
    ghost var trace: seq<Event>

    ghost predicate Valid()
      reads this
    {
      && renderSync.frameSlots == maxFramesInFlight
      && (currentFrame < maxFramesInFlight || currentFrame == 0)
      && WellOrdered(trace)
    }

    /** Frame sync is sized by the frames in flight, image sync by the
        swapchain's image count, independently of each other. */
    constructor (maxFrames: nat, swapchainImageCount: nat)
      ensures Valid()
      ensures maxFramesInFlight == maxFrames
      ensures renderSync == RenderSync(maxFrames, swapchainImageCount)
      ensures currentFrame == 0 && trace == []
      ensures updateUniformBufferFn == None && recordCommandBufferFn == None
    {
      maxFramesInFlight := maxFrames;
      renderSync := RenderSync(maxFrames, swapchainImageCount);
      currentFrame := 0;
      updateUniformBufferFn := None;
      recordCommandBufferFn := None;
      trace := [];
    }

    /** Replaces the record callback; nothing else changes. */
    method SetRecordCommandBufferFn(recordFn: Option<CallbackId>)
      requires Valid()
      modifies this`recordCommandBufferFn
      ensures Valid() && recordCommandBufferFn == recordFn
    {
      recordCommandBufferFn := recordFn;
    }

    /** Replaces the uniform-update callback; nothing else changes. */
    method SetUpdateUniformBufferFn(updateFn: Option<CallbackId>)
      requires Valid()
      modifies this`updateUniformBufferFn
      ensures Valid() && updateUniformBufferFn == updateFn
    {
      updateUniformBufferFn := updateFn;
    }

    /** One frame. `acquired` is what the swapchain's acquire_next_image
        returns and `presented` what the queue's present returns. */
    method Render(acquired: Uint32, presented: VkResult) returns (result: VkResult)
      requires Valid() && maxFramesInFlight > 0
      requires acquired == Uint32Max || acquired < renderSync.imageSlots
      modifies this`currentFrame, this`trace
      ensures Valid()
      ensures trace == old(trace) + RenderEvents(old(currentFrame), acquired, updateUniformBufferFn, recordCommandBufferFn)
      ensures currentFrame == NextFrame(old(currentFrame), acquired, maxFramesInFlight)
      ensures result == if acquired == Uint32Max then ErrorOutOfDateKhr else presented
    {
      ghost var before := trace;
      ghost var frame := currentFrame;
      ghost var events := RenderEvents(currentFrame, acquired, updateUniformBufferFn, recordCommandBufferFn);

      var sync := renderSync.FrameSyncOf(currentFrame);
      // 1. wait for this slot's previous frame
      trace := trace + [WaitFence(sync.fence)];
      // 2. acquire an image, signalling the slot's acquire semaphore
      var imageIndex := acquired;
      trace := trace + [AcquireImage(sync.acquireSemaphore, imageIndex)];
      if imageIndex == Uint32Max {
        assert trace == before + events;
        KeepsProtocol(before, frame, acquired, updateUniformBufferFn, recordCommandBufferFn);
        return ErrorOutOfDateKhr;
      }
      // reset the fence only now that there is work to submit
      trace := trace + [ResetFence(sync.fence)];
      ghost var reset := trace;
      ghost var head := [WaitFence(frame), AcquireImage(AcquireSemaphore(frame), acquired), ResetFence(frame)];
      assert reset == before + head;
      ghost var upd := if updateUniformBufferFn.Some? then [UpdateUniforms(updateUniformBufferFn.value, frame)] else [];
      ghost var rec := if recordCommandBufferFn.Some? then [RecordCommands(recordCommandBufferFn.value, frame, acquired, frame)] else [];
      ghost var tail := [Submit(AcquireSemaphore(frame), frame, SubmitSemaphore(acquired), frame), Present(SubmitSemaphore(acquired), acquired)];
      assert events == head + upd + rec + tail;
      // 3. let the user update uniforms and record the command buffer
      if updateUniformBufferFn.Some? {
        trace := trace + [UpdateUniforms(updateUniformBufferFn.value, currentFrame)];
      }
      ghost var updated := trace;
      assert updated == reset + upd;
      if recordCommandBufferFn.Some? {
        trace := trace + [RecordCommands(recordCommandBufferFn.value, sync.cmdBuffer, imageIndex, currentFrame)];
      }
      assert trace == updated + rec;
      // 4. submit
      var submitSemaphore := renderSync.ImageSync(imageIndex);
      trace := trace + [Submit(sync.acquireSemaphore, sync.cmdBuffer, submitSemaphore, sync.fence)];
      currentFrame := (currentFrame + 1) % maxFramesInFlight;
      // 5. present
      trace := trace + [Present(submitSemaphore, imageIndex)];
      assert trace == before + head + upd + rec + tail;
      AppendRegroup(before, head, upd, rec, tail);
      KeepsProtocol(before, frame, acquired, updateUniformBufferFn, recordCommandBufferFn);
      result := presented;
    }
  }
}
