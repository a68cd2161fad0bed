# cobalt-vk: frame loop and resource registration

This project models two pieces of bookkeeping in cobalt-vk, a resource manager layered over Vulkan.

**The renderer's per-frame step.** This is `Renderer::render` in `cobalt/src/__render/Renderer.cpp`. Each call waits on the current frame slot's in-flight fence, acquires a swapchain image with the slot's acquire semaphore, and returns `VK_ERROR_OUT_OF_DATE_KHR` when the swapchain hands back `UINT32_MAX`. Otherwise it resets the fence and runs the optional uniform-update and command-recording callbacks. It then submits the slot's command buffer, waiting on the acquire semaphore and signalling the image's own semaphore, with the slot's fence attached. It advances `current_frame_` modulo `max_frames_in_flight_` and presents the image behind the image's semaphore. Every Vulkan call and every callback invocation is an event on a ghost trace of the `Renderer` class (`Renderer.dfy`). The swapchain's answer and the present result are parameters of `Render`.

The trace is held to a protocol stated independently of `render`'s code (`WellOrdered`):
- an acquire comes right after a wait on the same slot's fence;
- a fence reset comes only right after a successful acquire for that slot;
- callbacks run between that reset and the submit, and the update callback runs before the record callback;
- a submit waits on its slot's acquire semaphore, signals the semaphore of the image acquired in that frame, and carries the slot's fence, which was reset in that frame;
- a present comes right after the submit and waits on exactly the semaphore that submit signalled.

The class invariant keeps this protocol over the whole history of calls. Separate lemmas cover the out-of-date path, which callbacks run with which arguments, the separation of frame-slot and image indices, and the frame counter over any run of calls.

**Resource registration in the `CobaltVK` singleton.** This is `create_resource` / `store_resource` in `cobalt/include/public/__singleton/CobaltVK.h`, modelled in `ResourceManager.dfy` and `Handles.dfy`:
- the new resource is appended to the owning vector `resources_`;
- it is inserted into the handle table `resources_table_`;
- a cleanup closure is pushed onto `deletion_queue_`. Running that closure erases the table entry and removes the resource's pointer from `resources_`.

A closure is modelled by the record of what it captured (`PendingCleanup`). The handle table is known only by its contract: insert returns a key that is not live, and erase drops exactly the given key. The class methods are proved against pure functions on a `Registry` value (`Registered`, `CleanedUp`). The lemmas about those functions give these results:
- both operations preserve the invariant;
- a cleanup touches only its own entry and its own resource;
- cleanups commute;
- running all pending cleanups, in any order, leaves nothing registered.

## Model

| member | source | states |
|---|---|---|
| `Renderer.Renderer.constructor` | cobalt/src/__render/Renderer.cpp:10-16 | frame sync is sized by the frames in flight and image sync by the swapchain's image count, independently; the frame counter starts at 0 with no callbacks set |
| `Renderer.Renderer.SetRecordCommandBufferFn` | cobalt/src/__render/Renderer.cpp:19-22 | the record callback is replaced and no other field changes |
| `Renderer.Renderer.SetUpdateUniformBufferFn` | cobalt/src/__render/Renderer.cpp:25-28 | the update callback is replaced and no other field changes |
| `Renderer.RenderEvents` | cobalt/src/__render/Renderer.cpp:31-80 | a call's events start with the wait on the slot's fence and the acquire with the slot's acquire semaphore; the call stops there exactly on the `UINT32_MAX` sentinel; otherwise it ends with a submit followed by the present of the acquired image |
| `Renderer.NextFrame` | cobalt/src/__render/Renderer.cpp:43-75 | the frame counter is unchanged after an out-of-date acquire and lies below `max_frames_in_flight_` after a successful one |
| `Renderer.WellOrdered` | cobalt/src/__render/Renderer.cpp:37-79 | the trace protocol; every rule except the fence wait's needs an earlier event, so a conforming trace starts with a fence wait |
| `Renderer.Renderer.Render` | cobalt/src/__render/Renderer.cpp:31-80 | appends exactly one call's events to the trace and keeps the trace protocol-conform; the counter moves to its next value only on a successful acquire; returns `VK_ERROR_OUT_OF_DATE_KHR` on the sentinel and the present result otherwise |
| `Renderer.OutOfDateRender` | cobalt/src/__render/Renderer.cpp:40-46 | on the `UINT32_MAX` sentinel: no fence reset, no callback, no submit, no present, frame counter unchanged |
| `Renderer.CallbacksInvoked` | cobalt/src/__render/Renderer.cpp:53-60 | the update callback runs exactly when the acquire succeeded and one is set, and it gets the pre-advance frame; the record callback likewise, and it also gets the slot's command buffer and the acquired image (both directions) |
| `Renderer.UpdateBeforeRecord` | cobalt/src/__render/Renderer.cpp:53-60 | within a call, every update-callback event precedes every record-callback event |
| `Renderer.SlotAndImageKeptApart` | cobalt/src/__render/Renderer.cpp:33-79 | fence, acquire semaphore and command buffer are always those of slot `current_frame_`; the submit semaphore and the presented image are always those of the acquired image index |
| `Renderer.SuccessfulRenderSubmitsAndPresents` | cobalt/src/__render/Renderer.cpp:63-79 | a successful call submits (wait on the slot's acquire semaphore, signal `image_sync(image)`, the slot's fence) and ends by presenting that image behind the same semaphore |
| `Renderer.RenderFollowsProtocol` | cobalt/src/__render/Renderer.cpp:31-80 | the events of any call satisfy the wait/acquire/reset/callback/submit/present protocol |
| `Renderer.WellOrderedAppend` | cobalt/src/__render/Renderer.cpp:31-80 | the protocol is preserved when one call's events are appended to a conforming history |
| `Renderer.ResetFollowsWaitAndAcquire` | cobalt/src/__render/Renderer.cpp:37-50 | in any conforming trace, a fence reset is directly preceded by a successful acquire for its slot, which is directly preceded by the wait on that fence |
| `Renderer.PresentWaitsOnSubmit` | cobalt/src/__render/Renderer.cpp:63-79 | in any conforming trace, a present directly follows a submit that signalled exactly the semaphore the present waits on, which is that image's semaphore |
| `Renderer.NextFrameInRange` | cobalt/src/__render/Renderer.cpp:75 | with `maxFrames > 0` the counter stays in `[0, maxFrames)` and a successful call moves it to `(frame + 1) % maxFrames` |
| `Renderer.FrameAfter` | cobalt/src/__render/Renderer.cpp:43-75 | the frame counter after a run of calls stays below `max_frames_in_flight_` when it started below it |
| `Renderer.Successes` | cobalt/src/__render/Renderer.cpp:43-46 | the number of successful acquires in a run is at most the number of calls |
| `Renderer.FrameAfterCountsSuccesses` | cobalt/src/__render/Renderer.cpp:40-75 | after any run of calls the counter equals the start plus the number of successful acquires, modulo `maxFrames` |
| `Renderer.AllSuccessfulRuns` | cobalt/src/__render/Renderer.cpp:75-79 | after N successful calls from 0 the next slot is `N mod maxFrames`, whatever image indices were acquired |
| `Handles.FreeSlotExists` | cobalt/include/public/__singleton/CobaltVK.h:54 | a finite table always has a key that is not live, so insert can always succeed |
| `Handles.HandleTable.constructor` | cobalt/include/public/__singleton/CobaltVK.h:38 | the table starts with no live entry |
| `Handles.HandleTable.Insert` | cobalt/include/public/__singleton/CobaltVK.h:54 | returns a key that was not live and registers the resource under exactly that key |
| `Handles.HandleTable.Erase` | cobalt/include/public/__singleton/CobaltVK.h:58 | removes exactly the given key and nothing else |
| `ResourceManager.FreshAddressExists` | cobalt/include/public/__singleton/CobaltVK.h:52 | there is always an address that no live resource has, so a newly constructed resource can differ from every live one |
| `ResourceManager.EraseAll` | cobalt/include/public/__singleton/CobaltVK.h:59 | `erase_if(pointer == resource)`: every occurrence of the value is removed and every other element keeps its multiplicity |
| `ResourceManager.EraseAllCommutes` | cobalt/include/public/__singleton/CobaltVK.h:59 | erasing two pointers gives the same vector in either order |
| `ResourceManager.CobaltVK.constructor` | cobalt/include/public/__singleton/CobaltVK.h:36-38 | the manager starts with an empty queue, vector and table, which satisfy the invariant |
| `ResourceManager.CobaltVK.StoreResource` | cobalt/include/public/__singleton/CobaltVK.h:65-69 | the resource becomes the new last element of `resources_` and its pointer is returned |
| `ResourceManager.CobaltVK.CreateResource` | cobalt/include/public/__singleton/CobaltVK.h:48-62 | on a constructor failure nothing changes; otherwise exactly one new resource is appended as the last element, exactly that resource is inserted under the slot the table returned, exactly one cleanup for that pair is queued, the handle carries that slot, and the invariant holds |
| `ResourceManager.CobaltVK.RunCleanup` | cobalt/include/public/__singleton/CobaltVK.h:56-60 | running a pending closure erases its own table entry, removes its resource from `resources_`, drops it from the queue and keeps the invariant |
| `ResourceManager.Registered` | cobalt/include/public/__singleton/CobaltVK.h:52-60 | registration appends the resource as the last owned one, maps the new slot to it while every other entry keeps its value, and queues one cleanup for exactly that pair behind the earlier ones |
| `ResourceManager.CleanedUp` | cobalt/include/public/__singleton/CobaltVK.h:56-60 | running a cleanup removes its resource, its table entry and its own record, and removes nothing else and adds nothing |
| `ResourceManager.RunCleanups` | cobalt/include/public/__singleton/CobaltVK.h:56-60 | a run of cleanups only removes: no slot, resource or record of a cleanup in the run remains afterwards |
| `ResourceManager.InvEntriesAreOwned` | cobalt/include/public/__singleton/CobaltVK.h:36-38 | under the invariant, every live table entry points to a resource in `resources_`, and every pending cleanup refers to a live (slot, resource) pair |
| `ResourceManager.RegisteredKeepsInv` | cobalt/include/public/__singleton/CobaltVK.h:52-60 | registering a new resource under a key that is not live preserves the invariant |
| `ResourceManager.CleanedUpKeepsInv` | cobalt/include/public/__singleton/CobaltVK.h:56-60 | running a pending cleanup preserves the invariant, leaves its resource and slot unregistered, and leaves every other pending cleanup queued |
| `ResourceManager.CleanupIsLocal` | cobalt/include/public/__singleton/CobaltVK.h:58-59 | a cleanup erases only its own table entry and only the `resources_` elements equal to its pointer; every other entry and resource is unchanged |
| `ResourceManager.CleanupsCommute` | cobalt/include/public/__singleton/CobaltVK.h:56-60 | any two cleanups run in either order end in the same state |
| `ResourceManager.RunAllCleanupsEmpties` | cobalt/include/public/__singleton/CobaltVK.h:56-60 | running every pending cleanup once, in any order (any permutation of the queue), leaves `resources_`, the table and the queue empty |

## Left out

- Vulkan itself is left out: the fence wait and reset, acquire, `SubmitInfo`/`PresentInfo`, queue submit and present, and semaphores and pipeline stages. These appear only as trace events.
- The bodies of the user callbacks are user code. A callback is modelled by its identity and the arguments it is called with. The record callback also receives `swapchain_ref_` (Renderer.cpp:59); that is the renderer's one swapchain, the same on every call, so `RecordCommands` omits it.
- The swapchain's `acquire_next_image` and the present result are parameters of `Render`. `Render` requires the acquired value to be the sentinel or an index below the image count. This is an assumption about `acquire_next_image`: `Swapchain.h` is not part of this model, and the code documents only the `UINT32_MAX` sentinel (Renderer.cpp:42).
- Renderer.Renderer.Render: assumes the callbacks (Renderer.cpp:53-60) and the queue submit (Renderer.cpp:64-72) return normally. If one of them throws, the fence reset at Renderer.cpp:50 has already happened and nothing will signal the fence again, so the next call on that slot waits forever (the deadlock the comment at Renderer.cpp:49 warns of). The model has no such exit and does not capture this state.
- `Renderer.Renderer.Render` requires `max_frames_in_flight_ > 0`. With 0, the source calls `frame_sync(0)` on a render sync built with 0 frame slots (Renderer.cpp:14, 34), and after a successful acquire takes `% 0` (Renderer.cpp:75).
- The initial value of `current_frame_` sits in a header that is not part of this model; it is taken to be 0.
- CPU/GPU concurrency is not modelled. Fences and semaphores only order events on the trace; the asynchronous GPU execution they coordinate is outside the model.
- `HandleTable` internals are not part of this model: slot recycling, generations, stale-handle detection and `resolve`. The table is known only through `Insert` and `Erase`.
- `DeletionQueue` internals, and whatever order its flush uses, are not part of this model, and neither is `reset_instance`, which is declared only. `RunCleanup` runs one pending closure and drops it from the queue. `RunAllCleanupsEmpties` covers running all of them in any order, so no particular order is assumed or claimed.
- `ResourceManager.CleanedUp` is total. A record that is not pending still erases its key and its pointer. Under the invariant this only runs on pending cleanups.
- ResourceManager.CobaltVK.CreateResource: only constructor failure is modelled. The table insert (CobaltVK.h:54) and the queue push (CobaltVK.h:56) are assumed not to throw. If the insert throws, `resources_` owns a resource that has no table entry and no cleanup. If the push throws, the resource has a table entry but no cleanup. Either state breaks `Inv` (`Owned`, `Covered`), and neither is modelled.
- Resource construction is one boolean parameter: the constructor either succeeds or throws. Constructor arguments and the resource's concrete type (`resource_t`, the typed `ResourceHandle<resource_t>`) are not modelled. A resource is known only by its address, and a new one gets an address no live resource has.
- The singleton mechanics are left out: `get_instance`, `extern CVK`, and static lifetime and destruction.
- `CommandBuffer.h` and `CommandOperator.h` declare the command-buffer wrapper and the recording session. Their definitions are not part of this model, and the session caches a floating-point `VkViewport` (CommandOperator.h:67).
- Renderer.RenderSync.FrameSyncOf and Renderer.RenderSync.ImageSync stand for `render_sync_.frame_sync(current_frame_)` (Renderer.cpp:33-34) and `render_sync_.image_sync(image_index)` (Renderer.cpp:63), whose bodies are not part of this model. The model assumes that slot i's command buffer, fence and acquire semaphore are all named i, that image i's semaphore is named i, and that no image semaphore is an acquire semaphore. `SlotAndImageKeptApart` and the protocol rest on this naming.
- ResourceManager.EraseAll: the contract states what remains as a multiset. It does not state that `std::erase_if` keeps the order of the remaining elements. The body does keep it, but it is not proved.
- The code advances `current_frame_` after the submit and before the present (Renderer.cpp:75). The counter is not an event, so the model fixes only its value after the call (`NextFrame`), not the moment it changes.
- The code never inspects the result of the fence wait (Renderer.cpp:37), so the model has no timeout path.
