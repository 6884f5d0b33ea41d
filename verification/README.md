# Green Island: verified protocols

Green Island is a Qt/Wayland compositor library.  Most of it is glue around
mmap, DRM, GBM, xcb and libwayland, but inside that glue are small stateful
protocols, an allocator and a code generator that have real invariants.  This
project models them in Dafny and proves those invariants.  Library calls are
operations whose outcome is a parameter: they may fail whenever they can fail.

`dafny verify dfyconfig.toml` checks everything.

## How the project is laid out

| files | what they model |
|---|---|
| `Screencast`, `ScreencastRuns`, `ScreencastFrames`, `ScreencastStalls`, `ScreencastPrivate` | the screencast recording protocol: main thread, handler thread and compositor, one shared access per step; what becomes of every record and answer; exactly when it fails; then the class whose calls are runs of it |
| `PoolModel`, `PoolHandOut`, `ShmPool`, `PoolGrowth` | the shared-memory pool: independent byte arrays, when they are handed out again, the one growing file that stands for them, and how it grows |
| `FlipProtocol`, `FlipEffects`, `KmsScreen` | page flips, mode changes and VT switches of a KMS screen: who owns its buffers, what is shown and what stays as it was |
| `ScannerTypes`, `Scanner`, `ScannerTheorems`, `ScannerParams` | the Wayland scanner: types and lists, the printing loops, how what they print fits together, and what is declared for each type of the wire |
| `Pairing`, `XWayland` | pairing of XWayland windows with Wayland surfaces |
| `Restack` | restacking of X windows |
| `ModeText`, `ScreenLayout`, `KmsDevice` | mode text, CRTC allocation, mode choice and layout |
| `TouchSequence`, `TouchTracks`, `Touch` | touch points and their signals, and what is recorded of one finger |
| `CursorTheme` | the cursor cache |
| `Sequences` | shared facts |

Where the source changes state, a class has the source's fields and methods,
and each method is proved equal to a function on values; what the source
promises is then proved about those functions, over every run.

## What turned out

Several promises do not hold for every run of the code.  In each case the code
is modelled as it is, and the condition under which it is right is proved.

* Screencast.  The handler thread calls `recordFrame` without the mutex, and
  sets `busy` and `starving` after it sent the record.  If the compositor's
  answer is dispatched on the main thread before both stores are done and no
  slot is free but the one just sent, the handler's late `starving = false` can
  erase the main thread's `starving = true`, and recording stops for good; no
  other answer can do that (`ScreencastStalls.StallsIff`).  If the answer comes
  before `busy` is stored, and only then, the same buffer can be recorded twice
  (`ScreencastRuns.RecordsTwiceIff`).  Both moments are within reach for every
  buffer table, and as long as answers avoid them no schedule does either
  (`ScreencastStalls.SpareSlotIsNeeded`, `ScreencastRuns.StoredBusyIsNeeded`).
  The step of setup is allowed to find null buffers; with none at all there are
  no frames (`ScreencastRuns.FramesIffSomeBuffer`).
* Page flips.  A flip that finds another one pending loses a locked buffer, and
  one that cannot create the framebuffer it needs dereferences null
  (`FlipProtocol.FlipOwnedIff`).  The first happens when a VT resume falls
  between waiting and flipping; the second is the only way in which a run of
  whole presentations fails (`FlipProtocol.RunOwned`).  `suspend` takes
  `m_waitForFlipMutex` and nothing gives it back, so once a screen has been
  suspended a presentation that has to wait blocks
  (`FlipProtocol.PresentationBlocksIff`).  `flip` asks for power after it has
  set a mode, but does so only on a screen that is on
  (`FlipEffects.PowerIsLastSet`).
* Scanner.  Besides arguments with equal names and names that clash with those
  the generated function has of its own (`client`, `resource`, `r`, `data`,
  `object`, `interface`, `version`, the member it uses), an argument may clash
  with the local `x_data` of an array `x` (`ScannerTheorems.ArrayLocalClashes`).
  With names that do not clash, client event adapters are wrong exactly for
  events with an untyped `new_id`, and client request calls exactly for a sole
  untyped `new_id` or for two and more arguments that are all typed `new_id`s.
* Pool.  A negative byte count that the server does not refuse makes the next
  buffer overlap an earlier one (`ShmPool.NegativeOverlaps`).
* Pairing.  `setSurfaceId(0)` does nothing, because an id once set stays.  A
  window that loses its surface can be paired again by a message that comes
  before the surface only if the id is the old one.
* Mode choice.  The index of the running mode is computed from the length of
  the configuration text (`mode.size()` for `modes.size()`).  The configuration
  `preferred` selects the best mode, not the preferred one
  (`KmsDevice.PreferredIsReplaced`).
* Touch.  Signals are well bracketed exactly when the compositor sends nothing
  more for a cancelled sequence, as the description of wl_touch in Appendix A
  of the Wayland specification demands.

## Model

| member | source | states |
|---|---|---|
| Screencast.MainStepInv | src/client/screencaster.cpp:188-262 | every step of the main thread, at the grain of one shared access, keeps the protocol invariant: one duty pending, one place for each buffer, frames in order |
| Screencast.HandlerStepInv | src/client/screencaster.cpp:84-103 | every step of the handler thread keeps it too, also when it frees a buffer while the main thread scans or is about to set starving |
| Screencast.AnswerInv | src/client/screencaster.cpp:246-253 | dispatching an answer keeps it, unless the handler has sent a record and not stored busy and starving |
| Screencast.FreedAgainBusy | src/client/screencaster.cpp:84-95 | a buffer the handler freed and finds busy again is on its way to another event, so a failed scan of the handler loses nothing |
| ScreencastRuns.OwnershipTheorem | src/client/screencaster.cpp:84-262 | in every reachable state no buffer is in two places, busy tells exactly the buffers not free, at most one record is out, and frames are emitted once each in order |
| ScreencastRuns.OneDuty | src/client/screencaster.cpp:84-262 | in every state a serial run from setup reaches, exactly one of: a record out, a record being prepared by the main thread, one by the handler, starving with an event to come |
| ScreencastRuns.NeverStuck | src/client/screencaster.cpp:84-262 | some step is always possible: no wake-up is lost |
| ScreencastRuns.FramesKeepComing | src/client/screencaster.cpp:84-262 | any schedule of more than a computed number of steps emits a frame: no livelock either |
| ScreencastRuns.NextFrame | src/client/screencaster.cpp:84-262 | from every reachable state the next frameRecorded can be reached |
| ScreencastRuns.FramesIffSomeBuffer | src/client/screencaster.cpp:209-244 | setup leads to frames if and only if at least one buffer could be created |
| ScreencastFrames.ReceivedAreAnswers | src/client/screencaster.cpp:246-262 | over every run, however scheduled, the frames received are the answers dispatched: time and transform of each, once and in order |
| ScreencastFrames.RecordsAnsweredInOrder | src/client/screencaster.cpp:188-199 | over every run, the slots of the frames received and of the records still out are exactly those recorded, in order |
| ScreencastFrames.EmittedAreAnswers | src/client/screencaster.cpp:84-103 | in every run from setup, frameRecorded was emitted for a prefix of the answers, with their times, transforms and slots |
| ScreencastRuns.HastyAnswerStalls | src/client/screencaster.cpp:198-202 | from every state in which an answer is dispatched between record() and starving = false, some schedule with more such answers gets stuck for good |
| ScreencastStalls.StallsIff | src/client/screencaster.cpp:188-262 | in every state a run from setup has reached without such an answer: one answer can stop the recording, all later ones being dispatched in time, if and only if the handler is between record() and starving = false and no slot is free but the one it sent |
| ScreencastStalls.AliveStallsIff | src/client/screencaster.cpp:188-262 | the same for every state with one duty pending, also one in which a buffer has been recorded twice |
| ScreencastStalls.SpareSlotIsNeeded | src/client/screencaster.cpp:188-262 | for every buffer table: no schedule gets stuck as long as answers come only while a slot is left or outside the two stores, and a state in which one answer stalls is within reach |
| ScreencastStalls.StepAlive | src/client/screencaster.cpp:84-262 | each such step keeps a duty pending that will be met |
| ScreencastRuns.HastyAnswerRecordsTwice | src/client/screencaster.cpp:198-202 | and if busy is not stored yet, the same buffer is recorded a second time |
| ScreencastRuns.RecordsTwiceIff | src/client/screencaster.cpp:198-202 | an answer lets some buffer be recorded twice, all later ones being dispatched in time, if and only if the handler has then sent a record and not stored its busy |
| ScreencastRuns.MarkingReachable | src/client/screencaster.cpp:188-202 | that moment, with the record out and the main thread idle, is reached from setup for every table with a buffer |
| ScreencastRuns.StoredBusyIsNeeded | src/client/screencaster.cpp:188-262 | for every buffer table: if answers wait for the store of busy no schedule records a buffer twice, and otherwise some schedule does |
| Screencast.StepKeepsOwnership | src/client/screencaster.cpp:84-262 | such steps keep each buffer in one place, also when a wake-up has been lost |
| ScreencastRuns.SerialDispatchIsNeeded | src/client/screencaster.cpp:188-262 | for every buffer table: no schedule with serial dispatch gets stuck, and some schedule without it does |
| ScreencastClass.FinishRecordsLowestFree | src/client/screencaster.cpp:188-202 | recordFrame alone records into the lowest free slot and ends starving |
| ScreencastClass.FinishStarves | src/client/screencaster.cpp:203-207 | recordFrame alone starves when no slot is free |
| ScreencastClass.MainDoneIsRun | src/client/screencaster.cpp:209-262 | setup or a frame callback without interruption is a serial run of the protocol |
| ScreencastClass.EventDoneIsRun | src/client/screencaster.cpp:84-103 | the handling of one event without interruption is a serial run of the protocol |
| ScreencastClass.CallsKeepInv | src/client/screencaster.cpp:84-262 | calls that do not overlap keep the invariant |
| ScreencastClass.ScreencastPrivate.RecordFrame | src/client/screencaster.cpp:188-207 | the loop and the stores amount to the steps of recordFrame |
| ScreencastClass.ScreencastPrivate.Setup | src/client/screencaster.cpp:209-244 | six slots, the null ones included, then the first record; an unsupported format changes nothing |
| ScreencastClass.ScreencastPrivate.ScreencastFrame | src/client/screencaster.cpp:246-262 | the next record is requested, then one event posted: for this buffer, with the time and transform of the answer |
| ScreencastClass.ScreencastPrivate.HandleFrameEvent | src/client/screencaster.cpp:84-103 | the oldest event is handled: its buffer freed, a starving recorder served, its frame emitted as posted |
| PoolModel.HoldsLastWrite | src/client/buffer.cpp:82-86 | over any history a buffer holds the bytes last copied into it |
| PoolModel.UnwrittenIsZero | src/client/shmpool.cpp:163-178 | a buffer never copied into is zero |
| PoolModel.ExclusiveHandOut | src/client/shmpool.cpp:148-161 | between two hand-outs of a buffer it was released; at hand-out it is unused and has the geometry asked for |
| PoolHandOut.ReuseIff | src/client/shmpool.cpp:148-161 | over any legal history, a buffer is handed out again if and only if it is the first made for this geometry, released since it was last taken, and not in use; told from what clients did, not from its flags |
| PoolHandOut.FreshIff | src/client/shmpool.cpp:163-178 | a new buffer is made if and only if there is no such buffer |
| PoolHandOut.ReleasedComesBack | src/client/buffer.cpp:120-129 | a released buffer that is not in use, or one before it, serves the next request of its geometry |
| PoolHandOut.ReleasedIff | src/client/buffer.cpp:120-129 | the flag says whether the buffer was released and not handed out or taken back since |
| PoolHandOut.UsedIff | src/client/buffer.cpp:137-146 | the flag says whether the buffer was last told to be in use |
| PoolHandOut.ArraySize | src/client/shmpool.cpp:163-164 | a buffer has the bytes of its height times its stride, whatever happens |
| ShmPool.StartsAtPrefixSum | src/client/shmpool.cpp:163-178 | buffer k starts at the sum of the sizes of the buffers before it |
| ShmPool.RangesDisjoint | src/client/shmpool.cpp:163-178 | no two buffers overlap |
| ShmPool.WriteRecorded | src/client/buffer.cpp:148-152 | writing the bytes of one range is a write to one array and to no other |
| ShmPool.FileGrown | src/client/shmpool.cpp:110-136 | growing and mapping the file again changes no array |
| ShmPool.FreshRecorded | src/client/shmpool.cpp:170-178 | the range at the offset stands for a new zero array |
| ShmPool.FlagRecorded | src/client/shmpool.cpp:148-161 | changing the flags of one buffer changes those of one array |
| ShmPool.Buffer.Copy | src/client/buffer.cpp:148-152 | exactly the bytes of the buffer's own range are replaced |
| ShmPool.Remap | src/client/shmpool.cpp:117-130 | the file keeps its bytes and is extended with zeros |
| ShmPool.CreatePool | src/client/shmpool.cpp:72-108 | a pool if and only if its file could be opened, unlinked, truncated and mapped and the server made its pool; it then has no buffers and no bytes allocated |
| ShmPool.ShmPool.constructor | src/client/shmpool.cpp:104-107 | once these calls have succeeded: no buffers, no bytes allocated |
| ShmPool.ShmPool.ResizePool | src/client/shmpool.cpp:110-136 | a failed truncation changes nothing, a failed remap loses the mapping only, success keeps every array |
| ShmPool.ShmPool.TakeReleased | src/client/shmpool.cpp:148-161 | the first buffer that is released, unused and of this geometry is taken, and nothing else changes |
| ShmPool.ShmPool.Append | src/client/shmpool.cpp:170-178 | a new buffer at the end |
| ShmPool.ShmPool.ReuseBuffer | src/client/shmpool.cpp:138-179 | a first-fit reuse or a fresh buffer, none exactly when the file cannot grow or the native buffer is refused; what becomes of size, offset and mapping; the pool stands for independent arrays afterwards if and only if the byte count was not negative or the server refused it |
| ShmPool.ShmPool.CreateBuffer | src/client/shmpool.cpp:218-231 | an empty size gets nothing; otherwise a hand-out followed by the copy of the source, none exactly when the pool refuses; the slack does not grow when a buffer is found |
| ShmPool.ShmPool.FindBuffer | src/client/shmpool.cpp:233-241 | a hand-out without copy, none exactly when the pool refuses; the slack does not grow when a buffer is found, and by the refused buffer at most when not |
| ShmPool.ShmPool.SetReleased | src/client/buffer.cpp:120-129 | recorded as the release of one array |
| ShmPool.ShmPool.SetUsed | src/client/buffer.cpp:137-146 | recorded as use of one array |
| ShmPool.ShmPool.Copy | src/client/buffer.cpp:148-152 | recorded as a write to one array |
| ShmPool.ShmPool.Read | src/client/buffer.cpp:82-86 | what is seen at a buffer's address are the bytes of its own array |
| ShmPool.NegativeOverlaps | src/client/shmpool.cpp:164-177 | a negative request that the server lets pass makes the next buffer start inside an earlier one |
| ShmPool.ShmPool.SizesNonNegative | src/client/shmpool.cpp:164-177 | no pool with a buffer of negative size stands for independent arrays, whatever its history |
| ShmPool.SlackOverCalls | src/client/shmpool.cpp:163-178 | from any call to any later one, pool size minus allocated bytes grows by no more than what the native buffers refused in it asked for |
| ShmPool.SlackNeverGrows | src/client/shmpool.cpp:163-178 | while native buffers are created, pool size minus allocated bytes never grows |
| ShmPool.ShmPool.SlackFits | src/client/shmpool.cpp:163-178 | a pool's slack stays within its initial size and what it refused; within the initial size if it refused nothing |
| ShmPool.ShmPool.SumsFit | src/client/shmpool.cpp:164-166 | offset + bytes and bytes + size stay within any limit that initial size plus requested bytes keeps |
| PoolGrowth.GrowsOnlyIfNeeded | src/client/shmpool.cpp:163-168 | over any calls, the file stays as it is as long as all they ask for fits into the slack |
| PoolGrowth.GrowthKeepsSlack | src/client/shmpool.cpp:165-166 | it grows by the whole request: while every request exceeds the slack, the slack stays the same |
| PoolGrowth.ServedIff | src/client/shmpool.cpp:148-178 | a request is served if and only if a released buffer fits, or the server takes a new one for which there is room or can be made |
| FlipProtocol.FlipOwnedIff | plugins/egldeviceintegration/kms/eglfskmsscreen.cpp:345-403 | a flip keeps the ownership of locked buffers if and only if it does nothing, or finds no flip pending and gets a framebuffer if the front buffer has none |
| FlipProtocol.FailedFramebufferCrashes | plugins/egldeviceintegration/kms/eglfskmsscreen.cpp:369-403 | a first flip whose framebuffer cannot be created dereferences null |
| FlipProtocol.RunOwned | plugins/egldeviceintegration/kms/eglfskmsscreen.cpp:305-429 | over every run locked buffers are those of current and next, at most two, none released twice, and framebuffers match flipped live buffers one to one and are removed once, if and only if every flip that needed a framebuffer got one |
| FlipProtocol.SwapOwned | src/platform/deviceintegration/eglfscontext.cpp:102-119 | wait, resize if pending, flip: the order that keeps the ownership, if and only if the flip gets the framebuffer it may need |
| FlipProtocol.VtOwned | plugins/egldeviceintegration/kms/eglfskmsscreen.cpp:66-93 | VT switches keep it, also when the completion of the old flip comes late, if and only if the flip on return gets the framebuffer it may need |
| FlipProtocol.ResizeOwned | plugins/egldeviceintegration/kms/eglfskmsscreen.cpp:415-429 | a resize gives both buffers and all framebuffers back |
| FlipProtocol.DestroyBoOk | plugins/egldeviceintegration/kms/eglfskmsscreen.cpp:101-111 | destroying a buffer removes its framebuffer, which was live |
| FlipProtocol.LockFrontOk | plugins/egldeviceintegration/kms/eglfskmsscreen.cpp:113-138 | a buffer seen first gets a framebuffer of its own |
| FlipProtocol.FlipReuses | plugins/egldeviceintegration/kms/eglfskmsscreen.cpp:113-119 | a repeated flip of a buffer uses the framebuffer it has |
| FlipProtocol.ChosenModeTakesEffect | plugins/egldeviceintegration/kms/eglfskmsscreen.cpp:415-422 | a chosen mode is the running one after the next presentation |
| FlipProtocol.VtSwitchRestoresMode | plugins/egldeviceintegration/kms/eglfskmsscreen.cpp:431-443 | leaving the VT restores the saved CRTC, coming back sets the mode again |
| FlipProtocol.ResumeBetweenWaitAndFlipLeaks | plugins/egldeviceintegration/kms/eglfskmsscreen.cpp:334-367 | a VT resume between wait and flip loses a buffer |
| FlipProtocol.MutexHeldIffSuspendedOnce | plugins/egldeviceintegration/kms/eglfskmsscreen.cpp:323-332 | the mutex is held after a run if and only if the run suspended once: nothing releases it |
| FlipProtocol.PresentationBlocksIff | plugins/egldeviceintegration/kms/eglfskmsscreen.cpp:323-343 | after any run from a new screen a presentation blocks if and only if a flip is pending, the screen is not suspended, and it was suspended at some time before |
| FlipProtocol.PresentationBlocksAfterVtSwitch | plugins/egldeviceintegration/kms/eglfskmsscreen.cpp:323-343 | after a VT switch away and back the next presentation blocks |
| FlipEffects.SwapKeeps | src/platform/deviceintegration/eglfscontext.cpp:111-118 | a presentation with no mode pending keeps the surface, the mode and every cached framebuffer, and shows the flip it waited for |
| FlipEffects.StaysWithoutModeChange | plugins/egldeviceintegration/kms/eglfskmsscreen.cpp:101-138 | over every run without a chosen mode, the mode stays, the surface is the first one created, and every buffer not destroyed keeps its framebuffer id |
| FlipEffects.GoneIsRemoved | plugins/egldeviceintegration/kms/eglfskmsscreen.cpp:101-111 | a buffer that goes away takes its framebuffer with it, and no other |
| FlipEffects.ModeSetOnce | plugins/egldeviceintegration/kms/eglfskmsscreen.cpp:371-392 | over every run, a mode once set is not set again until another is chosen or the VT is left |
| FlipEffects.RunModesInRange | plugins/egldeviceintegration/kms/eglfskmsscreen.cpp:481-495 | over every run, the running and the pending mode are modes of the output |
| FlipEffects.FirstChoiceTakesEffect | plugins/egldeviceintegration/kms/eglfskmsscreen.cpp:481-495 | the first mode chosen waits through any run without presentation, and the next presentation runs it |
| FlipEffects.PresentsIff | plugins/egldeviceintegration/kms/eglfskmsscreen.cpp:345-403 | a flip nothing goes wrong with presents the front buffer if and only if there is a surface, the screen is on and not suspended; otherwise it changes nothing |
| FlipEffects.ShownIsCompleted | plugins/egldeviceintegration/kms/eglfskmsscreen.cpp:405-413 | every event shows the pending buffer if it completes a flip, and what was shown if not |
| FlipEffects.VtKeeps | plugins/egldeviceintegration/kms/eglfskmsscreen.cpp:71-93 | leaving the VT suspends and keeps every buffer; a repeated activation does nothing |
| FlipEffects.DarkPresentsNothing | plugins/egldeviceintegration/kms/eglfskmsscreen.cpp:353-361 | over every run of a screen that stays suspended or off, no buffer gets locked or flipped |
| FlipEffects.PowerIsLastSet | plugins/egldeviceintegration/kms/eglfskmsscreen.cpp:389-391 | over every run, a screen with DPMS has the power state the user last asked for, any other one its own: that of a flip never matters |
| KmsScreen.EglFSKmsScreen.FramebufferForBufferObject | plugins/egldeviceintegration/kms/eglfskmsscreen.cpp:113-138 | the cached framebuffer, or a new one that is then cached |
| KmsScreen.EglFSKmsScreen.Flip | plugins/egldeviceintegration/kms/eglfskmsscreen.cpp:345-403 | the branches of a flip amount to the flip of the protocol |
| KmsScreen.EglFSKmsScreen.FlipFinished | plugins/egldeviceintegration/kms/eglfskmsscreen.cpp:405-413 | current is released and next becomes current |
| KmsScreen.EglFSKmsScreen.WaitForFlip | plugins/egldeviceintegration/kms/eglfskmsscreen.cpp:334-343 | handling events until the flip is complete leaves nothing pending, unless suspended |
| KmsScreen.EglFSKmsScreen.DestroySurface | plugins/egldeviceintegration/kms/eglfskmsscreen.cpp:305-321 | both buffers and the surface are destroyed |
| KmsScreen.EglFSKmsScreen.ResizeSurface | plugins/egldeviceintegration/kms/eglfskmsscreen.cpp:415-422 | the pending mode is taken and the surface made anew |
| KmsScreen.EglFSKmsScreen.RestoreMode | plugins/egldeviceintegration/kms/eglfskmsscreen.cpp:431-443 | the saved CRTC is restored if there is one and a mode was set |
| KmsScreen.EglFSKmsScreen.ActiveChanged | plugins/egldeviceintegration/kms/eglfskmsscreen.cpp:66-93 | both directions of a VT switch |
| KmsScreen.EglFSKmsScreen.SwapBuffers | src/platform/deviceintegration/eglfscontext.cpp:102-119 | one presentation: wait, resize only if a mode is pending, flip; without one the surface and the mode stay and the flip waited for is shown |
| ScannerTypes.ParseJoin | tools/waylandscanner/waylandscanner.cpp:234-300 | a printed comma-separated list parses back to its items |
| ScannerTypes.JoinParse | tools/waylandscanner/waylandscanner.cpp:234-300 | and only printed lists parse |
| Scanner.PrintEvent | tools/waylandscanner/waylandscanner.cpp:234-275 | the loop with its comma flag prints exactly the declared parameters, joined by commas |
| Scanner.PrintEventArgument | tools/waylandscanner/waylandscanner.cpp:247-273 | one argument prints none, one or two parameters, with a comma before if needed |
| Scanner.PrintEventHandlerSignature | tools/waylandscanner/waylandscanner.cpp:277-300 | the handler's parameters, joined by commas |
| Scanner.PrintServerRequestCall | tools/waylandscanner/waylandscanner.cpp:752-765 | no argument is left blank by the two conditions |
| Scanner.PrintClientEventCall | tools/waylandscanner/waylandscanner.cpp:1098-1113 | the arguments joined by commas |
| Scanner.PrintServerEventForward | tools/waylandscanner/waylandscanner.cpp:777-784 | the handle and the arguments joined by commas |
| Scanner.PrintServerEventCall | tools/waylandscanner/waylandscanner.cpp:807-823 | the resource and the converted arguments joined by commas |
| Scanner.PrintArrayLocals | tools/waylandscanner/waylandscanner.cpp:1037-1049 | a local for each array argument |
| Scanner.PrintRequestArgument | tools/waylandscanner/waylandscanner.cpp:1054-1076 | one argument of a client request |
| Scanner.NewIdArgument | tools/waylandscanner/waylandscanner.cpp:225-232 | tells whether the message has a new_id |
| Scanner.PrintClientRequestCall | tools/waylandscanner/waylandscanner.cpp:1050-1077 | the object, a comma decided by counting, and the arguments |
| ScannerParams.HandlerParamTypes | tools/waylandscanner/waylandscanner.cpp:191-212 | for each type of the wire, the C type the static handler declares, on both sides: what the library passes |
| ScannerParams.DeclaredTypes | tools/waylandscanner/waylandscanner.cpp:191-275 | for each type of the wire, the parameters the virtual method or the sender declares, where in the list, with and without names |
| ScannerParams.DeclaredHead | tools/waylandscanner/waylandscanner.cpp:238-246 | what is declared in front of them |
| ScannerParams.PassedInOrder | tools/waylandscanner/waylandscanner.cpp:752-823 | adapters and senders pass argument i in position i, from the parameter declared for it |
| ScannerParams.LocalsInOrder | tools/waylandscanner/waylandscanner.cpp:1037-1049 | the array locals are declared in the order of the arguments |
| ScannerTheorems.ServerRequestAdapter | tools/waylandscanner/waylandscanner.cpp:741-767 | handler, virtual method and adapter call of every server request agree in arity, order and types, names printed or not |
| ScannerTheorems.ServerRequestAdapterIff | tools/waylandscanner/waylandscanner.cpp:741-767 | the adapter compiles if and only if no two arguments share a name and none is called client, resource or r |
| ScannerTheorems.ServerEventForwardIff | tools/waylandscanner/waylandscanner.cpp:770-786 | the sender without resource calls the one with resource correctly if and only if argument names differ and none is that of the member it uses |
| ScannerTheorems.ServerEventCallIff | tools/waylandscanner/waylandscanner.cpp:788-825 | the sender compiles and passes what the library's sender expects if and only if argument names differ, none is resource and none is that of an array local |
| ScannerTheorems.ArrayLocalClashes | tools/waylandscanner/waylandscanner.cpp:1037-1049 | the smallest message whose array local has the name of an argument |
| ScannerTheorems.ClientEventAdapterIff | tools/waylandscanner/waylandscanner.cpp:1086-1115 | a client event adapter is correct if and only if the event has no untyped new_id, its names differ and none is data or object |
| ScannerTheorems.RequestCallParses | tools/waylandscanner/waylandscanner.cpp:1050-1077 | a client request call is a comma-separated list if and only if the counted comma agrees with the printed arguments |
| ScannerTheorems.ClientRequestCallIff | tools/waylandscanner/waylandscanner.cpp:1022-1077 | it compiles and passes the declared parameters in order with the types the library expects if and only if the comma agrees and no two of its names clash: parameters, array locals, and the member that holds the proxy |
| ScannerTheorems.RequestListsAligned | tools/waylandscanner/waylandscanner.cpp:234-275 | declared parameters, printed arguments and library parameters go in step |
| ScannerTheorems.ArraysDeclaredOnce | tools/waylandscanner/waylandscanner.cpp:1037-1072 | the array locals are those used, each declared once among the locals |
| ScannerTheorems.LocalsDeclaredOnceIff | tools/waylandscanner/waylandscanner.cpp:1037-1072 | every array local used is declared exactly once in the function if and only if no parameter has its name |
| ScannerTheorems.BadRequestCalls | tools/waylandscanner/waylandscanner.cpp:1050-1052 | the two smallest requests whose call is malformed |
| Pairing.PairedIff | declarative/xwayland/xwaylandmanager.cpp:719-736 | after any orderly run a window shows a surface exactly when it named its id and the surface was created and not destroyed since |
| Pairing.UnpairedIff | declarative/xwayland/xwayland.cpp:135-153 | the unpaired list holds, once each, exactly the windows whose surface has not been created yet |
| Pairing.OrderDoesNotMatter | declarative/xwayland/xwayland.cpp:135-153 | orderly runs of the same events in any order, destructions after pairing included, end with the same pairing |
| Pairing.ClientlessOrderMatters | declarative/xwayland/xwayland.cpp:137-140 | for a surface without client whose id a window names the order does matter |
| Pairing.FirstIdStays | declarative/xwayland/xwaylandshellsurface.cpp:135-141 | no event changes an id once set |
| Pairing.PairingAgainIff | declarative/xwayland/xwaylandshellsurface.cpp:595-600 | a window that lost its surface is paired again by a surface after the message if and only if its stored id is none or the same |
| Pairing.OrderMattersAfterLoss | declarative/xwayland/xwaylandshellsurface.cpp:595-600 | a run in which a window loses its surface: a new one is then found if it comes before the message, and after it if and only if it has the old id |
| Pairing.SurfaceStays | declarative/xwayland/xwaylandshellsurface.cpp:148-157 | over every run, a window shows its surface until that is destroyed |
| Pairing.MessageIgnoredIff | declarative/xwayland/xwaylandmanager.cpp:719-736 | a message changes nothing if and only if its window is unknown or shows a surface |
| Pairing.FirstNamedFirstServed | declarative/xwayland/xwayland.cpp:142-150 | of two windows that name the same id, the first gets the surface and the other waits on |
| XWayland.ShellSurface.SetSurfaceId | declarative/xwayland/xwaylandshellsurface.cpp:135-141 | write once |
| XWayland.ShellSurface.SetSurface | declarative/xwayland/xwaylandshellsurface.cpp:148-157 | write once until the surface is gone |
| XWayland.XWaylandManager.HandleCreateNotify | declarative/xwayland/xwaylandmanager.cpp:354-367 | a window that is not ours gets a shell surface |
| XWayland.XWaylandManager.HandleSurfaceId | declarative/xwayland/xwaylandmanager.cpp:719-736 | the message step of the pairing |
| XWayland.XWaylandManager.FindWaiting | declarative/xwayland/xwayland.cpp:142-146 | the first unpaired window with this id |
| XWayland.XWaylandManager.PairAt | declarative/xwayland/xwayland.cpp:147-150 | this window gets the surface and leaves the list |
| XWayland.XWaylandManager.HandleSurfaceCreated | declarative/xwayland/xwayland.cpp:135-153 | the surface step of the pairing |
| XWayland.ShellSurface.HandleSurfaceDestroyed | declarative/xwayland/xwaylandshellsurface.cpp:595-600 | the window forgets its surface and keeps its id |
| XWayland.XWaylandManager.SurfaceDestroyed | declarative/xwayland/xwaylandshellsurface.cpp:156-157 | the destruction step of the pairing: every window showing the surface is told |
| Restack.RestackedGathers | declarative/xwayland/xcbwindow.cpp:80-94 | restacking gathers the listed windows below the first one, last occurrence counting, and keeps the order of the others |
| Restack.RestackedPermutes | declarative/xwayland/xcbwindow.cpp:80-94 | for any list, members or not, the stack stays a permutation |
| Restack.RaisedOnTop | declarative/xwayland/xcbwindow.cpp:96-103 | with raise the list is on top and the others below in their order |
| Restack.StrangerDivides | declarative/xwayland/xcbwindow.cpp:80-94 | a window that is not in the stack divides the list: what precedes and what follows it are restacked on their own |
| Restack.XServer.RestackWindows | declarative/xwayland/xcbwindow.cpp:80-94 | the loop issues these requests |
| Restack.XServer.RestackWindowsWithRaise | declarative/xwayland/xcbwindow.cpp:96-103 | for distinct members the result is the list followed by all others |
| ModeText.ScanDecimal | plugins/egldeviceintegration/kms/eglfskmsdevice.cpp:180 | the number format reads a printed number back and stops after it |
| ModeText.SizeTextRoundTrip | plugins/egldeviceintegration/kms/eglfskmsintegration.cpp:206-208 | a size saved as text is read back, for every size |
| ModeText.ScanSizeIff | plugins/egldeviceintegration/kms/eglfskmsdevice.cpp:180 | which texts are read as a size, and as which: the whole grammar of the format |
| ScreenLayout.ServedIsLaidOut | plugins/egldeviceintegration/kms/eglfskmsdevice.cpp:443-460 | connectors that each take what is free in their turn end up with a layout fair to all of them |
| ScreenLayout.LaidOutStep | plugins/egldeviceintegration/kms/eglfskmsdevice.cpp:443-460 | a connector that takes a free CRTC of its own, or gets nothing only because none is free or it is unwanted, keeps the layout fair to all connectors before it |
| ScreenLayout.CrtcsDistinct | plugins/egldeviceintegration/kms/eglfskmsdevice.cpp:314-315 | no two screens share a CRTC |
| ScreenLayout.ScreensTile | plugins/egldeviceintegration/kms/eglfskmsdevice.cpp:443-460 | screens tile the x axis without gap or overlap |
| KmsDevice.WordsInAnyCase | plugins/egldeviceintegration/kms/eglfskmsdevice.cpp:172-179 | the words are read whatever the case of their letters |
| KmsDevice.ReadIff | plugins/egldeviceintegration/kms/eglfskmsdevice.cpp:172-187 | how every text is read, whatever the case of its letters: words, then sizes, then modelines, and anything else as "preferred" |
| KmsDevice.ScanModes | plugins/egldeviceintegration/kms/eglfskmsdevice.cpp:229-256 | one pass finds the lowest matching, running and preferred modes and a best mode that none beats in both dimensions |
| KmsDevice.BestIsUnbeaten | plugins/egldeviceintegration/kms/eglfskmsdevice.cpp:249-255 | the one candidate kept by the scan is never strictly smaller in both dimensions |
| KmsDevice.SelectMode | plugins/egldeviceintegration/kms/eglfskmsdevice.cpp:219-280 | the selection with the code's precedence |
| KmsDevice.SelectedIsAskedFor | plugins/egldeviceintegration/kms/eglfskmsdevice.cpp:219-280 | the mode selected is the modeline, a listed mode of the configured size, or the running one if listed and asked for, and otherwise one that no other beats in both dimensions |
| KmsDevice.PreferredIsFirstFlagged | plugins/egldeviceintegration/kms/eglfskmsdevice.cpp:246-247 | what counts as preferred is the first listed mode flagged so, and a running mode is always in the list |
| KmsDevice.BestExceedsLast | plugins/egldeviceintegration/kms/eglfskmsdevice.cpp:249-255 | the candidate kept is the last mode or larger than it in both dimensions |
| KmsDevice.SelectedInRangeIff | plugins/egldeviceintegration/kms/eglfskmsdevice.cpp:258-280 | the selected index lies in the list if and only if the text length is not used as an index beyond it |
| KmsDevice.CurrentSelectsRunningIff | plugins/egldeviceintegration/kms/eglfskmsdevice.cpp:263-269 | "current" selects an unlisted running mode if and only if the connector has six modes |
| KmsDevice.SaveAndSelectAgainIff | plugins/egldeviceintegration/kms/eglfskmsintegration.cpp:203-208 | a mode saved and selected again, whatever index counts as preferred, keeps its size if and only if it was not saved as preferred or the best mode has its size |
| KmsDevice.PreferredComesBack | plugins/egldeviceintegration/kms/eglfskmsdevice.cpp:249-274 | a mode saved as preferred keeps its size if every mode has its size or is smaller in both dimensions, and only if none is larger in both |
| KmsDevice.PreferredComesBackIff | plugins/egldeviceintegration/kms/eglfskmsdevice.cpp:249-274 | for modes whose sizes all compare with it: if and only if none is larger in both dimensions |
| KmsDevice.PreferredIsReplaced | plugins/egldeviceintegration/kms/eglfskmsdevice.cpp:271-274 | a preferred 800x600 is saved as preferred and replaced by 1920x1080 |
| KmsDevice.CrtcForConnector | plugins/egldeviceintegration/kms/eglfskmsdevice.cpp:61-83 | finds the first free CRTC of the first encoder that allows one, and fails only if there is none |
| KmsDevice.UnwantedIff | plugins/egldeviceintegration/kms/eglfskmsdevice.cpp:191-292 | the four reasons for which a connector is not wanted, and no others |
| KmsDevice.ChosenWidthAskedFor | plugins/egldeviceintegration/kms/eglfskmsscreen.cpp:205-211 | a screen is as wide as a mode its configuration asks for |
| KmsDevice.EglFSKmsDevice.ScreenForConnector | plugins/egldeviceintegration/kms/eglfskmsdevice.cpp:158-318 | a screen exactly when one is wanted and a CRTC is free, with the width of a mode its configuration asks for and a CRTC one of its encoders lists; the mode list is indexed out of range exactly when the two lengths are mixed up then |
| KmsDevice.EglFSKmsDevice.CreateScreens | plugins/egldeviceintegration/kms/eglfskmsdevice.cpp:431-460 | every connector has a screen exactly when wanted and granted a CRTC free at that time; screens come in connector order, each as wide as its configuration asks for, on a CRTC one of its encoders lists, and starting at the sum of the widths before it; it holds of all connectors before the first that indexes its mode list out of range |
| TouchSequence.BracketedIffProper | src/client/touch.cpp:78-149 | the signals of a run are well bracketed, counting points, if and only if every event was proper |
| TouchSequence.ActiveIffUncancelledDown | src/client/touch.cpp:89-120 | in every run, proper or not, active exactly while a point that was not cancelled is down |
| TouchSequence.TimestampsMatch | src/client/touch.cpp:82-132 | each point has as many timestamps as positions, and one more once it is up |
| TouchTracks.FingerTracked | src/client/touch.cpp:78-134 | in every run, the point of a finger has the data of its touch and the positions and times of its own motions in order, whatever other fingers do; lifting adds that serial and time and changes no other point |
| TouchTracks.PointsKept | src/client/touch.cpp:82-99 | points, lifted or cancelled, are kept until a touch starts the next sequence |
| TouchTracks.FramesSignalled | src/client/touch.cpp:136-141 | the end of every frame, and nothing else, is signalled as one |
| Touch.Touch.GetPressedPoint | src/client/touch.cpp:56-64 | the first pressed point with this id |
| Touch.Touch.TouchDown | src/client/touch.cpp:78-99 | a point is added or starts a sequence that forgets the last one |
| Touch.Touch.TouchUp | src/client/touch.cpp:101-121 | the point is lifted, and the sequence finished when none is down |
| Touch.Touch.TouchMotion | src/client/touch.cpp:123-134 | the point gets one more position |
| Touch.Touch.TouchFrame | src/client/touch.cpp:136-141 | the end of a frame is signalled and nothing else changes |
| Touch.Touch.TouchCancel | src/client/touch.cpp:143-149 | the sequence is cancelled, its points kept as they are |
| CursorTheme.FirstAvailableIsLatest | src/client/cursortheme.cpp:228-235 | of the names a theme has, the one inserted last is used |
| CursorTheme.UncachedIff | src/client/cursortheme.cpp:218-243 | the uncached answer: the cursor of the shape's name inserted last of those available, the arrow's if there is none, and nothing if there is no arrow or no theme |
| CursorTheme.CursorThemePrivate.LoadTheme | src/client/cursortheme.cpp:196-207 | a loaded theme is not loaded again |
| CursorTheme.CursorThemePrivate.RequestCursor | src/client/cursortheme.cpp:218-243 | after any history the cached answer is that of the uncached lookup with fallback to the arrow; what was found is remembered |
| CursorTheme.CursorThemePrivate.CursorImage | src/client/cursortheme.cpp:258-271 | the first image of that cursor, if there is one |

## Left out

- screencast_failed and screencast_cancelled: neither starts a new recording; both end the runs considered here, and there is one setup event for each screencast.
- What the consumer of frameRecorded reads: the handler frees the buffer first, so it may be overwritten.
- Memory ordering of the two threads' plain accesses: steps are interleaved accesses.
- ShmPool.ShmPool.ReuseBuffer: a pool whose remap failed is not used again, as the assertion at src/client/shmpool.cpp:114 demands, nor one with a buffer of negative size; 32-bit wrap-around is excluded by ShmPool.ShmPool.SumsFit instead of being modelled.
- ShmPool.ShmPool.CreateBuffer: a source to be copied is required to hold as many bytes as the buffer, a count memcpy can take.
- The names of types, functions and keywords of C++, with which an argument of a message may also clash.
- What a program does after dereferencing a null framebuffer: the model marks the state as crashed.
- The flip mutex is shared by all screens in the source; the model has one screen, and suspending while another thread waits for a flip is not modelled.
- EDID parsing, physical size and DPI: the fifth descriptor read runs past the 128-byte block.
- The scanner's class scaffolding, enums, header guards and XML reading: fixed text; C++ text is modelled as lists of tokens.
- Destruction of windows before pairing: the unpaired list then keeps a window that is gone.
- Bit masks of the CRTC allocator are sets of bit positions; ids of 32 and more, whose shift the language does not define, are not distinguished.
- Pairing.OrderDoesNotMatter: surfaces without a client, which the source treats as Xwayland's, take part in the orderly runs only if no window names their id; otherwise the order matters (Pairing.ClientlessOrderMatters).
- parseModeline: its result is a parameter.
- The touch mirroring of EglFSWaylandInput: the point is removed before it is read, so the mirror claim does not hold as written.
- XWayland server start, sockets, process launching, QML registration, logging: plumbing.
- Registry, Seat, Output, Region, Plasma roles, format tables: easy invariants that would dilute the model.
