# A model of WolfEngine's stateful parts

This project models the parts of WolfEngine that keep state or run loops, and proves what
they promise over whole runs.  `dafny verify dfyconfig.toml` checks it.

- `ViGEm.dfy`: the client library for virtual gamepads.  A bus with numbered slots, the
  search for a free serial, two-phase plug-in, removal, reports.  `Gamepads.dfy` is the
  engine's own table of gamepads above it.
- `GameTime.dfy`: the game clock, with a fixed or variable step and a frame rate window.
- `Sessions.dfy`: what one accepted connection does, in the native, WebSocket and fiber
  loops.  `Server.dfy`: all connections, the accept loops and the shutdown channel as
  interleaved steps, for the asynchronous server and for the fiber server.
- `Cleanup.dfy`: releasing FFmpeg objects through guard chains.  `Packets.dfy`: the loops
  that collect encoded packets and feed the parser.  `Lifecycles.dfy`: initialising, coding
  and finishing in any order, and what is leaked.
- `Lz4.dfy`: decompression into a buffer that is doubled until it fits.  `Lzma.dfy`: the
  framing of LZMA1 and LZMA2 and the chunked decoding loop.
- `Bytes.dfy`: byte buffers used by the others.

Objects that the source updates in place are classes, and every method is proved against a
function on values; the theorems are about those functions.  Operating system, driver, codec
and peer answers are parameters: a set of refused serials, the result of a wait, the packets
of an encoder, the pieces a decoder makes, what a callback does to the buffer.  Time is
counted in exact reals.

## Where the code does not do what it or its documentation says

The model follows the code; each of these is stated by the members named.

- `vigem_target_add` means to unplug the device after a failed wait, but the removal refuses
  because the target is not yet CONNECTED.  The slot is lost until the bus is closed
  (`FailedWaitKeepsSlot`, `StraySlotsAreNeverReleased`).
- `vigem_disconnect` leaves targets CONNECTED.  A target from before the disconnect can
  unplug another one's device (`StaleRemoval`, `DisconnectBreaksOwnership`).
- `update` checks the serial number and not the state, so a report can reach another target's
  device (`UpdateOfRemovedTargetReachesAnother`); `ReportStaysOwnIff` says exactly when it
  does not.
- `vigem_connect` destroys the device list when a detail query fails and goes on using it: it
  is enumerated once more and destroyed a second time, and the devices after it are not found.
  A failed call can leave the bus open, and handles to devices of another version are lost
  (`ConnectOutcome`, `LostHandles`).
- A failed `add_gamepad_controller` says that it frees the target; it calls the removal, which
  refuses, and the target is never freed (`AddGamepad`, vigem_client.cpp line 122).
- The clock's snapping comment speaks of a quarter of a millisecond; the code uses 0.0004 s.
  `MAX_DELTA_IN_MILLIS` is compared with seconds.
- A text reply over WebSocket is always 1024 zero bytes, because the buffer is reset between
  the callback and the reply (`WsSessionActs`).  The code passed to the close after a peer's
  close frame is 1003, and the reserved code 1006 after a reply that failed (`WsCloseCode`).
- A native session panics, and then never calls the close callback, when a callback leaves a
  size above 1024 (`PanicsIff`, `FinishedConnections`).
- A failed FFmpeg initialisation leaks what the context holds, and a failed decode leaks the
  parser (`InitFailureLeaks`, `CodingFailureLeaksTheParser`).  Flushing overwrites a pointer of
  the context: a context encodes once and decodes once, and finishing it afterwards leaks its
  frame or its packet (`EncodesOnce`, `DecodesOnce`).  A decode that delivers a frame replaces
  the output pointer and leaks the buffer it has just allocated (`BufferLeakedIffShown`), and
  a decoder that is set up and finished leaks its pixels (`OneLife`).  Initialising again
  leaks the context before (`BooksAfterInit`).
- LZ4 and LZMA compress inputs that they refuse to decompress (`RoundTrip`, `RoundTrip1`).
- LZMA2 decompression ignores the property byte of the frame and always sets up a decoder with
  property 0, a dictionary of 4 KiB, while the encoder's dictionary covers the whole source.
  What has a match that reaches farther back is lost (`RoundTrip2`, `TwoBlocksAreLost`); with
  the frame's own property it would not be (`OwnPropertyWouldDo`).

## Model

| member | source | states |
|---|---|---|
| `ViGEm.ConnectedTargetsOwnTheirSlots` | wolf/src/system/os/cxx/vigem_client/ViGEmClient.cpp:338-560 | in every run without a disconnect, every CONNECTED target owns its slot, no two share a serial, and a report reaches that target's device and no other |
| `ViGEm.RunKeepsOwnership` | wolf/src/system/os/cxx/vigem_client/ViGEmClient.cpp:279-560 | in every run, disconnects included, ownership holds as long as no stale target is removed |
| `ViGEm.NextKeepsInv` | wolf/src/system/os/cxx/vigem_client/ViGEmClient.cpp:338-560 | every single call keeps the ownership invariant, except removal through a stale target |
| `ViGEm.StaleRemoval` | wolf/src/system/os/cxx/vigem_client/ViGEmClient.cpp:514-560 | removal through a stale target breaks the invariant if and only if a current target has the same serial |
| `ViGEm.ConnectedOwnsIffCurrent` | wolf/src/system/os/cxx/vigem_client/ViGEmClient.cpp:279-291 | a CONNECTED target owns its slot if and only if it was connected through the handle open now |
| `ViGEm.AddFindsLeastSerial` | wolf/src/system/os/cxx/vigem_client/ViGEmClient.cpp:383-467 | the search stops at the least accepted serial in 1..65535; it reports no free slot if and only if all are refused, and then only the serial number changes, to 65536 |
| `ViGEm.AddSucceedsIff` | wolf/src/system/os/cxx/vigem_client/ViGEmClient.cpp:349-468 | adding succeeds if and only if the bus is open, the target is initialized or disconnected, some serial is accepted and the wait does not fail; the target is then CONNECTED, and the old-driver mark is set only for the error that means an old driver |
| `ViGEm.AddErrors` | wolf/src/system/os/cxx/vigem_client/ViGEmClient.cpp:349-466 | the error of adding by the checks in their order, of which the first three change nothing |
| `ViGEm.RemoveErrors` | wolf/src/system/os/cxx/vigem_client/ViGEmClient.cpp:514-560 | the error of removing; on success exactly the target's slot becomes free and it is DISCONNECTED, otherwise nothing changes |
| `ViGEm.FailedWaitKeepsSlot` | wolf/src/system/os/cxx/vigem_client/ViGEmClient.cpp:461-465 | after a failed wait the call fails with the no-op removal's error, the state is unchanged and the slot stays taken by no connected target |
| `ViGEm.StraySlotsAreNeverReleased` | wolf/src/system/os/cxx/vigem_client/ViGEmClient.cpp:514-529 | such a slot stays taken, by the same target, through any run without a disconnect |
| `ViGEm.ReportStaysOwnIff` | wolf/src/system/os/cxx/vigem_client/ViGEmClient.cpp:788-838 | a report to a target in any state reaches no device but its own if and only if no other connected target has its serial and the serial was not lost by another target |
| `ViGEm.ReportsStayOwnIff` | wolf/src/system/os/cxx/vigem_client/ViGEmClient.cpp:788-838 | the same after every run that removes no stale target, told by an account the caller can keep from the results of its calls |
| `ViGEm.ReportStaysOwnIffUnshared` | wolf/src/system/os/cxx/vigem_client/ViGEmClient.cpp:788-838 | while no slot has been lost, the serials of the connected targets alone decide it |
| `ViGEm.AccountsKept` | wolf/src/system/os/cxx/vigem_client/ViGEmClient.cpp:458-466 | slots are lost by an add whose wait fails and by freeing a connected target, given back by closing the bus, and lost in no other way |
| `ViGEm.AccountsHold` | wolf/src/system/os/cxx/vigem_client/ViGEmClient.cpp:338-560 | over every run that removes no stale target the caller's account lists exactly the stray slots, with their owners |
| `ViGEm.UpdateOfRemovedTargetReachesAnother` | wolf/src/system/os/cxx/vigem_client/ViGEmClient.cpp:788-838 | a run after which a report for a removed target lands on another target's device |
| `ViGEm.DisconnectBreaksOwnership` | wolf/src/system/os/cxx/vigem_client/ViGEmClient.cpp:279-291 | a run with a disconnect that ends with two CONNECTED targets on one serial, and removing one unplugs the other |
| `ViGEm.ConnectOutcome` | wolf/src/system/os/cxx/vigem_client/ViGEmClient.cpp:189-276 | connecting succeeds if and only if some device is compatible and no detail query failed before it; when the handle is left open, how many were opened, and when the device list is used after it was destroyed |
| `ViGEm.ConnectError` | wolf/src/system/os/cxx/vigem_client/ViGEmClient.cpp:189-276 | the error is told by the device at which the enumeration ends, or else by the last one |
| `ViGEm.LostHandles` | wolf/src/system/os/cxx/vigem_client/ViGEmClient.cpp:222-231 | the handles opened are the one left and the lost ones, counted from what the devices answered |
| `ViGEm.ScanStops` | wolf/src/system/os/cxx/vigem_client/ViGEmClient.cpp:207-266 | nothing changes after the first compatible device, nor after a failed detail query |
| `ViGEm.Connect` | wolf/src/system/os/cxx/vigem_client/ViGEmClient.cpp:165-277 | error and handle are those of the scan, a second connect is refused, no event handle leaks, the handles opened and lost are those counted, and a destroyed list is used twice if a detail query failed |
| `ViGEm.OpenFirstCompatible` | wolf/src/system/os/cxx/vigem_client/ViGEmClient.cpp:189-272 | the enumeration loop computes the scan of the devices |
| `ViGEm.Os.Enumerate` | wolf/src/system/os/cxx/vigem_client/ViGEmClient.cpp:190-197 | a device is found only in a list that was not destroyed; use of a destroyed one is recorded |
| `ViGEm.Os.DestroyList` | wolf/src/system/os/cxx/vigem_client/ViGEmClient.cpp:215-274 | destroying a list a second time is recorded |
| `ViGEm.Disconnect` | wolf/src/system/os/cxx/vigem_client/ViGEmClient.cpp:279-291 | the handle is closed with its slots, and no target is touched |
| `ViGEm.TargetAdd` | wolf/src/system/os/cxx/vigem_client/ViGEmClient.cpp:338-477 | error, slots and target fields are those of the specified call; both events are closed on every path |
| `ViGEm.SearchSlot` | wolf/src/system/os/cxx/vigem_client/ViGEmClient.cpp:383-467 | the in-place search meets the same specification |
| `ViGEm.FirstAccepted` | wolf/src/system/os/cxx/vigem_client/ViGEmClient.cpp:383-417 | the least accepted serial from a given one on |
| `ViGEm.TargetRemove` | wolf/src/system/os/cxx/vigem_client/ViGEmClient.cpp:514-560 | error, slots and target fields are those of the specified call; the event is closed on every path |
| `ViGEm.TargetUpdate` | wolf/src/system/os/cxx/vigem_client/ViGEmClient.cpp:788-838 | when each error is given, and which device a report reaches |
| `ViGEm.TargetFree` | wolf/src/system/os/cxx/vigem_client/ViGEmClient.cpp:332-336 | a non-null target is freed, once per call |
| `ViGEm.Target.constructor` | wolf/src/system/os/cxx/vigem_client/ViGEmClient.cpp:306-330 | a new target is initialized, has serial 0 and its kind's vendor and product |
| `ViGEm.Os.CreateEvent` | wolf/src/system/os/cxx/vigem_client/ViGEmClient.cpp:344-347 | a fresh event or none |
| `ViGEm.Os.CloseEvent` | wolf/src/system/os/cxx/vigem_client/ViGEmClient.cpp:470-474 | an event that exists is closed |
| `ViGEm.BusHandle.PlugIn` | wolf/src/system/os/cxx/vigem_client/ViGEmClient.cpp:403-417 | a serial is accepted only if it is free on this handle |
| `Gamepads.VigemClient.constructor` | wolf/src/system/os/cxx/vigem_client/vigem_client.cpp:13-40 | the table starts empty; the driver object is kept even when connecting failed |
| `Gamepads.VigemClient.AddGamepad` | wolf/src/system/os/cxx/vigem_client/vigem_client.cpp:83-133 | the index returned is that of a new, CONNECTED target appended to the table; -1 leaves the table alone and frees nothing; the exact condition for an index |
| `Gamepads.VigemClient.Pair` | wolf/src/system/os/cxx/vigem_client/vigem_client.cpp:114-127 | plugging in: its exact condition, and that nobody else's slot changes when it fails |
| `Gamepads.VigemClient.SendXbox360Input` | wolf/src/system/os/cxx/vigem_client/vigem_client.cpp:135-158 | true for every listed index; while the bus is open the report reaches the device of the target listed there and no other, afterwards none |
| `Gamepads.VigemClient.ClearGamepadState` | wolf/src/system/os/cxx/vigem_client/vigem_client.cpp:160-175 | the report reaches the listed target's device, and the answer is false all the same |
| `Gamepads.VigemClient.ResetDriver` | wolf/src/system/os/cxx/vigem_client/vigem_client.cpp:71-81 | the bus is closed unless there is no driver object |
| `Gamepads.VigemClient.GetNumberOfGamepads` | wolf/src/system/os/cxx/vigem_client/vigem_client.cpp:177-180 | the number of successful adds |
| `Gamepads.VigemClient.Destroy` | wolf/src/system/os/cxx/vigem_client/vigem_client.cpp:42-69 | the bus is closed first, so no target changes; each listed target is freed once, in order |
| `Gamepads.VigemClient.Serve` | wolf/src/system/os/cxx/vigem_client/vigem_client.cpp:83-180 | over any calls of the client, an index keeps naming the same target: every reply is the one told by the final table, reports included, there is one entry per successful add, and every listed target owns its slot while the bus is open |
| `Chrono.GameTime.constructor` | wolf/src/system/chrono/gametime.rs:40-55 | the initial clock, in variable mode, satisfies the invariant |
| `Chrono.GameTime.Reset` | wolf/src/system/chrono/gametime.rs:83-90 | exactly the window, the left-over and the last instant are restarted; frame count and total stay |
| `Chrono.GameTime.SetFixedTimeStep` | wolf/src/system/chrono/gametime.rs:107-109 | only the mode changes |
| `Chrono.GameTime.SetTargetElapsedSeconds` | wolf/src/system/chrono/gametime.rs:170-172 | only the target changes |
| `Chrono.GameTime.RunDueSteps` | wolf/src/system/chrono/gametime.rs:242-249 | the inner loop ends after as many rounds as whole targets fit in the left-over, and moves exactly that time to the total |
| `Chrono.GameTime.TickFn` | wolf/src/system/chrono/gametime.rs:213-268 | one tick makes the closed-form number of callbacks, counts each as a frame, makes exactly one in variable mode, and leaves the closed-form clock |
| `Chrono.GameTime.Advance` | wolf/src/system/chrono/gametime.rs:226-258 | how a delta moves the clock on in either mode |
| `Chrono.GameTime.TrackFrameRate` | wolf/src/system/chrono/gametime.rs:260-267 | the window is published and restarted exactly when a second has been counted |
| `Chrono.GuardHoldsForever` | wolf/src/system/chrono/gametime.rs:242 | the inner loop's guard holds on every round if and only if the target is not positive |
| `Chrono.VariableTicks` | wolf/src/system/chrono/gametime.rs:250-258 | over any ticks in variable mode there is one frame for each, the total grows by the gaps between the instants, cut off at 60000 s, the last gap is shown, and nothing is left over |
| `Chrono.FixedTicks` | wolf/src/system/chrono/gametime.rs:221-249 | over any ticks in fixed mode, told by the instants: the frames are the floor of left-over plus snapped gaps over the target; total, left-over, time shown and last instant follow |
| `Chrono.RolledTold` | wolf/src/system/chrono/gametime.rs:260-267 | what the end of a tick does to the window, on either side of one second |
| `Chrono.FixedStepClosedForm` | wolf/src/system/chrono/gametime.rs:236-249 | over any ticks with a constant target the callbacks are the whole targets in left-over plus all effective deltas, the total grows by that many targets, and the rest, in [0, target), is left over |
| `Chrono.ChunkingIndependence` | wolf/src/system/chrono/gametime.rs:236-249 | two ways to cut the same effective time into ticks give the same frames, total and left-over |
| `Chrono.OnlyTheLastInstantMatters` | wolf/src/system/chrono/gametime.rs:213-249 | when no delta is clamped or snapped, the frames depend on the last instant only |
| `Chrono.TimeConserved` | wolf/src/system/chrono/gametime.rs:213-258 | over any run of all operations, total plus left-over grows by the effective deltas less what resets and variable ticks drop |
| `Chrono.DriftBounded` | wolf/src/system/chrono/gametime.rs:221-239 | effective and clamped time differ by less than 0.0004 s per fixed tick, and not at all without one |
| `Chrono.FramesConserved` | wolf/src/system/chrono/gametime.rs:219-267 | between resets the published rates plus the open window equal the frames counted, and the seconds counter is the fractional part of all raw time |
| `Chrono.PublishedRateMeasuresWindow` | wolf/src/system/chrono/gametime.rs:260-267 | a rate published in fixed mode, times the target, is within one target of the window's effective time |
| `Chrono.Whole` | wolf/src/system/chrono/gametime.rs:242-249 | the number of whole steps, characterised by its bounds |
| `Chrono.WholeIsFloor` | wolf/src/system/chrono/gametime.rs:242-249 | that number is the floor of the quotient |
| `Sessions.HandleTcpConnection` | wolf/src/stream/tcp/tcp_server.rs:27-87 | the native loop: how it ends and everything it does, for every sequence of reads, callbacks and writes |
| `Sessions.HandleWsTextMsg` | wolf/src/stream/tcp/tcp_server.rs:90-158 | the text branch |
| `Sessions.HandleWsConnection` | wolf/src/stream/tcp/tcp_server.rs:162-296 | the WebSocket loop, and the one close frame, sent last, exactly when the loop is left |
| `Sessions.FiberHandleTcpConnection` | wolf/src/stream/tcp/tcp_server_fiber.rs:23-80 | the fiber loop |
| `Sessions.Buffer.Reset` | wolf/src/stream/common/buffer.rs:24-27 | size zero, all bytes zero, the type kept |
| `Sessions.Buffer.Run` | wolf/src/stream/tcp/tcp_server.rs:67 | the callback sees the buffer and may overwrite all of it |
| `Sessions.SessionsAreOrderly` | wolf/src/stream/tcp/tcp_server.rs:48-86 | in every session a refused callback is the last one, and the session ends for that reason if and only if there is one; no close frame is sent inside the loop |
| `Sessions.MessagesAreDelivered` | wolf/src/stream/tcp/tcp_server.rs:207-251 | every acceptable message is given to the callback exactly once, in order, its bytes at the front of the buffer and its length as size |
| `Sessions.WsSessionActs` | wolf/src/stream/tcp/tcp_server.rs:106-147 | every text reply is 1024 zero bytes, so a text reply is never ill-formed; every callback sees a size in 1..1024 |
| `Sessions.AsciiIsUtf8` | wolf/src/stream/tcp/tcp_server.rs:130-146 | bytes below 128 are well-formed UTF-8 (section 4 of RFC 3629) |
| `Sessions.WsStepEnds` | wolf/src/stream/tcp/tcp_server.rs:201-287 | the exact event that ends a session, with its reason; timeouts, the end of the stream and read errors never do |
| `Sessions.WsCloseCode` | wolf/src/stream/tcp/tcp_server.rs:289-295 | the close code is decided by the reason; 1006 is sent if and only if a reply could not be (section 7.4.1 of RFC 6455) |
| `Sessions.PanicsIff` | wolf/src/stream/tcp/tcp_server.rs:75-76 | the native loop panics if and only if an accepting callback leaves a size above 1024; the other loops never do |
| `Sessions.PanickedIff` | wolf/src/stream/tcp/tcp_server.rs:48-86 | the same over whole sessions, told by what the callbacks left |
| `Sessions.RefusedSessions` | wolf/src/stream/tcp/tcp_server_fiber.rs:42-61 | in a refused session the refusal is the last thing that happens, except that a fiber session still replies if the callback left a size |
| `Sessions.SessionReplies` | wolf/src/stream/tcp/tcp_server.rs:75-77 | over whole sessions of every kind: a reply directly follows the callback it answers and carries the bytes that callback left, every callback that calls for a reply gets one, and beyond its message a callback sees what the buffer held |
| `Sessions.RoundsTold` | wolf/src/stream/tcp/tcp_server.rs:48-86 | each round adds the callback's own answer to what it saw, and a reply that gets out as the event says; after the end nothing is added |
| `Sessions.SessionEnds` | wolf/src/stream/tcp/tcp_server_fiber.rs:23-80 | native and fiber sessions end on a read error, a refusal or an unsent reply to an accepting callback, and nothing else but a panic |
| `Sessions.CloseNumbers` | wolf/src/stream/tcp/tcp_server.rs:289-295 | the status code by the reason for closing |
| `Server.EveryStreamGetsATask` | wolf/src/stream/tcp/tcp_server.rs:395-437 | in every interleaving one task is spawned for each stream accepted, by the worker that accepted it, in that order, and for no other; a connection exists if and only if its stream was accepted |
| `Server.TasksFollowTheProtocol` | wolf/src/stream/tcp/tcp_server.rs:298-336 | in every interleaving each task has taken exactly the steps of its protocol up to where it is, and its session is the one its own events lead to |
| `Server.LifecyclesHold` | wolf/src/stream/tcp/tcp_server.rs:351-443 | in every interleaving each connection's callbacks are exactly those its task's position and its session's callbacks call for |
| `Server.FinishedConnections` | wolf/src/stream/tcp/tcp_server.rs:298-336 | a task that is over has closed exactly once or died without closing; an accepted connection closes unless, by kind of server, a callback accepted and left a size above 1024, its handshake or close frame failed, or its timeouts could not be set |
| `Server.FailuresAreRemembered` | wolf/src/stream/tcp/tcp_server.rs:298-336 | in every interleaving a task has died of a failed step if and only if that step was taken |
| `Server.CanStillClose` | wolf/src/stream/tcp/tcp_server.rs:298-336 | in every state any interleaving leads to, a task that has not died can still be brought to its close callback by at most six steps of its own |
| `Server.NoTaskAfterShutdown` | wolf/src/stream/tcp/tcp_server_fiber.rs:129-190 | in every interleaving a worker that took the signal spawns no task and takes no other signal |
| `Server.NoSpawnAfterShutdown` | wolf/src/stream/tcp/tcp_server.rs:353-367 | in every interleaving of the one-worker server no task at all is spawned after the signal is taken |
| `Server.AcceptConnection` | wolf/src/stream/tcp/tcp_server.rs:298-336 | the sequential task makes the callbacks the state machine allows, and closes if and only if it was accepted, its stream was ready, its session ended and its close frame got out |
| `Server.Talk` | wolf/src/stream/tcp/tcp_server.rs:313-332 | the session loop of the configured protocol and its message callbacks |
| `Server.Running.ServerMainLoop` | wolf/src/stream/tcp/tcp_server.rs:340-443 | amid any steps of others the worker's own steps are whole turns of poll and accept, one per turn; every stream that arrived in a turn has a connection; the loop is left exactly when it has consumed a true signal, after polling and before accepting again |
| `Server.Running.PollShutdown` | wolf/src/stream/tcp/tcp_server.rs:351-367 | a free lock is taken and the first message received, which alone decides whether to stop; a taken lock leaves the channel alone |
| `Server.Running.AcceptNext` | wolf/src/stream/tcp/tcp_server.rs:369-443 | a stream that arrives gets a new task and one note of it, and nothing else changes |
| `Server.ShutdownTakesOneSignalEach` | wolf/src/stream/tcp/tcp_server_fiber.rs:129-144 | in every interleaving messages are consumed in the order sent, workers stopped are signals consumed, and stopping all N takes at least N signals |
| `Server.ChannelIsConserved` | wolf/src/stream/tcp/tcp_server_fiber.rs:129-144 | consumed followed by queued is sent; the lock has one holder |
| `Server.ChannelInvKept` | wolf/src/stream/tcp/tcp_server_fiber.rs:129-262 | every step keeps that |
| `Server.ChannelIsAQueue` | wolf/src/stream/tcp/tcp_server_fiber.rs:129-141 | what was sent, received and is waiting is told by the sends and receives alone, first in first out |
| `Server.WorkersStandWhereTheyWent` | wolf/src/stream/tcp/tcp_server_fiber.rs:117-262 | where a worker stands is told by the last step it took itself |
| `Cleanup.Heap.Cleanup` | wolf/sys/media/ffmpeg.cpp:104-179 | the nested loops compute the specified memory, for every memory and every list of chains |
| `Cleanup.Heap.IsNull` | wolf/sys/media/ffmpeg.cpp:123 | reading a slot; a read inside a freed block is recorded |
| `Cleanup.Heap.Release` | wolf/sys/media/ffmpeg.cpp:132-173 | the block is released, a second release is recorded, the slot becomes null |
| `Cleanup.Heap.Finally` | wolf/sys/media/ffmpeg.cpp:187-193 | cleanup runs if and only if the result is -1 |
| `Cleanup.NoFaults` | wolf/sys/media/ffmpeg.cpp:104-179 | with single ownership and chains that name ancestors before descendants, no read of freed memory and no double free |
| `Cleanup.CleanupIsExact` | wolf/sys/media/ffmpeg.cpp:112-177 | a chain releases its block if and only if all its pointers were non-null and no earlier firing chain cleared one of them; nothing else changes |
| `Cleanup.TidiesUp` | wolf/sys/media/ffmpeg.cpp:104-179 | with guarded chains the memory afterwards is the one before without the blocks and pointers the firing chains name, and without a fault |
| `Cleanup.DescendantsFirstFreesAll` | wolf/sys/media/ffmpeg.cpp:205-231 | when no chain clears a pointer a later one needs, every complete chain fires, and no block goes before one whose pointer it holds |
| `Cleanup.FiniFreesTheContextLast` | wolf/sys/media/ffmpeg.cpp:700-720 | finishing frees what the context holds in order, then the context, never the options, with no fault |
| `Cleanup.NoContextNothingFreed` | wolf/sys/media/ffmpeg.cpp:700-720 | with a null context nothing is freed or misread |
| `Cleanup.InitFailureLeaks` | wolf/sys/media/ffmpeg.cpp:389-430 | a failed initialisation frees only the context; every object it held is leaked |
| `Cleanup.CodingFailureLeaksTheParser` | wolf/sys/media/ffmpeg.cpp:645-658 | a failed encode or decode frees packet, codec context, frames, output and context, and leaks a parser |
| `Cleanup.OverwrittenMemberLeaks` | wolf/sys/media/ffmpeg.cpp:700-720 | when a member was overwritten with null, finishing frees all else the context holds, with no fault, and leaks that object |
| `Cleanup.Heap.Store` | wolf/sys/media/ffmpeg.cpp:543-565 | storing a pointer frees nothing |
| `Packets.EncodeFrame` | wolf/sys/media/ffmpeg.cpp:464-506 | the packets of a pass are appended in order, index and size advance together, and the buffer is exceeded if and only if their length does not fit |
| `Packets.Encode` | wolf/sys/media/ffmpeg.cpp:508-572 | success gives exactly the packets of both passes, padded with zeros, and keeps the context without its frame; the exact conditions of every result, and what each leaves in memory |
| `Packets.EncodeBoth` | wolf/sys/media/ffmpeg.cpp:558-569 | the two passes into one buffer, and the frame pointer between them |
| `Packets.EncodesOnce` | wolf/sys/media/ffmpeg.cpp:565 | after a successful encode every further encode fails, and finishing leaks the frame |
| `Packets.Decode` | wolf/sys/media/ffmpeg.cpp:627-698 | the pieces taken are consecutive and make up the input; the result is 0 or more if and only if the flush was sent and all its frames were good, and then the context is kept without its packet and the output points to the pixels if a frame was delivered; the condition of every other result |
| `Packets.DecodeFrame` | wolf/sys/media/ffmpeg.cpp:574-625 | the result is that of sending if the packet was sent and every answer before the decoder had no more was received, converted and sized, and -1 otherwise; and when the output pointer comes to point to the pixels |
| `Packets.PacketsDecoded` | wolf/sys/media/ffmpeg.cpp:683-685 | every completed packet is decoded, once, with its own result |
| `Packets.DeliveredTold` | wolf/sys/media/ffmpeg.cpp:594-608 | frames are delivered if and only if the first answer to some completed packet that was sent is a frame that converts |
| `Packets.ParseAll` | wolf/sys/media/ffmpeg.cpp:671-691 | the parse loop, for every parser with which it ends |
| `Packets.FinishesIff` | wolf/sys/media/ffmpeg.cpp:671-691 | the parse loop ends unless from some call on the parser takes nothing |
| `Packets.DecodesOnce` | wolf/sys/media/ffmpeg.cpp:694-695 | after a decode that reached its flush the next one uses a null packet, and finishing leaks the packet |
| `Packets.MorePieces` | wolf/sys/media/ffmpeg.cpp:672-681 | one more parser call keeps the pieces consecutive |
| `Packets.PiecesPartition` | wolf/sys/media/ffmpeg.cpp:680-690 | consecutive pieces always form a prefix of the input, and the next offer starts at its end |
| `Lifecycles.Init` | wolf/sys/media/ffmpeg.cpp:378-462 | the result is 0 if and only if every allocation, look-up, fill and open succeeded, and then each member holds what was allocated for it; on -1 the context is null |
| `Lifecycles.InitEncoder` | wolf/sys/media/ffmpeg.cpp:233-288 | the same for setting up an encoder, whose own chains undo a failure |
| `Lifecycles.InitDecoder` | wolf/sys/media/ffmpeg.cpp:290-376 | the same for setting up a decoder, with chains that grow step by step |
| `Lifecycles.BooksAfterInit` | wolf/sys/media/ffmpeg.cpp:378-462 | an initialisation leaks the context it replaces, its packet and frame if it fails, and the pixels of a decoder; all else it allocated is owned or freed |
| `Lifecycles.BooksAfterEncode` | wolf/sys/media/ffmpeg.cpp:508-572 | exactly which blocks an encode leaks, for every outcome |
| `Lifecycles.BooksAfterDecode` | wolf/sys/media/ffmpeg.cpp:627-698 | exactly which blocks a decode leaks, and that delivering a frame takes the pixels back |
| `Lifecycles.BooksAfterFini` | wolf/sys/media/ffmpeg.cpp:700-720 | finishing leaks nothing |
| `Lifecycles.LivesAreSafe` | wolf/sys/media/ffmpeg.cpp:104-720 | over any sequence of calls, in any order and with any outcomes, no freed memory is read and no block freed twice, and the blocks leaked are exactly those of the calls' account |
| `Lifecycles.BufferLeakedIffShown` | wolf/sys/media/ffmpeg.cpp:608-663 | the output buffer that a decode allocates is leaked if and only if a frame is delivered |
| `Lifecycles.OneLife` | wolf/sys/media/ffmpeg.cpp:378-720 | setting up and finishing an encoder leaks nothing, a decoder its pixels |
| `Lz4.Compress` | wolf/src/system/compression/lz4.rs:27-78 | succeeds if and only if the length is in 1..0x7E000000, and then holds exactly the encoded bytes |
| `Lz4.DeCompress` | wolf/src/system/compression/lz4.rs:83-125 | the retry loop recovers what the specification says, whatever was in the buffer before or between attempts |
| `Lz4.RoundTrip` | wolf/src/system/compression/lz4.rs:27-125 | compressing and then decompressing gives the original back if and only if its length can be compressed and some k in 1..10 has length <= s*2^k <= i32::MAX |
| `Lz4.CapacityExactOrNegative` | wolf/src/system/compression/lz4.rs:91-116 | in wrapping arithmetic each capacity is the exact doubling or the first overflow is negative; a wrapped positive capacity is never used |
| `Lz4.RoundTripBelowOneGiB` | wolf/src/system/compression/lz4.rs:83-125 | up to 1 GiB, with a ratio up to 1024, the round trip always succeeds |
| `Lz4.LargeSourceIsNeverRecovered` | wolf/src/system/compression/lz4.rs:91 | a source of 1 GiB or more is never decompressed |
| `Lz4.HighRatioIsNeverRecovered` | wolf/src/system/compression/lz4.rs:95 | a ratio above 1024 is never decompressed |
| `Lzma.WriteSize` | wolf/src/system/_cxx/lzma/lzma.cpp:107-110 | the write loop appends the eight low bytes, lowest first |
| `Lzma.ReadSize` | wolf/src/system/_cxx/lzma/lzma.cpp:137-147 | the or-ing loop computes the little-endian value |
| `Lzma.GatheredIsValue` | wolf/src/system/_cxx/lzma/lzma.cpp:138-147 | or-ing shifted bytes is adding them |
| `Lzma.GuardNeverDrops` | wolf/src/system/_cxx/lzma/lzma.cpp:143 | no byte is truncated by the shift or dropped by the guard |
| `Lzma.SizeRoundTrip` | wolf/src/system/_cxx/lzma/lzma.cpp:259-263 | reading at any offset gives back the size written there, for every 64-bit size |
| `Lzma.LowestFirst` | wolf/src/system/_cxx/lzma/lzma.cpp:107-110 | the lowest byte is written first |
| `Lzma.WrittenOfValue` | wolf/src/system/_cxx/lzma/lzma.cpp:290-300 | writing the value of any header bytes reproduces them |
| `Lzma.OptionsTold` | wolf/src/system/_cxx/lzma/lzma.cpp:30-75 | level, dictionary and room that encoders are given |
| `Lzma.Decompress1` | wolf/src/system/_cxx/lzma/lzma.cpp:125-184 | what decompression returns, for every source |
| `Lzma.ReturnsIff` | wolf/src/system/_cxx/lzma/lzma.cpp:125-183 | something is returned if and only if the frame is complete, its size is accepted and the decoder produces exactly that size |
| `Lzma.RoundTrip1` | wolf/src/system/_cxx/lzma/lzma.cpp:149-183 | a compressed frame decompresses to the original if and only if that is at most 256 MiB long |
| `Lzma.BareHeaderAborts` | wolf/src/system/_cxx/lzma/lzma.cpp:162 | the subscript check aborts exactly on a bare header whose size is accepted |
| `Lzma.Compress2` | wolf/src/system/_cxx/lzma/lzma.cpp:186-277 | the LZMA2 frame |
| `Lzma.Decompress2` | wolf/src/system/_cxx/lzma/lzma.cpp:279-368 | the outcome for every source and every decoder with which the loop ends; a non-empty result is the chunks in order with the length in the header |
| `Lzma.DecodeChunks` | wolf/src/system/_cxx/lzma/lzma.cpp:324-351 | the chunk loop computes the specified outcome; bytes written past the allocation are an overrun even if the call then fails |
| `Lzma.CursorInRange` | wolf/src/system/_cxx/lzma/lzma.cpp:322-346 | the input cursor is where the taken bytes end, modulo 2^32; below 4 GiB it stays in [9, length] and what was taken is the source up to it |
| `Lzma.EndsIff` | wolf/src/system/_cxx/lzma/lzma.cpp:326-351 | below 4 GiB the loop ends unless from some call on the decoder takes and gives nothing |
| `Lzma.CallsTold` | wolf/src/system/_cxx/lzma/lzma.cpp:328-339 | what each call of the chunk loop asks of the decoder, the finish flag included |
| `Lzma.ChunkedDecoding` | wolf/src/system/_cxx/lzma/lzma.cpp:328-351 | however the decoder cuts its output, the loop ends with the original, or with nothing if the decoder cannot decode the payload |
| `Lzma.RoundTrip2` | wolf/src/system/_cxx/lzma/lzma.cpp:279-368 | what a lawful encoder wrote, framed, decompresses to the original, for every chunking, if and only if that is at most 256 MiB long and no match reaches back beyond the 4 KiB dictionary of property 0; otherwise the result is empty |
| `Lzma.SmallRoundTrip2` | wolf/src/system/_cxx/lzma/lzma.cpp:315 | up to 4097 bytes the round trip always succeeds |
| `Lzma.OwnPropertyWouldDo` | wolf/src/system/_cxx/lzma/lzma.cpp:315-323 | a decoder set up with the frame's own property recovers every source of up to 256 MiB |
| `Lzma.TwoBlocksAreLost` | wolf/src/system/_cxx/lzma/lzma.cpp:30-48 | a source of 20000 bytes and a lawful codec for which the result is empty |

## Left out

- Chrono.GameTime.TickFn: rounding of 64-bit floats and overflow of the 32-bit frame counters are not modelled; in fixed mode a target that is not positive makes the source loop forever, which `GuardHoldsForever` states, and is a precondition here.
- ViGEm.TargetAdd: one client with one open handle; other processes appear only through the serials the driver refuses. Two calls on the same target at once, as the asynchronous variant allows, are not modelled.
- ViGEm.TargetUpdate: the contents of a report, the DualShock variants and the user index query differ only in the request sent.
- Cleanup.Heap.Cleanup: each kind of object is released as one block; memory inside FFmpeg objects is not modelled.
- Lifecycles.LivesAreSafe: runs end at a call that uses a null packet or overruns the output buffer, which are outcomes of the coding calls; the buffer that each encode converts into, inside the frame, is not modelled.
- Packets.Encode: the conversion of colours and the insides of the codec are parameters; writing past the output buffer is an outcome, not a memory model.
- Packets.Decode: the output size is not modelled; a parser with which the source loops forever is a precondition here, and `FinishesIff` says which those are.
- Lzma.Decompress2: writing past the allocated output is an outcome; a decoder with which the source loops forever is a precondition here, and `EndsIff` says which those are for sources below 4 GiB.
- ViGEm.Connect: what the system does with a destroyed device list is not specified; the model takes it to list no further device and records the uses.
- Lzma.Decompress1: the input length passed to the decoder is larger than what is left of the source; the decoder is modelled by the bytes it is given up to the end of the source.
- Lzma.RoundTrip2: that property 0 means a dictionary of 4 KiB, and that a decoder refuses a match beyond its dictionary, is how the LZMA SDK works; the SDK is not part of this model.
- Server.Running.ServerMainLoop: binding, the socket-level callbacks around the loop and errors that are only logged.
- Sessions.HandleTcpConnection: wall-clock time, partial writes, and the wording of close messages, of which only the reason is kept.
- Notification threads of the gamepad library: registering twice leaves more than one thread, so there is no clean invariant.
- Raft, gRPC, TLS, RIST, UDP, the TCP client, rendering, scripting and process information: converters and wrappers over libraries.
