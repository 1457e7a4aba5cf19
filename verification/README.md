# A verified model of the passinglink firmware

passinglink is the firmware of a game controller: it debounces buttons, resolves opposing directions, plays macros,
shows a menu on a small display, and answers the authentication challenge of a PS4. This project models that logic in
Dafny and proves what the C++ relies on but never writes down. `dafny verify dfyconfig.toml` checks all of it.

Code that works in place is modelled in place: each object of the firmware whose state changes is a class, each
operation a method whose contract equates the new state with a function of the old one, and the theorems are lemmas about
those functions, over every run. The concurrent part is a step system over both threads.

| module | models |
|---|---|
| `AuthSpec` | PS4 authentication as atomic events: nonce parts, signing, signature chunks |
| `AuthDevice`, `SignatureStream` | the device side as it runs alone: reports 0xF0 and 0xF1, checksums, the signing job, the chunk streamer |
| `AuthInterleaving`, `AuthCompleteness` | USB thread and signing worker interleaved at every load, swap and byte; they do what `AuthSpec` allows, and all of it |
| `Pool`, `MacroQueue`, `Playback` | the pool of queue nodes, chains with one owner, timed playback |
| `GundamCamera`, `MacroInput` | building camera macros out of queue nodes, all or nothing; what of a macro gets through the debouncing |
| `Debounce`, `Socd`, `Pipeline`, `MenuCalls`, `HeldDirections` | from raw samples to axes and to the menu, over whole runs of polls |
| `Menu`, `MenuNavigation` | the stack of saved cursors and the scroll window; where the directions lead |
| `Malloc` | the bucket allocator with its packed bitset |
| `Provisioning`, `Framebuffer`, `Led`, `Sorting` | image assembly, the column-major display, flashing lights, the sort in `types.h` |
| `Arithmetic`, `Bytes`, `Options`, `Buttons`, `FiniteSets` | helpers |

## What the proofs say about the code

* Authentication. `src/output/usb/ps4/auth.h:14-16` speaks of a state "Resetting" that is entered on errors. There is
  none: if, and only if, hashing or signing fails the word stays at `Signing` for good (`StuckIffACallFailed`,
  `StuckForever`), which does happen (`StuckIsReachable`) and is the only way in which the device can lose the ability
  to take another nonce (`CanReturnIffNotStuck`). The order of nonce parts is not checked, so what is signed is
  whatever each slot held last, zeros included (`SlotHoldsLastPart`, `UnwrittenSlotIsZero`).
* Camera macros. The queue feeds the debouncing, so what gets through depends on the polls and on what is held when a
  macro starts. Exactly the moves of the camera are reported if and only if the polls catch up with each change before
  the next one and the first poll does not find the stick where it is reported to be already (`AllMovesAreReported`).
  Late polls can swallow a move (`LatePollsLoseAPress`). Polls that are never more than a frame minus a debounce
  period apart lose none, but for the first if the stick is held in the direction of the camera
  (`PromptPollsMoveTheCamera`, `HeldStickLosesTheMove`).
* Macro queue. A poll in the very tick of the activation answers the last state of an earlier macro, because the
  comparison of ticks is strict (`EachAnswer`); a button that it left down is pressed once more
  (`MacroMovesTheCamera`). The camera position is recorded before any node is allocated, and stays recorded if that
  fails (`AdjustCam`).
* Menu gate. A direction that is held can steer the menu again with no further press if and only if two polls share a
  tick once the first debounce period is over (`RepeatsExactlyInOneTick`). The lock tick that the gate compares with
  is the flag, 1, not the recorded tick (`src/input/input.cpp:163-168`).
* SOCD. Swapping left and right mirrors the result except exactly when mode `Last` has to break a tie for the newest
  tick (`MirrorNegates`). Without a display the input buffer has two slots, which are too few exactly if the board has
  the extra up button (`BufferIsLargeEnough`).
* Menu. The menu that shows the version marks no row; every other one marks the selected item (`CursorIsVisible`).
  `menu_draw` tests the row number and then reads at the scrolled index. The read is in range only because of an
  invariant of all runs (`RunsAreSafe`, `CursorIsVisible`).
* Allocator. There is no fallback from a full small bucket to the big one (`NullExactlyWhenFull`).
* Provisioning. The recorded length never shrinks, so an image is flushed unchanged if and only if nothing longer was
  sent since the device started (`ImageIsFlushed`).
* Display. The character 0x7f passes the test in `set_row`, but the font ends at 0x7e (`Display.SetRow`).
* Lights. A flash with an interval of zero never ends (`ZeroIntervalNeverEnds`).
* `insertion_sort` is a selection sort that puts the greatest element first (`InsertionSort`).
* The debounce period is converted to cycles but compared with a difference of ticks (`src/input/input.cpp:197-199`);
  the proofs hold for any period greater than 1.

## Model

| member | source | states |
|---|---|---|
| AuthInterleaving.Safe | src/output/usb/ps4/auth.cpp:38-156 | In every interleaving of USB thread and worker no swap ever fails, no signing job starts in the wrong state, no access leaves its buffer and the PANIC of the streamer is never reached, neither buffer is raced for, and each chunk handed to the host is its slice of the signature of exactly the nonce that was complete when part 4 was taken |
| AuthInterleaving.ExecRefines | src/output/usb/ps4/auth.cpp:38-254 | Every interleaving, at byte granularity, is a run of the atomic protocol with the same events visible to the host |
| AuthInterleaving.StepRefines | src/output/usb/ps4/auth.cpp:38-254 | Each load, swap, or byte moved keeps the invariant and is one atomic event or invisible |
| AuthCompleteness.EveryRunIsInterleaved | src/output/usb/ps4/auth.cpp:38-254 | Conversely, every run of the atomic protocol is an interleaving in which the host sees exactly the same |
| AuthCompleteness.NextEvent | src/output/usb/ps4/auth.cpp:38-254 | Once a nonce is complete, and as long as no library call has failed, the threads can always bring about the next event of the protocol |
| AuthCompleteness.PartIsTakenIff | src/output/usb/ps4/auth.cpp:98-126 | A part is taken if and only if there is a key, part number and length are right, every complete nonce has been answered with 19 chunks, and the part starts a nonce or carries the id of the last start |
| AuthCompleteness.ThreadTakesPartIff | src/output/usb/ps4/auth.cpp:98-129 | The USB thread, whenever it is idle in any interleaving, starts to copy a part under exactly these conditions |
| AuthInterleaving.BufferDiscipline | src/output/usb/ps4/auth.cpp:28-30 | Whatever the byte, `nonce` is written only while receiving and hashed only while signing; `nonce_signature` is written only while signing and read only while sending |
| AuthInterleaving.StuckIffACallFailed | src/output/usb/ps4/auth.cpp:61-73 | In every interleaving the worker has given up if and only if a hash or signature has failed, and at most one ever does |
| AuthInterleaving.StuckForever | src/output/usb/ps4/auth.cpp:61-73 | Once the worker has given up nothing ever changes again |
| AuthInterleaving.StuckIsReachable | src/output/usb/ps4/auth.cpp:38-73 | From the start there is a run to such a state in which one library call fails and one final nonce part is all that the host sees succeed |
| AuthInterleaving.OnwardDescends | src/output/usb/ps4/auth.cpp:38-254 | In every reachable state that is neither receiving nor stuck some step is enabled that comes strictly closer to receiving |
| AuthInterleaving.CanReturnIffNotStuck | src/output/usb/ps4/auth.cpp:38-254 | A reachable system can get back to receiving a nonce if and only if the worker has not given up |
| AuthSpec.History | src/output/usb/ps4/auth.cpp:97-156 | In every run of the protocol the nonce is the reassembly of the parts taken, a complete one was completed a known number of host events ago, and all chunks sent answer their nonce |
| AuthSpec.RoundIsForced | src/output/usb/ps4/auth.cpp:222-254 | Once a nonce is complete the only possible events are signing and then chunks 0 to 18 in order; after the last the device receives again |
| AuthSpec.SessionAnswersTheNonce | src/output/usb/ps4/auth.cpp:184-254 | Five parts in order and the forced round: the 19 payloads concatenate to the 1064-byte answer to the concatenation of the parts |
| AuthSpec.SlotHoldsLastPart | src/output/usb/ps4/auth.cpp:127-142 | Each 56-byte slot of the nonce (32 for part 4) holds the last part taken for it, whatever else was taken |
| AuthSpec.UnwrittenSlotIsZero | src/output/usb/ps4/auth.cpp:29 | A slot for which no part was ever taken still holds zeros |
| AuthSpec.FivePartsMakeTheNonce | src/output/usb/ps4/auth.cpp:97-156 | Parts 0 to 4 in order are accepted in any receiving state and leave exactly their concatenation, with nothing of an earlier nonce |
| AuthSpec.Env.PartsLayout | src/output/usb/ps4/auth.cpp:185-194 | The parts that the streamer walks over are signature, serial, N, E, key signature and padding, 19 times 56 bytes in all |
| AuthSpec.PayloadsOfRound | src/output/usb/ps4/auth.cpp:239-245 | From chunk k on, the payloads of a round concatenate to the answer from byte 56k on |
| SignatureStream.CopySignature | src/output/usb/ps4/auth.cpp:184-220 | For any list of parts the window is filled with the concatenation from the offset on, and the PANIC is reached if and only if more bytes are wanted than there are |
| SignatureStream.CopyGeneric | src/output/usb/ps4/auth.cpp:164-172 | Copies from the offset on as much as both the part and the buffer allow, and returns how much |
| AuthDevice.SlotHoldsLastReport | src/output/usb/ps4/hid.cpp:393-423 | After any sequence of raw 0xF0 reports, and whatever else happens in between, each slot of the nonce holds the payload bytes of the last report that was accepted for it |
| AuthDevice.UntakenSlotStays | src/output/usb/ps4/hid.cpp:393-423 | A slot for which no report was accepted is as it was |
| AuthDevice.CheckCrcIffSealed | src/output/usb/ps4/hid.cpp:152-172 | For any checksum function, the messages that pass the check are exactly those that end with the checksum of what is before |
| AuthDevice.WriteWithCrc | src/output/usb/ps4/hid.cpp:161-172 | Writes the sealed message, or returns -1 and leaves the buffer alone exactly if it does not fit |
| AuthDevice.PartReportRoundTrip | src/output/usb/ps4/hid.cpp:398-423 | Every part that a host packs into a 64-byte sealed report is read back unchanged, with part 4 cut to 32 bytes |
| AuthDevice.Ps4Auth.SetNonce | src/output/usb/ps4/auth.cpp:97-156 | Succeeds exactly when the protocol accepts the part, and then is that one event; otherwise changes nothing; submits the job exactly at part 4 |
| AuthDevice.Ps4Auth.SetReport | src/output/usb/ps4/hid.cpp:393-423 | A report 0xF0 is one nonce part of the protocol if it parses and is accepted, and otherwise has no effect; it is one step of the runs of reports; it succeeds exactly for 64 bytes that end in the checksum of the first 60, with a key, while receiving, for parts 0 to 4 with the current id or part 0 |
| AuthDevice.Ps4Auth.SignNonce | src/output/usb/ps4/auth.cpp:38-95 | Starts and finishes signing if both library calls succeed; if one fails it stops after the start |
| AuthDevice.Ps4Auth.GetNextSignatureChunk | src/output/usb/ps4/auth.cpp:222-254 | Hands out exactly the next chunk, as one event of the protocol, without ever reaching the PANIC |
| AuthDevice.Ps4Auth.GetReport | src/output/usb/ps4/hid.cpp:211-242 | The report is sealed, and its header names the very chunk whose bytes follow |
| AuthDevice.ChunkReportRoundTrip | src/output/usb/ps4/hid.cpp:228-240 | The report has 64 bytes and starts with 0xF1, id, index and 0, and a host reads id, index and payload back out of it |
| MacroQueue.EachChainIsFreedOnce | src/input/queue.cpp:24-109 | In any run of all operations, filling in nodes included, each time that a chain is taken it is freed exactly once or still live, whether it plays out, is replaced, or is given back; the chain that the player owns is always live |
| MacroQueue.OwnedIffConsumed | src/input/queue.cpp:84-108 | In any run the player owns a chain exactly if it is live and was activated to be consumed, so none of those is left over and no other is freed by the player |
| MacroQueue.PlayerFrees | src/input/queue.cpp:84-102 | The player frees its chain exactly in the poll that applies the last entry, or when something else is activated |
| MacroQueue.ConsumedExactlyOnce | src/input/queue.cpp:71-92 | A chain that the player consumes is live until its last entry has been applied and freed then, and polling touches no other chain |
| MacroQueue.Queue.FindFree | src/input/queue.cpp:24-40 | The search from the hint finds the lowest free slot of the whole pool, and none exactly if the pool is full |
| MacroQueue.Queue.Alloc | src/input/queue.cpp:24-40 | Takes the lowest free slot of the pool as a new chain of one node; the pool stays a set of disjoint acyclic chains |
| MacroQueue.Queue.Append | src/input/queue.cpp:42-51 | Adds a node at the end of a chain, even one that is playing, and changes no other chain |
| MacroQueue.Queue.Free | src/input/queue.cpp:53-69 | Walks the chain to its end and frees exactly its nodes; the hint stays below every free slot |
| MacroQueue.Queue.SetActive | src/input/queue.cpp:98-109 | Frees the chain that the player owned and starts the new one at the current tick, as an allowed step of the runs |
| MacroQueue.Queue.ApplyNext | src/input/queue.cpp:75-88 | Applies one entry, and frees the owned chain exactly when that was the last |
| MacroQueue.Queue.GetState | src/input/queue.cpp:71-92 | Polling the linked nodes answers what the abstract player answers and leaves the state that it leaves |
| MacroQueue.Queue.SetNode | src/opt/gundam.cpp:61-67 | Filling in a node changes what the player will apply exactly if the node is still ahead of it, and is a step of the runs |
| MacroQueue.Queue.TakeStep | src/input/queue.cpp:24-40 | What a client sees of an allocation is an allowed step of the runs, or nothing if the pool is full |
| MacroQueue.Queue.ExtendStep | src/input/queue.cpp:42-51 | What a client sees of appending is an allowed step of the runs, which lengthens what plays exactly if the player is in that chain |
| MacroQueue.Queue.ReleaseStep | src/input/queue.cpp:53-69 | What a client sees of giving back a chain that does not play is an allowed step of the runs |
| Pool.LinkedIsDisjoint | src/input/queue.cpp:42-51 | No node occurs twice in a chain or in two chains |
| Pool.HomeIsUnion | src/input/queue.cpp:14-15 | The nodes in use are exactly those of the live chains |
| Pool.ExtendChain | src/input/queue.cpp:48-50 | Writing the next-pointer of a tail extends its chain and keeps all chains linked |
| Pool.RemoveChain | src/input/queue.cpp:58-68 | Dropping a chain keeps all other chains linked |
| Playback.Fidelity | src/input/queue.cpp:71-109 | After any polls the state of the player is determined by the number of entries applied alone |
| Playback.EachAnswer | src/input/queue.cpp:74-91 | Each poll applies at most the next entry, exactly if its due time is strictly past, and otherwise repeats the last one; after the end it answers nothing |
| Playback.EachEntryOnce | src/input/queue.cpp:74-91 | Each applied entry is applied by exactly one poll, strictly later than the activation plus all delays before it, and that poll answers its state |
| Playback.PlaysOut | src/input/queue.cpp:71-92 | A macro is over once as many polls as it has entries have come after its last due time |
| Playback.PollingAddsNoPresses | src/input/queue.cpp:71-92 | However often it is polled, a macro presses each button as often as its applied entries do |
| GundamCamera.MacroMovesTheCamera | src/opt/gundam.cpp:29-89 | However a camera macro is polled to its end and whatever is down before, the raw input given to `input_parse` has the stick pressed in the right direction exactly as often as the offset says, once less if the first poll finds it where it was already, and no other button pressed but one that the macro before left down and that is polled in the tick of the activation; the pool is then as before |
| MacroInput.CameraReachesTheReport | src/input/input.cpp:117-125 | From any debounced state: of these presses the debouncing never reports more, and reports all if and only if the last poll before every change of the raw input finds it reported or comes a period after the last reported change |
| MacroInput.AllMovesAreReported | src/opt/gundam.cpp:29-89 | As many presses are reported as the offset says if and only if the polls catch up and the stick is not both reported down and found down by the first poll |
| MacroInput.PromptPollsMoveTheCamera | src/input/input.cpp:236-242 | If polls are never further apart than a frame less a debounce period, exactly the moves of the camera are reported, less one if the stick is still reported in that direction when the first step is applied; of any other button exactly a stale press that comes late enough |
| MacroInput.PromptPollsMissNothing | src/input/input.cpp:189-206 | For any macro whose entries last a period longer than polls are apart, from any debounced state, the debouncing misses no change of the raw input but a stale one in the tick of the activation |
| MacroInput.HeldStickLosesTheMove | src/input/input.cpp:117-125 | A macro of one move, polled promptly while the stick is held that way, reports nothing |
| MacroInput.LatePollsLoseAPress | src/input/input.cpp:195-201 | A macro of two moves that is polled late plays to its end with only one move reported |
| GundamCamera.MacroPresses | src/opt/gundam.cpp:59-86 | A camera macro presses its direction once a step and nothing else |
| GundamCamera.MacroMoves | src/opt/gundam.cpp:44-66 | In a camera macro the presses of stick up less those of stick down are the signed offset, one of the two is zero, and no other button is pressed |
| GundamCamera.PolledMoves | src/input/queue.cpp:71-92 | Polled from after its activation to its end, a macro moves by what its entries move |
| GundamCamera.Camera.FillAndAppend | src/opt/gundam.cpp:61-73 | Fills a node and asks for the next; if there is none the whole chain is given back and the pool is as before |
| GundamCamera.Camera.BuildMacro | src/opt/gundam.cpp:53-86 | Succeeds exactly if 2n+1 nodes are free, and then the chain holds n presses, n releases and a final release; otherwise the pool is as before |
| GundamCamera.Camera.AdjustCam | src/opt/gundam.cpp:29-89 | Moves exactly if nothing plays, the offset is not zero and the nodes suffice; otherwise the queue is unchanged; what plays presses stick up less stick down exactly `offset` times; the camera is recorded whenever nothing plays |
| GundamCamera.Camera.SetCam | src/opt/gundam.cpp:91-93 | Plays the difference wrapped to eight bits in a chain that the player owns, or leaves the queue as it was; presses of stick up less stick down are the requested camera less the current one modulo 256; records exactly the requested camera |
| GundamCamera.FullIffAllUsed | src/input/queue.cpp:24-40 | The pool is full exactly if as many nodes are in chains as it has |
| Debounce.TransitionsTakeTime | src/input/input.cpp:189-206 | Changes of the output are at least a period apart |
| Debounce.ChangesAreApart | src/input/input.cpp:189-206 | Any two polls that change the output are at least a period apart |
| Debounce.EveryPressIsReported | src/input/input.cpp:189-206 | Never more presses are reported than there are, and all of them if and only if the polls always catch up with the raw input before it changes |
| Debounce.PressesReportedOrMissed | src/input/input.cpp:189-206 | Each raw press is reported, or lost to a change that came before the last one was reported, or still pending |
| Debounce.FewTransitionsInAWindow | src/input/input.cpp:189-206 | All changes in a stretch of polls but the first fit into it a period each |
| Debounce.SteadyIsReported | src/input/input.cpp:189-206 | An input that is held is reported by the first poll that is a period after the last change |
| Debounce.InputDebounce | src/input/input.cpp:189-206 | The value returned is the state stored, and only this button changes |
| Debounce.DebounceAll | src/input/input.cpp:236-242 | Every button is debounced independently of all others |
| Socd.InputSocdParse | src/input/socd.cpp:23-131 | The loop and the switch compute the closed form: the first active override, or else the newest ticks per kind decide |
| Socd.OneSideWins | src/input/socd.cpp:57-131 | With no active override and one side active, the axis points there in every mode and carries the tick of the last input of that side, unless mode `Last` finds a centre that is later, or as late for the negative side |
| Socd.BothSides | src/input/socd.cpp:57-98 | With both sides active, `Neutral` answers 0 with the later tick, and `Positive` and `Negative` their own side with its tick |
| Socd.NeitherSide | src/input/socd.cpp:57-131 | With neither side active the answer is 0 |
| Socd.LastDecides | src/input/socd.cpp:104-130 | In `Last` the kind of the last active input decides, positive before centre before negative at the same tick |
| Socd.OverrideDecides | src/input/socd.cpp:28-35 | An active override decides in every mode, with its own side and tick, and the first listed before others |
| Socd.NewestIsUnique | src/input/socd.cpp:51-53 | The newest tick of a kind is the maximum over its active inputs, and nothing else |
| Socd.OrderDoesNotMatter | src/input/socd.cpp:23-131 | Without an active override the result is the same for every order of the inputs |
| Socd.OverrideIsFirst | src/input/socd.cpp:28-35 | Among several active overrides the first one listed wins |
| Socd.TickOfAnInput | src/input/socd.cpp:57-131 | A deflected axis carries the tick of an active input |
| Socd.MirrorNegates | src/input/socd.cpp:23-131 | Swapping directions in inputs and mode negates the value and keeps the tick if and only if mode `Last` has no tie to break |
| Pipeline.HeldDirectionsDoNotRepeat | src/input/profile.cpp:225-272 | In any run the menu is steered at most once per debounced press of a direction button, plus once for each poll in the tick of the one before, not counting ticks of the first debounce period |
| HeldDirections.RepeatsExactlyInOneTick | src/input/profile.cpp:253-269 | For samples at given ticks, on a controller whose menu sets profile, modes and lock: whatever the player does, no held direction steers the menu again, if and only if no two of the ticks from the first debounce period on are equal |
| HeldDirections.SteeredTwice | src/input/profile.cpp:253-269 | Where two ticks are equal, a player who holds menu and down from the first of them on steers the menu at least twice with one press |
| HeldDirections.LoopStaysCalm | src/display/menu.cpp:561-585 | A player who touches only menu and down never changes the settings or the lock, so every poll finds those of the start |
| Pipeline.OpenAndCloseAlternate | src/input/profile.cpp:229-251 | In any run opening and closing strictly alternate and each direction falls in between |
| MenuCalls.PressCalls | src/input/profile.cpp:253-269 | After any run, with any profile and mode: in the menu, a stick direction (or the extra up button) that goes down alone adds exactly the call of its direction to the log, after opening the menu if it was closed |
| MenuCalls.XGoesFirst | src/input/profile.cpp:253-269 | If buttons of both axes go down in one poll, exactly that of the x axis is called |
| MenuCalls.WhatAPollCalls | src/input/profile.cpp:229-271 | A poll opens or closes the menu whenever its state changes, adds at most one direction and that only in the menu, and keeps the axes from the game exactly if it is in the menu |
| Pipeline.MenuIsDrivenSafely | src/input/profile.cpp:225-272 | Whatever the player does, the menu never reads out of range and is shown exactly when the gate has it open |
| Pipeline.HeldTickIsPressTime | src/input/input.cpp:203-205 | After any run the history tick of a held button is the time of its last press |
| Pipeline.LastPressedWins | src/input/socd.cpp:100-130 | In mode `Last`, after any run and with any profile, the x axis points to the held side pressed most recently, right on ties; where the profile lets thumb buttons override, the left one that is held wins over the right one and both over the stick |
| Pipeline.LastPressedWinsOnY | src/input/profile.cpp:97-150 | The same for the y axis, where two buttons may push up and down wins ties; a held thumb button centres it with Dashblock and pushes it up with Tigerknee |
| Pipeline.OpensWhenHeldLongEnough | src/input/profile.cpp:229-251 | After any run the menu is open if and only if the debounced menu button is held, and the menu was open already, the controller is unlocked, or the button was pressed long enough ago |
| Pipeline.RunIsPast | src/input/input.cpp:189-206 | No history tick is in the future, and a held button was pressed a period or more after the start |
| Pipeline.BufferIsLargeEnough | src/input/profile.cpp:200-204 | 32 slots suffice for every profile; two suffice for the default one exactly if there is no extra up button |
| Pipeline.Controller.SocdX | src/input/profile.cpp:84-95 | Fills the buffer with exactly the inputs of the x axis, from debounced states and history ticks |
| Pipeline.Controller.SocdY | src/input/profile.cpp:97-150 | Fills the buffer with exactly the inputs of the y axis |
| Pipeline.Controller.SteerMenu | src/input/profile.cpp:225-272 | Makes exactly the menu calls of the gate, none of which can go wrong, performs what the entered item does to profile and SOCD modes, and returns whether the menu took the input |
| Pipeline.Controller.InputParse | src/input/input.cpp:225-256 | One poll debounces all buttons, sets the lock, resolves both axes with the settings it finds and drives the menu as one step of the runs above, which may leave new settings for the next poll |
| Pipeline.Controller.PollOnce | src/input/input.cpp:258-261 | A controller that has polled any samples is in the state of the corresponding run of polls, settings and lock included |
| Pipeline.ReachedNext | src/input/profile.cpp:318-330 | One more sample extends the run by the poll with the settings and the lock that the menu has left |
| Pipeline.LockOfPoll | src/input/input.cpp:244-246 | A board with a lock switch is locked while the debounced switch is; without one as the menu has left it |
| Pipeline.SettingsConcat | src/display/menu.cpp:262-270 | What the menu does to the settings is the same for a sequence of calls and for its parts in turn |
| Menu.RunsAreSafe | src/display/menu.cpp:458-599 | No run in which directions come only while the menu is shown ever reads past the items, overflows the stack or underflows it, and the window invariant holds throughout |
| Menu.StepKeepsInv | src/display/menu.cpp:535-599 | Each operation keeps the invariant; the only one that can go wrong is entering an item when no menu exists |
| Menu.CursorIsVisible | src/display/menu.cpp:506-533 | While the menu is shown the selected item is on the screen; its row is marked in every menu but the one that shows the version, and no other row ever is |
| Menu.RowsShowTheWindow | src/display/menu.cpp:510-528 | Row i of a shown menu shows the item that is i below the top of the window, and is blank exactly if there is none |
| Menu.LeavingRestoresTheCursor | src/display/menu.cpp:468-504 | Entering a menu, doing anything below it and leaving it again restores the stack and the cursor of the parent |
| MenuNavigation.EveryItemIsReachable | src/display/menu.cpp:561-599 | From any place in the menu the same presses select any item of any menu, and change no setting on the way |
| MenuNavigation.WalkArrives | src/display/menu.cpp:320-438 | Each menu is found at its place under the root, named by the items to enter, with the cursor on its first item |
| MenuNavigation.DownMoves | src/display/menu.cpp:575-585 | Down k times moves the cursor by k items or to the last, and changes nothing else |
| MenuNavigation.UpMoves | src/display/menu.cpp:563-573 | Up k times moves it back by k items or to the first, and changes nothing else |
| MenuNavigation.RightOpens | src/display/menu.cpp:468-482 | Right on a submenu opens exactly that one with the cursor on its first item |
| MenuNavigation.RightActs | src/display/menu.cpp:483-488 | Right on any other item performs exactly its action and leaves the cursor; lock, unlock and remembering the place do what they say |
| MenuNavigation.LeftsLeave | src/display/menu.cpp:587-592 | Left k times leaves k menus, but never the root |
| MenuNavigation.FirstItemChangesTheLock | src/display/menu.cpp:420-427 | The first item of the root shows what it will do and changes the lock over |
| MenuNavigation.SettingsChangeTheMemory | src/display/menu.cpp:389-401 | The second item of the settings changes over whether the place is remembered |
| MenuNavigation.EnteringSets | src/display/menu.cpp:191-270 | Entering an item of the profile or SOCD menus leaves exactly its own setting, by number, and entering any other changes none |
| MenuNavigation.OnlyRightSets | src/display/menu.cpp:561-599 | No other call of the menu changes a profile or a SOCD mode |
| MenuNavigation.Reopened | src/display/menu.cpp:535-559 | A menu that remembers its place is the same when it is opened again; one that does not starts with the first item of the root |
| Menu.PopAllEmpties | src/display/menu.cpp:538-540 | Popping everything ends and leaves the cursor at the first item |
| Menu.Screen.PushItem | src/display/menu.cpp:468-489 | Saves the cursor and enters the menu, or performs the action and refreshes the items |
| Menu.Screen.PopTop | src/display/menu.cpp:491-504 | Restores the saved cursor and shows the parent's items |
| Menu.Screen.DrawMenu | src/display/menu.cpp:506-533 | Draws three rows of the window, marks the selected one if its item shows a caret, or draws the logo |
| Menu.Screen.Input | src/display/menu.cpp:561-599 | Moves, enters or leaves as the model does, returns the action of the item that it entered, and whenever the state changes the display shows it |
| Menu.Items | src/display/menu.cpp:320-438 | Every menu has as many items as the bounds assume, its submenus are one level deeper, and only the rows of the version menu show no caret |
| Malloc.LiveBlocksDisjoint | src/malloc.cpp:107-148 | In every legal run the memory that clients hold is pairwise disjoint, as large as asked for, and inside a bucket |
| Malloc.AlwaysSound | src/malloc.cpp:107-148 | In every legal run the bits that are set are exactly the blocks that clients hold |
| Malloc.FreeUndoesMalloc | src/malloc.cpp:112-141 | Freeing what was just allocated restores the heap exactly, and the block was not in use before |
| Malloc.NullExactlyWhenFull | src/malloc.cpp:112-124 | Null is returned if and only if the size exceeds 528 or the first bucket that it fits is full |
| Malloc.SetMember | src/malloc.cpp:29-39 | Updating one bit of one byte adds or removes exactly one member of the packed set |
| Malloc.FirstUnsetIs | src/malloc.cpp:41-48 | The scan finds the lowest index that is free, and nothing exactly if none is |
| Malloc.Bitset.Get | src/malloc.cpp:22-27 | Tests membership in the packed set |
| Malloc.Bitset.Set | src/malloc.cpp:29-39 | Adds or removes exactly one index of the packed set |
| Malloc.Bitset.FindFirstUnset | src/malloc.cpp:41-48 | Scans for the lowest free index |
| Malloc.Bucket.Alloc | src/malloc.cpp:59-72 | Hands out the lowest free block |
| Malloc.Bucket.Free | src/malloc.cpp:74-78 | Frees exactly the block that contains the pointer |
| Malloc.Allocator.Malloc | src/malloc.cpp:112-124 | Takes from the first bucket that fits, without fallback |
| Malloc.Allocator.Free | src/malloc.cpp:126-141 | Frees a held block and ignores pointers of others; the bits stay exactly the blocks held |
| Provisioning.ImageIsFlushed | src/provisioning.cpp:44-75 | An image of at most 4096 bytes whose chunks come in any order, repeated, among rejected reports, is assembled; the flush writes exactly it if and only if nothing longer was sent before |
| Provisioning.LastWriteWins | src/provisioning.cpp:47-57 | Each byte of the buffer comes from the last accepted report that covers it |
| Provisioning.UncoveredIsUntouched | src/provisioning.cpp:47-57 | A byte that no accepted report covers is never changed |
| Provisioning.LengthIsFurthestEnd | src/provisioning.cpp:55 | The length is the furthest end of all accepted writes |
| Provisioning.MagicBytes | src/output/usb/hid.cpp:378-391 | A feature report commits exactly if it has five bytes and the last four are 4c 21 09 12 |
| Provisioning.WriteIsAnsweredTruly | src/output/usb/hid.cpp:367-376 | A write is answered with true exactly if the buffer of 4096 bytes holds its data afterwards, at 62 times its number |
| Provisioning.FlushIsAnsweredTruly | src/provisioning.cpp:59-75 | If a flush is answered with true the partition holds the buffer up to its length |
| Provisioning.Store.Write | src/provisioning.cpp:47-57 | Rejects exactly what does not fit, and otherwise copies the data in |
| Provisioning.Store.Commit | src/provisioning.cpp:59-75 | Writes the buffer up to its length exactly if the driver opens, erases and programs |
| Provisioning.Store.SetReport | src/output/usb/hid.cpp:345-400 | Writes and flushes do what the run model says and are answered accordingly, a reboot request that returns is answered with false, and all other reports, and those that are not feature reports, are passed on |
| Framebuffer.RowShowsItsLastDrawing | src/display/ssd1306.cpp:250-295 | In any run each row shows what was last drawn in it, whatever was drawn elsewhere |
| Framebuffer.StatusLineStays | src/display/ssd1306.cpp:284-295 | Menu rows and the logo never disturb the status line |
| Framebuffer.DrawIsolatesRows | src/display/ssd1306.cpp:253-281 | Drawing a row replaces all of its 128 columns and no byte of the others |
| Framebuffer.DrawsCommute | src/display/ssd1306.cpp:250-282 | Drawing two different rows gives the same buffer in either order |
| Framebuffer.CellsRender | src/display/ssd1306.cpp:257-281 | Glyph after glyph, the loop produces the closed form of the rendering |
| Framebuffer.CharacterShows | src/display/ssd1306.cpp:255-281 | Column i of the glyph in cell k shows font byte 5(c - 0x20) + i of its character, or a space if there is none, and the columns between glyphs and before them are empty |
| Framebuffer.TextBytes | src/display/ssd1306.cpp:276-280 | Column c of a row is byte 4c + row of the buffer |
| Framebuffer.LogoBytes | src/display/ssd1306.cpp:290-294 | Byte 4c + y of the buffer is byte 3c + y of the logo |
| Framebuffer.TruncatedAndPadded | src/display/ssd1306.cpp:261-268 | A text renders as its first 21 characters padded with spaces, and no text as spaces |
| Framebuffer.BlitIsUpToDate | src/display/ssd1306.cpp:297-303 | Once anything was drawn, sending the buffer leaves the display showing it |
| Framebuffer.Display.SetRow | src/display/ssd1306.cpp:250-282 | Draws the rendering of the text into its row and stays inside the font exactly if none of its first 21 characters is 0x7f |
| Framebuffer.Display.DrawLogo | src/display/ssd1306.cpp:284-295 | Draws the three rows of the logo and leaves the fourth |
| Framebuffer.Display.Blit | src/display/ssd1306.cpp:297-303 | Sends the buffer exactly if it is dirty |
| Led.FlashEnds | src/output/led.cpp:72-89 | For a positive interval a flash toggles the pin exactly duration/interval times, whatever is set meanwhile, then ends and shows the last setting |
| Led.SteadyShowsSetting | src/output/led.cpp:72-139 | In any run the setting is the last one that was not refused, and a light that does not flash shows it |
| Led.UndoOnlyIfUntouched | src/output/led.cpp:124-139 | A conditional set with a saved counter is refused if and only if the number of unconditional sets in between is not a multiple of 2^32 |
| Led.CounterCounts | src/output/led.cpp:135-138 | The counter counts unconditional sets, modulo 2^32 |
| Led.ZeroIntervalNeverEnds | src/output/led.cpp:75-85 | With an interval of zero the light toggles for ever |
| Led.Light.LedUpdate | src/output/led.cpp:72-89 | One timer step, as in the run model |
| Led.Light.TimerFires | src/output/led.cpp:72-89 | The timer of a light, when it fires, is one step of the runs |
| Led.Light.LedSet | src/output/led.cpp:124-139 | Sets or refuses, as in the run model, and returns the counter to expect |
| Led.Light.LedFlash | src/output/led.cpp:149-155 | Starts or restarts a flash |
| Sorting.InsertionSort | src/types.h:308-319 | Permutes the array, and leaves no element before one that it compares below if the comparison is a strict weak ordering |
| Sorting.Min | src/types.h:296-306 | Returns an element of the range that compares below no other |

## Left out

* Cryptography: SHA-256, the signature of section 8.1 of RFC 8017, CRC-32 and the export of big numbers are
  uninterpreted functions; hashing and signing may fail. The random generator passed to the signature yields zeros, so
  it is a function of the digest.
* Threads: one USB thread, one signing worker, and a swap that fails only on a different value are assumed. Weak
  memory is not modelled; each step is atomic, down to single bytes of the shared buffers.
* Interrupt locks in the macro queue: each queue operation is taken as atomic. `input_queue_append` writes the
  next-pointer outside of the lock.
* Misuse of the queue: appending in the middle of a chain, freeing a chain that plays, and activating the chain that
  the player already owns are excluded by preconditions; the source relies on its clients not to do so.
- Queue: the bits of `queue_storage_bitmap` are an array of booleans here; the packing is proved for `Bitset` of the
  allocator, which packs in the same way.
- Queue: pointers are indices into the pool, and the pool has any size instead of 1024.
- Poll: ticks are unbounded; the wrap of 64-bit tick counters is not modelled, nor is the conversion of delays to
  ticks.
- Controller.InputParse: ends where the report is filled: copying buttons into the report, the D-pad and stick tables,
  the touchpad and the output mode switch are finite tables and are not modelled.
- Items: texts and the actions of output mode, USB delay and boot items are `Other`: they change neither the stack nor
  the number of items.
- SetNonce: error logging and the reports 0x03, 0xF2 and 0xF3 are not modelled.
- Allocator: clients free only what they hold or foreign pointers; alignment beyond the padding of a bucket and the
  high-water mark are not modelled.
- Store.SetReport: the reboot itself, and the jump to the bootloader, end a run and are not modelled.
- Store: offset plus length cannot wrap, for reports bound them by 15810 and 64; a driver failure after the erase
  leaves the partition erased in the model.
- Display: the bus transfer always succeeds, and drawing does not overlap with sending. What is drawn when a glyph is
  read beyond the font is not stated.
- Light: a pin whose device binding failed is not modelled; durations are in ticks.
* Bluetooth, the shell (whose `menu` command bypasses the gate), console probing, bootloader, metrics, display
  initialisation, fonts and logo data: plumbing or constant data.
