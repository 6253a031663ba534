# Dual-role key resolver of the keyboard firmware, in Dafny

This project models the part of the right-half firmware that turns debounced key levels into USB
keyboard reports. It covers:

- the registry of pending keys: `keyboard_state_t` with its ten modifiers, ten actions and the
  immediate-execution queue;
- the bounded-array helpers of `arrays.c`;
- the three-state resolver of `usb_report_updater.c`, which decides between a key's primary role
  (its keystroke) and its secondary role (a modifier or a layer switch). Its states are free
  typing, awaiting the release of a secondary role, and secondary role active;
- the action executor, the report builder, the double-tap layer toggle and the debounce filter.

A whole update cycle, `ReportUpdater.Tick`, is a pure function from one `World` to the next.
`World` holds the registry, the key levels, the debounce timestamps, the layer-toggle statics and
the report output. What the firmware reads from elsewhere becomes an input:

- `Env` supplies the current time, the keymap lookup and the build constants;
- `Tick` also takes the raw level of every key, the layer the layer module reports, and the
  report of a running macro, if any.

A tracking call that would write past the ten modifiers or the ten actions is modelled as an
`Overflow` outcome. C's unsigned arithmetic is written out: timestamps subtract modulo 2^32, and
the debounce window compares an 8-bit difference.

The immediate-execution queue is modelled twice:
- `Tick` schedules into a corrected, unbounded queue (`KeyboardState.Schedule`) and replays it
  last-scheduled first (`Executor.ReplayIsReverseOrder`). Within `Tick` this queue never
  overflows.
- The four-slot buffer as declared, with its `% 5` write index and its wrapping `uint8_t` count,
  is modelled on its own in `ImmediateQueue`. Only there does a write past the buffer become an
  `Overflow` outcome, which is the finding below.

Modules follow the source files:
- `Arrays` is `arrays.c`.
- `KeyboardState` is `keyboard_state.c` and `keyboard_state.h`.
- `Debounce`, `Applier`, `Executor`, `Resolver` and `ReportUpdater` are the parts of
  `usb_report_updater.c`.
- `Invariants` proves that the resolver keeps the registry well formed.
- `ImmediateQueue` holds the finding below.
- `Scenarios` follows a tap and a hold-then-tap through whole handler calls.
- `Types`, `Machine` and `Filtering` hold shared definitions.

## Model

| member | source | states |
|---|---|---|
| Types.Elapsed | right/src/usb_report_updater.c:398-400 | The time since a `uint32_t` timestamp is the C subtraction: exact when the clock has not wrapped, and 2^32 more than the integer difference when it has. |
| Debounce.DebounceTimeout | right/src/usb_report_updater.c:292 | The window uses the press timeout while the last stable level is pressed and the release timeout while it is released. |
| Debounce.MitigateBouncing | right/src/usb_report_updater.c:291-303 | Inside an open window the level is forced back to `previous`. Once the 8-bit elapsed time exceeds the press or release timeout, the window closes and the sampled level stands. A fresh edge opens a window stamped with the current time and passes through. A steady key is left alone. |
| Debounce.ScanLevel | right/src/usb_report_updater.c:573-585 | After a key is scanned, its `previous` level equals its filtered `current` level. |
| Debounce.BounceSuppressedWithinWindow | right/src/usb_report_updater.c:293-298 | While a window is open, every sample in it reads as the level from before the window, whatever the raw input does. |
| Debounce.EdgePassesOnce | right/src/usb_report_updater.c:291-303 | The first edge of a steady key is reported at once and then held for the whole window, even if the contact bounces back. |
| Debounce.WindowEndsWithRawLevel | right/src/usb_report_updater.c:293-295 | Once the window has elapsed, the next sample is reported as it is and the window is closed. |
| Arrays.Position | right/src/arrays.c:4-11 | The first index whose identity matches, or -1 exactly when no entry matches. |
| Arrays.PositionIgnoresTiming | right/src/arrays.c:6 | Lookup compares only the slot and key ids: two runs with the same identities give the same index whatever their enqueue times or activation flags. |
| Arrays.IndexOf | right/src/arrays.c:4-11 | The linear search returns -1 exactly when no live entry has the identity. Otherwise it returns the first live index that has it. |
| Arrays.RemoveAt | right/src/arrays.c:13-17 | Entries after `index` move one slot left; entries outside that window are unchanged. The live prefix one shorter is the old prefix with entry `index` deleted. |
| Arrays.InsertAt | right/src/arrays.c:19-24 | The new key lands at `index` and the entries from `index` up to `size - 2` move one slot right, so `InsertAt(k, count, count)` is an append. |
| Arrays.Remove | right/src/arrays.c:26-33 | Reports true exactly when a live entry has the identity. The first such entry is deleted from the live prefix, and the buffer is unchanged otherwise. |
| KeyboardState.InvMeansNoDuplicates | right/src/keyboard_state.c:97-103 | Under the registry invariant no identity appears twice among the modifiers, twice among the actions, or in both. |
| KeyboardState.SecondaryRoleOf | right/src/keyboard_state.c:22-25 | Only a keystroke on the active layer has a secondary role; every other action has none. |
| KeyboardState.AddAction | right/src/keyboard_state.c:27-30 | The key is appended after the existing actions and nothing else changes. The append fails as an action-set overflow exactly when ten actions are already tracked. |
| KeyboardState.AddModifier | right/src/keyboard_state.c:32-35 | The same for the modifier set, failing exactly at ten modifiers. |
| KeyboardState.UntrackModifier | right/src/keyboard_state.c:37-39 | The modifier at `i` is removed; the ones before it keep their places, the ones after it close the gap, and nothing else changes. |
| KeyboardState.UntrackActionAt | right/src/keyboard_state.c:77-79 | The same for the action at `i`. |
| KeyboardState.UntrackModifierPreservesInv | right/src/keyboard_state.c:37-39 | Untracking a modifier keeps the registry invariant. |
| KeyboardState.UntrackActionPreservesInv | right/src/keyboard_state.c:77-79 | Untracking an action keeps the registry invariant. |
| KeyboardState.IsTracked | right/src/keyboard_state.c:53-57 | A key is tracked exactly when some modifier or some action has its identity. |
| KeyboardState.IsTrackedMeansInTracked | right/src/keyboard_state.c:53-57 | Being tracked is the same as being in the list of tracked identities that the invariant keeps distinct. |
| KeyboardState.UpdateActiveKey | right/src/keyboard_state.c:81-104 | A held key already tracked leaves the registry alone. An untracked one becomes a modifier if it has a secondary role on the active layer, and an action otherwise. It is enqueued with the current time and is not activated. |
| KeyboardState.AddModifierPreservesInv | right/src/keyboard_state.c:32-35 | Adding a fresh, non-activated modifier keeps the invariant. |
| KeyboardState.AddActionPreservesInv | right/src/keyboard_state.c:27-30 | Adding a fresh, non-activated action keeps the invariant. |
| KeyboardState.UpdateActiveKeyPreservesInv | right/src/keyboard_state.c:81-104 | Tracking a held key keeps the invariant. Afterwards the key is tracked, and the state and the queue are untouched. |
| KeyboardState.UpdateActiveKeyKeepsTracked | right/src/keyboard_state.c:97-103 | Afterwards the key is tracked, and every key tracked before still is. |
| KeyboardState.OlderScan | right/src/keyboard_state.c:61-74 | One pass of the search keeps the old candidate or picks an eligible entry. The result is no later than the old candidate or any eligible entry, and it changes only for a strictly older one. |
| KeyboardState.OlderScanPrefersEarliest | right/src/keyboard_state.c:62-71 | Because the comparison is strict, a new candidate is the first eligible entry with its enqueue time: every eligible entry before it is strictly younger. |
| KeyboardState.LongestPressed | right/src/keyboard_state.c:59-75 | The longest-pressed key is none exactly when there is no modifier and no action with a scancode. Otherwise it is the oldest modifier, unless an action with a scancode is strictly older than every modifier. |
| KeyboardState.Schedule | right/src/keyboard_state.c:106-110 | Scheduling appends the key to the queue, records its enqueue time as the released-action time, and stamps the key's debounce timestamp with the current time. No other key's stamp changes. This is the corrected queue (see Findings). |
| Applier.AddModifiersToReport | right/src/usb_report_updater.c:540-546 | The report's modifier byte becomes the old byte OR the flags, losing no bit and gaining no other. Only non-zero flags record the byte and the time for the later merge. |
| Applier.AppendScancode | right/src/usb_report_updater.c:254-273 | A basic scancode is appended only when it is non-zero and a slot is free. Media and system scancodes are appended when a slot is free. The other two lists are untouched and no list grows past its capacity. |
| Applier.BasicOverflowKeepsEarliest | right/src/usb_report_updater.c:255-260 | Given more basic scancodes than slots, the report keeps the earliest non-zero ones in order after those already placed, and drops the rest. |
| Applier.HandleSwitchLayerAction | right/src/usb_report_updater.c:207-243 | Only the layer statics change. Another key's release clears the double-tap candidate. A double tap toggles the layer and records the trigger time. Nothing else toggles, or moves the trigger time. |
| Applier.SwitchLayerRecordsCandidate | right/src/usb_report_updater.c:233-241 | A hold-or-double-tap-toggle key applied while up on the base layer becomes the double-tap candidate, and the timer restarts at the current time. Any other application keeps the timer, and keeps the candidate unless another key's release drops it. |
| Applier.TwoTapsToggleLayer | right/src/usb_report_updater.c:211-241 | Release, press and a second release of the same key, with the second release within the double-tap timeout of the first, toggle that key's layer on and record the trigger time. |
| Applier.UntoggleOnRetapRelease | right/src/usb_report_updater.c:222-225 | Applying the switch-layer key of the toggled layer while the key is up turns the toggle off and returns to the base layer, unless that application is itself a second tap. |
| Applier.UntoggleWhenHeldPastWindow | right/src/usb_report_updater.c:227-231 | Applying the double-tap candidate while it is held, more than 200 ms after the double tap triggered, returns the toggled layer to the base layer. The toggle flag is left as it was. |
| Applier.ApplyKeystroke | right/src/usb_report_updater.c:252-274 | A keystroke merges its modifiers into the report and then places its scancode by kind. |
| Applier.ApplyKeyAction | right/src/usb_report_updater.c:248-288 | Only the report, the layer statics and the merge record change. A keystroke fills the report as above. A mouse action turns its mouse state on. Other actions leave the report alone. No report list outgrows its capacity. |
| Applier.ApplyKeyActionKeepsModifiers | right/src/usb_report_updater.c:252-253 | Applying an action never clears a modifier bit, and a keystroke's own modifiers end up in the report. |
| Executor.ScheduleKey | right/src/keyboard_state.c:106-110 | Scheduling appends to the queue, sets the released-action time and stamps only that key. |
| Executor.ReplayScheduled | right/src/usb_report_updater.c:361-366 | Replaying the queue touches only the report, the layer statics and the merge record. It keeps the report within capacity. |
| Executor.ApplyPending | right/src/usb_report_updater.c:362-365 | Applying one pending key changes only the report, the layer statics and the merge record. It leaves the levels and the sent reports alone and keeps the report within capacity. |
| Executor.ReplayKeepsByte | right/src/usb_report_updater.c:362-365 | The replay never clears a modifier bit of the report. |
| Executor.ReplayKeepsModifiers | right/src/usb_report_updater.c:362-365 | After the replay, the report holds the own modifiers of every replayed keystroke. |
| Executor.ReplayIsReverseOrder | right/src/usb_report_updater.c:362-365 | The replay applies the queued keys last-scheduled first. |
| Executor.ExecModifierActions | right/src/usb_report_updater.c:345-358 | The pass changes nothing but the modifier byte and the merge record. |
| Executor.ExecModifierActionsMerges | right/src/usb_report_updater.c:345-358 | Afterwards the byte is the old byte OR the modifiers of every held action whose keystroke has no scancode. |
| Executor.HeldModifierMaskCovers | right/src/usb_report_updater.c:351-352 | Each held modifier-only action contributes all of its modifier bits. |
| Executor.RetireAction | right/src/usb_report_updater.c:391-394 | Retiring an action clears its key's suppression and untracks it, and nothing else changes. |
| Executor.ActionStep | right/src/usb_report_updater.c:384-394 | A held, unsuppressed action stays tracked with its level untouched. Any other action is deleted and its suppression cleared. The rest of the registry is kept. |
| Executor.ActionLoop | right/src/usb_report_updater.c:383-395 | The loop changes only the actions and the merge record, sends nothing and keeps the report within capacity. |
| Executor.ActionLoopKeepsHeld | right/src/usb_report_updater.c:383-395 | After the loop over the first `i` actions, those that stay are exactly the held, unsuppressed ones, in order, followed by the unvisited rest. |
| Executor.ActionLoopFrame | right/src/usb_report_updater.c:383-395 | The loop changes no level except those of the actions it visits. |
| Executor.ActionLoopClearsRetired | right/src/usb_report_updater.c:391-393 | Every visited action that is retired loses its suppression; every kept one keeps its level. |
| Executor.FlushScheduled | right/src/usb_report_updater.c:361-381 | The flush of a non-empty queue sends exactly one report, the one it has built, and the registry keeps everything but the merge record. |
| Executor.FlushMergesRecentModifiers | right/src/usb_report_updater.c:367-378 | The sent report keeps every modifier bit the replay left. It holds the flags of the last non-empty merge when that merge lies less than 100 ms back. It holds the modifiers of every held modifier-only action. |
| Executor.FlushKeepsReplayedModifiers | right/src/usb_report_updater.c:361-378 | The sent report holds the own modifiers of every queued keystroke. |
| Executor.ExecuteActions | right/src/usb_report_updater.c:360-396 | One report is sent exactly when the queue was non-empty, and none otherwise. Only the actions and the merge record change in the registry. |
| Executor.ExecuteActionsKeepsHeld | right/src/usb_report_updater.c:383-395 | The actions left tracked are exactly the held, unsuppressed ones, in their original order. |
| Executor.ExecuteActionsClearsRetired | right/src/usb_report_updater.c:391-393 | Every retired action key loses its suppression. Every other key's level is unchanged. |
| Resolver.PromoteModifiers | right/src/usb_report_updater.c:410-414 | Handing the held modifiers over changes only the action set, and the only overflow it can meet is the action set's. |
| Resolver.PromoteModifiersAppends | right/src/usb_report_updater.c:410-414 | The held pending modifiers are appended to the actions in order. This fails exactly when they do not fit in ten. |
| Resolver.ModifiersToActions | right/src/usb_report_updater.c:410-415 | Apart from the moved actions, the only change is that the modifier set is emptied. |
| Resolver.ModifiersToActionsAppends | right/src/usb_report_updater.c:410-415 | The actions become the old actions followed by the held modifiers; released pending modifiers are dropped. |
| Resolver.HandleFreeType | right/src/usb_report_updater.c:402-418 | The state moves to awaiting exactly when a modifier is pending and the longest-pressed key has a secondary role. Otherwise the held modifiers become actions and the actions execute. |
| Resolver.TimeoutElapsedMeans | right/src/usb_report_updater.c:398-400 | A key's secondary-role timeout has elapsed exactly when the unsigned 32-bit difference between the clock and its enqueue time exceeds the kick-in threshold, so a key enqueued just before the clock wrapped has waited only the ticks since. |
| Resolver.AwaitReleaseLoop | right/src/usb_report_updater.c:426-442 | The first loop of the await state changes only the modifiers, the queue, the released-action time and the timestamps. |
| Resolver.AwaitSeveralKeepsModifiers | right/src/usb_report_updater.c:430-434 | With several modifiers pending, the loop untracks and schedules nothing. It raises the trigger exactly when a visited modifier is released. |
| Resolver.AwaitSoleReleasedModifier | right/src/usb_report_updater.c:435-440 | A sole released modifier is untracked. Its primary role is scheduled only if it was released before the kick-in threshold. |
| Resolver.HandleAwait | right/src/usb_report_updater.c:420-479 | The secondary role activates exactly when a held modifier has the trigger or has waited past the threshold. Otherwise, with no modifier left, the actions execute and the state returns to free typing. Otherwise the cycle changes nothing more. |
| Resolver.AwaitStallsWithoutHeldModifier | right/src/usb_report_updater.c:426-478 | When several modifiers are pending and all are released, the cycle untracks, schedules and sends nothing and stays in the await state. |
| Resolver.ScheduleReleasedActions | right/src/usb_report_updater.c:485-490 | The first loop of the active state changes only the queue, the released-action time and the timestamps. |
| Resolver.ScheduleReleasedActionsContents | right/src/usb_report_updater.c:485-490 | The first loop of the active state queues exactly the released actions, in order. |
| Resolver.ScheduleReleasedActionsTime | right/src/usb_report_updater.c:485-490 | The released-action time becomes that of the last released action, or stays when none is released. |
| Resolver.CommitRole | right/src/usb_report_updater.c:506-512 | A layer-switcher role sets the active layer. A modifier role ORs its mask into the report. No role changes nothing. No modifier bit is ever lost. |
| Resolver.CommitAt | right/src/usb_report_updater.c:501-515 | A committing modifier is marked activated, its role is applied, and no other entry changes. |
| Resolver.CommitLoop | right/src/usb_report_updater.c:494-517 | The second loop keeps the number of modifiers and changes only the modifiers, the active layer, the report's modifier byte and the merge record. |
| Resolver.CommitLoopMarksActivated | right/src/usb_report_updater.c:493-517 | After the loop, exactly the held modifiers that are activated, have waited past the threshold or are older than the released action are marked activated. |
| Resolver.CommitLoopReportsCommit | right/src/usb_report_updater.c:493-517 | The loop reports an active modifier exactly when some held modifier commits, and without one it changes nothing. |
| Resolver.ReleaseLoop | right/src/usb_report_updater.c:520-529 | The third loop changes only the modifiers, the queue, the released-action time and the timestamps, and never adds a modifier. |
| Resolver.ReleaseStep | right/src/usb_report_updater.c:520-528 | A released modifier is untracked and a held one kept. The released one is queued only if it neither waited past the threshold nor was activated. |
| Resolver.ReleaseLoopKeepsPressed | right/src/usb_report_updater.c:519-529 | After the third loop the modifiers are exactly the held ones, in order. |
| Resolver.ReleaseLoopSchedulesOwed | right/src/usb_report_updater.c:519-529 | The third loop queues the released, short, non-activated modifiers in reverse order. |
| Resolver.ReleaseLoopNeverEmitsCommitted | right/src/usb_report_updater.c:522-526 | Nothing the third loop queues was activated: a key whose secondary role was committed never has its primary role emitted. |
| Resolver.ActiveLoops | right/src/usb_report_updater.c:481-529 | The three loops of the active state keep the actions, the state, the levels and the sent reports, and never add a modifier. |
| Resolver.HandleActive | right/src/usb_report_updater.c:481-538 | With a committed modifier the state stays active. Otherwise it becomes awaiting if actions remain and free typing if none do. The modifiers are those the loops left. |
| Invariants.ExecuteActionsPreservesInv | right/src/usb_report_updater.c:360-396 | Executing the actions keeps the registry invariant. |
| Invariants.ModifiersToActionsPreservesInv | right/src/usb_report_updater.c:410-415 | Moving the held modifiers to the actions keeps the invariant. |
| Invariants.HandleFreeTypePreservesInv | right/src/usb_report_updater.c:402-418 | The free-typing handler keeps the invariant and does not touch the queue. |
| Invariants.SoleReleaseKeepsInv | right/src/usb_report_updater.c:435-440 | Scheduling and untracking a sole released modifier keeps the invariant and queues nothing activated. |
| Invariants.AwaitReleaseLoopPreservesInv | right/src/usb_report_updater.c:426-442 | The first loop of the await state keeps the invariant and queues nothing activated. |
| Invariants.HandleAwaitPreservesInv | right/src/usb_report_updater.c:420-479 | The await handler keeps the invariant and queues nothing activated. |
| Invariants.ScheduleReleasedActionsPreservesInv | right/src/usb_report_updater.c:485-490 | Queuing the released actions keeps the invariant and queues nothing activated. |
| Invariants.CommitLoopPreservesInv | right/src/usb_report_updater.c:493-517 | Committing modifiers in the active state keeps the invariant and leaves the queue alone. |
| Invariants.ReleaseLoopPreservesInv | right/src/usb_report_updater.c:519-529 | The third loop keeps the invariant and queues nothing activated. |
| Invariants.NoCommitLeavesNoneActivated | right/src/usb_report_updater.c:493-535 | If no modifier commits in a cycle, none of the modifiers left is activated, so leaving the active state is sound. |
| Invariants.HandleActivePreservesInv | right/src/usb_report_updater.c:481-538 | The active-state handler keeps the invariant and queues nothing activated. |
| Scenarios.TapSendsPrimaryRole | right/src/usb_report_updater.c:420-479 | A dual-role key pressed and released alone before the kick-in threshold sends one report holding only its primary scancode. The key is untracked, the layer is kept and the state returns to free typing. |
| Scenarios.CommittedModifierMerges | right/src/usb_report_updater.c:485-529 | In the active state, a held dual-role key that commits to a modifier role ORs its mask into the report and is marked activated and kept. Nothing is scheduled and nothing is sent. |
| Scenarios.HoldThenTapMergesRole | right/src/usb_report_updater.c:481-538 | A dual-role key committed to a modifier role, held while a basic key is held, puts its mask and that key's scancode into the same report. The state stays active and both keys stay pending. |
| ReportUpdater.SlotRow | right/src/usb_report_updater.c:570 | One slot's row lists its keys 0 up to the count, in order. |
| ReportUpdater.ScanOrderCovers | right/src/usb_report_updater.c:569-587 | The scan visits only keys within the slot and key counts, and visits every one of them. |
| ReportUpdater.ScanOrderSorted | right/src/usb_report_updater.c:569-570 | The scan is slot-major and ascending: each key comes strictly before every later one. |
| ReportUpdater.ScanKeys | right/src/usb_report_updater.c:569-587 | The scan changes only the levels, the timestamps and the modifier and action sets; the registry's state, layer and queue are kept. |
| ReportUpdater.ScanKey | right/src/usb_report_updater.c:571-585 | The scanned key's level becomes its filtered level and no other level changes. A released key leaves the registry alone, so only tracking a held key can change it. The scan overflows exactly when a held key does not fit. |
| ReportUpdater.ScanKeyTracks | right/src/usb_report_updater.c:581-583 | The key is tracked after its scan if it is held. The invariant and every earlier tracking survive. |
| ReportUpdater.ScanKeysTracksHeld | right/src/usb_report_updater.c:569-587 | After the scan every held key is tracked and the invariant holds. |
| ReportUpdater.RunHandlers | right/src/usb_report_updater.c:594-608 | Only the free-typing handler can overflow. |
| ReportUpdater.RunHandlersPreservesInv | right/src/usb_report_updater.c:594-608 | Running the handlers one after another keeps the invariant and queues nothing activated. |
| ReportUpdater.HandleFreeTypeSends | right/src/usb_report_updater.c:402-418 | The free-typing handler sends at most one report, and none when it moves on to awaiting. |
| ReportUpdater.HandleAwaitSends | right/src/usb_report_updater.c:420-479 | The await handler sends at most one report, and only when it returns to free typing. |
| ReportUpdater.HandleActiveSends | right/src/usb_report_updater.c:481-538 | The active-state handler sends at most one report. |
| ReportUpdater.RunHandlersSendsAtMostOnce | right/src/usb_report_updater.c:594-608 | Although a cycle can run two or three handlers, at most one report is sent. |
| ReportUpdater.Tick | right/src/usb_report_updater.c:548-614 | A running macro's report is copied out and the registry is left untouched. Otherwise the previous layer is the active layer at the end of the cycle. |
| ReportUpdater.TickPreservesInv | right/src/usb_report_updater.c:548-614 | A whole cycle keeps the registry invariant, leaves nothing activated in the queue and sends at most one report. |
| ImmediateQueue.WriteAsWritten | right/src/keyboard_state.c:106-110 | The write goes to index `amount % 5`, which is out of the four slots exactly when it is 4. A write in bounds changes only that slot. |
| ImmediateQueue.AsWrittenFillsInOrder | right/src/keyboard_state.c:107 | Up to four writes from an empty count stay in bounds and fill the slots in order. |
| ImmediateQueue.OverrunPersists | right/src/keyboard_state.c:107 | Once a write has overrun, the cycle's later writes do not make it good. |
| ImmediateQueue.FifthWriteOverruns | right/src/keyboard_state.c:107 | Any cycle that schedules five or more keys overruns the four-slot buffer. |
| ImmediateQueue.ScheduleAllKeepsEveryKey | right/src/keyboard_state.c:106-108 | The corrected queue holds every key scheduled in a cycle, in order, with the released-action time of the last. |
| ImmediateQueue.AsWrittenAgreesWithCorrected | right/src/keyboard_state.c:107 | With at most four keys, the buffer as written holds exactly what the corrected queue holds. |
| ImmediateQueue.ActiveStateOverrunsBuffer | right/src/usb_report_updater.c:485-490 | Five released actions in a cycle of the active state overrun the buffer as written. |
| ImmediateQueue.FiveReleasedWorld | right/src/keyboard_state.h:26-45 | Such a registry is allowed by the invariant: a held dual-role key and five released action keys in the active state. |
| ImmediateQueue.FiveReleasedWorldOverruns | right/src/usb_report_updater.c:485-490 | That registry overruns the buffer in its next cycle. |

## Left out

- Mouse kinetics (`processMouseActions`, floating point) are not modelled. A mouse action only
  turns its mouse state on, and the mouse report is not built.
- `sendKeyboardEvents` is not modelled. The USB send, the report semaphore and the
  report-changed comparison in `UpdateUsbReports` are left out too. A send is recorded as a
  snapshot of the report appended to `sent`.
- `LedDisplay_SetLayer`, `WakeUpHost`, `sendDebugChar` and the sleep-mode check are left out as
  hardware I/O.
- The macro engine (`Macros_ContinueMacro`) is not modelled. The macro's reports are an input
  of `Tick`.
- `SwitchKeymapById` and `Macros_StartMacro` are recorded only as requests in the output.
- key_action.h is not part of this model. The secondary-role code is read as already decoded into
  the `SecondaryRole` datatype, and the keymap is an input function.
- `GetActiveLayer` is an input of `Tick`, since the layer module is not part of this model.
- The copy of the right-half matrix into the key levels (`usb_report_updater.c:620-622`) becomes
  the `raw` input of `Tick`, as does the left half's bridge input.
- KeyboardState.AddModifier, KeyboardState.AddAction: the `uint8_t` wrap of the counts is not
  modelled, because the capacity of ten is reached long before 256.
- The reset of the report lists at the start of a cycle (`usb_report_updater.c:632-636`) is
  modelled as the empty output `Tick` starts from. The scancode indexes reset with it.
- ReportUpdater.Tick: its contract states only the macro case and the layer bookkeeping. What
  the cycle does to the registry is stated by ReportUpdater.TickPreservesInv and the handler
  lemmas.
- Two behaviours of the code are modelled as written although one might expect otherwise.
  First, one might expect a debounce filter to hold back a level change shorter than its
  timeout. This one passes a key's first edge through at once and suppresses the bounces after
  it, so a short change does reach `current`. Second, one might expect a key pressed in a cycle
  to be classified on the layer active in that cycle. The scan's `updateActiveKey` resolves the
  secondary role on the previous cycle's active layer, because `State.activeLayer` is assigned
  after the scan.
- Observed behaviour, not a finding: holding the double-tap key more than 200 ms after the
  toggle resets `ToggledLayer` to the base layer but leaves `isLayerDoubleTapToggled` set
  (Applier.UntoggleWhenHeldPastWindow). The code does not say whether the flag is meant to stay.
- Observed behaviour, not a finding: in the await state, several pending modifiers all released
  in the same cycle are neither untracked nor scheduled, and the state does not change. The cycle
  stalls until a key with a secondary role is pressed (Resolver.AwaitStallsWithoutHeldModifier).
  Whether that is intended cannot be told from the code.

## Findings

| source | as written | input that shows it | evidently intended | confidence | as-written member | corrected member |
|---|---|---|---|---|---|---|
| right/src/keyboard_state.c:107 | `scheduleForImmediateExecution` stores the key at index `amount++ % 5` of `scheduledForImmediateExecution[4]` (keyboard_state.h:35). | In the secondary-role-active state, with a dual-role key held, five action keys are released in the same scan. The first loop of `handleActiveSecondaryRoleState` schedules all five, and the fifth write lands at index 4, past the array. | Every key scheduled in a cycle is kept and replayed by `executeActions`, as its loop from `amount - 1` down to 0 assumes. | not executed | ImmediateQueue.ActiveStateOverrunsBuffer | ImmediateQueue.ScheduleAllKeepsEveryKey |
