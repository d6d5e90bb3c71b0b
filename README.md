# nes-to-usb in Dafny

The firmware polls two NES controllers and presents them to the host as one
USB boot keyboard. This project models its three stages and proves what they
compute.

- **Poll state machine.** A timer interrupt runs a sixteen-phase sequencer.
  - Phase 0 raises the latch and clears both masks.
  - Every odd phase lowers the latch or clock line and samples each
    controller's active-low data line into bit `phase / 2`.
  - At the end of a cycle, a snapshot of the current and previous masks is
    pushed into a ten-slot queue, but only when a mask changed. The queue
    drops the snapshot when it is full.
- **Report translator.** For one controller, this stage edge-detects the
  eight buttons. A press of a modifier-tagged keymap entry ORs its bit into
  the modifier byte. A press of a regular key writes its code into the first
  empty key slot. Releases undo these edits. The out-flag records whether a
  key slot was written.
- **Translator task.** One loop pass does the following:
  - takes a snapshot off the queue;
  - sets the LED duty from it;
  - translates each controller whose mask changed;
  - sends the eight-byte report when a slot was written.

Two small helpers are modelled as well. `rand` is a linear congruential
generator whose 32-bit wrap-around is written out. `_write` is the newlib
write hook that copies characters up to `len` or the first NUL, and follows
each line feed with a carriage return.

Modules, one per stage:
- `Keymaps`: constants and the two keymaps.
- `Report`: the translator, with the in-place `KbdReport` class.
- `Poll`: the tick as a function `TickSpec`, plus the classes `NesFsm` and
  `EventQueue` that run it in place.
- `Task`: the loop body, with the `NesTask` class.
- `Consistency`: the end-to-end theorem.
- `Utils`: `rand` and `_write`.

Each imperative method is proved against a specification function, and the
properties are proved as lemmas about that function.

The end-to-end theorem, `Consistency.NoDropsNoStuckKeys`, says this. Suppose
every snapshot the poll machine produces from power-up reaches the
translator. Then after any sequence of line readings:
- the report's modifier byte is exactly the OR of the held modifier buttons;
- every occupied slot holds the code of a held regular button;
- no code sits in two slots.

So no key stays pressed after its button is released.

At the end of a cycle the code updates the previous masks only inside the
"mask changed" branch (src/nes_to_usb.c:100-104). Either way, after every
cycle they equal the new masks (`Poll.FullCycle`).

## Model

| member | source | states |
|---|---|---|
| Keymaps.P1Keymap | src/nes_to_usb.c:51-53 | Controller 1's keymap is well formed: regular codes are nonzero, fit a byte and are pairwise distinct; each modifier entry names one modifier bit, and no two share a bit. |
| Keymaps.P2Keymap | src/nes_to_usb.c:54-56 | The same well-formedness for controller 2's keymap, which has two modifier entries. |
| Keymaps.KeymapsDisjoint | src/nes_to_usb.c:51-56 | The two keymaps share no regular code and no modifier bit. |
| Keymaps.DisjointSymmetric | src/nes_to_usb.c:51-56 | Disjointness of two keymaps holds in either order. |
| Keymaps.BitIsShift | src/nes_to_usb.c:92 | The single-bit mask is `1 << k`, and the bit test is the source's `mask >> k & 1`. |
| Poll.SetBit | src/nes_to_usb.c:92 | ORing in bit k sets exactly bit k and keeps every other bit. |
| Poll.Sample | src/nes_to_usb.c:91-96 | A low line sets bit k; a high line changes nothing; no other bit moves. |
| Poll.SampleStep | src/nes_to_usb.c:77-97 | Phase 0 clears both masks; even phases above 0 keep them; odd phases set bit phase/2 exactly when the line is low and keep the other bits; the previous masks are untouched. |
| Poll.EdgeAt | src/nes_to_usb.c:77-90 | The latch is driven in phases 0 and 1 and the clock afterwards; the line goes high in even phases and low in odd ones. |
| Poll.TickSpec | src/nes_to_usb.c:76-109 | Between ticks the phase stays within 0..15. |
| Poll.TickSpecFacts | src/nes_to_usb.c:76-109 | One tick: the phase becomes (phase+1) mod 16, and the cycle ends exactly at phase 15. A tick masks as SampleStep does. A snapshot is produced iff the cycle ended and a mask differs from its previous value. The snapshot carries the previous masks from before the update. At the end of a cycle the previous masks equal the new ones. |
| Poll.PartialCycleState | src/nes_to_usb.c:76-109 | After n < 16 ticks from phase 0: the phase is n, tick t drove EdgeAt(t), no snapshot was produced, and the previous masks are unchanged. |
| Poll.PartialCycleMasks | src/nes_to_usb.c:77-97 | After n < 16 ticks from phase 0, bit k of each mask is set iff tick 2k+1 happened and read the line low. |
| Poll.FullCycle | src/nes_to_usb.c:76-108 | Sixteen ticks from phase 0 end at phase 0 with bit k set iff the line was low at tick 2k+1. They produce one snapshot iff a mask changed, and leave the previous masks equal to the new ones. |
| Poll.RunTicks | src/nes_to_usb.c:76-109 | Successive ticks keep the phase within 0..15 and drive one edge per tick. |
| Poll.EventQueue.constructor | src/nes_to_usb.c:276 | The queue is created empty, with room for 10 snapshots. |
| Poll.EventQueue.TrySend | src/nes_to_usb.c:101 | Enqueues at the tail when the queue holds fewer than its capacity; otherwise drops the item and reports failure. |
| Poll.EventQueue.Receive | src/nes_to_usb.c:240-241 | Returns and removes the oldest item; an empty queue is left unchanged. |
| Poll.NesFsm.constructor | src/nes_to_usb.c:68 | The sequencer starts at phase 0 with all four masks zero, nothing driven and both timer flags clear. The queue it fills has room for 10 snapshots. |
| Poll.NesFsm.Drive | src/nes_to_usb.c:77-97 | Drives EdgeAt(phase) and updates the masks as SampleStep does, leaving the phase and the timer flags alone. |
| Poll.NesFsm.Tick | src/nes_to_usb.c:76-109 | The in-place tick matches TickSpec in phase, masks and edge. The queue gains the snapshot iff one was produced and the queue had room. The counter stops at the end of a cycle. |
| Poll.NesFsm.Isr | src/nes_to_usb.c:111-116 | With the update flag clear, nothing changes; with it set, the flag is cleared and one tick runs. |
| Report.EmptyReport | src/nes_to_usb.c:74 | The static report starts with a zero modifier and six zero slots. |
| Report.FirstIndex | src/nes_to_usb.c:212-218 | The index of the first slot holding v, or the slot count when none does; no earlier slot holds v. |
| Report.PressKey | src/nes_to_usb.c:212-218 | A regular press writes the entry's low byte into the lowest empty slot iff a slot is empty, and reports the write; otherwise the slots are unchanged. |
| Report.ReleaseKey | src/nes_to_usb.c:225-231 | A regular release zeroes the lowest slot equal to the whole 16-bit entry iff one exists, and reports the write; otherwise nothing changes. |
| Report.PressEntry | src/nes_to_usb.c:208-211 | A modifier press ORs the entry's low byte into the modifier byte and touches neither slots nor flag; a regular press keeps the modifier byte. |
| Report.StepBitFacts | src/nes_to_usb.c:208-233 | One loop iteration keeps six slots and never resets the out-flag. It writes a slot only when it raises the flag. With neither a press nor a release edge it changes nothing. |
| Report.ReleaseEntry | src/nes_to_usb.c:221-224 | A modifier release clears the entry's low-byte bits and touches neither slots nor flag; a regular release keeps the modifier byte. |
| Report.TranslateUpTo | src/nes_to_usb.c:207-234 | The out-flag is never reset. Slots change only when the flag is raised. Equal masks change nothing. |
| Report.Translate | src/nes_to_usb.c:204-235 | event_to_report keeps six slots and never resets the out-flag. It writes a slot only when it raises the flag. Equal masks change nothing. |
| Report.Serialize | include/usb_descriptors.h:9-13 | The report bytes are the modifier, a zero reserved byte and the six slots. Parsing them gives back the report. |
| Report.TranslateOneBit | src/nes_to_usb.c:207-234 | When the masks differ in at most bit i, translating is the single press or release step of entry i. |
| Report.SlotRoundTrip | src/nes_to_usb.c:212-231 | Pressing and then releasing a regular code that was not in the slots restores all six slots. |
| Report.RegularPressRelease | src/nes_to_usb.c:204-235 | Pressing one regular button and then releasing it restores the modifier byte and every slot. The press raises the flag iff a slot was free. |
| Report.ModifierPressRelease | src/nes_to_usb.c:208-224 | A modifier press ORs in exactly its single bit, and the release clears exactly that bit; neither touches a slot or the flag. |
| Report.ModifierOnlyUnchanged | src/nes_to_usb.c:204-235 | A change confined to modifier buttons writes no slot and leaves the flag as it was, so it alone is never sent. |
| Report.KbdReport.TakeSlot | src/nes_to_usb.c:212-218 | The in-place slot scan with break makes the edit PressKey describes, and leaves the modifier alone. |
| Report.KbdReport.FreeSlot | src/nes_to_usb.c:225-231 | The in-place slot scan with break makes the edit ReleaseKey describes, and leaves the modifier alone. |
| Report.KbdReport.constructor | src/nes_to_usb.c:74 | The static report starts as the empty report: zero modifier and six zero slots. |
| Report.KbdReport.ApplyBit | src/nes_to_usb.c:208-233 | One iteration of the button loop updates the report and flag as the press step and then the release step of the entry. |
| Report.KbdReport.ApplyEvent | src/nes_to_usb.c:204-235 | event_to_report on the shared report computes Translate of the old report and flag. |
| Task.Duty | src/nes_to_usb.c:243-251 | The duty is 100 iff both masks are nonzero, 50 iff only controller 1's is, 10 iff only controller 2's is, and 0 iff both are zero. |
| Task.DutyDeterminesActivity | src/nes_to_usb.c:243-251 | Two snapshots give the same duty iff they agree on which controllers are active. |
| Task.HandleEvent | src/nes_to_usb.c:253-259 | Translating only changed controllers is the same as translating both in order. An unchanged snapshot changes nothing. Slots change only when the flag is raised. |
| Task.UpPressScenario | src/nes_to_usb.c:243-262 | Controller 1 pressing Up on an empty report puts the Up Arrow code in slot 0, keeps the modifier clear, raises the flag and sets the duty to 50. |
| Task.UpPressTranslate | src/nes_to_usb.c:204-235 | Controller 1's translation of that press alone. |
| Task.NesTask.Step | src/nes_to_usb.c:240-262 | An empty queue changes nothing. Otherwise the oldest snapshot is removed and the duty is set from it. The report becomes HandleEvent of the old report. The report bytes are sent iff the flag was raised. |
| Task.NesTask.constructor | src/nes_to_usb.c:237-238 | The task starts on the shared report and queue, with the LED duty at 0 and nothing sent. |
| Consistency.TranslateReflects | src/nes_to_usb.c:204-235 | If the report reflected mask o, translating o to b makes it reflect b (for compatible keymaps). |
| Consistency.HandleEventReflects | src/nes_to_usb.c:253-259 | A report reflecting a snapshot's previous masks reflects its new masks after the snapshot is handled. |
| Consistency.EmptyReflectsIdle | src/nes_to_usb.c:74 | The empty report reflects two idle controllers. |
| Consistency.RunChained | src/nes_to_usb.c:99-104 | Each snapshot's previous masks are the masks the previous snapshot reported. The last snapshot ends at the machine's previous masks. |
| Consistency.ReplayReflects | src/nes_to_usb.c:237-262 | Handling a chained stream of snapshots keeps the report reflecting the latest masks. |
| Consistency.NoDropsNoStuckKeys | src/nes_to_usb.c:76-262 | From power-up, if no snapshot is dropped, the report reflects the masks of the last completed poll cycle: modifiers exactly held, no slot for a released key, no duplicate codes. |
| Consistency.ReleasedAbsent | src/nes_to_usb.c:212-231 | In a report that reflects the controllers, the code of a regular button that is not held occupies no slot. |
| Consistency.P1PressRelease | src/nes_to_usb.c:204-235 | In every report the firmware can reach, pressing and then releasing a regular button of controller 1 restores the modifier byte and all six slots. The press raises the flag iff a slot was free. |
| Consistency.P2PressRelease | src/nes_to_usb.c:204-235 | The same round trip for a regular button of controller 2. |
| Utils.Wrap32 | src/utils.c:12 | Unsigned 32-bit arithmetic results are below 2^32. |
| Utils.WrapThenMod | src/utils.c:9-12 | Wrapping at 2^32 before reducing mod 2^31 does not change the result. |
| Utils.NextSeed | src/utils.c:9-12 | The wrapped seed update equals (1103515245 * seed + 12345) mod 2^31, and is below 2^31. |
| Utils.Rng.constructor | src/utils.c:8 | The seed starts at 1234567890. |
| Utils.Rng.Rand | src/utils.c:11-14 | rand replaces the seed by NextSeed of the old seed and returns the new seed. |
| Utils.Consumed | src/utils.c:35 | The number of characters taken is the least i with i == len or ptr[i] NUL, and 0 when len <= 0. |
| Utils.Emit | src/utils.c:36-39 | Each character is sent first. A line feed alone is followed by a carriage return. Nothing more is sent. |
| Utils.Expand | src/utils.c:35-40 | Every line feed emitted is followed by a carriage return, and the output is at least as long as the input. |
| Utils.CollapseExpand | src/utils.c:35-40 | Removing the inserted carriage returns gives back the input, so nothing else is emitted and the order is preserved. |
| Utils.ExpandAppend | src/utils.c:35-40 | The output of a string plus one character is the string's output followed by that character's. |
| Utils.Write | src/utils.c:32-43 | With ITM on, _write returns Consumed and emits Expand of the consumed prefix. With ITM off, it returns 0 and emits nothing. |

## Left out

- Hardware setup (`configure_gpio`, `configure_timers`, `configure_usb_keyboard`, `main`): one-time register configuration. The timer prescalers also use floating-point literals. This part is not modelled.
- GPIO register access: the line reads are parameters of `Tick`/`Isr`, and the latch and clock edges are a ghost `edges` sequence.
- The USB stack (`hid_control_request`, `usb_set_config_callback`, `usb_task_fn`): a foreign transport. `usbd_ep_write_packet` is a ghost sequence of the sent report bytes.
- The descriptor tables in include/usb_descriptors.h: static data. Only the report layout is used.
- FreeRTOS: the queue is a bounded first-in first-out sequence that drops when full, and the interrupt handler and the translator task are sequential method calls. There is no concurrency.
- Poll.EventQueue.Receive: `xQueueReceive` blocks on an empty queue. The model returns None instead, and `Task.NesTask.Step` then changes nothing.
- Poll.NesFsm.Tick: the TIM4 counter reset at src/nes_to_usb.c:107 is not modelled, because it does not affect the counter's enabled state.
- Consistency.NoDropsNoStuckKeys: assumes no snapshot is dropped. Snapshots dropped on a full queue can leave a stale key, because the previous masks are updated even when the send fails.
- The TIM4 update flag and counter (`Poll.NesFsm.updateFlag`, `Poll.NesFsm.counterEnabled`): no method sets them. The hardware raises the update flag, and TIM3 re-arms TIM4 (src/nes_to_usb.c:168-174). Callers set these fields to stand for the hardware.
- The LED compare value: modelled as the `duty` field. The PWM output itself is not modelled.
- Logging macros in include/utils.h, the ITM busy-wait loops (`wait_itm_available` and the FIFO wait in `itm_send_char`), and the linker stubs at src/utils.c:46-52: no behaviour to model. Each `itm_send_char` is appended to the emitted sequence.
- The C expression `(1 << 31)` at src/utils.c:9 overflows a signed int in C. The model uses the intended modulus 2^31.
- Utils.Write: the `fd` argument is unused, as in the source.
