# ButtonManager: a verified model of the debounce and edge-detection core

This project models `ButtonManager`, an Arduino class that manages six push
buttons wired to digital pins with the internal pull-up enabled: a pressed
button reads `LOW`. The class owns a fixed array of six button records (pin,
current debounced state, previous state, press count, name), a constant
debounce interval (50 ms by default) and the time of the last accepted poll.
`update()` ignores any poll that comes no more than the debounce interval
after the last accepted one. Otherwise it records the time, and for each
button it counts a rising edge (down now, released at the previous accepted
poll), logs `BOTAO <name> PRESSIONADO`, and stores the new state as both
current and previous. Queries look a button up by pin (first match) and
return a sentinel for an unknown pin: `false`, `0` or `"UNKNOWN"`.

Layout:

- `uint.dfy` (module `Uint`): `uint8_t` and the 32-bit `unsigned long` of the
  AVR target as newtypes `u8` and `u32`, with wrap-around `Add32`, `Sub32` and
  `Inc32`.
- `button_config.dfy` (module `ButtonConfig`): the six pins (3, 2, 5, 13, 11,
  12) and names (MENU, ESC, UP, DOWN, RIGHT, LEFT) of the configuration
  table, as constants.
- `button_logic.dfy` (module `ButtonLogic`): the rules stated on values. It
  defines one poll of one button (`StepButton`), of the table (`Step`) and of
  the manager (`Update`, with the debounce gate `Accepts`), the reset
  (`Reset`), first-match lookup by pin (`FindPin`) and the queries built on
  it. It also defines a button over a series of accepted polls (`Run`) and
  the manager over a series of polls (`UpdateAll`), with the lemmas about
  all of these.
- `button_manager.dfy` (module `Manager`): class `ButtonManager`. It holds
  `const buttons: array<Button>` (the array, and so its length, never
  changes), `var lastDebounce` and `const debounceTime`. Its methods keep the
  source's loops, update the array in place, and are proved against the
  functions of `ButtonLogic`. The loop of `update()` is the method
  `ProcessButtons`, and its body for one slot is `ProcessButton`. `Valid()`
  is the class invariant: six slots with the configured pins and names, and
  `pressed == previousState` in each. The method `PressUpScenario` is a client that builds a manager and
  polls it twice.

The clock and the pins are parameters. `now: u32` stands for the value of
`millis()`, and `read: u8 -> Level` for `digitalRead(pin)` on every pin.

Behaviour worth knowing, as the code has it:

- The gate is strict (`>`). With a debounce interval of 0, a poll in the
  same millisecond as the last accepted one is still skipped
  (`ZeroDebounceAcceptsAnyTick`).
- Press counts and the total are `unsigned long`. They wrap to 0 past
  2^32 - 1; they do not saturate.
- Elapsed time is the wrapping difference `now - lastDebounce`. The gate
  therefore measures the true elapsed time across a wrap of the
  millisecond clock (`GateAcrossWrap`).

## Model

| member | source | states |
|---|---|---|
| `Uint.Add32` | ButtonManager.cpp:117 | the 32-bit sum is the exact sum when it fits and the sum minus 2^32 when it carries out |
| `Uint.Sub32` | ButtonManager.cpp:45 | the 32-bit difference is `a - b` when `b <= a` and `a - b + 2^32` otherwise; adding `b` back gives `a` |
| `Uint.Inc32` | ButtonManager.cpp:55 | `pressCount++` adds 1 below the maximum, wraps the maximum to 0, and always changes the value |
| `Uint.ModAddLeft` | ButtonManager.cpp:117 | reducing the running total modulo 2^32 before adding does not change the sum modulo 2^32 |
| `ButtonConfig.TableWellFormed` | ButtonConfig.hpp:11-29 | there are six pins and six names; no pin is 0; no two buttons share a pin |
| `ButtonLogic.InitialConfigured` | ButtonManager.cpp:23-37 | the initial table satisfies the table invariant; every button is released, with previous state false and count 0 |
| `ButtonLogic.StepButtonEdge` | ButtonManager.cpp:51-63 | one accepted poll keeps pin and name, and sets pressed and previous state to (level is LOW). The count changes iff there is a rising edge, and then by exactly 1 mod 2^32; a HIGH reading never changes it |
| `ButtonLogic.OperationsKeepConfigured` | ButtonManager.cpp:49-64 | `update` and `resetCounters` keep the six pins, the names and `pressed == previousState`, and never change the debounce interval |
| `ButtonLogic.StepIdempotent` | ButtonManager.cpp:49-64 | two accepted polls with the same levels leave the table as one does (no re-trigger while held) |
| `ButtonLogic.UpdateWithinWindow` | ButtonManager.cpp:45-46 | after an accepted poll at `now`, a poll whose elapsed time since `now` is at most the interval changes nothing |
| `ButtonLogic.UpdateIdempotent` | ButtonManager.cpp:43-66 | two `update()` calls at the same instant have the effect of one, whether the first was accepted or not |
| `ButtonLogic.ZeroDebounceAcceptsAnyTick` | ButtonManager.cpp:45 | with interval 0 a poll is accepted iff the clock differs from the last accepted time |
| `ButtonLogic.GateAcrossWrap` | ButtonManager.cpp:45 | when the clock has advanced by `delta < 2^32` ms (possibly wrapping), the poll is accepted iff `delta` exceeds the interval |
| `ButtonLogic.FindPin` | ButtonManager.cpp:74-79 | the lookup returns the first slot whose pin matches, or None iff no slot matches |
| `ButtonLogic.FindConfiguredPin` | ButtonManager.cpp:101-108 | in a configured table, configured pin `i` is found at slot `i` |
| `ButtonLogic.UnknownPinSentinels` | ButtonManager.cpp:73-134 | for a pin that no slot carries, the queries give false, false, 0 and "UNKNOWN" |
| `ButtonLogic.PressedAgreesWithPrevious` | ButtonManager.cpp:62-63 | under the table invariant, `isPressed(p) == wasPressed(p)` for every pin |
| `ButtonLogic.InitialQueries` | ButtonManager.cpp:27-33 | after construction every pin reads released, not previously pressed, with count 0; each configured pin has its configured name |
| `ButtonLogic.SumOverConfiguredPins` | ButtonManager.cpp:114-120 | the sum of the counts over the slots equals the sum of `getPressCount(pin)` over the configured pins |
| `ButtonLogic.ResetClearsTotal` | ButtonManager.cpp:159-163 | after a reset every count is 0 and the sum is 0; pin, name, pressed, previous state, time stamp and interval are unchanged |
| `ButtonLogic.OneCountedSlot` | ButtonManager.cpp:114-120 | a table whose only nonzero count is a single 1 sums to 1 |
| `ButtonLogic.EventsExtend` | ButtonManager.cpp:54-59 | the messages of the first i+1 slots are those of the first i, then slot i's message if it has a rising edge |
| `ButtonLogic.PressUpExample` | ButtonManager.cpp:43-66 | from the initial table built at t=0 with the 50 ms default, a poll at t=0 changes nothing. A poll at t=60 that reads only UP low leaves UP pressed with count 1, MENU at 0 and the sum at 1 |
| `ButtonLogic.RunCountsPresses` | ButtonManager.cpp:54-63 | over any series of accepted polls the count grows, mod 2^32, by the number of positions read LOW right after a HIGH (or after a released start); the state is the last level read |
| `ButtonLogic.HeldCountedOnce` | ButtonManager.cpp:54-63 | a button read LOW over k >= 1 accepted polls, starting released, is counted exactly once and ends pressed |
| `ButtonLogic.ReleaseNeverCounts` | ButtonManager.cpp:54-63 | HIGH readings never change a count and leave the button released |
| `ButtonLogic.UpdateAll` | ButtonManager.cpp:43-66 | a series of `update()` calls keeps the number of slots and the debounce interval |
| `ButtonLogic.AcceptedPollsPerButton` | ButtonManager.cpp:49-64 | over accepted polls each slot evolves as `Run` on the levels read on its own pin: buttons do not interact |
| `ButtonLogic.ManagerCountsHeldButtonOnce` | ButtonManager.cpp:43-66 | a slot held LOW across a series of accepted `update()` calls, starting released, has its count raised by exactly 1 |
| `Manager.ButtonManager.constructor` | ButtonManager.cpp:13-17 | fresh array; table in configuration order, all released with count 0; `lastDebounce` is the construction time; `debounceTime` is the argument, 50 by default (ButtonManager.hpp line 45); empty log |
| `Manager.ButtonManager.InitializeButtons` | ButtonManager.cpp:23-37 | slot `i` gets pin `i` and name `i` of the table, released, previous state false, count 0 |
| `Manager.ButtonManager.Update` | ButtonManager.cpp:43-66 | the new state is `ButtonLogic.Update` of the old one (no change inside the window; otherwise time stamped and every button stepped); one log line per rising edge, in table order; invariant kept |
| `Manager.ButtonManager.ProcessButtons` | ButtonManager.cpp:49-64 | the loop of an accepted poll leaves the table as `Step` of the old one, and appends the press messages of the rising edges in table order |
| `Manager.ButtonManager.ProcessButton` | ButtonManager.cpp:51-63 | slot `i` becomes `StepButton` of its old value with the level read on its pin; the other slots are unchanged; one message is logged iff slot `i` has a rising edge |
| `Manager.ButtonManager.IsPressed` | ButtonManager.cpp:73-80 | the pressed state of the first slot with that pin; false for an unknown pin |
| `Manager.ButtonManager.WasPressed` | ButtonManager.cpp:87-94 | the previous state of the first slot with that pin; false for an unknown pin |
| `Manager.ButtonManager.GetPressCount` | ButtonManager.cpp:101-108 | the count of the first slot with that pin; 0 for an unknown pin |
| `Manager.ButtonManager.GetTotalPressCount` | ButtonManager.cpp:114-120 | the sum of all six counts modulo 2^32 |
| `Manager.ButtonManager.GetButtonName` | ButtonManager.cpp:127-134 | the name of the first slot with that pin; "UNKNOWN" for an unknown pin |
| `Manager.ButtonManager.GetButtonCount` | ButtonManager.cpp:140-142 | the number of slots in the table (6) |
| `Manager.ButtonManager.GetButtonPin` | ButtonManager.cpp:149-154 | the pin of slot `index` for `index < 6`, else 0; the result is nonzero iff the index is valid |
| `Manager.ButtonManager.ResetCounters` | ButtonManager.cpp:159-163 | the new state is `Reset` of the old: every count 0, everything else unchanged; invariant kept |
| `Manager.PressUpScenario` | ButtonManager.cpp:43-66 | built at t=0 with the default interval, polled at t=0 (inside the window) and at t=60 with only UP low: UP is pressed with count 1, MENU has count 0, the total is 1 |

## Left out

- `pinMode(pin, INPUT_PULLUP)` (hardware configuration) has no logical effect and is not modelled. Only its consequence is modelled: a pressed button reads `Low`.
- `millis()` is called twice in `update()`, once for the gate and once for the new time stamp. The model uses one `now` value for both, so it does not capture a clock tick between the two calls.
- `digitalRead` is the parameter `read`, a level per pin. Read failures and electrical behaviour are outside the model.
- `Serial.print` output is modelled only as a ghost log of message strings. The serial port itself is not modelled.
- Names are Dafny strings. The `const char*` pointers and their storage are not modelled.
- Concurrency is not modelled: the class is used from a single polling loop.
