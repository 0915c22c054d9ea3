# Vivarium output scheduling, modelled in Dafny

This project models the part of the vivarium assistant that decides when each physical
output (lamp, mister, pump) is on: daily activation windows on a 24-hour clock face, the
validated list of windows of one output, named and pinned output definitions, and the
controller that writes every output's GPIO pin from its schedule, drives all pins low on
fail-safe and reports their states. The older terrarium crate's copy of the window code is
modelled beside it, and the mock GPIO adapter supplies the concrete pin the controller drives.

Times of day are whole seconds since midnight (`Window.TimeOfDay`, 0..86399); the hour of a
time is `t / 3600`. A window `ScheduledActivation(when, forSeconds)` ends at
`(when + forSeconds) mod 86400`, and holds a time inclusively at both ends, reading the window
as crossing midnight exactly when the hour of its end is smaller than the hour of its start.
The model keeps that hour-based test as written, and proves what it means:

- for durations up to 23 hours it is plain membership in the arc of the clock face from the
  start, `forSeconds` long (`Window.HasInsideIsOnArc`), and the boundary-point overlap test is
  then exactly "some time of day lies in both windows" (`Window.OverlapsIffShareInstant`);
- a full-day window (86400 s) ends where it starts and holds only its start instant
  (`Window.FullDayHoldsOnlyItsStart`);
- a window holds no time at all exactly when its end falls earlier than its start within the
  same hour, which only a window of more than 23 hours can do
  (`Window.EmptyIffEndEarlierInSameHour`; `Window.NearlyFullDayCanBeEmpty` is one instance);
- every other window, of any duration, is membership in the arc of its duration taken modulo
  one day (`Window.HasInsideIsReducedArc`), so two windows that share a time of day always
  overlap and a list that passed the overlap check never has two windows active at once
  (`Window.SharedInstantMeansOverlap`, `Window.AtMostOneWindowActive`).

Modules: `Errors` (the `anyhow` error messages as an enumeration, `Result`, `Option`),
`Window` (the window code both crates share), `Terrarium` (the terrarium crate's constructor and
window list), `Domain` (pin numbers and pin states), `Adapters` (mock GPIO and pins, as classes
whose `state` field is overwritten in place) and `Outputs` (the vivarium schedule, definitions
and the `Controller` class). The controller's clock is the `now` argument of
`Controller.UpdateOutputs`. Two client methods, `Outputs.ConstructCases` and
`Outputs.ControllerScenario`, derive the crate's expected outcomes for its window-list test
data, and for one output scheduled at noon, from the contracts alone.

Behaviour of the code worth knowing before reading the model:

- an empty list of windows is refused by `ScheduledActivations::new` in both crates, so every
  output has at least one window;
- a window whose end equals its start (a full day) holds only that instant, not every time of
  day;
- `update_outputs` writes every pin on every tick without comparing with the pin's current
  state; writing only on a change would leave the same pin states;
- the controller's override entry points delegate to code that has no implementation.

## Model

| member | source | states |
|---|---|---|
| `Window.ScheduledActivation.End` | vivarium_assistant/src/domain/outputs.rs:65-67 | the end lies in the day and differs from start plus duration by whole days only (the `NaiveTime` addition wraps past midnight) |
| `Window.ScheduledActivation.HasInside` | vivarium_assistant/src/domain/outputs.rs:53-63 | the hour-based midnight test as written, inclusive at both ends; what it means is stated by `Window.HasInsideIsReducedArc` and `Window.EmptyIffEndEarlierInSameHour` |
| `Window.ScheduledActivation.Overlaps` | vivarium_assistant/src/domain/outputs.rs:36-51 | the four boundary-point checks in the code's order; what they mean is stated by `Window.OverlapsIffShareInstant` and `Window.SharedInstantMeansOverlap` |
| `Window.HasInsideIsOnArc` | vivarium_assistant/src/domain/outputs.rs:53-67 | for durations up to 23 h, `has_inside` holds exactly the times on the arc from `when` that is `for_seconds` long, both ends included, wrapping past midnight |
| `Window.HoldsOwnBoundaries` | vivarium_assistant/src/domain/outputs.rs:53-63 | a window of up to 23 h holds its own start and end, hence overlaps itself |
| `Window.FullDayHoldsOnlyItsStart` | vivarium_assistant/src/domain/outputs.rs:53-67 | with `for_seconds` = 86400 the end equals the start and the window holds that one instant only |
| `Window.EmptyIffEndEarlierInSameHour` | vivarium_assistant/src/domain/outputs.rs:53-63 | a window holds no time of day iff its end is earlier than its start within the same hour; otherwise it holds at least its start |
| `Window.NearlyFullDayCanBeEmpty` | vivarium_assistant/src/domain/outputs.rs:56 | an instance of the previous row: 12:30:00 for 86340 s ends at 12:29:00 in the same hour, so it holds no time and does not even overlap itself |
| `Window.Reduced` | vivarium_assistant/src/domain/outputs.rs:65-67 | the window with the same start and its duration taken modulo one day has the same end |
| `Window.HasInsideIsReducedArc` | vivarium_assistant/src/domain/outputs.rs:53-67 | for every window the hour test does not read as empty, whatever its duration, `has_inside` is membership in the arc from `when` whose length is the duration modulo one day |
| `Window.SharedInstantMeansOverlap` | vivarium_assistant/src/domain/outputs.rs:36-63 | two windows of any duration that both hold some time of day overlap |
| `Window.OverlapsIsSymmetric` | vivarium_assistant/src/domain/outputs.rs:36-51 | `a.overlaps(b) == b.overlaps(a)` for all windows |
| `Window.OverlapsIffShareInstant` | vivarium_assistant/src/domain/outputs.rs:36-63 | for windows of up to 23 h the four boundary-point checks hold iff some time of day lies in both windows; touching windows overlap |
| `Window.AtMostOneWindowActive` | vivarium_assistant/src/domain/outputs.rs:76-92 | in a list with no overlapping pair, whatever the durations, no time of day lies in two distinct windows |
| `Window.WholeDaysDoNotMatter` | terrarium_assistant/src/domain/mod.rs:49-51 | removing one whole day from a duration leaves the end and the held times unchanged |
| `Terrarium.NewActivation` | terrarium_assistant/src/domain/mod.rs:12-18 | fails with the zero-duration error iff `for_seconds` is 0; any positive duration is kept unchanged with `when`, without upper bound |
| `Terrarium.EndWrapsModuloDay` | terrarium_assistant/src/domain/mod.rs:49-51 | the end is start plus duration modulo one day, wrapping as often as needed; a window behaves like the one with its duration reduced modulo a day |
| `Terrarium.NewActivations` | terrarium_assistant/src/domain/mod.rs:59-74 | errors on an empty slice, then on any overlapping pair at distinct positions; otherwise returns the same slice |
| `Terrarium.HasInsideMidnightCases` | terrarium_assistant/src/domain/mod.rs:95-124 | 23:59:55 for 10 s holds 23:59:55, 23:59:59, 00:00:00 and 00:00:05 but not 12:00:00 |
| `Terrarium.HasInsideNoonCases` | terrarium_assistant/src/domain/mod.rs:125-148 | 12:00:00 for 10 s holds 12:00:00, 12:00:05 and 12:00:10 but not 18:00:00 |
| `Terrarium.OverlapsDaytimeCases` | terrarium_assistant/src/domain/mod.rs:172-195 | identical, nested and partly overlapping daytime pairs overlap and 14:00:00 vs 18:00:00 does not, asked in both directions |
| `Terrarium.OverlapsMidnightCases` | terrarium_assistant/src/domain/mod.rs:196-219 | pairs straddling midnight overlap and 23:59:50+20 s vs 18:00:00+10 s does not, asked in both directions |
| `Terrarium.NewActivationsCases` | terrarium_assistant/src/domain/mod.rs:254-276 | the `test_construct` table: empty and overlapping lists are refused with their errors, the disjoint one accepted |
| `Domain.PinNumber.New` | vivarium_assistant/src/domain/mod.rs:13-19 | never fails, and `number()` of the result is the value it was built from |
| `Domain.PinNumber.Number` | vivarium_assistant/src/domain/mod.rs:17-19 | the number read back rebuilds the same pin number |
| `Domain.ToU8` | vivarium_assistant/src/domain/mod.rs:22-26 | the `u8` conversion yields the number the pin was built from |
| `Domain.PinNumberEquality` | vivarium_assistant/src/domain/mod.rs:7-10 | two pin numbers are equal iff their numbers are |
| `Domain.OutputPinStateIsBinary` | vivarium_assistant/src/domain/mod.rs:55-59 | a pin state is `Low` or `High`, and these differ |
| `Adapters.MockOutputPin.constructor` | vivarium_assistant/src/adapters/mod.rs:62-68 | a new pin carries its number and reads `Low` (`Off`) |
| `Adapters.MockOutputPin.SetLow` | vivarium_assistant/src/adapters/mod.rs:72-75 | afterwards `state()` reads `Low`; only the `state` field may change |
| `Adapters.MockOutputPin.SetHigh` | vivarium_assistant/src/adapters/mod.rs:77-80 | afterwards `state()` reads `High`; only the `state` field may change |
| `Adapters.MockOutputPin.State` | vivarium_assistant/src/adapters/mod.rs:82-84 | reads the pin's current state; the constructor, `SetLow` and `SetHigh` state what it returns after each |
| `Adapters.MockInputPin.constructor` | vivarium_assistant/src/adapters/mod.rs:91-95 | a new input pin carries its number |
| `Adapters.MockInputPin.SetInterrupt` | vivarium_assistant/src/adapters/mod.rs:98-100 | always returns the not-implemented error |
| `Adapters.MockInputPin.ClearInterrupt` | vivarium_assistant/src/adapters/mod.rs:102-104 | always returns the not-implemented error |
| `Adapters.MockInputPin.PollInterrupt` | vivarium_assistant/src/adapters/mod.rs:106-111 | always returns the not-implemented error, whatever the timeout |
| `Adapters.MockGPIO.Output` | vivarium_assistant/src/adapters/mod.rs:48-50 | always succeeds with a fresh pin carrying the requested number, reading `Low` |
| `Adapters.MockGPIO.Input` | vivarium_assistant/src/adapters/mod.rs:52-54 | always succeeds with a fresh input pin carrying the requested number |
| `Outputs.NewActivation` | vivarium_assistant/src/domain/outputs.rs:20-34 | succeeds iff 0 < `for_seconds` <= 86400, keeping `when` and `for_seconds` unchanged; 0 and over-a-day durations get their own errors |
| `Outputs.ScheduledActivations.New` | vivarium_assistant/src/domain/outputs.rs:76-92 | errors on an empty list, errors if some pair at distinct positions overlaps, and otherwise returns exactly the input windows in order |
| `Outputs.ScheduledActivations.HasInside` | vivarium_assistant/src/domain/outputs.rs:94-101 | true iff some window of the schedule holds the time |
| `Outputs.NewOutputName` | vivarium_assistant/src/domain/outputs.rs:110-116 | refuses exactly the empty string; otherwise the name is kept unchanged |
| `Outputs.OutputDefinitions.New` | vivarium_assistant/src/domain/outputs.rs:142-162 | errors iff two entries at distinct positions share a name or a pin, reporting the first such pair in loop order with the name check first; otherwise (the empty list included) returns the input in order |
| `Outputs.FirstClashIsOrdered` | vivarium_assistant/src/domain/outputs.rs:144-157 | the first offending pair the nested loops meet has its row before its column |
| `Outputs.FirstClashIsUnique` | vivarium_assistant/src/domain/outputs.rs:144-157 | the first offending pair is unique, so the reported error depends only on the input |
| `Outputs.OutputStateFrom` | vivarium_assistant/src/domain/outputs.rs:239-246 | maps `High` (`On`) to `On` and `Low` (`Off`) to `Off`, in both directions |
| `Outputs.Controller.constructor` | vivarium_assistant/src/domain/outputs.rs:175-195 | one fresh, distinct pin per definition, in order, carrying the definition's pin number and reading `Low` |
| `Outputs.Controller.UpdateOutputs` | vivarium_assistant/src/domain/outputs.rs:197-207 | afterwards each pin is `High` iff its output's schedule holds `now` and `Low` otherwise, so a repeated call at the same `now` changes no pin; the definitions are untouched |
| `Outputs.Controller.FailSafe` | vivarium_assistant/src/domain/outputs.rs:209-213 | afterwards every pin is `Low`, whatever its prior state |
| `Outputs.Controller.Status` | vivarium_assistant/src/domain/outputs.rs:215-225 | one entry per output, in definition order, with its name and its pin's state mapped to `On`/`Off`; no pin changes |
| `Outputs.ConstructCases` | vivarium_assistant/src/domain/outputs.rs:421-480 | the `test_construct` table: the empty list gets the empty-list error, 12:00:00 and 12:00:05 for 10 s each the overlap error, and 12:00:00 and 18:00:00 for 10 s each are accepted unchanged |
| `Outputs.HasInsideMidnightCases` | vivarium_assistant/src/domain/outputs.rs:271-300 | 23:59:55 for 10 s, built by the bounded constructor, holds 23:59:55, 23:59:59, 00:00:00 and 00:00:05 but not 12:00:00 |
| `Outputs.HasInsideNoonCases` | vivarium_assistant/src/domain/outputs.rs:301-324 | 12:00:00 for 10 s holds 12:00:00, 12:00:05 and 12:00:10 but not 18:00:00 |
| `Outputs.OverlapsDaytimeCases` | vivarium_assistant/src/domain/outputs.rs:348-371 | identical, nested and partly overlapping daytime pairs overlap and 14:00:00 vs 18:00:00 does not, asked in both directions |
| `Outputs.OverlapsMidnightCases` | vivarium_assistant/src/domain/outputs.rs:372-395 | pairs straddling midnight overlap and 23:59:50+20 s vs 18:00:00+10 s does not, asked in both directions |

## Left out

- Overrides (`add_override`, `clear_overrides` and the triggered/expired lifecycle): the code only delegates to them and has no implementation of them, so there is nothing to model.
- The mutex-guarded shared controller, its clones and the panic hook that calls `fail_safe`: they exist for concurrency and process-wide panic handling; the model has one owner calling the controller's methods in sequence.
- The tokio loops that tick `update_outputs` and `status` and serve HTTP: asynchronous scheduling and sleeps.
- The wall clock (`CurrentTimeProvider` over `Local::now`): the time of day is the `now` argument of `Outputs.Controller.UpdateOutputs`.
- Sub-second precision and leap seconds of `NaiveTime`: times are whole seconds of the day.
- The `println!` in the mock pin's `set_low`/`set_high`: console output.
- The `GPIO`, `OutputPin` and `InputPin` interfaces as such: the controller is modelled over the mock pin class directly, and the Raspberry Pi pins are not part of this model.
- Outputs.Controller.constructor: returns the controller directly, because the mock GPIO never fails; the propagation of a pin-acquisition error from another GPIO is not modelled.
- `OutputDefinition::new`: plain value construction, the `OutputDefinition` datatype constructor.
- The `test_construct` table of the vivarium crate compares error message strings; the model compares error constructors (`Outputs.ConstructCases`).
- Sensors, configuration parsing, metrics, HTTP handlers and the hardware demo binaries: floating point, library parsing and hardware I/O outside this core.
