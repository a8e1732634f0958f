# Traffic light with a latest-wins message queue

This project models the sequential logic of a simulated traffic light and the
message queue it publishes its phase changes to.

- `TrafficLightPhases` (TrafficLightPhase.dfy): the phase enumeration `Red | Green`
  and `Toggle`, the red/green flip of the cycling loop.
- `MessageQueues` (MessageQueue.dfy): the class `MessageQueue<T>`. Its field
  `pending` is the deque of unread messages, oldest first. `Send` appends one
  message. `Receive` needs a non-empty queue; it returns the last message and
  clears the queue, so the newest message wins and older unread ones are
  dropped. The blocking wait on the condition variable becomes the
  precondition `pending != []`. `Receipts` is the specification of a series of
  receives: `arrivals[i]` is the batch of sends that reach the queue while the
  `i`-th receive waits, and `Receipts` lists what each receive returns.
- `TrafficLights` (TrafficLight.dfy): the class `TrafficLight`. It owns one
  queue (a `const` field, created fresh by the constructor) and one current
  phase. `Step` is one pass of the body of `cycleThroughPhases`. The clock
  reading `now` is a parameter. The time of the last change (`lastUpdate`, a
  local of `cycleThroughPhases` declared before its `while (true)`, at
  src/TrafficLight.cpp:83-84) is passed in and the new value is handed
  back. `CycleThroughPhases` runs the loop over a finite list of clock
  readings. It is proved equal to the specification function `Run`. The lemmas
  `RunExtendsQueue`, `RunChangesAlternate` and `RunChangesSpacedOut` say what
  any run publishes. `WaitForGreen` keeps
  receiving until it gets `Green`.

The cycle duration is drawn once, before the loop
(src/TrafficLight.cpp:79-80, with the comment at line 75). It is a parameter
of `Step` and `CycleThroughPhases`, with the precondition
`4000 <= cycleDuration <= 6000`. The comment at line 75 considers drawing it
again on every pass; the code does not, and the model follows the code.

## Model

| member | source | states |
|---|---|---|
| TrafficLightPhases.Toggle | src/TrafficLight.cpp:97-101 | the new phase always differs from the old one: red goes to green and green goes to red |
| TrafficLightPhases.ToggleTwice | src/TrafficLight.cpp:97-101 | two consecutive flips give back the original phase |
| TrafficLightPhases.OnlyTwoPhases | src/TrafficLight.h:11 | every phase, including the current phase a light returns, is red or green; this holds by construction of the two-value type |
| MessageQueues.MessageQueue.constructor | src/TrafficLight.h:24 | a new queue has no pending messages |
| MessageQueues.MessageQueue.Send | src/TrafficLight.cpp:22-28 | the pending sequence grows by exactly one, the message is at the back, and every earlier message is unchanged |
| MessageQueues.MessageQueue.Receive | src/TrafficLight.cpp:9-19 | enabled only on a non-empty queue; returns the most recently sent message and leaves the queue empty |
| MessageQueues.ReceiptIsLatest | src/TrafficLight.cpp:15-17 | in any series of receives, every receive finds at least one message and returns the newest one it finds: the backlog plus the first batch for the first receive, only its own batch for each later one |
| MessageQueues.ReceiptsStopAtEmptyQueue | src/TrafficLight.cpp:15 | a series of receives falls short of the supply of batches only at a receive that would find the queue empty and keep waiting |
| MessageQueues.StaleMessagesDiscarded | src/TrafficLight.cpp:16-17 | after any successful receive in a series, no older message is ever returned again: the receives after it return exactly what the later batches alone give |
| MessageQueues.LatestWins | src/TrafficLight.cpp:16-17 | `send(a); send(b); receive()` on a new queue returns `b` and leaves nothing pending, so `a` is never received |
| TrafficLights.TrafficLight.constructor | src/TrafficLight.cpp:34-37 | a new light is red and owns a freshly created, empty queue |
| TrafficLights.TrafficLight.GetCurrentPhase | src/TrafficLight.cpp:50-53 | returns the current phase and changes nothing |
| TrafficLights.TrafficLight.Step | src/TrafficLight.cpp:91-110 | if a whole cycle has elapsed: the phase flips, the new phase is appended to the queue as its newest message (so it equals the current phase), and the last change becomes `now`; otherwise phase, queue and last change all stay the same |
| TrafficLights.TrafficLight.CycleThroughPhases | src/TrafficLight.cpp:77-111 | with the duration drawn once from 4000..6000 and the last change set to the start time, running the loop over a list of clock readings leaves phase, queue and last change exactly as the specification `Run` gives them |
| TrafficLights.RunExtendsQueue | src/TrafficLight.cpp:87-111 | over any run of the loop the queue only grows: everything pending before the run is still pending, in the same order, at its front |
| TrafficLights.ChangesAfterToggle | src/TrafficLight.cpp:96-109 | a pass that flips the phase publishes that phase first, ahead of everything the rest of the run publishes |
| TrafficLights.RunChangesAlternate | src/TrafficLight.cpp:96-107 | the phases a run publishes alternate: each is the opposite of the phase before it, starting from the phase the run began with, and the last one published is the light's phase at the end |
| TrafficLights.RunChangesSpacedOut | src/TrafficLight.cpp:94-109 | over a run, the time of the last change grows by at least one cycle duration for each published change, and a run that publishes nothing leaves phase, queue and last change as they were; applied to each piece of a split run (`RunSplit`), this bounds the time between any two changes from below |
| TrafficLights.RunSplit | src/TrafficLight.cpp:87-111 | running the loop over one list of readings and then over another gives the same phase, queue and last change as running it over their concatenation |
| TrafficLights.AlternatingParity | src/TrafficLight.cpp:97-101 | in an alternating sequence of phases, the last phase equals the first exactly when the length is odd, so an even number of flips restores the phase |
| TrafficLights.TrafficLight.ReceiveAfter | src/TrafficLight.cpp:44 | one receive of the waiting loop: the sends of one batch reach the queue, then the receive returns the newest of backlog plus batch and leaves the queue empty |
| TrafficLights.TrafficLight.WaitForGreen | src/TrafficLight.cpp:39-48 | given a supply of sends during which some receive gets green, it returns after the first receive that got green; every earlier receive got red; the queue is left empty; waitForGreen itself never writes the phase |

## Left out

- Threads, mutexes, condition variables, `notify_one` and the `unique_lock` diagnostics lock are not modelled (src/TrafficLight.cpp:14-15, 25, 27, 68-70, 103-105, 108). The model is sequential. In `MessageQueue.Receive` the blocking wait becomes a precondition. In `WaitForGreen` it becomes the batches of sends that arrive while each receive waits (the helper `ReceiveAfter`).
- `simulate`, which starts `cycleThroughPhases` on a thread and records the thread in the base class, is not modelled. The `TrafficObject` base class (its thread list and `_id`) is not part of this model.
- The sleeps (src/TrafficLight.cpp:46, 91) and the clock reads are not modelled. Clock readings are integer millisecond parameters.
- TrafficLights.TrafficLight.WaitForGreen: the batches of sends are free values. They are tied neither to the cycling loop's writes of the phase (src/TrafficLight.cpp:97-101, 107) nor to the alternation `RunChangesAlternate` proves. So the light's phase after the call need not be the last phase received: the call leaves the phase as it was, even when it received `Green`.
- TrafficLights.TrafficLight.Step: the source reads the clock a second time to reset `lastUpdate` (src/TrafficLight.cpp:109). The model uses the same reading `now` that was compared against the cycle duration.
- The random number generator is not modelled (src/TrafficLight.cpp:77-80). Its output is a parameter in the closed range 4000..6000. The source stores it in a `double`. This makes no difference, because every integer in that range is exact.
- The infinite `while (true)` is not modelled as such. `CycleThroughPhases` runs a finite prefix of it, one pass per given clock reading, and no receiver drains the queue during that prefix.
- The console output (src/TrafficLight.cpp:69, 104) is not modelled. It is only diagnostics.
- The unused `_condition` and `_mutex` members (src/TrafficLight.h:55-56) are not modelled. The unlocked read in `getCurrentPhase` is not modelled either, because it only matters under concurrency.
- Move semantics: `std::move` of an enumerator copies it, so the sent value and the phase field stay equal. The model sends the value of the field.
