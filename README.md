# Dead-time simulation of a trigger/readout buffer

This project models the simulation core of a tool that estimates the
dead time of a detector readout chain. A run advances a bounded event
buffer and a trigger-block countdown once per clock tick. It counts the
level-1 accepts (L1A triggers) and the triggers that were not recorded.
A trigger is not recorded when the trigger logic is still blocked by the
previous one, or when its event reaches a full buffer.

Two Dafny modules follow the two layers of `src/main.rs`.

- `Buffers` (`buffer.dfy`) models the `Buffer` struct.
  - The class `Buffer` has the three 64-bit fields `queue`, `limit` and `waitTime`.
  - Its methods `Add`, `Read` and `Step` change the fields in place.
  - `IsFilled` and `Free` are the two read-only predicates. They are
    defined through the value-level predicates `Filled` and `HasRoom` on
    the object's current `State()`, so each concept has one definition.
  - Each method is proved to follow a value-level function on a
    `BufferState` snapshot: `AfterAdd`, `AfterRead` or `AfterStep`.
  - The lemmas are stated about those functions, and about `Steps`,
    which applies `AfterStep` n times.
  - The readout length is the named constant `READOUT_TICKS` = 424.
- `DeadTime` (`dead_time.dfy`) models the tick loop of `calc_dead_time`.
  - `Tick` is one loop iteration on a `SimState` value, in the source's order:
    step the buffer; count the block down and deliver the event when it
    reaches zero; start a readout; handle the trigger draw.
  - `Init` is the state before the first tick, and `Simulate` applies
    `Tick` once per input flag.
  - `CalcDeadTime` is the imperative loop over a `Buffer` object. It is
    proved to return the counters `Simulate` computes.
  - The loop body is the method `RunTick`, which works on the `Buffer`
    object and the loop's counters. Its statements are those of
    src/main.rs:76-114 in the same order. Stating it separately keeps each
    proof obligation small.
  - The block length is the named constant `BLOCK_TICKS` = 5.

The random number generator is replaced by a parameter: `fired[i]` says
whether the uniform draw of tick `i` fell below the trigger probability.
`CalcDeadTime` uses the first `maxEvent` flags. It returns the integer
pair `(nL1a, notRecorded)` in place of the floating-point ratio and its
standard error.

The `SimState` value has one field the loop does not have: `accepted`
counts the calls of `add`. It exists so that the accounting invariant can
be stated: every trigger was handed to the buffer, lost, or is still in
flight.

With capacity 0 one might expect every trigger that passes the block
check to be counted as a buffer-full loss by the end of the run. In the
code the last such trigger can still be in flight when the run stops:
`block` has not yet reached 0, so src/main.rs:84-93 has not yet counted
it. `ZeroCapacityLosesEverything` states the code's behaviour: the losses
plus the in-flight trigger equal all triggers.

## Model

| member | source | states |
|---|---|---|
| `Buffers.AfterAdd` | src/main.rs:21-26 | add changes only `queue`. With room (`free()`), `queue` grows by exactly one and stays within `limit`. There is no bounds check: at the 64-bit maximum the counter wraps to 0 |
| `Buffers.AfterRead` | src/main.rs:28-34 | read changes the state exactly when the buffer holds events and no readout runs. It then sets the countdown to 424. It never changes `queue` or `limit`, and leaves a running countdown alone |
| `Buffers.AfterStep` | src/main.rs:46-57 | with events queued and a readout running, step lowers the countdown by one; otherwise it changes nothing. `queue` drops by one exactly when the countdown goes from 1 to 0. `limit` is unchanged |
| `Buffers.ReadIdempotent` | src/main.rs:28-34 | a second read changes nothing, and a read during a running readout neither resets nor extends it |
| `Buffers.InvariantPreserved` | src/main.rs:21-57 | step and read keep `queue <= limit`, `waitTime <= 424` and "readout running ⇒ buffer non-empty"; add keeps them when `free()` holds |
| `Buffers.StepsDuringReadout` | src/main.rs:46-57 | during a readout with countdown w, k ≤ w steps lower the countdown by exactly k. The event stays until the w-th step, which removes exactly one event |
| `Buffers.ReadoutRemovesOneEvent` | src/main.rs:28-57 | from a non-empty idle buffer, read plus 424 steps gives the same buffer with one event fewer, and no earlier step removes it |
| `Buffers.FullReadoutCycle` | src/main.rs:28-57 | from `queue = 1, wait_time = 0`, read and 424 steps give `queue = 0, wait_time = 0`; after 423 steps `queue` is still 1 |
| `Buffers.Buffer.constructor` | src/main.rs:14-18 | a buffer built from the three field values holds exactly those values, and satisfies the buffer invariant whenever those values do, as the empty idle buffer of src/main.rs:69 does |
| `Buffers.Buffer.IsFilled` | src/main.rs:36-39 | `is_filled()` holds exactly when `queue > 0`. When it fails, step and read change nothing |
| `Buffers.Buffer.Free` | src/main.rs:41-44 | `free()` holds exactly when `queue < limit`. When it holds, add grows `queue` by exactly one and stays within `limit` |
| `Buffers.Buffer.Add` | src/main.rs:21-26 | the in-place add makes the new state `AfterAdd` of the old one, and keeps the buffer invariant when the buffer was free |
| `Buffers.Buffer.Read` | src/main.rs:28-34 | the in-place read makes the new state `AfterRead` of the old one and keeps the buffer invariant |
| `Buffers.Buffer.Step` | src/main.rs:46-57 | the in-place step makes the new state `AfterStep` of the old one and keeps the buffer invariant |
| `DeadTime.Init` | src/main.rs:63-69 | the run starts with an empty buffer of the given capacity, no readout running, no block, and all counters 0 |
| `DeadTime.Tick` | src/main.rs:76-114 | one tick counts one event and keeps `limit`. It counts a trigger exactly when the draw fired. An arrival happens only on the tick where the block goes from 1 to 0, and that event is then either added or lost. At most one trigger is lost per tick. The block is either reset to 5 or counted down |
| `DeadTime.Simulate` | src/main.rs:71-116 | after n ticks exactly n events have been counted, and the buffer still has the capacity the run started with |
| `DeadTime.TickPreservesConsistent` | src/main.rs:76-114 | one tick keeps the buffer invariant, the block within 0..5, and `n_l1a = added + not_recorded + in-flight` |
| `DeadTime.SimulateConsistent` | src/main.rs:63-116 | after any number of ticks from the initial state, those invariants hold |
| `DeadTime.TriggersCounted` | src/main.rs:99-104 | `n_l1a` equals the number of ticks whose draw fired, so it is at most the number of ticks |
| `DeadTime.RunBounds` | src/main.rs:63-116 | after every tick `queue <= limit`, `wait_time <= 424`, a running readout implies a non-empty buffer, `block <= 5`, and `added + not_recorded <= n_l1a <= ticks` |
| `DeadTime.TriggersLost` | src/main.rs:63-116 | after n ticks `n_l1a` is the number of fired draws, at most n, and `not_recorded <= n_l1a` |
| `DeadTime.ZeroCapacityLosesEverything` | src/main.rs:84-93 | with `limit = 0` the buffer stays empty and no event is added. Every trigger is lost, except one that may still be in flight |
| `DeadTime.RunTick` | src/main.rs:76-114 | one pass of the loop body on the `Buffer` object and the counters performs exactly one `Tick` of the state they represent, keeps the buffer invariant, and keeps both counters at most the tick count |
| `DeadTime.CalcDeadTime` | src/main.rs:60-122 | the loop stops after exactly `max_event` ticks. It returns the counters of `Simulate` over those draws, with `n_l1a` equal to the number of fired draws and `not_recorded <= n_l1a <= max_event`. No 64-bit counter overflows |

## Left out

- The random number generator (`rand::thread_rng`, `gen_range`) becomes the input sequence `fired`. The probability 75/40000 is a floating-point constant that the integer proofs do not need.
- The returned `ratio * 100` and its binomial standard error use floating point, including the non-finite value when no trigger occurred. They are left out, and the integer counters are returned instead.
- `max_event == 0` is excluded by `requires maxEvent >= 1`. In the source the stop test first matches only after `events` wraps to 0 after 2^64 ticks (release build), or the increment panics (debug build).
- `Buffers.AfterAdd` and `Buffers.Buffer.Add` use the release-build meaning of `+=` on `u64` (wrap-around). A debug build panics instead. The run loop never reaches that case.
- The sweep over buffer capacities in `main` is not modelled: the thread pool, `num_cpus`, the channel, the `HashMap` of results and the ordered report. That is concurrency and presentation.
- Argument parsing, progress and result printing, and wall-clock timing are I/O.
- Monotonicity in `limit` is not proved. For one fixed stream `fired`, a larger capacity should never give a larger `notRecorded`. `nL1a` does not depend on `limit` (`TriggersCounted`), so this is a statement about single runs. Proving it needs a coupling argument relating two runs with different capacities, which the model does not contain.
