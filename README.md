# YaTTi tempo estimator in Dafny

YaTTi ("Yet another TapTempo implementation") is a terminal tap-tempo tool. The user taps in rhythm, and the tool prints the tempo implied by the average interval between recent taps. This project models its one component with real logic, the rolling-window estimator `RegisteredHits` in `src/lib.rs`, and proves what it guarantees.

- `RegisteredHits` holds a bounded FIFO of tap instants, `hits`, and a capacity, `sample_size`.
- Construction (`new`) refuses a sample size of zero or one.
- `new_hit` appends the current instant and evicts the oldest instant once the buffer is over capacity.
- `reset_hits` empties the buffer.
- `next` (its `Iterator` implementation) returns nothing for fewer than two taps. Otherwise it returns `(newest − oldest) / (len − 1)`, the mean interval over the window.

Layout:

- `wrappers.dfy`: module `Wrappers`, the `Option` and `Result` sum types.
- `window.dfy`: module `Window`, the buffer as values.
  - `Record` is one hit; `RecordAll` is a run of hits.
  - `MeanInterval` is what `next` computes. `SumOfGaps` is an independent reference for the window's span.
  - The lemmas cover FIFO eviction, the capacity bound, preserved order and the mean.
  - `MeanIntervalAsWritten` is the divisor exactly as the source writes it (see Findings).
- `estimator.dfy`: module `Estimator`, the class `RegisteredHits`.
  - `hits` is a `seq<nat>` field that the methods reassign in place. `sampleSize` is a `const`.
  - The ghost field `recorded` holds every tap since construction or the last reset.
  - The object invariant `Valid()` requires three things: the sample size is at least two, the history is sorted (the clock is monotonic), and `hits` is exactly the last `sampleSize` entries of `recorded`.

Instants and durations are whole nanoseconds (`nat`). The clock (`Instant::now()`, src/lib.rs:99) becomes the `now` parameter of `NewHit`. Its precondition (`now` is no earlier than the newest retained hit) stands for the monotonic clock. `Instant::duration_since` is modelled as saturating at zero, which is what the Rust standard library does today. That case never arises under `Valid()`. `Duration::checked_div` divides the total nanoseconds and truncates, so it is integer division here. Its `None` for a zero divisor is modelled where the divisor can be zero, in `MeanIntervalAsWritten`.

The help text of the `reset_time` option (src/lib.rs:17-19) promises that the calculation resets after an idle period. The code has no such policy: `run` never calls `reset_hits`, and `config.reset_time` is never read. The model follows the code, so `ResetHits` is modelled as an operation and no caller triggers it. On the open question of "consuming or not", the code's `next` is non-consuming, and so is the model's.

## Model

| member | source | states |
|---|---|---|
| `Window.Record` | src/lib.rs:97-104 | one hit drops exactly one timestamp, the oldest, and exactly when the buffer would exceed `sample_size`; the result is the old buffer with `now` at the back, less at most its head; a buffer within capacity stays within capacity |
| `Window.RecordIsLastN` | src/lib.rs:99-103 | from a buffer within capacity, one hit leaves the last `sample_size` entries of old buffer + `now` |
| `Window.RecordAllKeepsLast` | src/lib.rs:97-104 | after any run of hits from a buffer within capacity, the buffer is exactly the last `sample_size` timestamps ever recorded, in insertion order (strict FIFO, nothing reordered) |
| `Window.RecordAllWithinCapacity` | src/lib.rs:168-177 | the length never exceeds `sample_size` after any run of hits, and equals it once at least `sample_size` hits have been recorded |
| `Window.RecordKeepsSorted` | src/lib.rs:99-103 | with a timestamp no earlier than the newest one, a sorted buffer stays sorted |
| `Window.RecordAllKeepsSorted` | src/lib.rs:97-104 | timestamps supplied in non-decreasing order leave the buffer sorted after any run of hits |
| `Window.RecordOnHistory` | src/lib.rs:97-104 | one hit on the window of a sorted history gives the window of the extended history, and the extended history stays sorted (the step that keeps the class invariant) |
| `Window.MeanInterval` | src/lib.rs:115-128 | `None` if and only if there is at most one hit; otherwise the value `v` is the truncated mean, `v·(len−1) <= newest − oldest < (v+1)·(len−1)` |
| `Window.SumOfGapsTelescopes` | src/lib.rs:119-124 | the span newest − oldest equals the sum of the intervals between consecutive hits |
| `Window.MeanIsAverageGap` | src/lib.rs:114-124 | on a sorted window of two or more hits, `next` is the truncated average of the consecutive intervals, not a two-point interval |
| `Window.EquallySpacedMean` | src/lib.rs:196-208 | hits spaced exactly `d` apart give the estimate `Some(d)` |
| `Window.MeanIntervalAsWritten` | src/lib.rs:118-124 | the estimate with the `len as u32 - 1` divisor of the source: `None` for at most one hit |
| `Window.AsWrittenAgreesWithinU32` | src/lib.rs:124 | with at most 2^32 hits, the as-written estimate equals `MeanInterval` |
| `Window.AsWrittenLosesEstimate` | src/lib.rs:124 | with 2^32 + 1 hits, the as-written estimate is `None` while `MeanInterval` gives a value |
| `Estimator.RegisteredHits.constructor` | src/lib.rs:92-93 | a validated sample size gives an empty buffer with that sample size and the invariant established |
| `Estimator.RegisteredHits.New` | src/lib.rs:86-95 | fails with "sample size must be at least two." exactly when `sample_size <= 1`; otherwise a fresh estimator with empty `hits`, the given `sample_size`, and `Valid()` |
| `Estimator.RegisteredHits.NewHit` | src/lib.rs:97-104 | keeps `Valid()`: length at most `sample_size`, sorted, and the last `sample_size` taps since the last reset; below capacity the buffer becomes old + [now], at capacity old[1..] + [now] |
| `Estimator.RegisteredHits.ResetHits` | src/lib.rs:106-108 | the buffer (and the history since reset) becomes empty whatever it held, so a second reset changes nothing; `sample_size` is a constant and keeps its value |
| `Estimator.RegisteredHits.Next` | src/lib.rs:111-128 | returns `MeanInterval(hits)`: `None` if and only if at most one hit is held; otherwise `Some((newest − oldest) / (len − 1))`; with no `modifies` clause it changes neither `hits` nor `sample_size` |

## Left out

- The `run` loop (src/lib.rs:26-73) is left out. It handles raw-mode terminal input, blocking key events, key dispatch and printing, all of which are terminal I/O.
- `process_tempo` (src/lib.rs:75-77) is left out. It converts the returned duration to BPM (`60 / seconds`) in floating point, so the BPM is a function of the `Next` result only, and no floating-point arithmetic is verified.
- `Config` and its `structopt` derive (src/lib.rs:10-23) and `src/main.rs` are not part of this model. They handle argument parsing and process exit. `precision` and `reset_time` are never read by the estimator.
- The assertions on `VecDeque::capacity()` in the tests are left out. They concern allocation, not the logical window, which is `sampleSize`.
- `Instant` is modelled as unbounded nanoseconds. Its platform representation and the clock itself are left out, and the clock's reading is a parameter of `NewHit`.
- `sample_size` is a `usize` in the source and a `nat` here. The width of `usize` plays no part except through the `u32` cast covered under Findings.
- `Window.MeanIntervalAsWritten`: the subtraction `len as u32 - 1` is modelled as wrapping, as in a release build. A debug build panics instead when the length is a multiple of 2^32.

## Findings

| source | as written | input that shows it | evidently intended | confidence | as-written member | corrected member |
|---|---|---|---|---|---|---|
| src/lib.rs:124 | the divisor is `self.hits.len() as u32 - 1`, so the length is truncated to 32 bits before one is subtracted, and `checked_div` returns `None` for a zero divisor | on a 64-bit target, `RegisteredHits::new(4294967297)` followed by 4294967297 hits: the divisor is `1 - 1 = 0`, and `next` returns `None` although the window holds far more than two hits | divide by `len − 1`, so that any window of two or more hits yields an estimate | low: not executed; unreachable through `run`, which passes a `u32` sample size | `Window.AsWrittenLosesEstimate` | `Window.MeanInterval` |
