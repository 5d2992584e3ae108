# Online phase detection and per-phase statistics, in Dafny

This project models the core of the phase detector that annotates a DRAMsim3
memory simulation with program phases.

- **The detector.** `PhaseDetector::detect` is called once per retired
  instruction. It hashes the instruction address into a bit of the current
  signature. At every interval boundary it does four things:
  - compares the signature with the previous one;
  - confirms a new phase after enough stable intervals, or looks the
    signature up in the phase table;
  - appends the phase id to the phase trace;
  - calls every registered listener with that phase id.
- **The listeners.** Two listeners connect the detector to the memory
  simulator. One accumulates transaction latencies. The other restarts the
  per-phase totals whenever the phase changes.
- **The aggregator.** `PhaseStats` keeps named counters and named value lists
  per phase id.

Every piece of state becomes an immutable Dafny value, and every operation
becomes a pure function from the old state to the new one:

- a signature (a `std::bitset`) becomes the set of its one-bit indices;
- the double-precision distance |A xor B| / |A or B| becomes an exact pair
  of naturals;
- every `<` between such quotients becomes a cross-multiplication;
- the module-level statics of the listeners become a `Context` record;
- a listener call is recorded as a `Notification` instead of being made.

## Layout

| file | module | models |
|---|---|---|
| common.dfy | `Common` | 64-bit words, `>>`, the `(uint32_t)` cast, unsigned wrap-around, powers of two |
| rational.dfy | `Rational` | exact quotients and their strict order; 0/0 behaves like a NaN |
| signatures.dfy | `Signatures` | configuration, `hash_address`, `difference_measure_of_signatures` |
| phase_detector.dfy | `PhaseDetector` | `detect`, the nearest-entry scan, `init_phase_detector`, `cleanup_phase_detector`, `register_listeners`, the phase-trace log lines, runs of many calls |
| listeners.dfy | `Listeners` | `dramsim_transaction_callback_listener`, `dram_phase_trace_listener`, issue-clock bookkeeping and clock ticks of the replay loop |
| phase_stats.dfy | `PhaseStats` | `PhaseStats::Increment`, `PhaseStats::AddValue` and the two `StatsData` methods |

## Behaviour of the code worth knowing

- **Boundary timing.** The boundary test (src/phase_detector.cc:72) runs
  before the count is incremented (line 121). Boundaries therefore fall on
  calls 0, L, 2L, … with L the interval length, and the first call after
  `init` is always a boundary. Trace entry i is decided at call i·L. Its
  signature holds the addresses of calls (i−1)·L+1 … i·L, not those of
  calls i·L … (i+1)·L−1. The first entry is always −1: one bit against an
  empty previous signature is at distance 1, which no threshold of at most 1
  exceeds (`FirstCallReportsUnknown`). A stretch of identical intervals is
  therefore confirmed at trace entry max(stable_min, 1), decided at call
  number max(stable_min, 1)·L + 1 (`RepeatedSignatureConfirmsOnce`).
- **Empty union.** The source divides 0 by 0 when both signatures are empty
  and gets a NaN. A NaN is never below the threshold, so the interval counts
  as unstable. The model's cross-multiplication gives the same answer
  (`EmptySignaturesNotStable`). Inside `detect` the case never arises,
  because the bit just set is in every union (`BoundaryDistancesDefined`).
- **Confirmation.** Confirmation uses `stable_count >= stable_min` on the
  already-incremented count, and only while the phase is −1.
- **Init clears listeners.** `init_phase_detector` also empties the listener
  list (line 133), so `cleanup_phase_detector` removes every listener too.
- **Interval counter.** `dram_phase_trace_listener` advances `interval` on
  every call, not only on a phase change.

## Model

| member | source | states |
|---|---|---|
| Signatures.HashAddress | src/phase_detector.cc:53-66 | the bit index always lies inside the 2^log2_signature_len-bit signature, and it is the top log2_signature_len bits of the 32-bit truncated hash of the address with its low drop_bits removed |
| Signatures.Distance | src/phase_detector.cc:45-50 | the metric's numerator is the size of the symmetric difference, its denominator the size of the union, and the numerator never exceeds the denominator |
| Signatures.DistanceSymmetric | src/phase_detector.cc:45-50 | the distance from A to B equals the distance from B to A |
| Signatures.DistanceToSelf | src/phase_detector.cc:45-50 | a non-empty signature is at distance 0 from itself, which is below every threshold in (0, 1] |
| Signatures.ZeroDistanceMeansEqual | src/phase_detector.cc:45-50 | distance 0 only between equal signatures |
| Signatures.DistanceDefined | src/phase_detector.cc:48 | when either signature has a set bit the union is non-empty, so the quotient is defined |
| Signatures.DisjointNeverStable | src/phase_detector.cc:76 | two signatures with no common bit are at distance exactly 1, never below the threshold |
| Signatures.EmptySignaturesNotStable | src/phase_detector.cc:48 | the 0/0 quotient of two empty signatures compares false against the threshold, as a NaN does |
| Rational.NaNIsIncomparable | src/phase_detector.cc:96 | a 0/0 quotient is neither less nor greater than any other quotient |
| Rational.LtMeansLess | src/phase_detector.cc:76 | the cross-multiplied comparison is exactly `<` on the real quotients |
| Rational.LtTrans | src/phase_detector.cc:96 | `<` on quotients is transitive, which the best-so-far update of the scan relies on |
| PhaseDetector.Scan | src/phase_detector.cc:91-101 | the loop that keeps the first entry strictly below both the threshold and the best distance so far returns the phase described by IsNearest |
| PhaseDetector.Nearest | src/phase_detector.cc:84-102 | the unstable-branch lookup yields −1 when no entry is below the threshold, otherwise the lowest-index entry of minimal distance among those below it |
| PhaseDetector.NearestIsUnique | src/phase_detector.cc:90-102 | at most one phase id meets that description, so the scan's answer is determined by it |
| PhaseDetector.NearestRecognisesKnownSignature | src/phase_detector.cc:89-101 | returning to a signature already in the table yields the first table entry equal to it, not −1 |
| PhaseDetector.Detect | src/phase_detector.cc:68-122 | each call adds the address's bit and counts one instruction. The boundary logic runs iff the pre-increment count is a multiple of interval_len; otherwise nothing else changes and no listener is called. At a boundary, `last` becomes the signature, `current` is emptied, and the trace and every listener, in order, receive the new phase. Stable branch: stable_count grows by one; the table grows by exactly the signature, with the new index as phase, iff stable_count ≥ stable_min and the phase was −1. Unstable branch: stable_count is 0, the table is unchanged, and the phase is the nearest entry. The table is append-only |
| PhaseDetector.BoundaryDistancesDefined | src/phase_detector.cc:69-96 | both comparisons at a boundary divide by a non-empty union |
| PhaseDetector.Notify | src/phase_detector.cc:113-115 | one call per registered listener, in registration order, each with the phase |
| PhaseDetector.DetectPreservesInv | src/phase_detector.cc:68-122 | `detect` keeps every bit inside the signature, every table entry non-empty, the phase and every traced phase either −1 or a table index, and one trace entry per boundary passed |
| PhaseDetector.BoundariesStep | src/phase_detector.cc:72-121 | one more call adds one boundary exactly when the pre-increment count is a multiple of the interval length |
| PhaseDetector.Init | src/phase_detector.cc:124-134 | after init both signatures, the table, the trace and the listener list are empty, both counters are 0 and the phase is −1 |
| PhaseDetector.InitEstablishesInv | src/phase_detector.cc:124-134 | the initial state satisfies the detector invariant |
| PhaseDetector.Cleanup | src/phase_detector.cc:160-166 | cleanup always ends in the init state; the lines to be written to the log are produced iff the file name is non-empty, one per traced interval, line i being `i * interval_len, trace[i]` |
| PhaseDetector.RegisterListener | src/phase_detector.cc:168-170 | registering appends the listener and changes nothing else |
| PhaseDetector.RegisteredListenerIsCalledLast | src/phase_detector.cc:113-170 | after a listener is registered at any point, over any later run of calls, the calls made at each new trace entry are every listener in registration order with that entry, the new listener last |
| PhaseDetector.PhaseLog | src/phase_detector.cc:140-146 | the phase-trace log has one line per traced interval, line i being `i * interval_len, trace[i]` |
| PhaseDetector.PhaseLogExample | src/phase_detector.cc:140-146 | phases [−1, 0, 0] with interval 1000 give the lines 0,−1 / 1000,0 / 2000,0 |
| PhaseDetector.RunProperties | src/phase_detector.cc:68-122 | over any sequence of calls the invariant holds, the count grows by the number of calls, and the table and the trace only grow at their ends |
| PhaseDetector.RunFromInitTraceLength | src/phase_detector.cc:72-121 | n calls after init leave ceil(n / interval_len) trace entries |
| PhaseDetector.FirstCallReportsUnknown | src/phase_detector.cc:68-122 | the first call after init and any registrations is a boundary that records phase −1, adds nothing to the table, leaves its one bit as the previous signature and calls every registered listener with −1, in order |
| PhaseDetector.DetectNotifiesAppended | src/phase_detector.cc:106-115 | one call makes exactly the listener calls for the trace entries it appends: none inside an interval, every listener in order at a boundary |
| PhaseDetector.RunNotifiesEveryBoundary | src/phase_detector.cc:106-115 | over any run the listener list is kept and the listener calls are, entry after entry of the appended trace, every registered listener in order with that entry |
| PhaseDetector.NotifyAllSplit | src/phase_detector.cc:113-115 | the calls of boundary k sit between those of the earlier and the later boundaries |
| PhaseDetector.DetectRecognisesKnownSignature | src/phase_detector.cc:84-101 | at an unstable boundary whose signature is already in the table, the reported phase is the first entry equal to it, and no entry is added |
| PhaseDetector.RepeatingStep | src/phase_detector.cc:68-122 | while every address sets the same bit, one call keeps the shape of a repeated run: stable_count one below the trace length, trace −1 before entry max(stable_min, 1) and 0 from it on, table empty until then and the one signature afterwards |
| PhaseDetector.RepeatedSignatureConfirmsOnce | src/phase_detector.cc:72-121 | from init, calls whose addresses all set one bit b give the trace −1 up to entry max(stable_min, 1) and 0 from then on; the table is [{b}] exactly when more than max(stable_min, 1)·interval_len calls were made, and empty otherwise |
| PhaseDetector.SingleListenerSeesStep | src/phase_detector.cc:109-115 | with one listener registered, one call notifies it with exactly the phase the call appends to the trace, if any |
| PhaseDetector.SingleListenerSeesTrace | src/phase_detector.cc:109-115 | with one listener registered, over any run the phases it is called with are exactly the entries appended to the trace, in order |
| Listeners.Issue | src/phase_detector.cc:232 | dispatching an address records the current clock as its issue clock and changes nothing else |
| Listeners.Tick | src/phase_detector.cc:237 | a clock cycle advances the 64-bit clock by one and changes nothing else |
| Listeners.TicksAdvanceClock | src/phase_detector.cc:237 | n cycles advance the clock by n and change nothing else |
| Listeners.TransactionCompleted | src/phase_detector.cc:198-205 | a pending address is removed, the transaction count goes up by one and the latency total by clock − issue clock (unsigned 64-bit); an address not pending changes nothing |
| Listeners.LatencyIsElapsedCycles | src/phase_detector.cc:198-205 | while every pending address was issued no later than the clock, the latency added is exactly the number of cycles in flight |
| Listeners.LatencyExample | src/phase_detector.cc:198-205 | issued at clock 10 and completed at 25 adds 15 to the latency and 1 to the count; completing an address never issued changes nothing |
| Listeners.PhaseTraceListener | src/phase_detector.cc:172-196 | every call advances `interval`; only a phase id different from the last one sets `old_phase`, zeroes both totals and empties the pending map |
| Listeners.CompletionAcrossPhaseChangeIsDropped | src/phase_detector.cc:186-192 | a transaction still pending at a phase change is abandoned: its later completion changes nothing |
| Listeners.DeliverAllCounts | src/phase_detector.cc:172-196 | over a sequence of boundaries `interval` counts the calls and `old_phase` ends as the last phase reported |
| Listeners.FirstReportStartsPhase | src/phase_detector.cc:41 | because `old_phase` starts at −2, the first reported phase always counts as a phase change |
| PhaseStats.DataIncrement | src/phase_stats.cc:28-36 | an existing counter goes up by one (mod 2^64), an absent one is created at 1; other counters and all value lists are unchanged |
| PhaseStats.DataAddValue | src/phase_stats.cc:38-47 | the value is appended to the list for the name, an absent name starting a one-element list; other lists and all counters are unchanged |
| PhaseStats.Increment | src/phase_stats.cc:17-26 | the phase's record is created lazily and its counter goes up by one; other phases, other counters and every value list are unchanged, and no key is removed |
| PhaseStats.AddValue | src/phase_stats.cc:6-15 | the phase's record is created lazily and the value appended to its list; other phases, other lists and every counter are unchanged, and no key is removed |
| PhaseStats.IncrementAddValueCommute | src/phase_stats.cc:6-26 | counting and recording values are independent: the two updates commute |
| PhaseStats.AddValuesPreservesOrder | src/phase_stats.cc:38-47 | values added one after another appear in insertion order, and no counter moves |
| PhaseStats.IncrementTimesCounts | src/phase_stats.cc:28-36 | k increments raise a counter by k and leave every value list alone |
| PhaseStats.Example | src/phase_stats.cc:6-47 | two increments of "tx" and one value 50 under "lat" for phase 3 give tx = 2 and lat = [50], and phase 7 has no record |

## Left out

- `run_phase_detector` (src/phase_detector.cc:207-258) reads the trace-file list and binary trace records, logs to `cout`, ticks the external CPU and frees it. This is I/O around an external memory simulator. Only its issue-clock update (line 232) and its clock increment (line 237) are modelled, as `Listeners.Issue` and `Listeners.Tick`.
- `print_log_file` opens and writes a file. Only the list of lines it writes is modelled (`PhaseLog`), not the stream or its formatting. When the file fails to open the source writes nothing; `Cleanup` still returns the lines it would have written.
- In `dram_phase_trace_listener`, the `phase_aat` double division, the stream write and the `cerr` message (lines 174-185) are floating point and I/O. The division is undefined when no transaction completed.
- The internals of `std::hash<bitset<64>>` are an opaque library function. The model takes it as the `hash` field of `Config`: any total function from 64-bit words to 64-bit words.
- The configuration constants (`drop_bits`, `log2_signature_len`, `interval_len`, `threshold`, `stable_min`) come from src/phase_detector.h, which is not part of this model. They are parameters. The threshold is the exact ratio thresholdNum/thresholdDen.
- The listeners are `std::function` objects, and calling them is not modelled. A listener is a handle, and `detect` returns the calls it would make, in order.
- src/cpu.h and src/phase_test_driver.cpp hold the CPU class declarations and the command-line driver. They contain no logic of the core.
- Floating-point rounding: distances and the threshold are compared exactly. The source compares rounded doubles, which can differ from the exact order when two quotients differ by less than a rounding step.
- `Detect`: `instruction_count` and `stable_count` are unbounded, because their declared widths are in the unseen header. Overflow after 2^64 instructions is not modelled.
- `ShiftRight`: a shift by 64 or more bits is undefined in C++. The model shifts by any amount, as division by a power of two.
- `PhaseLog`: `index * interval_len` is computed without 64-bit wrap-around.
- `Listeners.TicksAdvanceClock` assumes the 64-bit clock does not wrap during the ticks. `Listeners.Tick` itself models the wrap.
- `Listeners.DeliverAllCounts` assumes the 64-bit `interval` counter does not wrap. `Listeners.PhaseTraceListener` itself models the wrap.
- `Listeners.LatencyIsElapsedCycles` assumes neither the latency total nor the transaction count wraps. `Listeners.TransactionCompleted` itself models both wraps.
- `PhaseStats.IncrementTimesCounts` assumes the 64-bit counter does not wrap over the k increments. `PhaseStats.DataIncrement` itself models the wrap.
