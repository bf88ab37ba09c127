# Heartbeats: a verified model of the producer, the monitor and the controller

The repository is a feedback loop. An application emits heartbeats into a shared ring; a
monitor reads the rate; a controller steers cores and frequencies through a precomputed
table of machine states. This project models the logic of that loop in Dafny and proves
what each part keeps, over every input, run or interleaving.

`dafny verify dfyconfig.toml` checks everything.

| file | models |
|---|---|
| `Options.dfy` | a value that may be missing |
| `Arithmetic.dfy` | `ipow`, sums, ring slots, C's real-to-integer conversion |
| `MachineStates.dfy` | `src/machine_states.c`: states, their enumeration, the comparator and the three tests |
| `StateTable.dfy` | the sort-and-filter of `machine_speed_init`: what the kept table is |
| `SpeedSearch.dfy` | the binary search of `machine_speed_act` |
| `StepDial.dfy` | what `step_heuristics` does to core count and frequency indices |
| `Machine.dfy` | actuators, decision functions, actuator pass and main loop of `src/combined.c` |
| `Heartbeat.dfy` | the producer, `src/heartbeat-shared.c` |
| `RingReader.dfy` | producer against monitor, as interleaved steps |
| `PingPong.dfy` | the two sides of `src/lat.c`, as interleaved steps |
| `TruncatedWindow.dfy` | the integer window mean of `src/heartbeat-file.c` |
| `StatesFile.dfy` | `src/powerstates.c`: print, read back, filter again |

## Main results

- **The table.** Whatever order `qsort` gives to equal states, the partial scans of the three
  tests decide one global statement (`KeepsExactly`), the kept table is strictly increasing in
  speed and non-decreasing in power, and a frontier class survives exactly when the state of it
  that sorted first is not redundant. With a stable sort exactly one state of every running
  frontier class is kept (the lexicographically greatest), every running state is dominated by a
  kept one, and the ends of the table are known. `UnstableSortLosesClass` is an order `qsort` may
  leave that loses a class. A kept state is Pareto-optimal in the full sense exactly when the next
  one in the table needs more power (`BeatenIff`), which is not always (`NotAlwaysPareto`).
  `-r`, `-u` and `-p` are each characterised alone.
- **The search.** It returns an exact match if there is one and never skips over a table speed;
  which neighbour it settles on, ties included, is known exactly (`ChosenSettles`), and it is the
  nearest exactly when `NearestIff` says, which is not always.
- **The control loop.** One ordered actuator pass leaves exactly the chosen state running; speed,
  core count and frequencies stay in bounds over every run and any gains. The decisions of a run
  account for it from its first values to its last: each finds the values the one before left, asks
  for the speed its function computes from them, acts if and only if that is not the speed there
  is, and leaves either those values or the picked table state running. Every decision uses a full
  window of intervals that began at or after the beat of the last action, with the actuators
  unchanged since then; and from the first action on a table state runs. The size and direction of
  each request follow from the rates and the band alone. Under `step_heuristics` the final dial is
  the first one turned by the report of every decision, and the total frequency goes up when the
  rate was below the band and down when it was above.
- **`step_heuristics`** is a saturating counter over `[0, C*F-1]`, exactly unless it drops back to
  a core left below the top frequency.
- **The producer.** The incremental window mean equals the naive mean over the whole history, log
  and ring conserve every beat in order, and rates are beats per second of nanosecond readings. The
  integer mean of `src/heartbeat-file.c` strays less than m + W from it in m steady beats, and for
  every W and m from W on does stray m + W - 2.
- **The ring under concurrency.** A copied field is that of the published beat exactly unless the
  beat that reuses the slot has been stored over it. `n` further beats are harmless in every run if
  and only if `n` is at most depth - 2, or depth - 1 when no beat was in progress as the index was
  taken (`UntornWithinIff`). A whole copy within that bound is the producer's record of the beat
  published.
- **`lat.c`** loses no tag, cannot jam, and under any scheduler is finished exactly when it has made
  4(iters + 1) moves, which any fair scheduler reaches.
- **The text table** comes back exactly when its header fits the 512-character line buffer, that
  is for up to 72 cores. Read back, sorted and printed again it is the same file for every `qsort`
  if and only if the states printed that compare equal are the same; so always with `-u` on
  generated states, always with a stable sort, and not always without options (`ReprintDiffers`).

## Assumptions

Reals stand for `double` and `float`, unbounded integers for the C types (except where
ULONG_MAX is a scanner's or a scan's limit). The window has at least one slot and the ring at
least two, because the first-beat branch never wraps the index. Clock readings strictly increase
and one thread produces. Frequencies are strictly descending, the same on every core, and at least
10000 kHz. Actuators are ideal: an action makes `value` equal to `set_value`. `qsort` is a
relation: a sorted permutation, made stable only where a statement says so. `InitMachine` asks of
it that the filtered table keeps the two ends of the speed range, as every stable sort does
(`TableEnds`) and just the sorts that `EndsKeptIff` names. Interleaved steps are atomic and
sequentially consistent. `main` is entered with the hardware running listed frequencies on at
least one core.

Where the code and its comments differ the code is followed: the search need not return the
closest state (`NotAlwaysNearest`), `pareto_optimal` keeps a state beaten by a faster one of equal
power (`NotAlwaysPareto`), and both backward scans stop before index 0 (`EquivalentScanExact`).

## Model

| member | source | states |
|---|---|---|
| Arithmetic.Ipow | src/machine_states.c:22-31 | square-and-multiply computes the power |
| MachineStates.CalculateStateProperties | src/machine_states.c:34-45 | the scratch row gets the speed and power of its cores, the cores are unchanged |
| MachineStates.PowerIsSpeedPlusCores | src/machine_states.c:34-45 | despite two integer divisions, power is speed plus 100 per active core |
| MachineStates.GenerateMachineStatesInternal | src/machine_states.c:47-58 | the recursion writes exactly (F+1)^m rows from the cursor on, one for each completion of the prefix in digit order, and leaves the rows before it alone |
| MachineStates.CreateMachineStates | src/machine_states.c:60-70 | the list is the full enumeration, of (F+1)^C states |
| MachineStates.AssignmentDigit | src/machine_states.c:47-58 | state k gives core c the base-(F+1) digit of k, core 0 most significant, digit F meaning off |
| MachineStates.EnumerationExact | src/machine_states.c:47-70 | a state is generated if and only if it is a rated assignment of listed frequencies or off |
| MachineStates.EnumerationDescends | src/machine_states.c:47-58 | generation order is strictly descending lexicographic order of the cores |
| MachineStates.RedundantState | src/machine_states.c:86-96 | redundant if and only if the frequencies are not descending |
| MachineStates.ParetoOptimal | src/machine_states.c:104-118 | the two index loops decide the scanned part of the list exactly, for any list |
| MachineStates.DropEquivalent | src/machine_states.c:121-130 | the backward loop finds an equivalent in the scanned part exactly, for any list |
| StateTable.StableSortExists | src/combined.c:317 | every list has a stable sort, one that keeps the ties of every state in order, so the stable-sort statements are not vacuous |
| StateTable.StableSortUnique | src/combined.c:317 | there is only one, and that of a sorted list is the list itself |
| StateTable.OneSortIff | src/powerstates.c:155 | `qsort` can return only the list itself for a sorted list if and only if entries that compare equal are equal |
| StateTable.PassesFilter | src/powerstates.c:162-168 | the tests of the filter loops, as requested, decide whether a state is kept |
| StateTable.FilterStates | src/combined.c:318-338 | the filter loop and final realloc leave exactly the kept states in order |
| StateTable.ParetoScanIsGlobal | src/machine_states.c:104-118 | on a sorted list the backward scan never rejects and the test decides whether any state anywhere is as fast with less power |
| StateTable.EquivalentScanExact | src/machine_states.c:121-130 | on any sorted list the scan finds an earlier equivalent if and only if there is one, except exactly for index 1 with its equivalent at index 0 |
| StateTable.EquivalentScanIsGlobal | src/machine_states.c:121-130 | with a stopped state at index 0, a running state is dropped if and only if an earlier one has its speed and power |
| StateTable.RedundantOption | src/powerstates.c:162-163 | `-r` alone keeps the states whose frequencies never rise from core to core |
| StateTable.OnePerPermutation | src/powerstates.c:162-163 | so of the generated states it keeps one of every set of permutations |
| StateTable.EquivalentOption | src/powerstates.c:164-165 | `-u` alone keeps one of the generated states of each speed and power, the first |
| StateTable.UnoptimalOption | src/powerstates.c:166-167 | `-p` alone keeps the states that no state anywhere matches in speed with less power |
| StateTable.KeepsExactly | src/combined.c:319-336 | for any sort, kept if and only if running, on the frontier, first of its class, and descending |
| StateTable.TableIncreases | src/combined.c:317-336 | for any sort, the table is strictly increasing in speed and non-decreasing in power |
| StateTable.ClassSurvivesIff | src/combined.c:319-336 | for any sort, a running frontier class is in the table if and only if its first sorted state is not redundant |
| StateTable.FirstIsDescending | src/machine_states.c:120-130 | with a stable sort the first state of every class is not redundant |
| StateTable.StableTableExact | src/combined.c:314-336 | with a stable sort exactly one state of a running frontier class is kept, the lexicographically greatest |
| StateTable.TableCovers | src/combined.c:314-336 | with a stable sort every running state has a kept one at least as fast with no more power |
| StateTable.BeatenIff | src/machine_states.c:98-118 | with a stable sort some state is as good as a kept one in speed and power and better in one if and only if the next kept state has the same power |
| StateTable.TableParetoIff | src/machine_states.c:98-118 | so the table is Pareto-optimal, as the comment defines it, if and only if its powers strictly increase |
| StateTable.NotAlwaysPareto | src/machine_states.c:98-118 | two cores of 2000000 or 500000 kHz: two slow cores are kept although one fast core is faster with the same power |
| StateTable.TableEnds | src/combined.c:337-342 | with a stable sort the table is non-empty, from one core at the lowest frequency to all cores at the highest |
| StateTable.EndsKeptIff | src/combined.c:317-342 | for any sort, the table keeps both ends of the speed range if and only if the states of the two end classes that sorted first are not redundant |
| StateTable.UnstableSortLosesClass | src/combined.c:317-336 | a sorted permutation whose filtering loses a frontier class |
| SpeedSearch.Probe | src/combined.c:357-370 | the do-while terminates on an exact match or on an index fixed by the table size and the gap alone, at most one off a match |
| SpeedSearch.FindState | src/combined.c:357-379 | an exact match is returned if present, no table speed lies strictly between result and target, and otherwise which neighbour of the gap it is follows from the last probe and the two distances |
| SpeedSearch.LastProbeStep | src/combined.c:357-363 | each round probes the middle of the bounds, rounded down, and moves past it |
| SpeedSearch.ChosenSettles | src/combined.c:365-379 | the lower neighbour of the gap is chosen if and only if the loop stopped further below, or on it with the upper no nearer, or on the upper with the lower strictly nearer |
| SpeedSearch.TieStays | src/combined.c:365-379 | of two equally near neighbours the one on the side the loop stopped on is chosen |
| SpeedSearch.NearestIff | src/combined.c:364-379 | for a missing speed the result is nearest if and only if the loop saw both neighbours of the gap, or the one it saw is no farther |
| SpeedSearch.NotAlwaysNearest | src/combined.c:317-379 | the table kept for one core and seven frequencies has speeds 10 to 70 by tens, and target 39 gives 30 although 40 is nearer; target 25 gives 20 |
| Machine.Machine.GetCurrentSpeed | src/combined.c:277-294 | the speed of what runs: the first cores at their frequencies, the rest off |
| Machine.Machine.MachineSpeedAct | src/combined.c:352-391 | the chosen state is handed to the frequency and core actuators; values, indices and limits are unchanged |
| Machine.HandedRuns | src/combined.c:382-384 | settings handed over and reached run exactly the chosen state, because its running cores form a prefix |
| Machine.Machine.ActuatorPass | src/combined.c:767-781 | one ordered pass settles every actuator; after a speed action exactly the chosen state runs and its speed is read back; it acted if and only if something was pending |
| Machine.InitMachine | src/combined.c:118-350 | the states are generated, sorted and filtered; for any sort that keeps the ends of the table: the table, the limits of every actuator, a start value within them, and a reachable start state |
| Machine.RunningSpeed | src/combined.c:341-345 | any assignment with a core on has a speed between the table's ends, so the initial speed is in range |
| Machine.Machine.Decide | src/combined.c:534-610 | the four speed controllers and the dummy: the truncated, clipped command and the remembered error |
| Machine.RequestSize | src/combined.c:534-610 | unclipped, the request is the current speed plus Kp per unit the rate is short of the middle or the nearest edge of the band, plus Ki per unit it was short before, truncated |
| Machine.ProportionalDirection | src/combined.c:534-586 | with a non-negative gain the request does not fall while the rate is below the middle (or the band), does not rise while it is above, and inside the band hysteresis asks for no change |
| Machine.Machine.RunRequests | src/combined.c:534-610 | in a run each request is that of RequestSize from the rates of that decision and the one before |
| Machine.Machine.RunDirection | src/combined.c:534-586 | and has the direction of ProportionalDirection, from whatever speed the run has reached |
| Machine.Machine.DummyKeeps | src/combined.c:395-398 | in a run `dummy_control` never changes the request, and with nothing pending nothing ever changes |
| Machine.Machine.DecideAndAct | src/combined.c:765-781 | from any reachable state, any rate and any gains to a reachable state; for each function it acts if and only if the setting it leaves is not the current speed, and then the state the search picks is handed over and runs, otherwise nothing changes |
| Machine.Machine.HandedInBounds | src/combined.c:373-384 | after a speed action the speed is a table speed within the limits, the core count is in 1..C and frequencies are listed |
| Machine.Machine.Round | src/combined.c:756-785 | before the skip point nothing changes; from it on one decision is taken and logged with the values before and after the pass, the setting and whether it acted, and the next wait is a window if it acted, else a beat |
| Machine.NewsExact | src/combined.c:752-754 | a poll is taken if and only if it has a rate, its beat is later than that of every earlier poll with a rate, and none of them ended the loop |
| Machine.SkipsExactly | src/combined.c:757-783 | a later beat reaches the skip point if and only if it is a window or more after the last action |
| Machine.WaitsNext | src/combined.c:727-783 | any decision after its wait, acting or not, keeps "a window after the last action" true of all decisions and of the next skip point |
| Machine.FullWindow | src/combined.c:757-783 | a decision's rate is that of a full window of intervals that all began at or after the beat of the last action, and the actuators kept the same values over it |
| Machine.Machine.TableRunsSince | src/combined.c:765-781 | after any decision from the first that acted on, a table state runs and the speed actuator shows its speed |
| Machine.Machine.MonitorLoop | src/combined.c:751-786 | over any polls and for each speed controller, the dummy and `step_heuristics`: the news a window or more after the last action is decided on and the rest passed over; the decisions chain the first values to the last, each with the request its function computes, or the dial its reports turn to, and the outcome of its pass; each is measured over a full window of unchanged values since the last action; bounds hold |
| Machine.Machine.StepDecide | src/combined.c:756-785 | under `step_heuristics` a decision from the skip point on turns the dial by its report, runs what it says and moves the total frequency as StepRound says, logged as acting if and only if the values changed; before it nothing changes |
| Machine.Machine.RunCounts | src/combined.c:442-505 | so with the lower cores at the top a whole run moves the position as the saturating counter of the reports decided on |
| Machine.Machine.StepHeuristics | src/combined.c:442-505 | core count, core indices and settings become those of the dial turned by the report; the speed and global settings and everything else stay |
| Machine.Machine.StepRound | src/combined.c:442-781 | after the pass what runs is what the turned dial says: with the rate below the band its total frequency is strictly higher, unless all cores run at the highest; above it strictly lower, unless one runs at the lowest; inside it nothing changes |
| StepDial.TurnCountsIff | src/combined.c:454-504 | from any dial, one call is a clipped count of the position if and only if it does not drop back to a core left below the top frequency |
| StepDial.TurnCounts | src/combined.c:454-504 | with the lower cores at the top, as whenever one core is active, the count law holds and keeps holding |
| StepDial.TurnsCount | src/combined.c:454-504 | over any run of reports the heuristic is the saturating counter on [0, C*F-1] |
| StepDial.PositionIsSpeed | src/combined.c:461-503 | the summed frequency is strictly increasing in the position |
| StepDial.TurnMoves | src/combined.c:457-504 | from any dial a call moves the summed frequency strictly the way the report asks, except at the end of the range |
| Heartbeat.Telescope | src/heartbeat-shared.c:251-258 | the sum of consecutive intervals is the time between their ends |
| Heartbeat.MeanSlides | src/heartbeat-shared.c:266-269 | dropping the oldest and adding the newest interval slides the naive mean |
| Heartbeat.MeanIsWindowRate | src/heartbeat-shared.c:279-281 | the reciprocal of the naive mean is k beats over the time the last k = min(n-1, W) intervals took |
| Heartbeat.RecordMeans | src/heartbeat-shared.c:350-364 | every record after the first names its beat, tag and reading, and its rates times the spans they cover are k, 1 and b + 1 beats times 1000000000 |
| Heartbeat.SteadyRates | src/heartbeat-shared.c:350-364 | beats T ns apart are recorded at 1000000000 / T, and globally at (b + 1) / b times that |
| Heartbeat.Producer.WindowAverage | src/heartbeat-shared.c:244-282 | warm-up recomputation and steady update with index wrap both give the naive mean of the last min(n, W) intervals |
| Heartbeat.Producer.Heartbeat | src/heartbeat-shared.c:317-381 | one more beat in the history; ring, log, window, indices and published record are again those of the history |
| Heartbeat.Producer.FlushBuffer | src/heartbeat-shared.c:288-309 | the whole ring is appended to the log in slot order |
| Heartbeat.Producer.AverageAgrees | src/heartbeat-shared.c:251-278 | after any run of two or more beats the incremental average is the naive mean |
| Heartbeat.Producer.Conservation | src/heartbeat-shared.c:288-377 | the log followed by the slots below the write index is the whole history, each beat once, in order |
| Heartbeat.Producer.Rotation | src/heartbeat-shared.c:359-373 | rotated at the write index the ring is the last min(n, depth) beats, oldest first |
| Heartbeat.Producer.GetCurrent | src/heartbeat-shared.c:149-159 | the published record is that of the last beat |
| Heartbeat.Producer.PublishedRates | src/heartbeat-shared.c:149-364 | after any run the published record means what RecordMeans says |
| RingReader.CopyExact | src/heart_rate_monitor-shared.c:69-73 | a field copied is that of the beat published when the index was taken, if and only if the beat reusing the slot has not been stored over it |
| RingReader.PublishedSlotSafe | src/heartbeat-shared.c:338-376 | the published slot is never the one being filled, and the index is one past the ring if and only if the beat just published is a multiple of the depth and its increment is not yet wrapped |
| RingReader.Untorn | src/heart_rate_monitor-shared.c:66-76 | in every interleaving a copy from inside the ring is untorn until the beat reusing the slot begins |
| RingReader.UntornByCount | src/heart_rate_monitor-shared.c:66-76 | depth - 2 further beats are harmless, and depth - 1 if no beat was in progress |
| RingReader.UntornWithinIff | src/heart_rate_monitor-shared.c:66-76 | n further beats are harmless in every run if and only if n is at most that |
| RingReader.TornRun | src/heart_rate_monitor-shared.c:66-76 | for every depth a run tears a copy with exactly one beat more: depth - 1 if a beat was in progress when the index was taken, depth if not |
| RingReader.CopyIsRecord | src/heart_rate_monitor-shared.c:66-76 | a whole copy from inside the ring, before the beat reusing the slot begins, is the record of the beat published |
| RingReader.IndexPastRing | src/heartbeat-shared.c:367-376 | for every depth a run in which the reader takes the index one past the ring |
| PingPong.NoTagLost | src/lat.c:98-182 | a tag is never overwritten before it was waited out, and the sides are at most one beat apart |
| PingPong.TagsExact | src/lat.c:98-182 | `app` sends -2, then iters down to 1; `sys` sends -1, then 0 up to iters - 1 |
| PingPong.StaleNeverMatches | src/lat.c:101-178 | a waiting side goes on if and only if the other has issued one beat more than it has seen |
| PingPong.ExactlyOneMoves | src/lat.c:98-182 | until both are done exactly one side can move |
| PingPong.MovesRunOut | src/lat.c:98-182 | every move that is not a spin uses up one of finitely many, and none are left if and only if both are done |
| PingPong.FinishedByMoves | src/lat.c:98-182 | any run is finished if and only if it has made all of its 4(iters + 1) moves, each side having issued iters + 1 beats |
| PingPong.FairRunFinishes | src/lat.c:98-182 | a run in which each side gets a turn, moving or spinning, in each of 4(iters + 1) stretches is finished after them |
| TruncatedWindow.Window.WindowAverage | src/heartbeat-file.c:177-213 | a steady beat truncates twice, and after m of them the average is less than m + min(m + 1, W) from the true window mean |
| TruncatedWindow.DriftGrows | src/heartbeat-file.c:198-204 | a steady update adds less than 2 to the drift |
| TruncatedWindow.SharesSlide | src/heartbeat-file.c:198-204 | counting each interval as the whole share it entered with, a steady update adds at most 1 |
| TruncatedWindow.SharedDrift | src/heartbeat-file.c:198-204 | so after m steady beats the drift is less than m + W |
| TruncatedWindow.DriftReached | src/heartbeat-file.c:198-204 | for every window W of two or more and m from W on a run is m + W - 2 off the true mean after m steady beats |
| StatesFile.PrintStates | src/powerstates.c:157-174 | the output is the header and the rows of the states the options keep |
| StatesFile.ColumnsName | src/powerstates.c:157-174 | the words of the header, speed, power and core0 on, stand over those fields of every row |
| StatesFile.ReadStatesFile | src/powerstates.c:63-109 | no states for a file that does not open or has the wrong format; otherwise, across buffer doublings, the states and core count the text parses to |
| StatesFile.UnsignedReads | src/powerstates.c:85-88 | `%lu` reads every decimal, saturating at 2^64 - 1 and wrapping behind a minus sign |
| StatesFile.LongLine | src/powerstates.c:74 | `fgets` takes 511 characters of a longer line |
| StatesFile.ReadingEnds | src/powerstates.c:84-99 | a row without its newline ends the reading and the rows before it are kept |
| StatesFile.RoundTripIff | src/powerstates.c:63-174 | a printed table reads back as itself if and only if its header fits the line buffer |
| StatesFile.RoundTripCores | src/powerstates.c:63-174 | that is, for up to 72 cores |
| StatesFile.FilterIdempotent | src/powerstates.c:162-168 | on a sorted list any choice of filters run on its own output changes nothing |
| StatesFile.PrintReadPrintIff | src/powerstates.c:144-175 | printed, read back, sorted and printed again with the same options a table gives the same file for every sort if and only if the states printed that compare equal are the same |
| StatesFile.ReprintDiffers | src/powerstates.c:144-175 | two cores, one frequency and no options: a sort of the states read back prints another file |
| StatesFile.StableReprint | src/powerstates.c:144-175 | with a stable sort the file is always the same |
| StatesFile.GeneratedReprint | src/powerstates.c:144-175 | with `-u` on the generated states the file is the same for any two sorts |

## Left out

- StatesFile.ReadStatesFile: `%d` of a core number does not overflow, since what the scanner does then is undefined.
- RingReader.Untorn: a ring cell holds the number of the beat that wrote it, not the field's value; CopyIsRecord puts the values of RecordOf in `Heartbeat.dfy` in their place.
- Heartbeat.Producer.GetCurrent: the single-threaded read; the concurrent one is RingReader.
- `hb_get_history` and `hrm_get_history`: their copy length is the write index times the depth, which fits the ring only when that index is 0; Rotation states what the ring holds instead.
- `hrm_get_global_rate` and `hrm_get_windowed_rate`: they index the ring by the beat counter and leave it after one round.
- Reading a record through an index one past the ring: `src/lat.c` and the monitor read the tag atomically here.
- `core_heuristics`, `freq_heuristics`, `uncoordinated_heuristics` and `core_p_controller`: clamps that one branch settles.
- The global frequency action's effect on the other cores' hardware: the source does not update their `value` fields either, and no controller modelled here changes that actuator.
- `src/core-allocator.c` and `src/frequencyscaler*.c`: older duplicates of the controllers.
- Persistence and initialisation in `src/heartbeat-file.c`, which its header no longer matches; the rate it derives from a zero average.
- Shared memory, files, processes, `taskset`, cpufreq, `/proc` and option parsing: foreign; given as parameters.
- IEEE rounding, integer overflow, weak memory ordering, failing actuators, several producing threads.
