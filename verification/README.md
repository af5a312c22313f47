# Lock profiler: a verified model

This project models the sequential logic of a lock profiler for a small
multi-core teaching kernel. Every spinlock acquisition and release is
counted in a fixed-size table of per-lock statistics. Two user programs
read that table back. One ranks the locks by contention rate. The other
draws a contention heatmap.

The model has four parts.

- **The spinlock and interrupt nesting** (`spinlock.dfy`, module
  `Spinlock`).
  - A `Cpu` object holds the `push_off` nesting depth, the saved
    interrupt state and the interrupt-enable bit.
  - A `Spinlock` object holds `locked`, `acquire_time`, `name`,
    `no_track` and the holding CPU.
  - `push_off` and `pop_off` are methods on the `Cpu`. Each is proved
    against a function on a `CpuState` value (`PushedOff`, `PoppedOff`).
  - `initlock` is a method on the `Spinlock`, specified field by field.
    `holding` is a predicate on the lock's fields; a lemma shows that at
    most one CPU holds a lock.
  - Lemmas show that k nested critical sections, closed in LIFO order,
    give back the nesting depth and interrupt state the CPU started
    with.
  - `MeasuredWait` is the noise floor `acquire` applies to spin times.
- **The statistics registry** (`lockstat_kernel.dfy`, module
  `LockStat`).
  - `mystrcmp` and `mystrncpy` are index loops, proved against a
    function for the C string length.
  - The registry is a class holding the 64-entry table, `lock_count`,
    the tracking flag and the guard lock (`lockstat_lock`).
  - `get_lock_index`, `lockstat_record_acquire` and
    `lockstat_record_release` are methods. Each is tied to a function of
    the abstract `RegistryState`: `Lookup`, `AfterAcquire` and
    `AfterRelease`.
  - `lockstat_init` is a method specified slot by slot and field by
    field. `lockstat_copy_to_user` is a method specified slot by slot
    through `FirstCopyFailure`, the first slot whose copy fails.
  - The lemmas about those functions carry the properties:
    - the guard lock is never registered;
    - a lock is registered at most once;
    - `lock_count ≤ 64`;
    - `contention_count ≤ acquire_count`, and each maximum is bounded
      by its total;
    - an acquire that is counted adds exactly one to the table's total
      acquisition count.
  - `lockstat_record_release` calls `get_lock_index` too, so a release
    of a lock never seen before creates an entry with no acquisitions.
    The model keeps this behaviour.
  - `lockstat_init` clears only `enabled` and the four original
    counters. The model keeps that as well.
- **Acquire and release** (`lock_core.dfy`, module `InstrumentedLock`).
  These are the two operations that drive the lock, the CPU and the
  registry together, plus lemmas about one whole critical section.
- **The analysis tools** (`lockstat_tool.dfy` and `lockvis.dfy`).
  - In the lockstat tool:
    - `calculate_metrics` computes the metrics in place;
    - `sort_stats` is the in-place bubble sort. It is proved sorted,
      stable and a permutation, and equal to an independent stable
      insertion sort (`Ranking`). A lemma shows that a stable descending
      ranking is unique.
    - severity bands, the integer/tenths split of the rate, row
      filtering, rank numbering, mode selection and exit codes.
  - In lockvis: bar scaling, the scan for the largest contention count,
    the `enabled` filter, the guarded divisions and the exit codes.

Clock readings, the identity of the current CPU and whether a
`copyout` succeeds are parameters of the operations that use them.
Printed text is not modelled. A printed row or bar is the sequence or
tuple of values it shows.

The comment above the severity thresholds (user/lockstat.c:76) says
50.0% is the critical threshold. The code tests `> 200`, that is 20.0%.
The model follows the code. The table prints `i + 1` as the rank, where
`i` is the entry's position in the sorted array. Rows for entries with
no acquisitions are skipped, so the printed ranks can jump (for example
1, 2, 4). The model keeps this numbering.

## Model

| member | source | states |
|---|---|---|
| Spinlock.NestingOkPreserved | kernel/spinlock.c:83-108 | push_off and pop_off keep interrupts off whenever the nesting depth is positive |
| Spinlock.PushedOffNShape | kernel/spinlock.c:83-95 | k nested push_off calls raise noff by k. The saved state is the interrupt state before the outermost call, or the already-saved one if noff was positive. Interrupts end up off |
| Spinlock.PoppedOffNShape | kernel/spinlock.c:97-108 | k nested pop_off calls lower noff by k and keep the saved state. Interrupts come back on only when noff reaches 0 and the saved state was on |
| Spinlock.NestedSectionsRestore | kernel/spinlock.c:83-108 | k matched push_off/pop_off pairs restore the nesting depth and the interrupt-enable state the CPU had before the first push |
| Spinlock.Cpu.PushOff | kernel/spinlock.c:83-95 | saves the interrupt state only when noff was 0, turns interrupts off, adds one to noff, and keeps the nesting invariant |
| Spinlock.Cpu.PopOff | kernel/spinlock.c:97-108 | its two panics are its preconditions. It lowers noff and turns interrupts on only at depth 0 with intena set |
| Spinlock.Spinlock.Holding | kernel/spinlock.c:74-80 | a lock is held only while locked, and then it records the CPU that holds it |
| Spinlock.HeldByOne | kernel/spinlock.c:74-80 | two CPUs that both hold the same lock are the same CPU |
| Spinlock.Spinlock.InitLock | kernel/spinlock.c:9-16 | stores the name. The lock is free, held by no CPU, and acquire_time is 0. no_track is left as it was |
| Spinlock.MeasuredWait | kernel/spinlock.c:26-44 | the wait forwarded is positive exactly when the first test-and-set failed and the spin took at least 2 ticks, and then it is end − start. A spin of 1 tick never counts |
| LockStat.StrCmp | kernel/lockstat.c:28-37 | returns 0 exactly when the names agree up to the first NUL of either or n characters. Otherwise it returns the difference of the first differing pair |
| LockStat.StrNCopy | kernel/lockstat.c:18-25 | copies at most n − 1 characters of the source, writes a NUL, and leaves the rest of the buffer alone. The result is NUL-terminated within n |
| LockStat.CopiedNameMatches | kernel/lockstat.c:18-37 | a name stored by mystrncpy compares equal to its source under mystrcmp |
| LockStat.CopiedString | kernel/lockstat.c:18-25 | copying a C string keeps min(length, n − 1) of its characters, followed by a NUL |
| LockStat.PrefixFindsLongerEntry | kernel/lockstat.c:28-37 | a lookup of name p matches an entry created for p + q, because the comparison stops at the first NUL of either string |
| LockStat.LongerFindsPrefixEntry | kernel/lockstat.c:28-37 | a lookup of p + q matches an entry created for its prefix p |
| LockStat.PrefixMatchesStored | kernel/lockstat.c:28-37 | a stored name that matches p + q also matches p |
| LockStat.FindFirst | kernel/lockstat.c:64-69 | the first index whose name matches, or −1 when no entry in use matches |
| LockStat.Claimed | kernel/lockstat.c:73-75 | a claimed slot matches the key and is enabled; its counters are unchanged |
| LockStat.Appended | kernel/lockstat.c:72-77 | an append keeps the table well formed, adds one to lock_count, and the new slot matches the key |
| LockStat.Lookup | kernel/lockstat.c:54-82 | a lookup keeps the table well formed (lock_count ≤ 64, every entry consistent, unused slots zero). Any index returned is in use |
| LockStat.LookupSpec | kernel/lockstat.c:54-82 | the guard gets −1 and changes nothing. An index returned is the first matching entry. The table gains exactly one entry, at the old lock_count, if and only if nothing matched and there was room. A −1 result changes nothing |
| LockStat.LookupFinds | kernel/lockstat.c:64-69 | the first matching entry is returned and the table is unchanged |
| LockStat.LookupAppends | kernel/lockstat.c:72-77 | with no match and room, the result is the old lock_count and the appended table |
| LockStat.LookupFull | kernel/lockstat.c:72-81 | with no match and a full table, the result is −1 and the table is unchanged |
| LockStat.RecordedAcquire | kernel/lockstat.c:93-104 | acquire_count goes up by 1. contention_count goes up by 1 and total_wait_time by the wait exactly when the wait is positive. max_wait_time becomes the maximum of the old value and the wait. The last acquire time is set, nothing else changes, and contention stays ≤ acquisitions |
| LockStat.RecordedRelease | kernel/lockstat.c:116-120 | total_hold_time grows by the hold time, max_hold_time becomes the maximum of the old value and the hold time, and nothing else changes |
| LockStat.AfterAcquire | kernel/lockstat.c:84-105 | a recorded acquisition keeps the registry well formed and the tracking flag unchanged |
| LockStat.AfterRelease | kernel/lockstat.c:107-121 | a recorded release keeps the registry well formed and the tracking flag unchanged |
| LockStat.LookupAgain | kernel/lockstat.c:64-69 | after an entry's counters change, looking the same name up again returns the same entry and changes nothing: a lock is registered at most once |
| LockStat.LookupIdempotent | kernel/lockstat.c:54-82 | a second lookup of a name that got an entry returns that entry and changes nothing |
| LockStat.PrefixReusesEntry | kernel/lockstat.c:54-82 | once p + q has an entry, a lookup of its prefix p reuses an entry at or before it and creates none |
| LockStat.AcquireAddsOne | kernel/lockstat.c:84-121 | a counted acquire adds exactly one to the table's total acquisitions, and every other acquire adds none. A release never changes that total |
| LockStat.FirstCopyFailure | kernel/lockstat.c:147-151 | the first slot whose copyout fails, with every earlier slot copied successfully |
| LockStat.Registry.Init | kernel/lockstat.c:39-51 | names the guard "lockstat" and leaves it free. It clears enabled and the four original counters of every slot, leaves the other fields, and turns tracking on |
| LockStat.Registry.GetLockIndex | kernel/lockstat.c:54-82 | the returned index and the new table are exactly Lookup of the old table |
| LockStat.Registry.FindEntry | kernel/lockstat.c:64-69 | the scan returns the first entry in use whose name matches, or −1 when none does |
| LockStat.Registry.Append | kernel/lockstat.c:72-77 | the new table is the old one with an entry appended at the old lock_count |
| LockStat.Registry.Claim | kernel/lockstat.c:74-75 | only the claimed slot changes: its name is copied and it is enabled |
| LockStat.Registry.RecordAcquire | kernel/lockstat.c:84-105 | the new table is AfterAcquire of the old one. Nothing changes when tracking is off, the lock is no_track, or the index is −1 |
| LockStat.Registry.CountAcquire | kernel/lockstat.c:93-104 | only entry idx changes, and it becomes RecordedAcquire of its old value |
| LockStat.Registry.RecordRelease | kernel/lockstat.c:107-121 | the new table is AfterRelease of the old one, gated the same way |
| LockStat.Registry.CountRelease | kernel/lockstat.c:116-120 | only entry idx changes, and it becomes RecordedRelease of its old value |
| LockStat.Registry.CopyToUser | kernel/lockstat.c:141-154 | tries min(lock_count, max_locks) slots in table order. It returns that count, or −1 at the first failed copy. Slots before the failure hold the kernel's entries and later slots are unchanged |
| InstrumentedLock.Acquire | kernel/spinlock.c:19-54 | one push_off. The lock is held (holding is true) by the caller with acquire_time = end time, name and no_track unchanged. The registry becomes AfterAcquire with the measured wait |
| InstrumentedLock.Release | kernel/spinlock.c:56-71 | the lock is free and held by no CPU (holding is false for the caller), then one pop_off. The registry becomes AfterRelease with hold time now − acquire_time |
| InstrumentedLock.CriticalSection | kernel/spinlock.c:19-71 | after acquire then release on one CPU, the lock is free again with its name and no_track unchanged and acquire_time the acquire's end time. The CPU state is one push_off then one pop_off, so its nesting depth and interrupt state are back to what they were. The registry is SectionAfter of the old one, with the measured wait and hold time now − end time |
| InstrumentedLock.SectionAfter | kernel/lockstat.c:84-121 | the registry after a recorded acquire and then a recorded release stays well formed and keeps its tracking flag |
| InstrumentedLock.SectionUpdatesEntry | kernel/lockstat.c:84-121 | one critical section updates one entry twice: the release's lookup finds the entry the acquire used |
| InstrumentedLock.SectionCountsOnePair | kernel/lockstat.c:84-121 | a critical section of an untracked lock (tracking off, no_track, or the guard), or of a lock that gets no entry in a full table, leaves the registry unchanged. Otherwise it adds one acquisition, its contention and its hold time to one entry, registers the lock at most once, and leaves every other entry unchanged |
| LockStatTool.ContentionX10 | user/lockstat.c:41-57 | the rate in tenths of a percent, truncated: r·acq ≤ 1000·cont < (r+1)·acq. It is 0 when there are no acquisitions |
| LockStatTool.AvgHold | user/lockstat.c:52-57 | the average hold time, truncated. It is 0 when there are no acquisitions |
| LockStatTool.CalculateMetrics | user/lockstat.c:38-60 | the first lock_count entries get both metrics from their raw counters. Raw counters and later entries are untouched |
| LockStatTool.RateAtMostThousand | user/lockstat.c:47 | an entry with contention ≤ acquisitions has a rate of at most 1000 (100.0%) |
| LockStatTool.MetricsExample | user/lockstat.c:41-53 | 3 contentions, 8 acquisitions and 400 cycles give 375 and 50 |
| LockStatTool.SwapKeepsRuns | user/lockstat.c:25-29 | swapping neighbours of different rate keeps the relative order of equal-rate entries |
| LockStatTool.StableRankingUnique | user/lockstat.c:22-33 | two rate-descending sequences that are stable rearrangements of each other are equal. So there is exactly one stable ranking |
| LockStatTool.RankingSpec | user/lockstat.c:22-33 | the reference ranking (a stable insertion sort) is descending by rate and a stable rearrangement of its input |
| LockStatTool.RankingPermutes | user/lockstat.c:22-33 | the reference ranking holds the same entries as its input |
| LockStatTool.SwapDown | user/lockstat.c:25-30 | exchanges the two neighbours through a temporary and keeps every equal-rate run |
| LockStatTool.BubblePass | user/lockstat.c:24-31 | one inner pass leaves the lowest rate of the prefix at its end, keeps equal-rate order, and does not touch entries past the prefix |
| LockStatTool.OuterPass | user/lockstat.c:23-32 | each outer iteration extends the sorted tail, whose entries are none above those before it, by one entry |
| LockStatTool.SortStats | user/lockstat.c:22-33 | the first count entries end sorted by descending rate, as a stable permutation, equal to the reference ranking. Later entries are untouched |
| LockStatTool.StableRankingExample | user/lockstat.c:25 | rates A 20.0%, B 50.0%, C 50.0%, D 10.0% rank as B, C, A, D |
| LockStatTool.SeverityOf | user/lockstat.c:77-86 | "!!!" exactly when the printed rate is above 20.0%, "-" exactly when it is at most 10.0%, "**" in between |
| LockStatTool.CriticalBand | user/lockstat.c:77-79 | a row is "!!!" exactly when at least 20.1% of acquisitions were contended (1000·cont ≥ 201·acq) |
| LockStatTool.SeverityFollowsRanking | user/lockstat.c:77-86 | in a ranked table no row is more severe than a row above it |
| LockStatTool.PercentSplit | user/lockstat.c:89-90 | integer part · 10 + tenths = the rate, with tenths ≤ 9 |
| LockStatTool.Table | user/lockstat.c:64-105 | one row per shown entry. Every row is for an entry with at least one acquisition, and its rank is between 1 and count |
| LockStatTool.Csv | user/lockstat.c:109-127 | one row per shown entry, and every row is for an entry with at least one acquisition |
| LockStatTool.PrintedRowsShowEntries | user/lockstat.c:64-127 | every table and CSV row shows an acquired entry among the first count. The rank is its position + 1. The two formats agree on name, acquisitions and percent, and the percent split is exact |
| LockStatTool.PrintedRowsInOrder | user/lockstat.c:70-95 | rows appear in table order, each entry at most once |
| LockStatTool.PrintedRowsComplete | user/lockstat.c:70-72 | every entry among the first count with an acquisition is printed |
| LockStatTool.ModeOf | user/lockstat.c:155-163 | CSV only exactly when the first argument is "-c", both exactly when it is "-b". Anything else, and no argument, selects the table |
| LockStatTool.LockstatMain | user/lockstat.c:130-177 | a count ≤ 0 exits 1 and prints nothing. Otherwise it exits 0. "-c" prints only the CSV, "-b" prints both, anything else prints only the table. Every output comes from one array, which is the reference ranking of the analysed entries |
| LockVis.BarLen | user/lockvis.c:9 | bar_len is value·50 / max truncated: r·max ≤ 50·value < (r+1)·max. A zero max divides by 1 |
| LockVis.Bar | user/lockvis.c:11-16 | a bar is exactly 50 cells |
| LockVis.PrintBar | user/lockvis.c:8-18 | the loop draws '#' at positions below bar_len and ' ' elsewhere |
| LockVis.BarFits | user/lockvis.c:9-16 | for value ≤ max the bar shows exactly bar_len '#' cells, and bar_len ≤ 50 |
| LockVis.FullBarAtMax | user/lockvis.c:9-16 | the largest positive value fills all 50 cells |
| LockVis.BarMonotone | user/lockvis.c:9-16 | a larger value never draws a shorter bar |
| LockVis.MaxContentionSpec | user/lockvis.c:34-38 | the scanned maximum is ≥ every entry's contention count and equals one of them, or is 0 |
| LockVis.MaxContention | user/lockvis.c:34-38 | the accumulator loop computes that maximum over the first count entries |
| LockVis.GuardedDiv | user/lockvis.c:57-64 | `x / (d > 0 ? d : 1)` is truncating division for positive d and x itself for d = 0 |
| LockVis.DetailRowOf | user/lockvis.c:52-65 | a detail block shows the entry's name, acquisitions and contentions. The percent and the average hold time are truncated quotients by the acquisitions, and the average wait is a truncated quotient by the contentions. A zero divisor leaves the dividend unchanged |
| LockVis.Heatmap | user/lockvis.c:41-48 | one line per enabled entry among the first count, each with a bar of exactly 50 cells |
| LockVis.Details | user/lockvis.c:51-67 | one detail block per enabled entry among the first count |
| LockVis.SectionsAgree | user/lockvis.c:41-67 | the heatmap and the detail section list the same locks in the same order: exactly the enabled entries among the first count, each once |
| LockVis.HeatmapScaled | user/lockvis.c:34-47 | scaled against the scanned maximum, every heatmap bar shows bar_len ≤ 50 cells, and the most contended lock fills its bar |
| LockVis.PercentBounded | user/lockvis.c:55-58 | with contention ≤ acquisitions the percent shown is ≤ 100. An entry never acquired shows contention·100 |
| LockVis.LockvisMain | user/lockvis.c:20-70 | a negative count exits 1 and prints nothing. Otherwise both sections are printed from the scanned maximum and the exit code is 0 |

## Left out

- Atomics, memory ordering and the spin:
  - `__sync_lock_test_and_set`, the busy-wait loop, `__sync_synchronize`, `__sync_lock_release` and `__sync_fetch_and_add` are not modelled. Each operation is one sequential step.
  - The unlocked read-compare-write of `max_wait_time` and `max_hold_time` can lose an update under concurrency. The model has no interleaving, so its maxima are exact.
- InstrumentedLock.Acquire: requires the lock to be free at the step. That is the moment the winning test-and-set runs. Whether the first test-and-set failed is the parameter `contended`.
- InstrumentedLock.Release: the source records the release statistics before the three stores that free the lock. The model records them after those stores. The update reads only the lock's name, its no_track flag and its identity, which those stores leave alone, so the result is the same in a sequential model.
- InstrumentedLock.Acquire: requires contended ⇒ startTime ≤ endTime. A clock that ran backwards would make the source's `end_time - start_time` (kernel/spinlock.c:35) wrap modulo 2^64.
- Spinlock.MeasuredWait: has the same requires, for the same reason.
- InstrumentedLock.CriticalSection: requires endTime ≤ now, the same clock assumption for the hold time.
- InstrumentedLock.Release: requires now ≥ acquire_time. A clock that ran backwards would make the source's subtraction wrap modulo 2^64.
- Hardware hooks: `r_time`, `mycpu`, `intr_get`, `intr_on` and `intr_off` become parameters and fields. The clock readings are parameters, and the current CPU is the `Cpu` object passed in.
- LockStat.Registry.GetLockIndex: the acquisition of the guard lock around the scan and the append is not modelled. Only the guard's identity check is.
- Page-table copy: `copyout` and `myproc` are a per-slot success oracle. The byte layout of entries is not modelled.
- LockStat.Registry.CopyToUser: returns −1 as an integer. The source returns it through a `uint64`.
- Header mismatch: kernel/lockstat.h:9-16 declares the entry without `max_hold_time`, `max_wait_time` and `last_acquire_time`. kernel/lockstat.c writes those fields and user/lockstat.h:8-18 expects them. The model has one entry type with all seven counters and `enabled`. Both user programs read it, so the different struct sizes the two programs see are not modelled. Nor is lockvis reading the kernel header's layout.
- Output formatting: the printf text, column layout and ANSI colours are not modelled, and neither is `lockstat_print` (kernel/lockstat.c:123-138). It only prints.
- user/locktest.c: a process-creation stress driver. It is not part of this model.
- Integer widths:
  - The model uses unbounded naturals. 64-bit wrap-around of the counters is not modelled.
  - The `(unsigned int)` and `(int)` casts in the printers are not modelled.
  - `int` overflow of `value * BAR_WIDTH` in lockvis is not modelled.
  - The int/uint64 comparison in lockvis's maximum scan is not modelled.
- LockStatTool.LockstatMain: user/lockstat.c:133 and user/lockstat.c:138 pass a byte length as the entry limit. The model starts from the count the system call returns, which the kernel clamps to lock_count ≤ 64.
- LockStatTool.CalculateMetrics: the source's constant return value 0 is not modelled. Its inner `acquire_count != 0` test is always true inside the `> 0` branch, so its else branch is dead and is left out.
- System call dispatch: the `lockstat` and `getlockstats` wrappers are not part of this model.
