# Verified models of the operating-system projects

This project models the concurrent and memory-handling code of the repository in Dafny and proves what
that code does, for all inputs and all interleavings. `dafny verify dfyconfig.toml` checks everything.

**Concurrent prime sieves (project 2).** `n` kernel threads pass a counting barrier, claim positions from
a shared cursor, cross out multiples while the others do the same, pass a second barrier and add to
`done`. The four programs (Eratosthenes or Sundaram, locked or lock-free cross-outs) are one step machine,
`SieveMachine`, with a configuration. Every lock acquisition, turn of the skip loop, bound check, cross-out
and barrier poll is a step of its own. `SieveInvariant` holds what every step keeps, `SieveExactness` what
a finished run leaves in the array, `SieveProgress` termination and absence of deadlock, `SieveAccounting`
barriers and counters, `SieveClock` what the time stamps and the lock mean, `SieveSolo` what one thread does,
`SieveTheorems` the results about whole runs, and `SieveModule` the module itself: arrays and counters updated
in place, one method per step, each proved to be the machine's step.

The bound check after the unlock reads the shared cursor again, so another thread can push the cursor to
the end in between and a claim is given up although its multiples stand. The machine has both forms of the
check: `literal`, as the code is written, and the one on the value the claim itself left in the cursor.
`ExactnessTheorem` says exactly when all complete runs list the primes and nothing else, `AbandonedClaim`
builds the run that does not, `ExactRunTheorem` says which runs do, and `SurvivalTheorem` says for the code
as written which composites survive, and why (`SieveAbandonment`). The figure of unnecessary cross-outs the
Sundaram sieves print can be negative; `SundaramFigure` gives it in closed form and `SundaramRuns` says when,
for any bound and thread count. `SieveReport` is what showinfo prints.
The Sundaram sieves give up their last claim by design of the check; that this never matters rests on a
prime between an odd number q and about half of q * q, proved in `PrimeGap` from central binomial
coefficients, so no number-theoretic hypothesis is left in the theorems.

**Sleep lock (studio 11).** `SleepLock` has each atomic operation, store and futex call as a step. Mutual
exclusion holds in every run. Progress does not: a late store of -1 can overwrite a release. Proved are the
dichotomy between runs that do this and runs that do not, that a lost lock is never acquired again, and
exactly which reachable states can still complete.
`Sleepers` says who sleeps and until when. `SleepLockProgram` is the program in place.

**Lost updates (studio 10).** `LostUpdate` determines the set of all final values of a counter that n
threads increment k times each by load and store, and the one value of the atomic version; `RaceModule` is
the counter in place.

**Paging module (project 3).** `Paging` keeps the account of trackers, areas, recorded, lost and freed pages
over any sequence of mmap, fault, open and close callbacks; `PagingFrames` says which frame lies where;
`PagingModule` are the callbacks in place.

**Smaller cores.** `Handshake` and `HandshakeProgram` (studio 13, three guard words in shared memory),
`MatrixMultiply` and `ParallelMultiply` (studio 15, column-parallel against serial multiplication with
arbitrary arithmetic), `Quicksort` (studio 15, in place, any pivots, fractions included), `PageOrder`
(studio 12, allocation order and labelling). `Primes`, `PrimeGap`, `RowMajor` and `Sets` are the mathematics
these need.

Where code and comments disagree the code is followed: leader.c announces that it resets all guards and
resets `write_guard` only (line 48-49), partition in sort.c promises smaller elements before the pivot and
delivers elements no larger (line 36-38, 51; `PartitionWhole` says when the promise holds), and the size
check of parallel_dense_mm.c admits 65536, whose square does not fit (line 45-50).

## Model

| member | source | states |
|---|---|---|
| SieveTheorems.ExactnessTheorem | project2_kernel_memory_concurrent_use/spinlock.c:63-96 | Over all four sieves, any thread count, any bound from 2 and every interleaving: all complete runs list exactly the primes up to the bound if and only if the bound check uses the value the claim left in `cur`, or there is one thread, or the bound is below 4 (Eratosthenes) or 9 (Sundaram). The code re-reads `cur`, so as written it is not always exact |
| SieveTheorems.AbandonedClaim | project2_kernel_memory_concurrent_use/spinlock.c:76-79 | For every sieve that re-reads `cur`, every thread count from 2 and every bound from 4 (9): a complete run from initialisation in which the first claim is given up because another thread moved `cur` to the end between its unlock and its check, and the composite 4 (9) is listed |
| SieveTheorems.FirstClaimDropped | project2_kernel_memory_concurrent_use/spinlock.c:76-79 | In any run that gives up the first claim, it was overtaken and the composite 4 (9) is listed |
| SieveTheorems.SurvivalTheorem | project2_kernel_memory_concurrent_use/spinlock.c:73-93 | The code as written, after any complete run: a composite survives if and only if no claim that was carried through crosses it; then some prime claim crosses it, every prime claim that does was given up because another thread moved `cur` to the end between its unlock and its bound check, and any other claim that does was given up or is itself crossed out |
| SieveTheorems.ExactRunTheorem | project2_kernel_memory_concurrent_use/spinlock.c:63-96 | Run by run, for the code as written: a complete run lists exactly the primes if and only if the claim of every prime up to the square root of the bound was carried through, and if and only if none of these claims was overtaken between unlock and check |
| SieveAbandonment.OvertakenByAnother | project2_kernel_memory_concurrent_use/spinlock.c:76-77 | A claim can be overtaken only with two threads or more, by a cursor that moved since the claim left it |
| SieveAbandonment.MissingWasOvertaken | project2_kernel_memory_concurrent_use/spinlock.c:76-79 | In every run a claim that was given up although something below the cap still stands was overtaken at the step that gave it up |
| SieveAbandonment.SurvivorsWereOvertaken | project2_kernel_memory_concurrent_use/spinlock.c:76-93 | A given-up claim that crosses a number still standing was overtaken, for Sundaram too |
| SieveAbandonment.ExactRuns | project2_kernel_memory_concurrent_use/spinlock.c:80-93 | The final array is exact if and only if all claims of primes up to the square root of the bound were carried through |
| SieveAbandonment.SquareNeedsItsPrime | project2_kernel_memory_concurrent_use/spinlock.c:80-93 | No claim but that of the prime itself crosses out the square of a prime |
| SieveTheorems.SmallBoundsAreExact | project2_kernel_memory_concurrent_use/spinlock.c:63-96 | Below the fragile bound every reachable array lists exactly the primes, whatever was given up |
| SieveTheorems.TerminationTheorem | project2_kernel_memory_concurrent_use/spinlock.c:44-105 | No run is longer than a fixed measure of the start, no reachable state short of the end is stuck, every run can be continued to the end, and `cur` stays within num_threads of its cap; for Eratosthenes at most upper_bound - 2 + num_threads |
| SieveTheorems.BarrierTheorem | project2_kernel_memory_concurrent_use/spinlock.c:44-105 | In every run: no cross-out before all threads arrived; start_compute is no later than the first cross-out and end_compute no earlier than the last; nobody passes the second barrier before all left `compute`; done == num_threads exactly when all threads finished, and then no continuation changes anything |
| SieveTheorems.StampTheorem | project2_kernel_memory_concurrent_use/spinlock.c:44-54 | In every run start_compute is the time of the last arrival at the first barrier and end_compute that of the last arrival at the second; every cross-out of the run lies between them and after all threads have arrived |
| SieveTheorems.RaceTheorem | project2_kernel_memory_concurrent_use/atomic.c:89-94 | With two threads and a bound from 4 (9) on, some run reaches a cross-out while another thread holds the lock if and only if the sieve is a lock-free one |
| SieveClock.LockProtects | project2_kernel_memory_concurrent_use/spinlock.c:69-88 | In every reachable state in which a thread holds the lock, exactly these other threads can step: those leaving the first barrier, testing the bound, leaving a cross-out loop, or crossing out without the lock; none of them touches the cursor, the barriers, the stamps or, in the locked sieves, the array |
| SieveClock.StampIsLast | project2_kernel_memory_concurrent_use/spinlock.c:48-53 | The stamp of a barrier is the latest time at which a thread entered it |
| SieveClock.SpanCovers | project2_kernel_memory_concurrent_use/spinlock.c:84-93 | The recorded span of cross-outs covers every cross-out of the run |
| SieveTheorems.AccountingTheorem | project2_kernel_memory_concurrent_use/spinlock.c:84-93 | At the end of any run the counters sum to the cross-outs of the claims carried through, for Eratosthenes to the sum of floor(N / v) - 1 over those claims v, and to at least the number of zero cells |
| SieveSolo.SoloTheorem | project2_kernel_memory_concurrent_use/atomic.c:73-84 | With one thread, in all four sieves, exactly the claims of the primes that a later claimable prime follows are carried through: the skip loop takes the cursor from prime to prime |
| SieveSolo.FollowedAreKept | project2_kernel_memory_concurrent_use/atomic.c:73-84 | In every complete run with one thread or a check on the value the claim left, those claims are carried through |
| SieveSolo.CrossoutTheorem | project2_kernel_memory_concurrent_use/spinlock.c:84-93 | The Eratosthenes counters sum to floor(N / v) - 1 over the primes up to N but the last for one thread, and to no less in any run whose check uses the value the claim left |
| SieveSolo.DefaultCrossouts | project2_kernel_memory_concurrent_use/spinlock.c:169-178 | At the default parameters, one thread and bound 10, the figures printed are 7 cross-outs and 2 unnecessary ones |
| SieveTheorems.IndexFits | project2_kernel_memory_concurrent_use/sundrama_lock.c:85-89 | In every reachable state the index j + i + 2ij of a running cross-out loop is below 2^31 whenever N * N / 8 + N / 2 is |
| SieveTheorems.Reachable | project2_kernel_memory_concurrent_use/spinlock.c:44-105 | All step invariants (locking, claims, reasons for zeros, sweeping, barriers, cursor bound, accounts, time stamps) hold after every legal schedule |
| SieveExactness.PrimesSurvive | project2_kernel_memory_concurrent_use/atomic.c:89-99 | In every reachable state, lock-free cross-outs included, the cell of a prime still holds its number |
| SieveExactness.ZeroesStay | project2_kernel_memory_concurrent_use/atomic.c:93 | A zero cell is zero after every continuation |
| SieveExactness.FinalCells | project2_kernel_memory_concurrent_use/atomic.c:68-102 | After a complete run the cursor is at its cap, every claimable position was carried through, given up or crossed out, and a cell is zero exactly when a claim carried through crosses it |
| SieveExactness.PrimesAreClaimed | project2_kernel_memory_concurrent_use/atomic.c:75-80 | The skip loop never passes over a prime: every prime position below the cap was claimed |
| SieveExactness.CompositesVanish | project2_kernel_memory_concurrent_use/sundrama_lock.c:64-100 | When the check uses the value the claim left, every composite up to the bound ends up zero; for Sundaram this needs a prime between the abandoned last claim and half the bound |
| SieveExactness.FaithfulRunsAreExact | project2_kernel_memory_concurrent_use/atomic.c:68-102 | When the check uses the value the claim left, every complete run lists exactly the primes |
| SieveExactness.CellsMakeExact | project2_kernel_memory_concurrent_use/sundrama_lock.c:136-148 | If exactly the cells standing for composites are zero, the array after the index-to-prime rewriting is nonzero at k exactly for the primes k, 2 included |
| PrimeGap.PrimeBelowHalf | project2_kernel_memory_concurrent_use/sundrama_lock.c:79-81 | For an odd q with q * q <= N there is a prime above q and at most N / 2 + 1: the last Sundaram claim, which the check throws away, never matters. Proved, for all q, from central binomial coefficients |
| PrimeGap.GapIsNotEmpty | project2_kernel_memory_concurrent_use/sundrama_lock.c:79-81 | For every i >= 3 a prime lies above 2i + 1 and at most 2i(i + 1) |
| SieveMachine.CrossesMeans | project2_kernel_memory_concurrent_use/sundrama_lock.c:84-95 | A claim crosses out exactly the proper multiples of its number below the bound, respectively exactly the indices of products of its odd number with an odd number at least as large whose index is at most N / 4 |
| SieveMachine.PrimesAreNotCrossed | project2_kernel_memory_concurrent_use/spinlock.c:80-93 | No claim of any of the sieves crosses out a cell that stands for a prime |
| SieveMachine.CompositesAreCrossed | project2_kernel_memory_concurrent_use/sundrama_lock.c:82-95 | Every composite up to the bound is crossed out by the claim of a prime, which lies below the cap; for Sundaram that prime is at most the square root of the bound |
| SieveMachine.OddProduct | project2_kernel_memory_concurrent_use/sundrama_lock.c:87-89 | Index i + j + 2ij stands for a proper multiple of 2i + 1 |
| SieveMachine.TrackStart | project2_kernel_memory_concurrent_use/spinlock.c:81-84 | The cross-out loop starts at the least of the indices it has to visit |
| SieveMachine.TrackStep | project2_kernel_memory_concurrent_use/spinlock.c:84-93 | The loop stride skips none of the indices it has to visit |
| SieveInvariant.InitInv | project2_kernel_memory_concurrent_use/spinlock.c:224-273 | The initialised module satisfies all step invariants |
| SieveInvariant.StepInv | project2_kernel_memory_concurrent_use/spinlock.c:44-105 | Every step of every thread keeps all of them |
| SieveInvariant.LocksKept | project2_kernel_memory_concurrent_use/spinlock.c:69-76 | A thread is in the skip loop if and only if it holds the lock |
| SieveInvariant.DistinctKept | project2_kernel_memory_concurrent_use/spinlock.c:69-71 | No two open claims are for the same position |
| SieveInvariant.PlacesKept | project2_kernel_memory_concurrent_use/spinlock.c:69-79 | Claims lie behind the cursor, are open, carried through or given up but never two of these, and only claims below the cap are carried through |
| SieveInvariant.ZerosKept | project2_kernel_memory_concurrent_use/atomic.c:89-99 | A cell keeps its number until a claim that was carried through crosses it |
| SieveInvariant.CrossedKept | project2_kernel_memory_concurrent_use/atomic.c:86-99 | What a running cross-out loop is past is zero, and it still has before it whatever is not |
| SieveInvariant.CoveredKept | project2_kernel_memory_concurrent_use/atomic.c:75-80 | The racing skip loop leaves behind only positions that were claimed or are already crossed out |
| SieveInvariant.SweepsKept | project2_kernel_memory_concurrent_use/atomic.c:78-84 | Between an open claim and the cursor it leaves, and from a faithfully abandoned claim up to the cap, everything is crossed out |
| SieveInvariant.BarriersKept | project2_kernel_memory_concurrent_use/spinlock.c:44-61 | arrive_barrier counts arrivals and done the finished threads; nobody is past a barrier before everybody reached it |
| SieveProgress.NoDeadlock | project2_kernel_memory_concurrent_use/spinlock.c:44-105 | Every reachable state in which some thread has not finished has a thread that can step |
| SieveProgress.MeasureDrops | project2_kernel_memory_concurrent_use/spinlock.c:44-105 | Every step lowers a measure made of the cursor steps left and what each thread still has to do |
| SieveProgress.CursorBoundKept | project2_kernel_memory_concurrent_use/spinlock.c:69-79 | Each cursor step at or beyond the cap uses up a thread that will not claim again |
| SieveProgress.CursorStaysNear | project2_kernel_memory_concurrent_use/spinlock.c:71-77 | The cursor exceeds its cap by at most num_threads |
| SieveProgress.RunsAreFinite | project2_kernel_memory_concurrent_use/spinlock.c:44-105 | No legal schedule is longer than the measure of its first state |
| SieveProgress.CanFinish | project2_kernel_memory_concurrent_use/spinlock.c:44-105 | From every reachable state some schedule finishes all threads |
| SieveAccounting.BarrierSafety | project2_kernel_memory_concurrent_use/spinlock.c:55-59 | A thread past a barrier means all threads reached it; done == num_threads if and only if all threads finished |
| SieveAccounting.DoneIsFinal | project2_kernel_memory_concurrent_use/spinlock.c:291 | Once done == num_threads every further legal schedule is empty in effect: the state is final |
| SieveAccounting.TimingKept | project2_kernel_memory_concurrent_use/spinlock.c:48-53 | With a clock that never runs backwards, the stamps of the barriers keep enclosing all cross-outs |
| SieveAccounting.BalancedKept | project2_kernel_memory_concurrent_use/spinlock.c:84-93 | Counted cross-outs plus those the running loops will still make equal those of the claims carried through |
| SieveAccounting.ZeroesPaidForKept | project2_kernel_memory_concurrent_use/spinlock.c:87-92 | There are never more zero cells than counted cross-outs and initial zeros |
| SieveAccounting.ClaimHits | project2_kernel_memory_concurrent_use/spinlock.c:81-93 | A claim of v <= N crosses out floor(N / v) - 1 cells |
| SieveAccounting.KeptMultiples | project2_kernel_memory_concurrent_use/spinlock.c:153-155 | The cross-outs of a set of claims are the sum of floor(N / v) - 1 over them |
| SieveModule.SimpleInit | project2_kernel_memory_concurrent_use/spinlock.c:224-273 | Refuses exactly the parameters num_threads < 1 or upper_bound < 2 and then leaves done at num_threads, so that the guard at unloading passes; otherwise the module starts in the initial state with done at 0 |
| SieveModule.Sieve.constructor | project2_kernel_memory_concurrent_use/spinlock.c:262-273 | Fills the number and counter arrays to the initial state of the machine |
| SieveModule.Sieve.EnterBarrier | project2_kernel_memory_concurrent_use/spinlock.c:44-54 | The locked part of mybarrier is the machine step: one more arrival, the time stamp of that barrier |
| SieveModule.Sieve.PassBarrier | project2_kernel_memory_concurrent_use/spinlock.c:55-59 | Leaving the busy wait is the machine step, possible only once enough threads arrived |
| SieveModule.Sieve.Claim | project2_kernel_memory_concurrent_use/spinlock.c:69-71 | Taking the lock and advancing `cur` is the machine step; the claimed position is the old cursor |
| SieveModule.Sieve.Skip | project2_kernel_memory_concurrent_use/atomic.c:78-81 | One turn of the skip loop, or the unlock, is the machine step |
| SieveModule.Sieve.CheckBound | project2_kernel_memory_concurrent_use/spinlock.c:77-79 | The bound check is the machine step that carries a claim through or gives it up |
| SieveModule.Sieve.CrossOut | project2_kernel_memory_concurrent_use/sundrama_lock.c:84-95 | One turn of the cross-out loop is the machine step: at most one cell zeroed and counted |
| SieveModule.Sieve.Finish | project2_kernel_memory_concurrent_use/spinlock.c:102 | Adding to done is the machine step |
| SieveModule.Sieve.Run | project2_kernel_memory_concurrent_use/spinlock.c:98-105 | The module under any schedule ends in the state the machine computes |
| SieveModule.Sieve.Rewrite | project2_kernel_memory_concurrent_use/sundrama_atomic.c:133-146 | The two in-place loops and the final store turn Sundaram indices into the odd numbers they stand for |
| SieveModule.Sieve.ShowInfo | project2_kernel_memory_concurrent_use/spinlock.c:146-178 | Prints the nonzero cells in order, their number, the sum of the counters, and the two derived figures |
| SieveModule.Sieve.SimpleExit | project2_kernel_memory_concurrent_use/spinlock.c:291-320 | Reports if and only if done == num_threads, and otherwise leaves the array alone |
| SieveReport.ExactListing | project2_kernel_memory_concurrent_use/spinlock.c:157-167 | An exact array prints as the increasing sequence of all primes up to the bound |
| SieveReport.ZeroOrListed | project2_kernel_memory_concurrent_use/spinlock.c:146-155 | Zero cells and printed numbers together are all cells |
| SundaramRuns.FigureTheorem | project2_kernel_memory_concurrent_use/sundrama_lock.c:206-217 | The printed number of unnecessary Sundaram cross-outs can be negative. For the code as written, any number of threads and any bound, it is non-negative in every run if and only if a condition on the bound and the number of threads holds: whichever set of fewer claims than threads is lost, the claims that stand without them cross out enough. Where the check uses the value the claim left, only the empty set counts |
| SundaramRuns.FaithfulFigure | project2_kernel_memory_concurrent_use/sundrama_lock.c:206-217 | For one thread, or where the check uses the value the claim left, the condition reads: the cross-outs of the primes that a later claimable prime follows, plus the number of primes, reach the bound |
| SundaramRuns.WorstIsLost | project2_kernel_memory_concurrent_use/sundrama_lock.c:76-95 | No complete run prints less than the figure of what stands when the claims overtaken in it are lost, and these are fewer than the threads |
| SundaramRuns.LosingRun | project2_kernel_memory_concurrent_use/sundrama_lock.c:64-100 | For every set of fewer claims than threads a complete run that loses it and carries through exactly what then stands |
| SundaramRuns.RunCarries | project2_kernel_memory_concurrent_use/sundrama_lock.c:76-81 | Every complete run carries through every claim that stands without the overtaken ones and is followed by another such index |
| SieveAbandonment.FewAreOvertaken | project2_kernel_memory_concurrent_use/spinlock.c:76-79 | In a complete run fewer claims are overtaken than there are threads, and none where the check uses the value the claim left |
| SundaramFigure.FigureOfRun | project2_kernel_memory_concurrent_use/sundrama_lock.c:185-217 | For the code as written, in every complete run: what is printed is the closed-form figure of the claims carried through, their cross-outs less the numbers up to the bound that are not listed |
| SundaramFigure.FigureGrows | project2_kernel_memory_concurrent_use/sundrama_lock.c:85-95 | The more claims are carried through, the larger the figure: a claim unlists no more numbers than it makes cross-outs |
| SundaramFigure.StandsIsPrime | project2_kernel_memory_concurrent_use/sundrama_lock.c:79-95 | When no claim is lost, the claimable indices that stand are exactly those of primes |
| SundaramRuns.TinyBoundFigure | project2_kernel_memory_concurrent_use/sundrama_lock.c:206-217 | Below bound 4 every complete run of every Sundaram sieve prints -1 |
| SundaramRuns.DefaultBoundFigure | project2_kernel_memory_concurrent_use/sundrama_lock.c:22 | At the default bound of 10, for every thread count and the code as written, a complete run that prints -4 |
| SundaramFigure.HitsFrom | project2_kernel_memory_concurrent_use/sundrama_lock.c:85-95 | A Sundaram claim i crosses out exactly the indices of j from i to min(N / 4, (N - i) / (2i + 1)) |
| SieveModule.Lifetime | project2_kernel_memory_concurrent_use/spinlock.c:194-322 | Load, run under any schedule, unload: a report appears exactly when all threads finished; under the condition of ExactnessTheorem it lists the primes; for Eratosthenes primes and non-primes add up to N - 1, the non-primes are the zero cells, and the unnecessary cross-outs are not negative; for Sundaram primes and non-primes add up to N, and the unnecessary cross-outs are the closed-form figure, not negative under the condition of FigureTheorem |
| SleepLock.SafetyTheorem | studio11_build_own_locks/sleeplock.c:26-45 | In every run of n threads at most one is between acquiring and publishing its release, the lock word is in [-n, 1], and if someone sleeps the word is negative or an unlocker still owes a wake-up |
| SleepLock.Dichotomy | studio11_build_own_locks/sleeplock.c:26-45 | After every run of n threads: if -1 was never stored over a free lock, nobody holds the lock exactly when the word is 1; if it was, the lock is lost, with no holder and a word that is not positive |
| SleepLock.LostIfCareless | studio11_build_own_locks/sleeplock.c:29 | From every reachable state, the lock is lost at the end of a run if and only if it was lost at the start or the run stores -1 over a free lock |
| SleepLock.LossComesFromMarking | studio11_build_own_locks/sleeplock.c:29 | The lock gets lost only by storing -1 over a released 1 |
| SleepLock.LossIsForEver | studio11_build_own_locks/sleeplock.c:26-45 | No step recovers a lost lock, and whoever waits for it goes on waiting |
| SleepLock.LostNeverAcquires | studio11_build_own_locks/sleeplock.c:26-45 | From a lost state no continuation lets a waiting thread acquire the lock, so none completes |
| SleepLock.SomeoneIsAwake | studio11_build_own_locks/sleeplock.c:26-45 | While the lock is not lost, the threads still to finish are not all asleep |
| SleepLock.CarefulRunsStayAwake | studio11_build_own_locks/sleeplock.c:29 | In runs that never store -1 over a free lock, it is never lost and someone can always move until all have finished |
| SleepLock.CompletionTheorem | studio11_build_own_locks/sleeplock.c:26-45 | A reachable state can still be run to the end if and only if the lock is not lost and not bound to be; it is bound to be when it is free, some thread is about to store -1, and so is every thread that still wants it |
| SleepLock.ContentionTheorem | studio11_build_own_locks/sleeplock.c:54-65 | Every run of n threads can always be completed if and only if n <= 1 |
| SleepLock.LosingRun | studio11_build_own_locks/sleeplock.c:26-45 | For every n >= 2 a concrete run of five steps that loses the lock |
| Sleepers.SleepTheorem | studio11_build_own_locks/sleeplock.c:28-32 | From every reachable state in which the lock is held, steps of the threads that want it, and of no others, put all of them to sleep |
| Sleepers.FallsAsleep | studio11_build_own_locks/sleeplock.c:30 | A thread falls asleep exactly at its own FUTEX_WAIT with the word still at -1 |
| Sleepers.SleepsUntilWoken | studio11_build_own_locks/sleeplock.c:30-42 | A sleeper sleeps on through every run without a FUTEX_WAKE, and tries again at the first |
| Sleepers.WakesAll | studio11_build_own_locks/sleeplock.c:42 | After a FUTEX_WAKE nobody is asleep |
| SleepLock.StepInv | studio11_build_own_locks/sleeplock.c:26-45 | Every step keeps exclusion, the floor of the lock word, the debt to sleepers and the presence of a victim when the lock is lost |
| SleepLockProgram.Team.SubFetch | studio11_build_own_locks/sleeplock.c:27-28 | The atomic subtraction, in place, is the machine step that acquires the lock or fails |
| SleepLockProgram.Team.StoreTaken | studio11_build_own_locks/sleeplock.c:29 | The unconditional store of -1 is the machine step |
| SleepLockProgram.Team.FutexWait | studio11_build_own_locks/sleeplock.c:30 | FUTEX_WAIT sleeps exactly when the word is -1 |
| SleepLockProgram.Team.AddFetch | studio11_build_own_locks/sleeplock.c:37-39 | The atomic addition is the machine step that ends the critical section |
| SleepLockProgram.Team.StoreFree | studio11_build_own_locks/sleeplock.c:40 | The store of 1 is the machine step that publishes the release |
| SleepLockProgram.Team.FutexWake | studio11_build_own_locks/sleeplock.c:42 | FUTEX_WAKE sends every sleeper, and nobody else, back to its attempt |
| SleepLockProgram.Parallel | studio11_build_own_locks/sleeplock.c:54-65 | A team that gets through leaves the lock free; a doomed one never gets through, whatever happens next; the lock word stays in [-n, 1] |
| LostUpdate.OutcomeTheorem | studio10_synchronization/race.c:28-32 | With n threads of k load/store increments the counter can end at v if and only if min(k, 2) <= v <= n * k (for one thread: v == k); every such value has a run |
| LostUpdate.AtomicIsExact | studio10_synchronization/atomic_race.c:28-32 | With atomic increments every complete run ends at n * k |
| LostUpdate.StepInv | studio10_synchronization/race.c:30-32 | The counter never exceeds the finished increments and a register never forgets the first one |
| LostUpdate.EveryValueBetween | studio10_synchronization/race.c:30-32 | For n >= 2 a run ending at each value between the bounds |
| RaceModule.Counter.Load | studio10_synchronization/race.c:31 | The load half of the increment, in place, is the machine step |
| RaceModule.Counter.Store | studio10_synchronization/race.c:31 | The store half is the machine step: the register plus one replaces whatever the counter has become |
| RaceModule.Counter.AtomicAdd | studio10_synchronization/atomic_race.c:31 | The atomic addition is one machine step |
| RaceModule.Round | studio10_synchronization/race.c:28-32 | A complete round ends between min(k, 2) and n * k; at n * k when atomic or alone |
| Handshake.CopyTheorem | studio13_shared_memory_management/follower.c:39-71 | In every interleaving of guard writes, polls and element copies the follower confirms only with the leader's array in hand, if and only if read_guard was zero at the start or the region already held that array |
| Handshake.ResetDoesNotHelp | studio13_shared_memory_management/leader.c:48-52 | In the runs in which the leader resets before the follower starts, confirmed copies are right in all of them under exactly the same condition |
| Handshake.GuardTheorem | studio13_shared_memory_management/leader.c:48-64 | read_guard and delete_guard keep what the region held until the leader publishes and the follower confirms; write_guard does until one of the two programs starts, and is 0 or 1 from then on |
| Handshake.UnlinkTheorem | studio13_shared_memory_management/leader.c:49-64 | The leader unlinks only after the follower's confirmation, in every run, if and only if delete_guard was zero at the start |
| Handshake.MissedOnlyByEarlyAnnouncement | studio13_shared_memory_management/leader.c:49-52 | The announcement is missed exactly when it comes before the leader's reset, and then for good |
| Handshake.ProgressTheorem | studio13_shared_memory_management/leader.c:49-64 | From a zeroed region every run stops within 2 * size + 8 steps; it can go on to completion if and only if the follower does not set write_guard before the leader has reset it; it gets stuck only if the follower does, and some run gets stuck |
| Handshake.MissedRuns | studio13_shared_memory_management/leader.c:49-52 | The announcement is missed in exactly the runs in which the follower moves before the leader's reset |
| Handshake.StuckRun | studio13_shared_memory_management/leader.c:49-52 | The run of two steps, announcement then reset, after which neither program can move |
| HandshakeProgram.Region.constructor | studio13_shared_memory_management/leader.c:25-46 | The region as found, with whatever guards and data it holds, is the initial state |
| HandshakeProgram.Region.LeaderGuard | studio13_shared_memory_management/leader.c:49-64 | Resetting write_guard and passing a poll are machine steps |
| HandshakeProgram.Region.LeaderFill | studio13_shared_memory_management/leader.c:57-59 | Copying one element out, and setting read_guard after the last, are machine steps |
| HandshakeProgram.Region.FollowerGuard | studio13_shared_memory_management/follower.c:39-42 | Setting write_guard and passing the poll of read_guard are machine steps |
| HandshakeProgram.Region.FollowerCopy | studio13_shared_memory_management/follower.c:63-71 | Copying one element in, and setting delete_guard after the last, are machine steps |
| HandshakeProgram.Exchange | studio13_shared_memory_management/follower.c:39-71 | Both programs on one region: a confirmed copy equals the leader's array if read_guard started at zero; a finished leader implies a finished follower if delete_guard did |
| MatrixMultiply.ParallelTheorem | studio15_linux_signals/test/parallel_dense_mm.c:72-79 | Every interleaving of the column workers, each += being a load and a store, leaves every cell at the left-to-right sum of its products, for arbitrary plus and times |
| MatrixMultiply.ParallelTerminates | studio15_linux_signals/test/parallel_dense_mm.c:72-79 | However the column workers are scheduled, the loop is done after exactly m m (2 m + 1) loads, stores and row turns and not before; no run gets stuck short of that, and every run can be continued to it |
| MatrixMultiply.ProductIsUnique | studio15_linux_signals/test/parallel_dense_mm.c:92-93 | Two arrays that both hold these sums are equal |
| MatrixMultiply.MultiplySerial | studio15_linux_signals/test/parallel_dense_mm.c:84-90 | The serial loop nest computes the same sums in place |
| MatrixMultiply.VerifyParallel | studio15_linux_signals/test/parallel_dense_mm.c:82-94 | The comparison finds every cell equal after any interleaving |
| MatrixMultiply.SquareFits | studio15_linux_signals/test/parallel_dense_mm.c:43-50 | Among the sizes the check accepts, the 32-bit square is exact except for 65536 itself |
| ParallelMultiply.Product.Sum | studio15_linux_signals/test/parallel_dense_mm.c:76 | The three positions lie inside the arrays, and the sum is over the cell and factors at (row, col), (row, index) and (index, col) |
| ParallelMultiply.Product.Load | studio15_linux_signals/test/parallel_dense_mm.c:74-76 | Loading a cell with the next product added, or turning to the next row at the end of a sum, is the worker's machine step, of which every run takes exactly m * m * (2 * m + 1) |
| ParallelMultiply.Product.Store | studio15_linux_signals/test/parallel_dense_mm.c:76 | Storing the sum is the machine step; only that cell changes |
| ParallelMultiply.Product.Run | studio15_linux_signals/test/parallel_dense_mm.c:72-79 | The shared array under any schedule ends as the machine computes |
| ParallelMultiply.Multiply | studio15_linux_signals/test/parallel_dense_mm.c:61-94 | The program from zeroed arrays: the result is the product and every comparison succeeds |
| Quicksort.Sort | studio15_linux_signals/test/sort.c:61-72 | For every outcome of rand at each call and every slice of values that C can convert to unsigned: the slice ends up sorted, everything outside is untouched, whole parts keep their multiplicities, whole numbers are permuted, and pivot - 1 never underflows |
| Quicksort.SortUnluckily | studio15_linux_signals/test/sort.c:27-72 | With a fraction anywhere in a slice of two or more, some outcome of rand makes the result no permutation: being whole is exactly what a permutation for every outcome takes |
| Quicksort.RearrangedIffNothingLost | studio15_linux_signals/test/sort.c:27-33 | A sorted slice is a permutation of what it was if and only if the run lost no fraction |
| Quicksort.Partition | studio15_linux_signals/test/sort.c:39-59 | For every outcome of rand the pivot ends up, without fraction, at the returned place, nothing before it is larger and nothing after it smaller (for whole numbers strictly larger); an unlucky pick loses a fraction |
| Quicksort.PartitionWhole | studio15_linux_signals/test/sort.c:35-59 | The comment promises strictly smaller elements before the pivot and larger ones after it. For whole numbers that comes true if and only if the value of the picked pivot occurs once in the slice |
| Quicksort.EqualElementsBreakPromise | studio15_linux_signals/test/sort.c:35-38 | A slice of two equal elements breaks it |
| Quicksort.Swap | studio15_linux_signals/test/sort.c:27-33 | Through the unsigned temporary, an exchange exactly when the first element is a whole number |
| Quicksort.StretchIsPermuted | studio15_linux_signals/test/sort.c:61-72 | Rearranged as used by Sort means: the slice is a permutation of what it was |
| Quicksort.LeftDone | studio15_linux_signals/test/sort.c:66-68 | Sorting the part before the pivot, which may drop fractions, leaves the pivot at its place |
| Quicksort.RightDone | studio15_linux_signals/test/sort.c:69-70 | Sorting the part after it completes a sorted slice |
| PageOrder.MyGetOrder | studio12_kernel_memory_management/kernel_memory.c:33-50 | For every positive value the smallest order whose power of two reaches it; 0 for 0 |
| PageOrder.BitTrick | studio12_kernel_memory_management/kernel_memory.c:41 | value & (value - 1) is zero exactly for the powers of two |
| PageOrder.OrderIsUnique | studio12_kernel_memory_management/kernel_memory.c:33-50 | There is only one smallest order |
| PageOrder.BitsBound | studio12_kernel_memory_management/kernel_memory.c:44-47 | The number of shifts brackets the value between two powers of two |
| PageOrder.PlanAllocation | studio12_kernel_memory_management/kernel_memory.c:64-66 | 2^order pages hold all structs and, unless the order is 0, half as many do not; the page count is the least that does |
| PageOrder.LabelTheorem | studio12_kernel_memory_management/kernel_memory.c:77-88 | The 32-bit labels tell all words apart if and only if there are at most 2^32 words |
| PageOrder.LabelAsWritten | studio12_kernel_memory_management/kernel_memory.c:82 | The label as the loop computes it in unsigned arithmetic is the running number of the word, modulo 2^32 |
| PageOrder.Fill | studio12_kernel_memory_management/kernel_memory.c:77-88 | The loop nest leaves every word of every struct with its own label and the rest of each page as it was |
| PageOrder.CountMismatches | studio12_kernel_memory_management/kernel_memory.c:95-105 | The verifying nest makes one report for each word that does not carry its label, and so none if and only if all do |
| PageOrder.FillAndVerify | studio12_kernel_memory_management/kernel_memory.c:77-105 | After filling, every word carries its label and verifying never finds a mismatch, wrapped labels included |
| Paging.ConservationTheorem | project3_memory_management_and_paging/code/mod/paging.c:43-241 | After any sequence of mmap, fault, open and close callbacks each tracker counts its live VMAs; allocated minus freed is the pages recorded plus exactly the pages lost by failures and overwritten slots; with all VMAs closed the counters agree if and only if nothing was lost |
| Paging.FreedOnce | project3_memory_management_and_paging/code/mod/paging.c:151-169 | A recorded page goes without being lost only when the last VMA of its tracker closes, and a page no longer recorded never is again: no page is freed twice or while a VMA shares its tracker |
| Paging.NoDanglingMapping | project3_memory_management_and_paging/code/mod/paging.c:77-80 | In every reachable state a live VMA maps only pages its tracker still records, or pages that are lost and never freed |
| PagingFrames.FrameTheorem | project3_memory_management_and_paging/code/mod/paging.c:43-241 | In every reachable state no area maps one frame at two addresses, and areas that share a tracker lie at the same addresses |
| PagingFrames.FaultAreas | project3_memory_management_and_paging/code/mod/paging.c:54-89 | After a successful fault the frame at the rounded address is the one the slot of the fault page records, a frame nobody had before, and every other mapping, slot and area is as it was; after a failed one nothing is mapped or recorded |
| PagingFrames.FaultOtherSlots | project3_memory_management_and_paging/code/mod/paging.c:80 | A fault leaves the other slots of the tracker alone |
| PagingFrames.PrePagingTheorem | project3_memory_management_and_paging/code/mod/paging.c:220-241 | A pre-paged area maps at page o the frame that slot o records, for every o |
| PagingFrames.OthersUntouched | project3_memory_management_and_paging/code/mod/paging.c:43-241 | No callback changes an area it is not for; a fault leaves its area where it is |
| Paging.LossIsExact | project3_memory_management_and_paging/code/mod/paging.c:68-89 | One callback loses exactly: the pages counted by a failing mmap, the page of a failed remap, the page whose slot a sharer had already filled |
| Paging.TotalLossIsExact | project3_memory_management_and_paging/code/mod/paging.c:43-241 | Over any sequence of callbacks the lost pages are the sum of those losses |
| Paging.DemandAgreesWithPrePaging | project3_memory_management_and_paging/code/mod/paging.c:220-241 | Touching every page of a new area once, in any order and at any address in the page, allocates as many pages and loses as few as pre-paging; it maps the same addresses if and only if every touch is page-aligned, because the handler rounds the address up |
| Paging.EveryPageIsTouched | project3_memory_management_and_paging/code/mod/paging.c:50 | As many addresses in different pages as the area has pages leave none out |
| Paging.AlignedFrom | project3_memory_management_and_paging/code/mod/paging.c:50-54 | The handler maps the page of the fault address when that is aligned, and the next page otherwise |
| Paging.LeakTheorem | project3_memory_management_and_paging/code/mod/paging.c:43-241 | Every page taken from the kernel is freed, recorded, lost, or was taken by a failing mmap before being counted; with all VMAs closed the pages that leak are exactly those of the failures and overwritten slots, including the uncounted ones |
| Paging.StrayIsExact | project3_memory_management_and_paging/code/mod/paging.c:222-236 | A callback takes a page without counting it exactly when it is an mmap whose remapping fails |
| Paging.OffsetInRange | project3_memory_management_and_paging/code/mod/paging.c:50 | Every fault inside an area has a slot offset below get_pages_count |
| Paging.CountIsCover | project3_memory_management_and_paging/code/mod/paging.c:131-134 | get_pages_count is the number of pages it takes to cover the area, counted one page at a time |
| Paging.SlotMatchesMapping | project3_memory_management_and_paging/code/mod/paging.c:50-54 | The address that is mapped belongs to the slot that is filled if and only if the fault address is page-aligned |
| Paging.StepInv | project3_memory_management_and_paging/code/mod/paging.c:43-241 | Every callback keeps: slots and records are inverse, counters count sharers, sharers agree on extent, pages are accounted for once, mappings are alive |
| Paging.CloseCounters | project3_memory_management_and_paging/code/mod/paging.c:146-151 | After a close the counter is still the number of sharers, and the tracker goes exactly with its last one |
| Paging.SlotsLeftSize | project3_memory_management_and_paging/code/mod/paging.c:154-165 | Giving back the slots of a tracker gives back as many pages as it records |
| Paging.TouchPages | project3_memory_management_and_paging/code/mod/paging.c:43-86 | Successful first faults in distinct pages, in any order and anywhere in them, map exactly the rounded addresses and lose no page |
| PagingModule.Module.DoFault | project3_memory_management_and_paging/code/mod/paging.c:43-90 | The handler in place is the account's step, with the result code for each outcome |
| PagingModule.Module.VmaOpen | project3_memory_management_and_paging/code/mod/paging.c:117-125 | One more sharer of the same tracker |
| PagingModule.Module.VmaClose | project3_memory_management_and_paging/code/mod/paging.c:135-172 | One sharer less; the last one frees every recorded page and the tracker |
| PagingModule.Module.FreePages | project3_memory_management_and_paging/code/mod/paging.c:153-165 | The loop counts one freed page per recorded slot |
| PagingModule.Module.Mmap | project3_memory_management_and_paging/code/mod/paging.c:184-247 | A new tracker counting one, empty on demand and otherwise filled; success exactly if the area exists afterwards |
| PagingModule.Module.PrePage | project3_memory_management_and_paging/code/mod/paging.c:220-241 | The filling loop stops at the first failure, with the error code and the losses of that failure |
| PagingModule.Module.Serve | project3_memory_management_and_paging/code/mod/paging.c:174-181 | The module under any sequence of callbacks ends in the state the account reaches |
| PagingModule.Lifetime | project3_memory_management_and_paging/code/mod/paging.c:43-241 | From loading to unloading with every area closed: the two printed counters differ by exactly the pages lost |

## Left out

- SieveTheorems.IndexFits: bounds the computed index only; the 32-bit width of the counters and of `cur` is not modelled, integers are unbounded elsewhere.
- SieveModule.SimpleInit: states that the guard passes after refused parameters; what the report then reads from arrays that were never allocated is not modelled.
- SieveModule.Sieve.Skip: the bound is tested before the cell, where the code reads one cell past the end first; the value read there cannot change the outcome.
- SieveModule.Sieve.CrossOut: zeroing the cell and counting it are one step, because the counter belongs to the thread alone.
- PageOrder.PlanAllocation: pages beyond the page count within the allocated order are not modelled, the code does not touch them.
- LostUpdate.OutcomeTheorem: one round of increments per thread; the kernel threads repeat rounds until they are stopped.
- Quicksort.Sort: elements are reals above -1 and below 2^32, the values whose conversion to `unsigned` C defines (section 6.3.1.4 of ISO C11); doubles are only moved and compared, so rounding plays no part.
- sort.c `main` passes the array size as an inclusive end (line 107), one past the array; quicksort is modelled for ends inside it.
- Paging.ConservationTheorem: callbacks run one at a time (the decrement and the read of the counter are two steps in the code), new page slots start out empty although kmalloc does not clear them, sharers have equal extents (no splits), and allocation and remapping results are inputs. The tracker struct of a failed mmap is not counted as lost memory, only pages are.
- Paging.DemandAgreesWithPrePaging: one fault per page, with successful remaps; faults that fail are in `Paging.ConservationTheorem` and `Paging.LeakTheorem`.
- HandshakeProgram.Exchange: memcpy is modelled element by element, shm_open, ftruncate and mmap are inputs (the region's initial contents).
- MatrixMultiply.ParallelTheorem: one worker per column, each column's cells in order; OpenMP gives every thread a set of columns, which is a special case of these interleavings.
- Memory is sequentially consistent; `volatile` and acquire/release annotations have no further effect.
- Spin locks are atomic regions, FUTEX_WAIT an atomic compare-and-sleep without spurious wake-ups, FUTEX_WAKE a wake-all.
- Module registration, thread creation, printk, kmalloc failures, and the minimum/maximum/mean arithmetic on time stamps.
- studio11 lock.c (one compare-and-swap flag), the studio 16 and 17 socket, pipe and poll programs, signals, system-call, timer and kobject demonstrations: thin wrappers over library and kernel calls.
