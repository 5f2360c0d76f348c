/** The main results about complete runs from initialisation, for any thread count, bound and
    interleaving. The code's bound check re-reads the shared cursor after the unlock, so a claim can be
    given up although its multiples are still standing: exactness holds for all runs if and only if the
    check is made on the value the claim left, or there is one thread, or the bound is too small to
    contain the first number that depends on a single claim. */
module SieveTheorems {
  import opened Primes
  import opened SieveMachine
  import opened SieveInvariant
  import opened SieveExactness
  import opened SieveAbandonment
  import opened SieveProgress
  import opened SieveAccounting
  import opened SieveClock

  ghost predicate CompleteRun(c: Config, schedule: seq<Choice>)
    requires c.Valid()
  {
    Legal(c, Init(c), schedule) && AllFinished(Exec(c, Init(c), schedule))
  }

  ghost predicate AlwaysExact(c: Config)
    requires c.Valid()
  {
    forall schedule | CompleteRun(c, schedule) :: Exact(c, Exec(c, Init(c), schedule).number)
  }

  /** The smallest bound at which one claim alone decides a composite: 4 (only 2 crosses it out),
      respectively 9 (only index 1 does). */
  function FirstFragileBound(c: Config): nat {
    if c.kind.Eratosthenes? then 4 else 9
  }

  /** Everything proved about single steps holds in every reachable state. */
  lemma Reachable(c: Config, schedule: seq<Choice>)
    requires c.Valid() && Legal(c, Init(c), schedule)
    ensures var s := Exec(c, Init(c), schedule);
            Inv(c, s) && CursorBound(c, s) && Balanced(c, s) && ZeroesPaidFor(c, s) && Timing(c, s)
  {
    var s := Init(c);
    InitInv(c);
    InitAccounting(c);
    RunInv(c, s, schedule);
    SumNonNegative(Doomed(c, s.cur), s.pc);
    RunsAreFinite(c, s, schedule);
    RunAccounting(c, s, schedule);
    RunTiming(c, s, schedule);
  }

  /** Exactness of the concurrent sieves, with its exact condition. */
  lemma ExactnessTheorem(c: Config)
    requires c.Valid()
    ensures AlwaysExact(c) <==> !c.literal || c.threads == 1 || c.bound < FirstFragileBound(c)
  {
    if Faithful(c) || c.bound < FirstFragileBound(c) {
      forall schedule | CompleteRun(c, schedule)
        ensures Exact(c, Exec(c, Init(c), schedule).number)
      {
        Reachable(c, schedule);
        if Faithful(c) {
          FaithfulRunsAreExact(c, Exec(c, Init(c), schedule));
        } else {
          SmallBoundsAreExact(c, Exec(c, Init(c), schedule));
        }
      }
    } else {
      var schedule := AbandonedClaim(c);
      assert !Exact(c, Exec(c, Init(c), schedule).number);
    }
  }

  lemma SmallPrimes()
    ensures Prime(2) && Prime(3) && Prime(5) && Prime(7)
    ensures !Prime(4) && !Prime(9)
  {
    assert Divides(2, 4) && Divides(3, 9);
  }

  lemma SmallBoundsAreExact(c: Config, s: State)
    requires Inv(c, s) && c.bound < FirstFragileBound(c)
    ensures Exact(c, s.number)
  {
    SmallPrimes();
    forall i: nat | c.Start() <= i < c.Cells() && Represents(c, i) <= c.bound
      ensures s.number[i] == 0 <==> !Prime(Represents(c, i))
    {
      assert Represents(c, i) in {2, 3, 5, 7};
      PrimesSurvive(c, s, i);
    }
    CellsMakeExact(c, s);
  }

  // The run that loses a claim

  /** All threads below k have entered the first barrier, nobody has left it. */
  ghost function Gathering(c: Config, k: nat): State
    requires c.Valid() && k <= c.threads
  {
    Init(c).(arrived := k, pc := seq(c.threads, i => if i < k then Waiting else Arriving))
  }

  /** All threads below k have passed the first barrier, all are in it. */
  ghost function Released(c: Config, k: nat): State
    requires c.Valid() && k <= c.threads
  {
    Init(c).(arrived := c.threads, pc := seq(c.threads, i => if i < k then Claiming else Waiting))
  }

  lemma {:induction false} Gather(c: Config, k: nat) returns (schedule: seq<Choice>)
    requires c.Valid() && k <= c.threads
    ensures Legal(c, Gathering(c, k), schedule)
    ensures Exec(c, Gathering(c, k), schedule) == Released(c, c.threads)
    decreases c.threads - k
  {
    if k == c.threads {
      assert Gathering(c, k) == Released(c, 0);
      schedule := Release(c, 0);
    } else {
      assert Next(c, Gathering(c, k), k, 0) == Gathering(c, k + 1);
      var rest := Gather(c, k + 1);
      schedule := [Choice(k, 0)] + rest;
    }
  }

  lemma {:induction false} Release(c: Config, k: nat) returns (schedule: seq<Choice>)
    requires c.Valid() && k <= c.threads
    ensures Legal(c, Released(c, k), schedule)
    ensures Exec(c, Released(c, k), schedule) == Released(c, c.threads)
    decreases c.threads - k
  {
    if k == c.threads {
      schedule := [];
    } else {
      assert Next(c, Released(c, k), k, 0) == Released(c, k + 1);
      var rest := Release(c, k + 1);
      schedule := [Choice(k, 0)] + rest;
    }
  }

  /** While thread 0 sits between its unlock and its bound check, thread 1 can run alone until it
      leaves `compute`. */
  lemma {:induction false} RunAlone(c: Config, s: State) returns (schedule: seq<Choice>)
    requires Inv(c, s) && CursorBound(c, s) && c.threads >= 2
    requires s.lock == Free || s.lock == Held(1)
    requires s.pc[0].Checking?
    requires s.pc[1].Claiming? || s.pc[1].Skipping? || s.pc[1].Checking? || s.pc[1].Crossing? || s.pc[1].Leaving?
    ensures Legal(c, s, schedule)
    ensures var s' := Exec(c, s, schedule);
            Inv(c, s') && CursorBound(c, s') && s'.pc[0] == s.pc[0] && s'.pc[1].Leaving?
    decreases Measure(c, s)
  {
    if s.pc[1].Leaving? {
      schedule := [];
    } else {
      assert Enabled(c, s, 1);
      StepInv(c, s, 1, s.clock);
      CursorBoundKept(c, s, 1, s.clock);
      MeasureDrops(c, s, 1, s.clock);
      MeasureIsBounded(c, s);
      var rest := RunAlone(c, Next(c, s, 1, s.clock));
      schedule := [Choice(1, s.clock)] + rest;
    }
  }

  lemma {:induction false} DroppedStays(c: Config, s: State, schedule: seq<Choice>)
    requires Shape(c, s) && Legal(c, s, schedule)
    ensures s.dropped <= Exec(c, s, schedule).dropped
    decreases schedule
  {
    if schedule != [] {
      DroppedStays(c, Next(c, s, schedule[0].thread, schedule[0].now), schedule[1..]);
    }
  }

  /** From initialisation, a run in which thread 0 has claimed the first position and is about to test
      the bound, while thread 1 has already pushed the cursor to the end. */
  lemma Stage(c: Config) returns (schedule: seq<Choice>)
    requires c.Valid() && c.threads >= 2 && c.bound >= FirstFragileBound(c)
    ensures Legal(c, Init(c), schedule)
    ensures var s := Exec(c, Init(c), schedule);
            s.pc[0] == Checking(c.Start(), c.Start() + 1) && s.pc[1].Leaving?
  {
    var first := Claimed(c);
    Reachable(c, first);
    var alone := RunAlone(c, Exec(c, Init(c), first));
    ExecAppend(c, Init(c), first, alone);
    schedule := first + alone;
  }

  lemma Claimed(c: Config) returns (schedule: seq<Choice>)
    requires c.Valid() && c.threads >= 2 && c.bound >= FirstFragileBound(c)
    ensures Legal(c, Init(c), schedule)
    ensures var s := Exec(c, Init(c), schedule);
      && s.pc[0] == Checking(c.Start(), c.Start() + 1) && s.pc[1].Claiming? && s.lock == Free
      && s.cur == c.Start() + 1
  {
    var first := Gather(c, 0);
    assert Gathering(c, 0) == Init(c);
    var claim := FirstClaim(c);
    ExecAppend(c, Init(c), first, claim);
    schedule := first + claim;
  }

  /** Thread 0 claims the first position; the next one is not crossed out yet, so the skip loop ends
      at once. */
  lemma FirstClaim(c: Config) returns (claim: seq<Choice>)
    requires c.Valid() && c.threads >= 2 && c.bound >= FirstFragileBound(c)
    ensures var s := Released(c, c.threads);
      && Legal(c, s, claim)
      && Exec(c, s, claim) ==
         s.(cur := c.Start() + 1, pc := s.pc[0 := Checking(c.Start(), c.Start() + 1)])
  {
    var s := Released(c, c.threads);
    var s1 := Next(c, s, 0, 0);
    assert s1.pc[0] == Skipping(c.Start());
    var s2 := Next(c, s1, 0, 0);
    assert s2.pc == s.pc[0 := Checking(c.Start(), c.Start() + 1)];
    var last := [Choice(0, 0)];
    assert last[1..] == [];
    assert Legal(c, s2, []) && Exec(c, s2, []) == s2;
    assert Legal(c, s1, last) && Exec(c, s1, last) == s2;
    claim := [Choice(0, 0)] + last;
    assert claim[1..] == last;
  }

  /** With at least two threads and a large enough bound, some complete literal run drops the first
      claim and lists a composite. */
  lemma AbandonedClaim(c: Config) returns (schedule: seq<Choice>)
    requires c.Valid() && c.literal && c.threads >= 2 && c.bound >= FirstFragileBound(c)
    ensures CompleteRun(c, schedule)
    ensures var s := Exec(c, Init(c), schedule);
      && c.Start() in s.dropped && Overtaken(c, Init(c), schedule, c.Start())
      && Listed(c, s.number, FirstFragileBound(c)) == FirstFragileBound(c)
      && !Prime(FirstFragileBound(c)) && !Exact(c, s.number)
  {
    var stage := Stage(c);
    Reachable(c, stage);
    var s := Exec(c, Init(c), stage);
    AtEndIsCap(c, s.cur);
    assert LeftCompute(s.pc[1]);
    var s1 := Next(c, s, 0, s.clock);
    StepInv(c, s, 0, s.clock);
    CursorBoundKept(c, s, 0, s.clock);
    var rest := CanFinish(c, s1);
    var tail := [Choice(0, s.clock)] + rest;
    assert tail[1..] == rest;
    ExecAppend(c, Init(c), stage, tail);
    schedule := stage + tail;
    DroppedStays(c, s1, rest);
    FirstClaimDropped(c, schedule);
  }

  /** Any run that gives up the first claim leaves 4 (9) standing, and lost it to another thread. */
  lemma FirstClaimDropped(c: Config, schedule: seq<Choice>)
    requires c.Valid() && c.bound >= FirstFragileBound(c) && Legal(c, Init(c), schedule)
    requires c.Start() in Exec(c, Init(c), schedule).dropped
    ensures var s := Exec(c, Init(c), schedule);
      && Overtaken(c, Init(c), schedule, c.Start())
      && Listed(c, s.number, FirstFragileBound(c)) == FirstFragileBound(c)
      && !Prime(FirstFragileBound(c)) && !Exact(c, s.number)
  {
    Reachable(c, schedule);
    FragileCellStands(c, Exec(c, Init(c), schedule));
    var i := if c.kind.Eratosthenes? then 2 else 4;
    CrossesMeans(c, c.Start(), i);
    if c.kind.Sundaram? {
      assert OddFactors(1, 1, 4);
    } else {
      assert Divides(2, 4);
    }
    SurvivorsWereOvertaken(c, schedule, c.Start(), i);
  }

  lemma FragileCellStands(c: Config, s: State)
    requires Inv(c, s) && c.Start() in s.dropped && c.bound >= FirstFragileBound(c)
    ensures Listed(c, s.number, FirstFragileBound(c)) == FirstFragileBound(c)
    ensures !Prime(FirstFragileBound(c)) && !Exact(c, s.number)
  {
    var v := FirstFragileBound(c);
    var i := if c.kind.Eratosthenes? then 2 else 4;
    if s.number[i] == 0 {
      var p :| p in s.kept && Crosses(c, p, i);
      OnlyFirstClaimCrosses(c, p, i);
    }
    SmallPrimes();
    assert Listed(c, s.number, v) != 0;
  }

  lemma OnlyFirstClaimCrosses(c: Config, p: nat, i: nat)
    requires c.Valid() && p >= c.Start() && i == (if c.kind.Eratosthenes? then 2 else 4) && Crosses(c, p, i)
    ensures p == c.Start()
  {
    var at: nat :| OnTrack(c, p, at) && c.Guard(at) && c.Cell(p, at) == i;
    if c.kind.Eratosthenes? {
      assert p == 1 ==> !Divides(3, 4);
    } else {
      assert (p - 1) * at >= 0;
    }
  }

  /** The code as written, cell by cell: after a complete run a composite survives if and only if no
      kept claim crosses it; then there is a prime claim that crosses it, and every such claim was given up
      because another thread moved the cursor to the end between its unlock and its bound check; any other
      claim that crosses it was given up or is itself crossed out. */
  lemma SurvivalTheorem(c: Config, schedule: seq<Choice>, i: nat)
    requires c.Valid() && CompleteRun(c, schedule)
    requires c.Start() <= i < c.Cells() && Represents(c, i) <= c.bound && !Prime(Represents(c, i))
    ensures var s := Exec(c, Init(c), schedule);
      && (s.number[i] != 0 <==> forall p | p in s.kept :: !Crosses(c, p, i))
      && (s.number[i] != 0 ==>
            && (exists p :: c.Start() <= p < c.Cap() && Prime(Represents(c, p)) && Crosses(c, p, i))
            && (forall p: nat | c.Start() <= p < c.Cap() && Prime(Represents(c, p)) && Crosses(c, p, i) ::
                  p in s.dropped && Overtaken(c, Init(c), schedule, p))
            && (forall p: nat | c.Start() <= p < c.Cap() && Crosses(c, p, i) :: p in s.dropped || s.number[p] == 0))
  {
    Reachable(c, schedule);
    var s := Exec(c, Init(c), schedule);
    FinalCells(c, s);
    if s.number[i] != 0 {
      var pos, at := CompositesAreCrossed(c, i);
      assert Crosses(c, pos, i);
      forall p: nat | c.Start() <= p < c.Cap() && Prime(Represents(c, p)) && Crosses(c, p, i)
        ensures p in s.dropped && Overtaken(c, Init(c), schedule, p)
      {
        PrimesAreClaimed(c, s, p);
        SurvivorsWereOvertaken(c, schedule, p, i);
      }
    }
  }

  /** Run by run: a complete run lists exactly the primes if and only if the claim of every prime up to
      the square root of the bound was carried through, and if and only if none of them was overtaken. */
  lemma ExactRunTheorem(c: Config, schedule: seq<Choice>)
    requires c.Valid() && CompleteRun(c, schedule)
    ensures var s := Exec(c, Init(c), schedule);
      && (Exact(c, s.number) <==>
            forall p: nat | c.Start() <= p < c.Cap() && Prime(Represents(c, p)) && Small(c, p) :: p in s.kept)
      && (Exact(c, s.number) <==>
            forall p: nat | c.Start() <= p < c.Cap() && Prime(Represents(c, p)) && Small(c, p) ::
              !Overtaken(c, Init(c), schedule, p))
  {
    Reachable(c, schedule);
    var s := Exec(c, Init(c), schedule);
    ExactRuns(c, s);
    forall p: nat | c.Start() <= p < c.Cap() && Prime(Represents(c, p)) && Small(c, p)
      ensures p in s.kept <==> !Overtaken(c, Init(c), schedule, p)
    {
      if Overtaken(c, Init(c), schedule, p) {
        OvertakenIsDropped(c, Init(c), schedule, p);
      } else {
        SmallPrimeIsKept(c, schedule, p);
      }
    }
  }

  lemma SmallPrimeIsKept(c: Config, schedule: seq<Choice>, p: nat)
    requires c.Valid() && CompleteRun(c, schedule)
    requires c.Start() <= p < c.Cap() && Prime(Represents(c, p)) && Small(c, p)
    requires !Overtaken(c, Init(c), schedule, p)
    ensures p in Exec(c, Init(c), schedule).kept
  {
    Reachable(c, schedule);
    var s := Exec(c, Init(c), schedule);
    PrimesAreClaimed(c, s, p);
    SquareCellIs(c, p);
    OwnSquare(c, p);
    if p in s.dropped {
      if s.number[SquareCell(c, p)] == 0 {
        var p' :| p' in s.kept && Crosses(c, p', SquareCell(c, p));
        SquareNeedsItsPrime(c, p, p');
      } else {
        SurvivorsWereOvertaken(c, schedule, p, SquareCell(c, p));
      }
    }
  }

  // Runs and what showinfo prints

  /** No run goes on for ever, none gets stuck, and the cursor stays near the end of the array. */
  lemma TerminationTheorem(c: Config, schedule: seq<Choice>)
    requires c.Valid() && Legal(c, Init(c), schedule)
    ensures var s := Exec(c, Init(c), schedule);
      && |schedule| <= Measure(c, Init(c))
      && (!AllFinished(s) ==> exists t :: Enabled(c, s, t))
      && (exists rest :: Legal(c, s, rest) && AllFinished(Exec(c, s, rest)))
      && s.cur <= c.Cap() + c.threads
      && (c.kind.Eratosthenes? ==> s.cur <= c.bound - 2 + c.threads)
  {
    Reachable(c, []);
    RunsAreFinite(c, Init(c), schedule);
    Reachable(c, schedule);
    var s := Exec(c, Init(c), schedule);
    CursorStaysNear(c, s);
    var rest := CanFinish(c, s);
    if !AllFinished(s) {
      var t := NoDeadlock(c, s);
    }
  }

  /** The two barriers, in every run: a cross-out happens only when all threads have arrived and no later
      than any of them leaves `compute`, so the time stamps of the barriers enclose all cross-outs; nobody
      passes the second barrier before all are out of `compute`; and once done reaches num_threads, which
      is exactly when all threads have finished, nothing changes any more. */
  lemma BarrierTheorem(c: Config, schedule: seq<Choice>, more: seq<Choice>)
    requires c.Valid() && Legal(c, Init(c), schedule) && Legal(c, Exec(c, Init(c), schedule), more)
    ensures var s := Exec(c, Init(c), schedule);
      && (s.crossings.Between? ==>
            && (forall t | 0 <= t < c.threads :: !s.pc[t].Arriving?)
            && s.startStamp <= s.crossings.first <= s.crossings.last
            && (AllFinished(s) ==> s.crossings.last <= s.endStamp))
      && ((exists t :: 0 <= t < c.threads && (s.pc[t].Finishing? || s.pc[t].Finished?)) ==>
            forall u | 0 <= u < c.threads :: LeftCompute(s.pc[u]) && !s.pc[u].Leaving?)
      && (s.done == c.threads <==> AllFinished(s))
      && (s.done == c.threads ==> Exec(c, s, more) == s)
  {
    Reachable(c, schedule);
    var s := Exec(c, Init(c), schedule);
    BarrierSafety(c, s);
    if s.done == c.threads {
      DoneIsFinal(c, s, more);
    }
  }

  /** The time stamps, in every run: start_compute is the time of the last arrival at the first barrier and
      end_compute that of the last arrival at the second; every cross-out comes after the one, when all
      threads have arrived, and once all have finished before the other. */
  lemma StampTheorem(c: Config, schedule: seq<Choice>, at: int)
    requires c.Valid() && Legal(c, Init(c), schedule)
    ensures var s := Exec(c, Init(c), schedule);
      && (Happens(c, Init(c), schedule, Arrival, at) ==>
            at <= s.startStamp && Happens(c, Init(c), schedule, Arrival, s.startStamp))
      && (Happens(c, Init(c), schedule, Departure, at) ==>
            at <= s.endStamp && Happens(c, Init(c), schedule, Departure, s.endStamp))
      && (Happens(c, Init(c), schedule, CrossOut, at) ==>
            && (forall t | 0 <= t < c.threads :: !s.pc[t].Arriving?)
            && s.startStamp <= at && (AllFinished(s) ==> at <= s.endStamp))
  {
    if Happens(c, Init(c), schedule, Arrival, at) {
      StampIsLast(c, Init(c), schedule, Arrival, at);
    }
    if Happens(c, Init(c), schedule, Departure, at) {
      StampIsLast(c, Init(c), schedule, Departure, at);
    }
    if Happens(c, Init(c), schedule, CrossOut, at) {
      SpanCovers(c, Init(c), schedule, at);
      BarrierTheorem(c, schedule, []);
    }
  }

  /** Some cross-out happens while another thread holds the lock, given two threads and something to cross
      out, if and only if the sieve is a lock-free one. */
  lemma RaceTheorem(c: Config)
    requires c.Valid() && c.threads >= 2 && c.bound >= FirstFragileBound(c)
    ensures (exists schedule :: RunsIntoRace(c, schedule)) <==> c.lockFree
  {
    if c.lockFree {
      var schedule := RacingRun(c);
    } else if schedule :| RunsIntoRace(c, schedule) {
      var s := Exec(c, Init(c), schedule);
      var t: nat :| t < c.threads && Races(c, s, t);
      Reachable(c, schedule);
      LockProtects(c, s, t, 0);
    }
  }

  /** After the run, some thread can cross out while another one holds the lock. */
  ghost predicate RunsIntoRace(c: Config, schedule: seq<Choice>)
    requires c.Valid()
  {
    Legal(c, Init(c), schedule) && exists t: nat :: t < c.threads && Races(c, Exec(c, Init(c), schedule), t)
  }

  /** Thread 0 is about to make its first cross-out when thread 1 takes the lock to claim. */
  lemma RacingRun(c: Config) returns (schedule: seq<Choice>)
    requires c.Valid() && c.threads >= 2 && c.bound >= FirstFragileBound(c) && c.lockFree
    ensures RunsIntoRace(c, schedule)
  {
    var first := Claimed(c);
    var s := Exec(c, Init(c), first);
    var s1 := Next(c, s, 0, s.clock);
    assert s1.pc[0] == Crossing(c.Start(), c.First(c.Start())) && s1.pc[1].Claiming?;
    var s2 := Next(c, s1, 1, s.clock);
    var last := [Choice(1, s.clock)];
    var two := [Choice(0, s.clock)] + last;
    assert last[1..] == [] && two[1..] == last;
    assert Legal(c, s2, []) && Exec(c, s2, []) == s2;
    assert Legal(c, s1, last) && Exec(c, s1, last) == s2;
    ExecAppend(c, Init(c), first, two);
    schedule := first + two;
    assert Races(c, s2, 0);
  }

  /** The counters of a complete run sum to what the kept claims cross out: for Eratosthenes,
      floor(N / v) - 1 for each kept v. They cover every zero cell, so the printed number of
      unnecessary cross-outs is never negative. */
  lemma AccountingTheorem(c: Config, schedule: seq<Choice>)
    requires c.Valid() && CompleteRun(c, schedule)
    ensures var s := Exec(c, Init(c), schedule);
      && Total(s.counter) == KeptHits(c, s.kept, s.cur)
      && (c.kind.Eratosthenes? ==>
            && Total(s.counter) == Multiples(c.bound, s.kept, s.cur)
            && Total(s.counter) >= ZeroCells(s.number))
  {
    Reachable(c, schedule);
    var s := Exec(c, Init(c), schedule);
    FinalTotal(c, s);
    if c.kind.Eratosthenes? {
      KeptMultiples(c, s.kept, s.cur);
      NoZeroCells(Init(c).number);
    }
  }

  lemma {:induction false} NoZeroCells(number: seq<int>)
    requires forall i | 0 <= i < |number| :: number[i] != 0
    ensures ZeroCells(number) == 0
  {
    if number != [] {
      NoZeroCells(number[1..]);
    }
  }

  /** In every reachable state the index a running Sundaram loop computes fits a 32-bit int as long
      as N * N / 8 + N / 2 does. */
  lemma IndexFits(c: Config, schedule: seq<Choice>, t: nat)
    requires c.Valid() && Legal(c, Init(c), schedule) && t < c.threads
    requires c.kind.Sundaram? && c.bound * c.bound / 8 + c.bound / 2 < 0x8000_0000
    ensures var pc := Exec(c, Init(c), schedule).pc[t];
            pc.Crossing? && c.Guard(pc.at) ==> c.Cell(pc.pos, pc.at) < 0x8000_0000
  {
    Reachable(c, schedule);
    var s := Exec(c, Init(c), schedule);
    assert PlaceOk(c, s, s.pc[t]);
    if s.pc[t].Crossing? && c.Guard(s.pc[t].at) {
      QuarterProduct(s.pc[t].pos, s.pc[t].at, c.bound);
    }
  }

  lemma QuarterProduct(i: nat, j: nat, n: nat)
    requires i <= j <= n / 4
    ensures j + i + 2 * (i * j) <= n * n / 8 + n / 2
  {
    var q := n / 4;
    ProductGrows(i, q, j, q);
    ProductGrows(4 * q, n, 4 * q, n);
    FourFour(q);
    Eighth(i * j, q * q, n * n, i, j, n);
  }

  lemma ProductGrows(a: nat, a': nat, b: nat, b': nat)
    requires a <= a' && b <= b'
    ensures a * b <= a' * b'
  {
    assert (a' - a) * b >= 0;
    assert a' * (b' - b) >= 0;
  }

  lemma FourFour(q: nat)
    ensures (4 * q) * (4 * q) == 16 * (q * q)
  {
  }

  lemma Eighth(product: nat, quarter: nat, square: nat, i: nat, j: nat, n: nat)
    requires product <= quarter && 16 * quarter <= square && i <= n / 4 && j <= n / 4
    ensures j + i + 2 * product <= square / 8 + n / 2
  {
  }
}
