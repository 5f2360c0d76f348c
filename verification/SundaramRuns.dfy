/** When the number of unnecessary cross-outs the Sundaram sieves print is non-negative in every run. The
    claims that are overtaken in a run decide which claims it must carry through; every set of claims
    smaller than the number of threads can be the overtaken ones; and the figure grows with the claims
    carried through. So the worst run is found by going through these sets. */
module SundaramRuns {
  import opened Primes
  import opened PrimeGap
  import opened Sets
  import opened SieveMachine
  import opened SieveInvariant
  import opened SieveExactness
  import opened SieveAbandonment
  import opened SieveProgress
  import opened SieveAccounting
  import opened SieveReport
  import opened SieveTheorems
  import opened SundaramFigure

  // Every run carries through what stands

  /** Only claims in `lost` were given up while something they might have to cross out still stands. */
  ghost predicate MissesOnly(c: Config, s: State, lost: set<nat>)
    requires Shape(c, s)
  {
    forall p :: Missing(c, s, p) ==> p in lost
  }

  lemma StandingSurvives(c: Config, s: State, lost: set<nat>, i: nat)
    requires Inv(c, s) && c.kind.Sundaram? && s.kept !! lost && i < c.Cap() && Stands(c.bound, lost, i)
    ensures s.number[i] != 0
  {
    if s.number[i] == 0 {
      var p :| p in s.kept && Crosses(c, p, i);
      StrikesAre(c, p, i);
      StrikesAbove(c.bound, p, i);
      var k: nat :| 1 <= k < p && k !in lost && Strikes(c.bound, k, p) && Stands(c.bound, lost, k);
      StrikesTransitive(c.bound, k, p, i);
      StrikesAbove(c.bound, k, i);
    }
  }

  lemma CarriedIsKept(c: Config, s: State, lost: set<nat>)
    requires Inv(c, s) && AllFinished(s) && c.kind.Sundaram? && s.kept !! lost && MissesOnly(c, s, lost)
    ensures Carried(c.bound, lost) <= s.kept
  {
    EndOfRun(c, s);
    forall i | i in Carried(c.bound, lost)
      ensures i in s.kept
    {
      var j: nat :| i < j <= c.bound / 4 && Stands(c.bound, lost, j);
      StandingSurvives(c, s, lost, i);
      StandingSurvives(c, s, lost, j);
      assert !Swept(c, s, i, c.Cap()) && !Missing(c, s, i);
    }
  }

  lemma EndOfRun(c: Config, s: State)
    requires Inv(c, s) && AllFinished(s)
    ensures s.cur >= c.Cap() && forall p | p in s.kept :: p < c.Cap()
    ensures forall p: nat | c.Start() <= p < c.Cap() :: p in s.kept || p in s.dropped || s.number[p] == 0
  {
    FinalCells(c, s);
  }

  /** With the claims overtaken in it as the lost ones, a complete run carries through what stands. */
  lemma RunCarries(c: Config, schedule: seq<Choice>)
    requires c.Valid() && c.kind.Sundaram? && CompleteRun(c, schedule)
    ensures Carried(c.bound, OvertakenClaims(c, Init(c), schedule)) <= Exec(c, Init(c), schedule).kept
  {
    Reachable(c, schedule);
    var s, lost := Exec(c, Init(c), schedule), OvertakenClaims(c, Init(c), schedule);
    forall p | p in lost
      ensures p !in s.kept
    {
      OvertakenIsDropped(c, Init(c), schedule, p);
    }
    InitInv(c);
    forall p | Missing(c, s, p)
      ensures p in lost
    {
      MissingWasOvertaken(c, Init(c), schedule, p);
    }
    CarriedIsKept(c, s, lost);
  }

  // A run for every set of lost claims

  /** The index at the cursor, if it can still be claimed, stands. */
  predicate Ahead(c: Config, lost: set<nat>, cur: nat)
    requires c.Valid()
  {
    cur < c.Cap() ==> Stands(c.bound, lost, cur)
  }

  /** Thread w works alone. The threads below it wait between unlock and check, each with a claim that is
      to be lost; those above it have not claimed anything yet. */
  ghost predicate Relay(c: Config, s: State, lost: set<nat>, w: nat) {
    && Inv(c, s) && c.kind.Sundaram? && w < c.threads
    && (s.lock == Free || s.lock == Held(w))
    && (forall t | w < t < c.threads :: s.pc[t].Claiming?)
    && (forall t | 0 <= t < w :: s.pc[t].Checking? && s.pc[t].pos in lost)
    && s.dropped == {} && OnlyCarries(c, s, lost)
    && Working(c, lost, s.pc[w], s.cur)
  }

  ghost predicate OnlyCarries(c: Config, s: State, lost: set<nat>) {
    forall i | i in s.kept :: Carries(c.bound, lost, i)
  }

  predicate Working(c: Config, lost: set<nat>, pc: Pc, cur: nat)
    requires c.Valid()
  {
    match pc
    case Claiming => Ahead(c, lost, cur)
    case Skipping(pos) => Ahead(c, lost, pos)
    case Checking(pos, left) => Ahead(c, lost, pos) && left == cur && Ahead(c, lost, cur)
    case Crossing(_, _) => Ahead(c, lost, cur)
    case _ => false
  }

  /** The claims of the waiting threads, one each. */
  ghost predicate Waiters(c: Config, s: State, w: nat, claims: set<nat>)
    requires Shape(c, s) && w <= c.threads
  {
    |claims| == w && forall p | p in claims :: exists t :: 0 <= t < w && s.pc[t].Checking? && s.pc[t].pos == p
  }

  /** The working thread has a claim that is to be lost, and there is something left for others to do. */
  predicate HandsOver(c: Config, s: State, lost: set<nat>, w: nat)
    requires Shape(c, s) && w < c.threads
  {
    s.pc[w].Checking? && s.pc[w].pos in lost && s.cur < c.Cap()
  }

  /** When the skip loop stops short of the end, it stops at an index that stands. */
  lemma StopsAtStanding(c: Config, s: State, lost: set<nat>, w: nat)
    requires Relay(c, s, lost, w) && s.pc[w].Skipping? && s.cur < c.Cap() && s.number[s.cur] != 0
    ensures Stands(c.bound, lost, s.cur)
  {
    forall k | 1 <= k < s.cur && k !in lost && Strikes(c.bound, k, s.cur)
      ensures !Stands(c.bound, lost, k)
    {
      if Stands(c.bound, lost, k) {
        StrikerIsNotDone(c, s, lost, w, k);
        OwnMultipleIsFar(c, s, k);
      }
    }
  }

  /** A standing claim that strikes the cursor's index, where the skip loop stopped, can only be the one
      whose skip loop it is. */
  lemma StrikerIsNotDone(c: Config, s: State, lost: set<nat>, w: nat, k: nat)
    requires Relay(c, s, lost, w) && s.pc[w].Skipping? && s.cur < c.Cap() && s.number[s.cur] != 0
    requires 1 <= k < s.cur && k !in lost && Strikes(c.bound, k, s.cur) && Stands(c.bound, lost, k)
    ensures k == s.pc[w].pos
  {
    StrikesAre(c, k, s.cur);
    KeptAreNotLost(c, s, lost);
    StandingSurvives(c, s, lost, k);
    assert k !in s.kept by {
      if k in s.kept {
        NoneCrossing(c, s, k, s.cur);
      }
    }
    var t :| 0 <= t < c.threads && Pending(s.pc[t], k);
    assert t >= w;
  }

  /** While no thread is in its cross-out loop, every claim carried through has done all its work. */
  lemma NoneCrossing(c: Config, s: State, k: nat, i: nat)
    requires Inv(c, s) && (forall t | 0 <= t < c.threads :: !s.pc[t].Crossing?)
    requires k in s.kept && i < c.Cells() && Crosses(c, k, i)
    ensures s.number[i] == 0
  {
    var at: nat :| OnTrack(c, k, at) && c.Guard(at) && c.Cell(k, at) == i;
    assert Hits(c, k, at);
  }

  lemma KeptAreNotLost(c: Config, s: State, lost: set<nat>)
    requires OnlyCarries(c, s, lost)
    ensures s.kept !! lost
  {
  }

  /** A claim's own multiples lie beyond the next prime. */
  lemma OwnMultipleIsFar(c: Config, s: State, q: nat)
    requires Inv(c, s) && c.kind.Sundaram? && 1 <= q < s.cur < c.Cap() && Strikes(c.bound, q, s.cur)
    ensures !Swept(c, s, q, s.cur)
  {
    var at: nat :| q <= at <= c.bound / 4 && OddFactors(q, at, s.cur);
    StruckIndex(q, at, s.cur);
    var j := PrimeBeforeMultiple(q, at, s.cur);
    PrimesSurvive(c, s, j);
  }

  lemma PrimeBeforeMultiple(q: nat, at: nat, i: nat) returns (j: nat)
    requires 1 <= q <= at && i == at + q + 2 * (q * at)
    ensures q < j < i && Prime(2 * j + 1)
  {
    assert (2 * q + 1) * (2 * at + 1) == 4 * (q * at) + 2 * q + 2 * at + 1;
    MulMonotone(2 * q + 1, 2 * q + 1, 2 * q + 1, 2 * at + 1);
    MulMonotone(1, q, 1, at);
    var p := PrimeBelowHalf(q, 2 * i + 1);
    OddPrime(p);
    j := p / 2;
  }

  /** The cursor is at the end, and every open claim will be given up. */
  ghost predicate Closed(c: Config, s: State, lost: set<nat>)
    requires Shape(c, s)
  {
    && s.cur >= c.Cap()
    && (forall t | 0 <= t < c.threads :: !s.pc[t].Crossing?)
    && (forall t | 0 <= t < c.threads && s.pc[t].Checking? ::
          s.pc[t].left >= c.Cap() || (c.literal && s.pc[t].pos in lost))
  }

  lemma ClosedStep(c: Config, s: State, lost: set<nat>, t: nat, now: int)
    requires Inv(c, s) && Closed(c, s, lost) && MissesOnly(c, s, lost) && Enabled(c, s, t)
    ensures Closed(c, Next(c, s, t, now), lost) && MissesOnly(c, Next(c, s, t, now), lost)
    ensures Next(c, s, t, now).kept == s.kept
  {
    AtEndIsCap(c, s.cur);
    if s.pc[t].Checking? {
      AtEndIsCap(c, s.pc[t].left);
    }
    forall p | Missing(c, Next(c, s, t, now), p)
      ensures p in lost
    {
      MissingStep(c, s, t, now, p);
    }
  }

  lemma {:induction false} ClosedKeeps(c: Config, s: State, lost: set<nat>, schedule: seq<Choice>)
    requires Inv(c, s) && Closed(c, s, lost) && MissesOnly(c, s, lost) && Legal(c, s, schedule)
    ensures Exec(c, s, schedule).kept == s.kept && MissesOnly(c, Exec(c, s, schedule), lost)
    decreases schedule
  {
    if schedule != [] {
      var t, now := schedule[0].thread, schedule[0].now;
      StepInv(c, s, t, now);
      ClosedStep(c, s, lost, t, now);
      ClosedKeeps(c, Next(c, s, t, now), lost, schedule[1..]);
    }
  }

  /** The working thread goes on, or gives up its claim at the end of the array. */
  lemma RelayStep(c: Config, s: State, lost: set<nat>, w: nat)
    requires Relay(c, s, lost, w) && !HandsOver(c, s, lost, w) && (w == 0 || c.literal)
    ensures Enabled(c, s, w)
    ensures var s' := Next(c, s, w, s.clock);
      if s'.pc[w].Leaving?
      then Closed(c, s', lost) && OnlyCarries(c, s', lost) && MissesOnly(c, s', lost)
      else Relay(c, s', lost, w)
  {
    StepInv(c, s, w, s.clock);
    RelayWorks(c, s, lost, w);
    RelayMisses(c, s, lost, w);
  }

  lemma RelayWorks(c: Config, s: State, lost: set<nat>, w: nat)
    requires Relay(c, s, lost, w) && !HandsOver(c, s, lost, w) && (w == 0 || c.literal)
    ensures Enabled(c, s, w)
    ensures var s' := Next(c, s, w, s.clock);
      && (forall t | 0 <= t < c.threads && t != w :: s'.pc[t] == s.pc[t]) && OnlyCarries(c, s', lost)
      && (if s'.pc[w].Leaving? then Closed(c, s', lost)
          else (s'.lock == Free || s'.lock == Held(w)) && s'.dropped == {} && Working(c, lost, s'.pc[w], s'.cur))
  {
    assert PlaceOk(c, s, s.pc[w]);
    AtEndIsCap(c, s.cur);
    if s.pc[w].Skipping? {
      if s.cur < c.Cap() && s.number[s.cur] != 0 {
        StopsAtStanding(c, s, lost, w);
      }
    } else if s.pc[w].Checking? && s.cur < c.Cap() {
      assert Carries(c.bound, lost, s.pc[w].pos);
    }
  }

  lemma RelayMisses(c: Config, s: State, lost: set<nat>, w: nat)
    requires Relay(c, s, lost, w) && Enabled(c, s, w)
    ensures MissesOnly(c, Next(c, s, w, s.clock), lost)
  {
    forall p
      ensures !Missing(c, Next(c, s, w, s.clock), p)
    {
      MissingStep(c, s, w, s.clock, p);
    }
  }

  lemma WaiterIsNew(c: Config, s: State, w: nat, claims: set<nat>)
    requires Inv(c, s) && w < c.threads && Waiters(c, s, w, claims) && s.pc[w].Checking?
    ensures s.pc[w].pos !in claims
  {
    forall t | 0 <= t < w
      ensures !(s.pc[t].Checking? && s.pc[t].pos == s.pc[w].pos)
    {
      assert Apart(s.pc[t], s.pc[w]);
    }
  }

  /** Handing over leaves one more thread waiting, with a claim of its own. */
  lemma HandOver(c: Config, s: State, lost: set<nat>, w: nat, claims: set<nat>)
    requires Relay(c, s, lost, w) && HandsOver(c, s, lost, w) && |lost| < Losers(c)
    requires claims <= lost && Waiters(c, s, w, claims)
    ensures w + 1 < c.threads && claims + {s.pc[w].pos} <= lost
    ensures Relay(c, s, lost, w + 1) && Waiters(c, s, w + 1, claims + {s.pc[w].pos})
  {
    var more := claims + {s.pc[w].pos};
    WaiterIsNew(c, s, w, claims);
    SubsetIsSmaller(more, lost);
    MoreWaiters(c, s, w, claims);
    NextWorks(c, s, lost, w);
  }

  lemma MoreWaiters(c: Config, s: State, w: nat, claims: set<nat>)
    requires Shape(c, s) && w < c.threads && Waiters(c, s, w, claims)
    requires s.pc[w].Checking? && s.pc[w].pos !in claims
    ensures Waiters(c, s, w + 1, claims + {s.pc[w].pos})
  {
    var pos := s.pc[w].pos;
    forall p | p in claims + {pos}
      ensures exists t :: 0 <= t < w + 1 && s.pc[t].Checking? && s.pc[t].pos == p
    {
      if p == pos {
        assert s.pc[w].Checking? && s.pc[w].pos == p;
      }
    }
  }

  lemma NextWorks(c: Config, s: State, lost: set<nat>, w: nat)
    requires Relay(c, s, lost, w) && HandsOver(c, s, lost, w) && w + 1 < c.threads
    ensures Relay(c, s, lost, w + 1)
  {
    assert s.lock != Held(w);
  }

  lemma {:induction false} RunRelay(c: Config, s: State, lost: set<nat>, w: nat, claims: set<nat>)
    returns (schedule: seq<Choice>)
    requires Relay(c, s, lost, w) && CursorBound(c, s) && |lost| < Losers(c)
    requires claims <= lost && Waiters(c, s, w, claims)
    ensures Legal(c, s, schedule) && Ended(c, Exec(c, s, schedule), lost)
    decreases Measure(c, s), c.threads - w
  {
    SubsetIsSmaller(claims, lost);
    MeasureIsBounded(c, s);
    if HandsOver(c, s, lost, w) {
      HandOver(c, s, lost, w, claims);
      schedule := RunRelay(c, s, lost, w + 1, claims + {s.pc[w].pos});
    } else {
      RelayAdvance(c, s, lost, w, claims);
      var s1 := Next(c, s, w, s.clock);
      var rest := [];
      if !s1.pc[w].Leaving? {
        rest := RunRelay(c, s1, lost, w, claims);
      }
      schedule := [Choice(w, s.clock)] + rest;
      ExecFirst(c, s, w, rest);
    }
  }

  lemma ExecFirst(c: Config, s: State, w: nat, rest: seq<Choice>)
    requires Shape(c, s) && Enabled(c, s, w) && Legal(c, Next(c, s, w, s.clock), rest)
    ensures Legal(c, s, [Choice(w, s.clock)] + rest)
    ensures Exec(c, s, [Choice(w, s.clock)] + rest) == Exec(c, Next(c, s, w, s.clock), rest)
  {
    assert ([Choice(w, s.clock)] + rest)[1..] == rest;
  }

  lemma RelayAdvance(c: Config, s: State, lost: set<nat>, w: nat, claims: set<nat>)
    requires Relay(c, s, lost, w) && CursorBound(c, s) && !HandsOver(c, s, lost, w) && (w == 0 || c.literal)
    requires Waiters(c, s, w, claims)
    ensures Enabled(c, s, w)
    ensures var s' := Next(c, s, w, s.clock);
      && 0 <= Measure(c, s') < Measure(c, s)
      && (if s'.pc[w].Leaving? then Ended(c, s', lost)
          else Relay(c, s', lost, w) && CursorBound(c, s') && Waiters(c, s', w, claims))
  {
    RelayStep(c, s, lost, w);
    StepInv(c, s, w, s.clock);
    CursorBoundKept(c, s, w, s.clock);
    MeasureDrops(c, s, w, s.clock);
    MeasureIsBounded(c, Next(c, s, w, s.clock));
    WaitersStay(c, s, w, claims);
  }

  /** What is left to do cannot change what is carried through. */
  ghost predicate Ended(c: Config, s: State, lost: set<nat>) {
    && Inv(c, s) && CursorBound(c, s)
    && Closed(c, s, lost) && OnlyCarries(c, s, lost) && MissesOnly(c, s, lost)
  }

  lemma WaitersStay(c: Config, s: State, w: nat, claims: set<nat>)
    requires Shape(c, s) && Enabled(c, s, w) && Waiters(c, s, w, claims)
    ensures Waiters(c, Next(c, s, w, s.clock), w, claims)
  {
    var s' := Next(c, s, w, s.clock);
    forall p | p in claims
      ensures exists t :: 0 <= t < w && s'.pc[t].Checking? && s'.pc[t].pos == p
    {
      var t :| 0 <= t < w && s.pc[t].Checking? && s.pc[t].pos == p;
      assert s'.pc[t] == s.pc[t];
    }
  }

  /** Every set of fewer claims than there are threads is lost in some complete run, which then carries
      through exactly what stands. Where the check uses the value the claim left, only the empty one is. */
  lemma LosingRun(c: Config, lost: set<nat>) returns (schedule: seq<Choice>)
    requires c.Valid() && c.kind.Sundaram? && |lost| < Losers(c)
    ensures CompleteRun(c, schedule)
    ensures var s := Exec(c, Init(c), schedule); s.kept == Carried(c.bound, lost) && MissesOnly(c, s, lost)
  {
    var first := Gather(c, 0);
    assert Gathering(c, 0) == Init(c);
    Reachable(c, first);
    var s1 := Released(c, c.threads);
    assert Stands(c.bound, lost, 1);
    var work := RunRelay(c, s1, lost, 0, {});
    var s2 := Exec(c, s1, work);
    var rest := CanFinish(c, s2);
    ClosedKeeps(c, s2, lost, rest);
    ExecAppend(c, s1, work, rest);
    ExecAppend(c, Init(c), first, work + rest);
    schedule := first + (work + rest);
    KeepsExactly(c, schedule, lost);
  }

  lemma KeepsExactly(c: Config, schedule: seq<Choice>, lost: set<nat>)
    requires c.Valid() && c.kind.Sundaram? && CompleteRun(c, schedule)
    requires var s := Exec(c, Init(c), schedule); OnlyCarries(c, s, lost) && MissesOnly(c, s, lost)
    ensures Exec(c, Init(c), schedule).kept == Carried(c.bound, lost)
  {
    Reachable(c, schedule);
    var s := Exec(c, Init(c), schedule);
    KeptAreNotLost(c, s, lost);
    CarriedIsKept(c, s, lost);
    EndOfRun(c, s);
  }

  // Main results

  ghost predicate NeverNegative(c: Config)
    requires c.Valid()
  {
    forall schedule | CompleteRun(c, schedule) :: Unnecessary(c, Exec(c, Init(c), schedule)) >= 0
  }

  /** The indices a claim can be for. */
  function Claimable(n: nat): set<nat> {
    set i | 0 <= i <= n / 4 && IsClaimable(n, i)
  }

  predicate IsClaimable(n: nat, i: nat) {
    1 <= i <= n / 4
  }

  /** Whichever fewer than `losers` claims are lost, what is carried through then pays for the numbers that
      are not listed. */
  predicate Pays(n: nat, losers: nat) {
    forall lost | lost <= Claimable(n) && |lost| < losers :: Figure(n, Carried(n, lost)) >= 0
  }

  /** The figure is non-negative in every run of a Sundaram sieve if and only if a condition on the bound and
      the number of threads holds, that of one thread where the check uses the value the claim left. */
  lemma FigureTheorem(c: Config)
    requires c.Valid() && c.kind.Sundaram?
    ensures NeverNegative(c) <==> Pays(c.bound, Losers(c))
  {
    if Pays(c.bound, Losers(c)) {
      forall schedule | CompleteRun(c, schedule)
        ensures Unnecessary(c, Exec(c, Init(c), schedule)) >= 0
      {
        WorstIsLost(c, schedule);
      }
    } else {
      var lost :| lost <= Claimable(c.bound) && |lost| < Losers(c) && Figure(c.bound, Carried(c.bound, lost)) < 0;
      var schedule := LosingRun(c, lost);
      FigureOfRun(c, schedule);
    }
  }

  /** No run prints less than what its lost claims cost. */
  lemma WorstIsLost(c: Config, schedule: seq<Choice>)
    requires c.Valid() && c.kind.Sundaram? && CompleteRun(c, schedule)
    ensures var lost := OvertakenClaims(c, Init(c), schedule);
      && lost <= Claimable(c.bound) && |lost| < Losers(c)
      && Unnecessary(c, Exec(c, Init(c), schedule)) >= Figure(c.bound, Carried(c.bound, lost))
  {
    Reachable(c, schedule);
    FigureOfRun(c, schedule);
    RunCarries(c, schedule);
    FewAreOvertaken(c, schedule);
    var s, lost := Exec(c, Init(c), schedule), OvertakenClaims(c, Init(c), schedule);
    EndOfRun(c, s);
    FigureGrows(c.bound, Carried(c.bound, lost), s.kept);
  }

  /** When nothing is lost, the numbers listed are the primes. */
  lemma FigureWithoutLoss(n: nat)
    requires n >= 2
    ensures Figure(n, Carried(n, {})) == OddMultiples(n, Carried(n, {}), n / 4 + 1) + |PrimesUpTo(n)| - n
  {
    var c := Config(Sundaram, 1, n, false, false);
    var schedule := LosingRun(c, {});
    FigureOfRun(c, schedule);
    FigureOfExactRun(c, schedule);
  }

  lemma FigureOfExactRun(c: Config, schedule: seq<Choice>)
    requires c.Valid() && c.kind.Sundaram? && Faithful(c) && CompleteRun(c, schedule)
    ensures var s := Exec(c, Init(c), schedule);
      Figure(c.bound, s.kept) == OddMultiples(c.bound, s.kept, c.Cap()) + |PrimesUpTo(c.bound)| - c.bound
  {
    InitInv(c);
    RunInv(c, Init(c), schedule);
    ExactCount(c, Exec(c, Init(c), schedule));
  }

  lemma ExactCount(c: Config, s: State)
    requires Inv(c, s) && AllFinished(s) && c.kind.Sundaram? && Faithful(c)
    ensures 1 + Unstruck(c.bound, s.kept, (c.bound + 1) / 2) == |PrimesUpTo(c.bound)|
  {
    FinalListing(c, s);
    FaithfulRunsAreExact(c, s);
    ExactListing(c, s.number);
  }

  /** For one thread, or where the check uses the value the claim left: the cross-outs of the primes that a
      later claimable prime follows, and the number of primes, have to reach the bound. */
  lemma FaithfulFigure(c: Config)
    requires c.Valid() && c.kind.Sundaram? && Faithful(c)
    ensures NeverNegative(c) <==> LeastCrossouts(c.bound) + |PrimesUpTo(c.bound)| >= c.bound
  {
    FigureTheorem(c);
    FigureWithoutLoss(c.bound);
    forall lost: set<nat> | |lost| < Losers(c)
      ensures lost == {}
    {
    }
    var nothing: set<nat> := {};
    assert nothing <= Claimable(c.bound) && |nothing| < Losers(c);
  }

  /** The cross-outs no run can do without. */
  function LeastCrossouts(n: nat): nat {
    OddMultiples(n, Carried(n, {}), n / 4 + 1)
  }

  // Where it is negative

  /** Below 4 every run of every Sundaram sieve prints -1. */
  lemma TinyBoundFigure(c: Config, schedule: seq<Choice>)
    requires c.Valid() && c.kind.Sundaram? && c.bound < 4 && CompleteRun(c, schedule)
    ensures Unnecessary(c, Exec(c, Init(c), schedule)) == -1
  {
    Reachable(c, schedule);
    var s := Exec(c, Init(c), schedule);
    FigureOfRun(c, schedule);
    assert s.kept == {};
    NothingKept(c.bound);
  }

  lemma NothingKept(n: nat)
    requires 2 <= n < 4
    ensures Figure(n, {}) == -1
  {
    assert OddMultiples(n, {}, 1) == OddMultiples(n, {}, 0);
    assert Unstruck(n, {}, (n + 1) / 2) == n - 2;
  }

  /** At the default bound of 10 some run prints -4, for every thread count and for the code as written. */
  lemma DefaultBoundFigure(c: Config) returns (schedule: seq<Choice>)
    requires c.Valid() && c.kind.Sundaram? && c.bound == 10
    ensures CompleteRun(c, schedule) && Unnecessary(c, Exec(c, Init(c), schedule)) == -4
  {
    schedule := LosingRun(c, {});
    FigureOfRun(c, schedule);
    CarriedAtTen();
    FigureAtTen();
  }

  lemma CarriedAtTen()
    ensures Carried(10, {}) == {1}
  {
    SmallPrimes();
    forall i
      ensures i in Carried(10, {}) <==> i == 1
    {
      if i in Carried(10, {}) || i == 1 {
        CarriesPrimes(10, i);
        assert i == 1 ==> Prime(2 * 1 + 1) && Prime(2 * 2 + 1);
      }
    }
  }

  /** Index 1 crosses out 4 and 7; 2, 3, 5, 7 are listed. */
  lemma FigureAtTen()
    ensures Figure(10, {1}) == -4
  {
    assert OddMultiples(10, {1}, 1) == OddMultiples(10, {1}, 0) == 0;
    assert OddMultiples(10, {1}, 2) == OddHits(10, 1) == 2 && OddMultiples(10, {1}, 3) == 2;
    forall i | 1 <= i <= 4
      ensures Struck(10, {1}, i) <==> i == 4
    {
      assert i == 4 ==> OddFactors(1, 1, 4) && Strikes(10, 1, 4);
      if Strikes(10, 1, i) {
        var at: nat :| 1 <= at <= 2 && OddFactors(1, at, i);
        StruckIndex(1, at, i);
      }
    }
    assert Unstruck(10, {1}, 2) == 1 && Unstruck(10, {1}, 3) == 2 && Unstruck(10, {1}, 4) == 3;
  }
}
