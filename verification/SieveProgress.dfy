/** The sieve machine never gets stuck and always finishes, and how far the cursor can run. */
module SieveProgress {
  import opened SieveMachine
  import opened SieveInvariant

  /** A thread that will leave `compute` without crossing out again. */
  ghost function Doomed(c: Config, cur: nat): Pc -> int
    requires c.Valid()
  {
    pc =>
      if LeftCompute(pc) || (pc.Skipping? && cur >= c.Cap()) || (pc.Checking? && pc.left >= c.Cap()) then 1 else 0
  }

  /** Every cursor step at or beyond the cap costs one thread. */
  ghost predicate CursorBound(c: Config, s: State)
    requires Shape(c, s)
  {
    s.cur >= c.Cap() ==> s.cur + (if c.Start() < c.Cap() then 1 else 0) <= c.Cap() + Sum(Doomed(c, s.cur), s.pc)
  }

  lemma {:induction false} DoomedGrows(c: Config, a: nat, b: nat, pcs: seq<Pc>)
    requires c.Valid() && a <= b
    ensures Sum(Doomed(c, a), pcs) <= Sum(Doomed(c, b), pcs)
  {
    if pcs != [] {
      DoomedGrows(c, a, b, pcs[1..]);
    }
  }

  lemma CursorBoundKept(c: Config, s: State, t: nat, now: int)
    requires Shape(c, s) && Locks(c, s) && Places(c, s) && CursorBound(c, s) && Enabled(c, s, t)
    ensures CursorBound(c, Next(c, s, t, now))
  {
    var s' := Next(c, s, t, now);
    var f := Doomed(c, s'.cur);
    assert PlaceOk(c, s, s.pc[t]);
    DoomedStep(c, s, t, now);
    SumUpdate(f, s.pc, t, s'.pc[t]);
    DoomedGrows(c, s.cur, s'.cur, s.pc);
    SumAtLeast(f, s'.pc, t);
  }

  /** A step that moves the cursor to or past the cap dooms its thread, and no step saves one. */
  lemma DoomedStep(c: Config, s: State, t: nat, now: int)
    requires Shape(c, s) && Enabled(c, s, t) && Locks(c, s) && PlaceOk(c, s, s.pc[t])
    ensures var s' := Next(c, s, t, now);
      var before, after := Doomed(c, s'.cur)(s.pc[t]), Doomed(c, s'.cur)(s'.pc[t]);
      && s'.pc == s.pc[t := s'.pc[t]] && before <= after
      && (s'.cur == s.cur || s'.cur == s.cur + 1)
      && (s'.cur == s.cur + 1 && s'.cur >= c.Cap() ==> after == 1 && (s.cur >= c.Cap() ==> before == 0))
  {
    AtEndIsCap(c, s.cur);
    if s.pc[t].Checking? {
      AtEndIsCap(c, s.pc[t].left);
    }
  }

  lemma {:induction false} SumAtLeast(f: Pc -> int, pcs: seq<Pc>, t: nat)
    requires t < |pcs| && forall pc :: f(pc) >= 0
    ensures Sum(f, pcs) >= f(pcs[t])
  {
    if t == 0 {
      SumNonNegative(f, pcs[1..]);
    } else {
      SumAtLeast(f, pcs[1..], t - 1);
    }
  }

  lemma {:induction false} SumNonNegative(f: Pc -> int, pcs: seq<Pc>)
    requires forall pc :: f(pc) >= 0
    ensures Sum(f, pcs) >= 0
  {
    if pcs != [] {
      SumNonNegative(f, pcs[1..]);
    }
  }

  /** The cursor never exceeds the cap by more than the number of threads; for Eratosthenes it stays
      at or below upper_bound - 2 + num_threads. */
  lemma CursorStaysNear(c: Config, s: State)
    requires Inv(c, s) && CursorBound(c, s)
    ensures s.cur <= c.Cap() + c.threads
    ensures c.kind.Eratosthenes? ==> s.cur <= c.bound - 2 + c.threads
  {
    SumBounds(Doomed(c, s.cur), s.pc, 0, 1);
  }

  // No deadlock

  /** A reachable state that is not final has a thread that can step. */
  lemma NoDeadlock(c: Config, s: State) returns (t: nat)
    requires Inv(c, s) && !AllFinished(s)
    ensures Enabled(c, s, t)
  {
    if s.lock.Held? {
      t := s.lock.holder;
    } else if u: nat :| u < c.threads && !s.pc[u].Waiting? && !s.pc[u].Parting? && !s.pc[u].Finished? {
      t := u;
    } else if u: nat :| u < c.threads && s.pc[u].Waiting? {
      t := u;
      SumBounds(Arrivals, s.pc, 1, 2);
    } else {
      t :| t < c.threads && !s.pc[t].Finished?;
      SumBounds(Arrivals, s.pc, 2, 2);
    }
  }

  // Termination

  /** An upper bound on what is left of a cross-out loop. */
  function LoopLeft(c: Config, at: nat): nat {
    if at <= c.bound then c.bound + 1 - at else 0
  }

  function Rank(c: Config, pc: Pc): nat {
    match pc
    case Finished => 0
    case Finishing => 1
    case Parting => 2
    case Leaving => 3
    case Claiming => 4
    case Waiting => 5
    case Arriving => 6
    case Crossing(_, at) => 5 + LoopLeft(c, at)
    case Checking(_, _) => 7 + c.bound
    case Skipping(_) => 8 + c.bound
  }

  ghost function RankOf(c: Config): Pc -> int {
    pc => Rank(c, pc)
  }

  /** Drops with every step: cursor steps left, then what each thread still has to do. */
  ghost function Measure(c: Config, s: State): int
    requires Shape(c, s)
  {
    (c.bound + 9) * (c.Cap() + c.threads - s.cur) + Sum(RankOf(c), s.pc)
  }

  lemma MeasureIsBounded(c: Config, s: State)
    requires Inv(c, s) && CursorBound(c, s)
    ensures Measure(c, s) >= 0
  {
    CursorStaysNear(c, s);
    SumNonNegative(RankOf(c), s.pc);
    ProductSign(c.bound + 9, c.Cap() + c.threads - s.cur);
  }

  lemma ProductSign(a: nat, b: nat)
    ensures a * b >= 0
  {
  }

  lemma MeasureDrops(c: Config, s: State, t: nat, now: int)
    requires Inv(c, s) && Enabled(c, s, t)
    ensures Measure(c, Next(c, s, t, now)) < Measure(c, s)
  {
    var s' := Next(c, s, t, now);
    assert PlaceOk(c, s, s.pc[t]);
    RankStep(c, s, t, now);
    SumUpdate(RankOf(c), s.pc, t, s'.pc[t]);
    MulStep(c.bound + 9, c.Cap() + c.threads - s.cur);
  }

  /** A step either leaves its thread less to do, or moves the cursor and adds less than that is worth. */
  lemma RankStep(c: Config, s: State, t: nat, now: int)
    requires Shape(c, s) && Enabled(c, s, t) && PlaceOk(c, s, s.pc[t])
    ensures var s' := Next(c, s, t, now);
      && s'.pc == s.pc[t := s'.pc[t]]
      && (if s'.cur == s.cur then Rank(c, s'.pc[t]) < Rank(c, s.pc[t])
          else s'.cur == s.cur + 1 && Rank(c, s'.pc[t]) < Rank(c, s.pc[t]) + c.bound + 9)
  {
    if s.pc[t].Crossing? {
      TrackStep(c, s.pc[t].pos, s.pc[t].at);
    }
  }

  /** Every run that keeps going finishes: no legal schedule is longer than the measure. */
  lemma {:induction false} RunsAreFinite(c: Config, s: State, schedule: seq<Choice>)
    requires Inv(c, s) && CursorBound(c, s) && Legal(c, s, schedule)
    ensures |schedule| <= Measure(c, s)
    ensures CursorBound(c, Exec(c, s, schedule))
    decreases schedule
  {
    MeasureIsBounded(c, s);
    if schedule != [] {
      var t, now := schedule[0].thread, schedule[0].now;
      StepInv(c, s, t, now);
      CursorBoundKept(c, s, t, now);
      MeasureDrops(c, s, t, now);
      RunsAreFinite(c, Next(c, s, t, now), schedule[1..]);
    }
  }

  /** Every run can be continued until all threads have finished. */
  lemma {:induction false} CanFinish(c: Config, s: State) returns (schedule: seq<Choice>)
    requires Inv(c, s) && CursorBound(c, s)
    ensures Legal(c, s, schedule) && AllFinished(Exec(c, s, schedule))
    decreases Measure(c, s)
  {
    if AllFinished(s) {
      schedule := [];
    } else {
      var t := NoDeadlock(c, s);
      StepInv(c, s, t, s.clock);
      CursorBoundKept(c, s, t, s.clock);
      MeasureDrops(c, s, t, s.clock);
      MeasureIsBounded(c, s);
      var rest := CanFinish(c, Next(c, s, t, s.clock));
      schedule := [Choice(t, s.clock)] + rest;
    }
  }
}
