/** The two barriers seen from outside, the time stamps they take, and the cross-out counters. */
module SieveAccounting {
  import opened Primes
  import opened SieveMachine
  import opened SieveInvariant

  // Barriers

  /** No thread computes before all arrived, none is past the second barrier before all left
      `compute`, and done reaches num_threads exactly when every thread has finished. */
  lemma BarrierSafety(c: Config, s: State)
    requires Inv(c, s)
    ensures (exists t :: 0 <= t < c.threads && PastFirstBarrier(s.pc[t])) ==>
              forall u | 0 <= u < c.threads :: !s.pc[u].Arriving?
    ensures (exists t :: 0 <= t < c.threads && (s.pc[t].Finishing? || s.pc[t].Finished?)) ==>
              forall u | 0 <= u < c.threads :: LeftCompute(s.pc[u]) && !s.pc[u].Leaving?
    ensures s.done == c.threads <==> AllFinished(s)
  {
    SumBounds(Arrivals, s.pc, 0, 2);
    SumBounds(IsFinished, s.pc, 0, 1);
    assert forall u | 0 <= u < c.threads :: s.pc[u] in s.pc;
    if AllFinished(s) {
      SumConstant(IsFinished, Finished, s.pc);
    }
  }

  /** Once done equals num_threads no thread can take a step, so the array is final. */
  lemma DoneIsFinal(c: Config, s: State, schedule: seq<Choice>)
    requires Inv(c, s) && s.done == c.threads && Legal(c, s, schedule)
    ensures Exec(c, s, schedule) == s
  {
    BarrierSafety(c, s);
  }

  // Time stamps

  /** start_compute is taken before the first cross-out and never again; once every thread is at the
      second barrier, end_compute is no earlier than the last one. */
  ghost predicate Timing(c: Config, s: State)
    requires Shape(c, s)
  {
    && s.startStamp <= s.clock && s.endStamp <= s.clock
    && (s.crossings.Between? ==>
          && s.startStamp <= s.crossings.first <= s.crossings.last <= s.clock
          && (forall t | 0 <= t < c.threads :: !s.pc[t].Arriving?)
          && ((forall t | 0 <= t < c.threads :: Arrivals(s.pc[t]) == 2) ==> s.crossings.last <= s.endStamp))
  }

  lemma TimingKept(c: Config, s: State, t: nat, now: int)
    requires Shape(c, s) && Barriers(c, s) && Timing(c, s) && Enabled(c, s, t) && now >= s.clock
    ensures Timing(c, Next(c, s, t, now))
  {
    var s' := Next(c, s, t, now);
    if (forall u | 0 <= u < c.threads :: Arrivals(s'.pc[u]) == 2) && !s.pc[t].Leaving? {
      assert forall u | 0 <= u < c.threads :: Arrivals(s.pc[u]) == 2 by {
        assert forall u | 0 <= u < c.threads && u != t :: s'.pc[u] == s.pc[u];
        assert Arrivals(s'.pc[t]) == 2;
      }
    }
  }

  lemma {:induction false} RunTiming(c: Config, s: State, schedule: seq<Choice>)
    requires Inv(c, s) && Timing(c, s) && Legal(c, s, schedule)
    ensures Timing(c, Exec(c, s, schedule))
    decreases schedule
  {
    if schedule != [] {
      var t, now := schedule[0].thread, schedule[0].now;
      TimingKept(c, s, t, now);
      StepInv(c, s, t, now);
      RunTiming(c, Next(c, s, t, now), schedule[1..]);
    }
  }

  // Cross-out counters

  /** Cross-outs left in the loop of claim `pos` from index `at` on. */
  ghost function HitCount(c: Config, pos: nat, at: nat): nat
    requires c.Valid()
    decreases c.bound + 1 - at
  {
    if c.Guard(at) then (if Hits(c, pos, at) then 1 else 0) + HitCount(c, pos, c.After(pos, at)) else 0
  }

  ghost function Remaining(c: Config): Pc -> int
    requires c.Valid()
  {
    (pc: Pc) => if pc.Crossing? then HitCount(c, pc.pos, pc.at) else 0
  }

  function Total(counter: seq<nat>): nat {
    if counter == [] then 0 else counter[0] + Total(counter[1..])
  }

  /** Cross-outs of all kept claims below `hi`. */
  ghost function KeptHits(c: Config, kept: set<nat>, hi: nat): nat
    requires c.Valid()
  {
    if hi == 0 then 0
    else KeptHits(c, kept, hi - 1) + if hi - 1 in kept then HitCount(c, hi - 1, c.First(hi - 1)) else 0
  }

  /** What has been counted and what the running loops will still count is what the kept claims cross. */
  ghost predicate Balanced(c: Config, s: State)
    requires Shape(c, s)
  {
    Total(s.counter) + Sum(Remaining(c), s.pc) == KeptHits(c, s.kept, s.cur)
  }

  lemma {:induction false} TotalUpdate(counter: seq<nat>, t: nat, v: nat)
    requires t < |counter|
    ensures Total(counter[t := v]) == Total(counter) - counter[t] + v
  {
    if t == 0 {
      assert counter[0 := v][1..] == counter[1..];
    } else {
      TotalUpdate(counter[1..], t - 1, v);
      assert counter[t := v][1..] == counter[1..][t - 1 := v];
    }
  }

  lemma {:induction false} KeptHitsAdd(c: Config, kept: set<nat>, pos: nat, hi: nat)
    requires c.Valid() && pos !in kept
    ensures KeptHits(c, kept + {pos}, hi) ==
            KeptHits(c, kept, hi) + if pos < hi then HitCount(c, pos, c.First(pos)) else 0
  {
    if hi > 0 {
      KeptHitsAdd(c, kept, pos, hi - 1);
    }
  }

  lemma BalancedKept(c: Config, s: State, t: nat, now: int)
    requires Inv(c, s) && Balanced(c, s) && Enabled(c, s, t)
    ensures Balanced(c, Next(c, s, t, now))
  {
    var s' := Next(c, s, t, now);
    SumUpdate(Remaining(c), s.pc, t, s'.pc[t]);
    assert s'.pc == s.pc[t := s'.pc[t]];
    TotalUpdate(s.counter, t, s'.counter[t]);
    assert s'.counter == s.counter[t := s'.counter[t]];
    KeptHitsStep(c, s, t, now);
    assert s'.counter[t] + Remaining(c)(s'.pc[t]) - s.counter[t] - Remaining(c)(s.pc[t])
        == KeptHits(c, s'.kept, s'.cur) - KeptHits(c, s.kept, s.cur);
  }

  /** One step changes what is counted and what is left by the same amount as what is kept. */
  lemma KeptHitsStep(c: Config, s: State, t: nat, now: int)
    requires Inv(c, s) && Enabled(c, s, t)
    ensures var s' := Next(c, s, t, now);
            s'.counter[t] + Remaining(c)(s'.pc[t]) - s.counter[t] - Remaining(c)(s.pc[t])
            == KeptHits(c, s'.kept, s'.cur) - KeptHits(c, s.kept, s.cur)
  {
    assert PlaceOk(c, s, s.pc[t]);
    if s.pc[t].Checking? {
      CheckingCounts(c, s, t, now);
    } else if s.pc[t].Crossing? {
      CrossingCounts(c, s, t, now);
    } else {
      QuietStep(c, s, t, now);
      assert s.cur !in s.kept;
    }
  }

  lemma CheckingCounts(c: Config, s: State, t: nat, now: int)
    requires Shape(c, s) && Enabled(c, s, t) && s.pc[t].Checking? && s.pc[t].pos < s.cur && s.pc[t].pos !in s.kept
    ensures var s' := Next(c, s, t, now);
      && s'.counter[t] == s.counter[t] && s'.cur == s.cur && Remaining(c)(s.pc[t]) == 0
      && Remaining(c)(s'.pc[t]) == KeptHits(c, s'.kept, s'.cur) - KeptHits(c, s.kept, s.cur)
  {
    KeptHitsAdd(c, s.kept, s.pc[t].pos, s.cur);
  }

  lemma QuietStep(c: Config, s: State, t: nat, now: int)
    requires Shape(c, s) && Enabled(c, s, t) && !s.pc[t].Checking? && !s.pc[t].Crossing?
    ensures var s' := Next(c, s, t, now);
      && s'.counter[t] == s.counter[t] && Remaining(c)(s'.pc[t]) == 0 == Remaining(c)(s.pc[t])
      && s'.kept == s.kept && (s'.cur == s.cur || s'.cur == s.cur + 1)
  {
  }

  lemma CrossingCounts(c: Config, s: State, t: nat, now: int)
    requires Shape(c, s) && Enabled(c, s, t) && s.pc[t].Crossing?
    ensures var s' := Next(c, s, t, now);
      && s'.counter[t] + Remaining(c)(s'.pc[t]) == s.counter[t] + Remaining(c)(s.pc[t])
      && s'.kept == s.kept && s'.cur == s.cur
  {
    HitCountStep(c, s.pc[t].pos, s.pc[t].at);
  }

  lemma HitCountStep(c: Config, pos: nat, at: nat)
    requires c.Valid()
    ensures !c.Guard(at) ==> HitCount(c, pos, at) == 0
    ensures c.Guard(at) ==>
              HitCount(c, pos, at) == (if Hits(c, pos, at) then 1 else 0) + HitCount(c, pos, c.After(pos, at))
  {
  }

  function ZeroCells(number: seq<int>): nat {
    if number == [] then 0 else (if number[0] == 0 then 1 else 0) + ZeroCells(number[1..])
  }

  lemma {:induction false} ZeroCellsUpdate(number: seq<int>, i: nat)
    requires i < |number|
    ensures ZeroCells(number[i := 0]) <= ZeroCells(number) + 1
  {
    if i == 0 {
      assert number[0 := 0][1..] == number[1..];
    } else {
      ZeroCellsUpdate(number[1..], i - 1);
      assert number[i := 0][1..] == number[1..][i - 1 := 0];
    }
  }

  /** Each counted cross-out zeroes at most one cell. */
  ghost predicate ZeroesPaidFor(c: Config, s: State)
    requires Shape(c, s)
  {
    ZeroCells(s.number) <= ZeroCells(Init(c).number) + Total(s.counter)
  }

  lemma ZeroesPaidForKept(c: Config, s: State, t: nat, now: int)
    requires Shape(c, s) && ZeroesPaidFor(c, s) && Enabled(c, s, t)
    ensures ZeroesPaidFor(c, Next(c, s, t, now))
  {
    var s' := Next(c, s, t, now);
    if s.pc[t].Crossing? && Hits(c, s.pc[t].pos, s.pc[t].at) {
      ZeroCellsUpdate(s.number, c.Cell(s.pc[t].pos, s.pc[t].at));
      TotalUpdate(s.counter, t, s.counter[t] + 1);
    }
  }

  lemma {:induction false} RunAccounting(c: Config, s: State, schedule: seq<Choice>)
    requires Inv(c, s) && Balanced(c, s) && ZeroesPaidFor(c, s) && Legal(c, s, schedule)
    ensures Balanced(c, Exec(c, s, schedule)) && ZeroesPaidFor(c, Exec(c, s, schedule))
    decreases schedule
  {
    if schedule != [] {
      var t, now := schedule[0].thread, schedule[0].now;
      BalancedKept(c, s, t, now);
      ZeroesPaidForKept(c, s, t, now);
      StepInv(c, s, t, now);
      RunAccounting(c, Next(c, s, t, now), schedule[1..]);
    }
  }

  lemma {:induction false} ZeroTotal(counter: seq<nat>)
    requires forall t | 0 <= t < |counter| :: counter[t] == 0
    ensures Total(counter) == 0
  {
    if counter != [] {
      ZeroTotal(counter[1..]);
    }
  }

  lemma InitAccounting(c: Config)
    requires c.Valid()
    ensures Balanced(c, Init(c)) && ZeroesPaidFor(c, Init(c)) && Timing(c, Init(c))
  {
    var s := Init(c);
    SumConstant(Remaining(c), Arriving, s.pc);
    ZeroTotal(s.counter);
    assert c.Start() <= 1;
  }

  /** At the end of any run the counters sum to the cross-outs of the kept claims. */
  lemma FinalTotal(c: Config, s: State)
    requires Inv(c, s) && Balanced(c, s) && AllFinished(s)
    ensures Total(s.counter) == KeptHits(c, s.kept, s.cur)
  {
    SumConstant(Remaining(c), Finished, s.pc);
  }

  /** A kept claim of v crosses out floor(N / v) - 1 multiples. */
  lemma {:induction false} EratosthenesHits(c: Config, pos: nat, j: nat)
    requires c.Valid() && c.kind.Eratosthenes? && j >= 1
    ensures var d := pos + 2;
            HitCount(c, pos, d * j - 2) == if j <= c.bound / d then c.bound / d - j + 1 else 0
    decreases c.bound - j
  {
    var d := pos + 2;
    QuotientAbove(c.bound, d, j);
    MultipleSteps(d, j);
    assert c.After(pos, d * j - 2) == d * (j + 1) - 2;
    if j <= c.bound / d {
      assert j <= d * j by { assert (d - 1) * j >= 0; }
      EratosthenesHits(c, pos, j + 1);
    }
  }

  lemma QuotientAbove(n: nat, d: nat, j: nat)
    requires d >= 1
    ensures d * j <= n <==> j <= n / d
  {
    var q := n / d;
    assert n == d * q + n % d;
    MultipleSteps(d, j - q);
    assert d * (j - q) == d * j - d * q;
  }

  /** The counters of the Eratosthenes sieves: the crossing claims v contribute floor(N / v) - 1 each. */
  lemma ClaimHits(c: Config, pos: nat)
    requires c.Valid() && c.kind.Eratosthenes? && pos + 2 <= c.bound
    ensures HitCount(c, pos, c.First(pos)) == c.bound / (pos + 2) - 1
  {
    EratosthenesHits(c, pos, 2);
    QuotientAbove(c.bound, pos + 2, 1);
  }

  /** The sum of floor(n / v) - 1 over the numbers v that the kept claims below `hi` stand for. */
  function Multiples(n: nat, kept: set<nat>, hi: nat): int {
    if hi == 0 then 0 else Multiples(n, kept, hi - 1) + if hi - 1 in kept then n / (hi + 1) - 1 else 0
  }

  lemma {:induction false} KeptMultiples(c: Config, kept: set<nat>, hi: nat)
    requires c.Valid() && c.kind.Eratosthenes? && forall p | p in kept :: p < c.Cap()
    ensures KeptHits(c, kept, hi) == Multiples(c.bound, kept, hi)
  {
    if hi > 0 {
      KeptMultiples(c, kept, hi - 1);
      if hi - 1 in kept {
        ClaimHits(c, hi - 1);
      }
    }
  }
}
