/** One thread, of any of the sieves: the skip loop takes the cursor from prime to prime, so that exactly the
    primes that a later claimable prime follows are carried through. With more threads and a check on the
    value the claim left these are carried through too, at least; no such run makes fewer cross-outs. */
module SieveSolo {
  import opened Primes
  import opened PrimeGap
  import opened SieveMachine
  import opened SieveInvariant
  import opened SieveExactness
  import opened SieveAccounting
  import opened SieveReport
  import opened SieveTheorems

  /** Claim p is for a prime, and a later position that can be claimed stands for one too. */
  predicate IsFollowed(c: Config, p: nat)
    requires c.Valid()
  {
    c.Start() <= p < c.Cap() && Prime(Represents(c, p)) && exists q | p < q < c.Cap() :: Prime(Represents(c, q))
  }

  function Followed(c: Config): (claims: set<nat>)
    requires c.Valid()
    ensures forall p: nat :: p in claims <==> IsFollowed(c, p)
  {
    set p | 0 <= p < c.Cap() && IsFollowed(c, p)
  }

  /** In every complete run with a faithful check these claims are carried through. */
  lemma FollowedAreKept(c: Config, s: State)
    requires Inv(c, s) && AllFinished(s) && Faithful(c)
    ensures Followed(c) <= s.kept
  {
    forall p | p in Followed(c)
      ensures p in s.kept
    {
      var q: nat :| p < q < c.Cap() && Prime(Represents(c, q));
      PrimesAreClaimed(c, s, p);
      AtEndIsCap(c, q);
      PrimesSurvive(c, s, q);
      assert !Swept(c, s, p, c.Cap());
    }
  }

  // The one thread

  /** The position, if it can be claimed, stands for a prime. */
  predicate PrimeAt(c: Config, pos: nat)
    requires c.Valid()
  {
    pos < c.Cap() ==> Prime(Represents(c, pos))
  }

  /** Where the thread is, seen from the primes. */
  predicate OnPrimes(c: Config, pc: Pc, cur: nat)
    requires c.Valid()
  {
    match pc
    case Skipping(pos) => PrimeAt(c, pos)
    case Checking(pos, left) => PrimeAt(c, pos) && left == cur && PrimeAt(c, cur)
    case Arriving | Waiting | Claiming | Crossing(_, _) => PrimeAt(c, cur)
    case Leaving | Parting | Finishing | Finished => true
  }

  ghost predicate Solo(c: Config, s: State) {
    && Inv(c, s) && c.threads == 1
    && (forall p | p in s.kept :: IsFollowed(c, p))
    && (!LeftCompute(s.pc[0]) ==> s.dropped == {})
    && OnPrimes(c, s.pc[0], s.cur)
  }

  /** Between a prime and its square there is another. */
  lemma PrimeBeforeSquare(p: nat, n: nat) returns (r: nat)
    requires Prime(p) && p * p <= n
    ensures Prime(r) && p < r < n
  {
    if p == 2 {
      r := 3;
    } else {
      OddPrime(p);
      MulMonotone(3, p, p, p);
      r := PrimeBelowHalf(p / 2, n);
    }
  }

  /** The skip loop stops at a prime, or at the end. */
  lemma StopsAtPrime(c: Config, s: State)
    requires Solo(c, s) && s.pc[0].Skipping? && s.cur < c.Cap() && s.number[s.cur] != 0
    ensures Prime(Represents(c, s.cur))
  {
    if !Prime(Represents(c, s.cur)) {
      AtEndIsCap(c, s.cur);
      var q, at := CompositesAreCrossed(c, s.cur);
      StrikerIsOwn(c, s, q, at);
      NextPrimeIsNear(c, s, q);
    }
  }

  lemma StrikerIsOwn(c: Config, s: State, q: nat, at: nat)
    requires Solo(c, s) && s.pc[0].Skipping? && s.cur < c.Cap() && s.number[s.cur] != 0
    requires c.Start() <= q < s.cur && Prime(Represents(c, q))
    requires OnTrack(c, q, at) && c.Guard(at) && c.Cell(q, at) == s.cur
    ensures s.pc[0].pos == q
  {
    AtEndIsCap(c, q);
    PrimesSurvive(c, s, q);
    assert Hits(c, q, at) && q !in s.kept;
    var t :| 0 <= t < c.threads && Pending(s.pc[t], q);
  }

  /** A composite past its smallest prime factor lies past the next prime as well. */
  lemma NextPrimeIsNear(c: Config, s: State, q: nat)
    requires Inv(c, s) && c.Start() <= q < s.cur < c.Cap() && Prime(Represents(c, q))
    requires Represents(c, q) * Represents(c, q) <= Represents(c, s.cur)
    ensures !Swept(c, s, q, s.cur)
  {
    var r := PrimeBeforeSquare(Represents(c, q), Represents(c, s.cur));
    OddPrime(r);
    var j := if c.kind.Eratosthenes? then r - 2 else r / 2;
    AtEndIsCap(c, j);
    assert Represents(c, j) == r;
    PrimesSurvive(c, s, j);
  }

  lemma SoloStep(c: Config, s: State, t: nat, now: int)
    requires Solo(c, s) && Enabled(c, s, t)
    ensures Solo(c, Next(c, s, t, now))
  {
    StepInv(c, s, t, now);
    SoloMoves(c, s, now);
  }

  lemma SoloMoves(c: Config, s: State, now: int)
    requires Solo(c, s) && Enabled(c, s, 0)
    ensures var s' := Next(c, s, 0, now);
      && (forall p | p in s'.kept :: IsFollowed(c, p))
      && (!LeftCompute(s'.pc[0]) ==> s'.dropped == {})
      && OnPrimes(c, s'.pc[0], s'.cur)
  {
    assert PlaceOk(c, s, s.pc[0]);
    AtEndIsCap(c, s.cur);
    if s.pc[0].Skipping? {
      if s.cur < c.Cap() && s.number[s.cur] != 0 {
        StopsAtPrime(c, s);
      }
    } else if s.pc[0].Checking? && s.cur < c.Cap() {
      assert IsFollowed(c, s.pc[0].pos);
    }
  }

  lemma {:induction false} RunSolo(c: Config, s: State, schedule: seq<Choice>)
    requires Solo(c, s) && Legal(c, s, schedule)
    ensures Solo(c, Exec(c, s, schedule))
    decreases schedule
  {
    if schedule != [] {
      SoloStep(c, s, schedule[0].thread, schedule[0].now);
      RunSolo(c, Next(c, s, schedule[0].thread, schedule[0].now), schedule[1..]);
    }
  }

  // Main results

  /** Every complete run of one thread carries through exactly the claims of the primes that a later
      claimable prime follows. */
  lemma SoloTheorem(c: Config, schedule: seq<Choice>)
    requires c.Valid() && c.threads == 1 && CompleteRun(c, schedule)
    ensures Exec(c, Init(c), schedule).kept == Followed(c)
  {
    InitInv(c);
    SmallPrimes();
    RunSolo(c, Init(c), schedule);
    FollowedAreKept(c, Exec(c, Init(c), schedule));
  }

  lemma {:induction false} MultiplesAbove(n: nat, kept: set<nat>, lo: nat, hi: nat)
    requires lo <= hi && forall p | p in kept :: p < lo
    ensures Multiples(n, kept, hi) == Multiples(n, kept, lo)
    decreases hi
  {
    if lo < hi {
      MultiplesAbove(n, kept, lo, hi - 1);
    }
  }

  lemma {:induction false} MultiplesGrow(n: nat, few: set<nat>, many: set<nat>, hi: nat)
    requires few <= many && forall p | p in many :: p + 2 <= n
    ensures Multiples(n, few, hi) <= Multiples(n, many, hi)
  {
    if hi > 0 {
      MultiplesGrow(n, few, many, hi - 1);
      if hi - 1 in many {
        QuotientAbove(n, hi + 1, 1);
      }
    }
  }

  /** The cross-outs an Eratosthenes sieve cannot do without: floor(N / v) - 1 for each prime v up to N but
      the last. */
  function FewestCrossouts(c: Config): int
    requires c.Valid()
  {
    Multiples(c.bound, Followed(c), c.Cap())
  }

  /** One thread makes exactly these cross-outs, and no run with a faithful check makes fewer. */
  lemma CrossoutTheorem(c: Config, schedule: seq<Choice>)
    requires c.Valid() && c.kind.Eratosthenes? && Faithful(c) && CompleteRun(c, schedule)
    ensures var total := Total(Exec(c, Init(c), schedule).counter);
      total >= FewestCrossouts(c) && (c.threads == 1 ==> total == FewestCrossouts(c))
  {
    AccountingTheorem(c, schedule);
    Reachable(c, schedule);
    var s := Exec(c, Init(c), schedule);
    EndsPastCap(c, s);
    MultiplesAbove(c.bound, s.kept, c.Cap(), s.cur);
    FollowedAreKept(c, s);
    MultiplesGrow(c.bound, Followed(c), s.kept, c.Cap());
    if c.threads == 1 {
      SoloTheorem(c, schedule);
    }
  }

  /** At the default parameters, one thread and bound 10, the module prints 7 cross-outs, 2 of them
      unnecessary. */
  lemma DefaultCrossouts(c: Config, schedule: seq<Choice>)
    requires c.kind.Eratosthenes? && c.threads == 1 && c.bound == 10 && CompleteRun(c, schedule)
    ensures var s := Exec(c, Init(c), schedule);
      Total(s.counter) == 7 && Unnecessary(c, s) == 2
  {
    CrossoutTheorem(c, schedule);
    FollowedAtTen(c);
    MultiplesAtTen();
    Reachable(c, schedule);
    var s := Exec(c, Init(c), schedule);
    FaithfulRunsAreExact(c, s);
    ExactListing(c, s.number);
    PrimesAtTen();
  }

  lemma FollowedAtTen(c: Config)
    requires c.kind.Eratosthenes? && c.bound == 10 && c.Valid()
    ensures Followed(c) == {0, 1, 3}
  {
    SmallPrimes();
    assert Divides(2, 6) && Divides(2, 8) && Divides(2, 10);
    assert !Prime(6) && !Prime(8) && !Prime(10);
    forall p: nat
      ensures p in Followed(c) <==> p in {0, 1, 3}
    {
      if p in {0, 1, 3} {
        assert Prime(Represents(c, 5));
        assert Prime(p + 2);
      } else if IsFollowed(c, p) {
        var q: nat :| p < q < c.Cap() && Prime(Represents(c, q));
        assert p == 5 && q in {6, 7, 8};
      }
    }
  }

  lemma MultiplesAtTen()
    ensures Multiples(10, {0, 1, 3}, 9) == 7
  {
    var kept: set<nat> := {0, 1, 3};
    assert Multiples(10, kept, 1) == Multiples(10, kept, 0) + 10 / 2 - 1 == 4;
    assert Multiples(10, kept, 2) == 4 + 10 / 3 - 1 == 6;
    assert Multiples(10, kept, 3) == 6;
    assert Multiples(10, kept, 4) == 6 + 10 / 5 - 1 == 7;
    assert Multiples(10, kept, 5) == 7 && Multiples(10, kept, 6) == 7;
    assert Multiples(10, kept, 7) == 7 && Multiples(10, kept, 8) == 7;
  }

  lemma PrimesAtTen()
    ensures PrimesUpTo(10) == [2, 3, 5, 7]
  {
    SmallPrimes();
    assert Divides(2, 6) && Divides(2, 8) && Divides(2, 10);
    assert PrimesUpTo(2) == [2] by {
      assert PrimesUpTo(2) == PrimesUpTo(1) + [2] == PrimesUpTo(0) + [2];
    }
    assert PrimesUpTo(3) == [2, 3] && PrimesUpTo(4) == [2, 3] && PrimesUpTo(5) == [2, 3, 5];
    assert PrimesUpTo(6) == [2, 3, 5] && PrimesUpTo(7) == [2, 3, 5, 7] && PrimesUpTo(8) == [2, 3, 5, 7];
    assert PrimesUpTo(9) == [2, 3, 5, 7];
  }
}
