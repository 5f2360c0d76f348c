/** Why a claim is given up, and what that costs. A claim that its own skip loop leaves at the end of the
    array has nothing left to do; only one whose cursor another thread pushes to the end between the
    unlock and the bound check can leave a composite standing. */
module SieveAbandonment {
  import opened Primes
  import opened PrimeGap
  import opened SieveMachine
  import opened SieveInvariant
  import opened SieveExactness
  import opened SieveProgress

  /** The next step of thread t gives up the claim `p` although the cursor was short of the end when
      the claim released the lock: another thread has moved it there since. */
  predicate OvertakenNow(c: Config, s: State, t: nat, p: nat)
    requires Shape(c, s) && t < c.threads
  {
    c.literal && s.pc[t].Checking? && s.pc[t].pos == p && !c.AtEnd(s.pc[t].left) && c.AtEnd(s.cur)
  }

  /** That happens somewhere in the run. */
  predicate Overtaken(c: Config, s: State, schedule: seq<Choice>, p: nat)
    requires Shape(c, s) && Legal(c, s, schedule)
    decreases schedule
  {
    schedule != [] &&
    (|| OvertakenNow(c, s, schedule[0].thread, p)
     || Overtaken(c, Next(c, s, schedule[0].thread, schedule[0].now), schedule[1..], p))
  }

  /** A claim that is overtaken is given up for good. */
  lemma {:induction false} OvertakenIsDropped(c: Config, s: State, schedule: seq<Choice>, p: nat)
    requires Shape(c, s) && Legal(c, s, schedule) && (p in s.dropped || Overtaken(c, s, schedule, p))
    ensures p in Exec(c, s, schedule).dropped
    decreases schedule
  {
    if schedule != [] {
      OvertakenIsDropped(c, Next(c, s, schedule[0].thread, schedule[0].now), schedule[1..], p);
    }
  }

  /** It takes another thread: between the unlock and the check a single one moves no cursor. */
  lemma OvertakenByAnother(c: Config, s: State, t: nat, p: nat)
    requires Inv(c, s) && t < c.threads && OvertakenNow(c, s, t, p)
    ensures c.threads >= 2 && s.pc[t].left < s.cur
  {
    assert PlaceOk(c, s, s.pc[t]);
  }

  /** The claim was given up and something it may have had to cross out still stands. */
  ghost predicate Missing(c: Config, s: State, p: nat)
    requires Shape(c, s)
  {
    p in s.dropped && !Swept(c, s, p, c.Cap())
  }

  lemma MissingStep(c: Config, s: State, t: nat, now: int, p: nat)
    requires Inv(c, s) && Enabled(c, s, t)
    ensures Missing(c, Next(c, s, t, now), p) ==> Missing(c, s, p) || OvertakenNow(c, s, t, p)
  {
    NumbersFade(c, s, t, now);
    if s.pc[t].Checking? {
      AtEndIsCap(c, s.cur);
      AtEndIsCap(c, s.pc[t].left);
    }
  }

  lemma {:induction false} MissingWasOvertaken(c: Config, s: State, schedule: seq<Choice>, p: nat)
    requires Inv(c, s) && Legal(c, s, schedule) && !Missing(c, s, p)
    ensures Missing(c, Exec(c, s, schedule), p) ==> Overtaken(c, s, schedule, p)
    decreases schedule
  {
    if schedule != [] {
      var t, now := schedule[0].thread, schedule[0].now;
      MissingStep(c, s, t, now, p);
      StepInv(c, s, t, now);
      if !Missing(c, Next(c, s, t, now), p) {
        MissingWasOvertaken(c, Next(c, s, t, now), schedule[1..], p);
      }
    }
  }

  /** A claim after which nothing below the cap stands crosses no composite that survives. */
  lemma SweptSparesNone(c: Config, s: State, p: nat, i: nat)
    requires Inv(c, s) && c.Start() <= p < c.Cap() && Swept(c, s, p, c.Cap())
    requires i < c.Cells() && Represents(c, i) <= c.bound && Crosses(c, p, i)
    ensures s.number[i] == 0
  {
    CrossesMeans(c, p, i);
    if c.kind.Sundaram? {
      var at: nat :| p <= at <= c.bound / 4 && OddFactors(p, at, i);
      MulMonotone(2 * p + 1, 2 * p + 1, 2 * p + 1, 2 * at + 1);
      var q := PrimeBelowHalf(p, c.bound);
      OddPrime(q);
      assert s.number[q / 2] == 0;
      PrimesSurvive(c, s, q / 2);
      assert false;
    }
  }

  /** A claim that crosses a surviving composite and was given up, was given up because another thread
      moved the cursor to the end between its unlock and its bound check. */
  lemma SurvivorsWereOvertaken(c: Config, schedule: seq<Choice>, p: nat, i: nat)
    requires c.Valid() && Legal(c, Init(c), schedule) && p in Exec(c, Init(c), schedule).dropped && p < c.Cap()
    requires i < c.Cells() && Represents(c, i) <= c.bound && Crosses(c, p, i)
    requires Exec(c, Init(c), schedule).number[i] != 0
    ensures Overtaken(c, Init(c), schedule, p)
  {
    InitInv(c);
    RunInv(c, Init(c), schedule);
    var s := Exec(c, Init(c), schedule);
    MissingWasOvertaken(c, Init(c), schedule, p);
    if Swept(c, s, p, c.Cap()) {
      SweptSparesNone(c, s, p, i);
    }
  }

  // How many claims can be overtaken

  /** The claims overtaken in a run. */
  function OvertakenClaims(c: Config, s: State, schedule: seq<Choice>): (claims: set<nat>)
    requires Shape(c, s) && Legal(c, s, schedule)
    ensures forall p: nat :: p in claims <==> Overtaken(c, s, schedule, p)
    decreases schedule
  {
    if schedule == [] then {}
    else
      OvertakenNext(c, s, schedule[0].thread) +
      OvertakenClaims(c, Next(c, s, schedule[0].thread, schedule[0].now), schedule[1..])
  }

  /** The claim overtaken at the next step of thread t, if any. */
  function OvertakenNext(c: Config, s: State, t: nat): (claims: set<nat>)
    requires Shape(c, s) && t < c.threads
    ensures |claims| <= 1 && forall p: nat :: p in claims <==> OvertakenNow(c, s, t, p)
  {
    if s.pc[t].Checking? && OvertakenNow(c, s, t, s.pc[t].pos) then {s.pc[t].pos} else {}
  }

  /** The threads that will not cross out again: the first to be so moved the cursor to the end, and every
      claim overtaken after that adds one. */
  lemma OvertakenCosts(c: Config, s: State, t: nat, now: int)
    requires Inv(c, s) && Enabled(c, s, t)
    ensures var s' := Next(c, s, t, now);
      var before, after := Sum(Doomed(c, s.cur), s.pc), Sum(Doomed(c, s'.cur), s'.pc);
      && s.cur <= s'.cur
      && (s.cur >= c.Cap() ==> after >= before + |OvertakenNext(c, s, t)|)
      && (s.cur < c.Cap() ==> OvertakenNext(c, s, t) == {})
      && (s.cur < c.Cap() <= s'.cur ==> after >= 1)
  {
    var s' := Next(c, s, t, now);
    var f := Doomed(c, s'.cur);
    assert PlaceOk(c, s, s.pc[t]);
    AtEndIsCap(c, s.cur);
    DoomedStep(c, s, t, now);
    SumUpdate(f, s.pc, t, s'.pc[t]);
    DoomedGrows(c, s.cur, s'.cur, s.pc);
    SumAtLeast(f, s'.pc, t);
    if OvertakenNext(c, s, t) != {} {
      OvertakenDooms(c, s, t, now);
    }
  }

  lemma OvertakenDooms(c: Config, s: State, t: nat, now: int)
    requires Shape(c, s) && Enabled(c, s, t) && OvertakenNext(c, s, t) != {}
    ensures var s' := Next(c, s, t, now);
      s'.cur == s.cur && Doomed(c, s'.cur)(s.pc[t]) == 0 && Doomed(c, s'.cur)(s'.pc[t]) == 1
  {
    AtEndIsCap(c, s.pc[t].left);
  }

  lemma {:induction false} OvertakenAreDoomed(c: Config, s: State, schedule: seq<Choice>)
    requires Inv(c, s) && Legal(c, s, schedule)
    ensures var e := Exec(c, s, schedule);
      var claims, doomed := |OvertakenClaims(c, s, schedule)|, Sum(Doomed(c, e.cur), e.pc);
      && s.cur <= e.cur
      && (s.cur >= c.Cap() ==> claims + Sum(Doomed(c, s.cur), s.pc) <= doomed)
      && (s.cur < c.Cap() <= e.cur ==> claims + 1 <= doomed)
    decreases schedule
  {
    if schedule != [] {
      var t, now := schedule[0].thread, schedule[0].now;
      StepInv(c, s, t, now);
      OvertakenCosts(c, s, t, now);
      OvertakenAreDoomed(c, Next(c, s, t, now), schedule[1..]);
    }
  }

  /** In a complete run fewer claims are overtaken than there are threads, and all could be claimed; when
      the check uses the value the claim left, none is. */
  lemma FewAreOvertaken(c: Config, schedule: seq<Choice>)
    requires c.Valid() && Legal(c, Init(c), schedule) && AllFinished(Exec(c, Init(c), schedule))
    ensures var claims := OvertakenClaims(c, Init(c), schedule);
      |claims| < Losers(c) && forall p | p in claims :: c.Start() <= p < c.Cap()
  {
    InitInv(c);
    RunInv(c, Init(c), schedule);
    var e := Exec(c, Init(c), schedule);
    assert LeftCompute(e.pc[0]);
    OvertakenAreDoomed(c, Init(c), schedule);
    SumBounds(Doomed(c, e.cur), e.pc, 0, 1);
    var claims := OvertakenClaims(c, Init(c), schedule);
    forall p | p in claims
      ensures c.literal && c.Start() <= p < c.Cap()
    {
      OvertakenIsClaim(c, Init(c), schedule, p);
    }
    assert !c.literal ==> claims == {};
  }

  lemma {:induction false} OvertakenIsClaim(c: Config, s: State, schedule: seq<Choice>, p: nat)
    requires Inv(c, s) && Legal(c, s, schedule) && Overtaken(c, s, schedule, p)
    ensures c.literal && c.Start() <= p < c.Cap()
    decreases schedule
  {
    var t, now := schedule[0].thread, schedule[0].now;
    if OvertakenNow(c, s, t, p) {
      assert PlaceOk(c, s, s.pc[t]);
      AtEndIsCap(c, s.pc[t].left);
    } else {
      StepInv(c, s, t, now);
      OvertakenIsClaim(c, Next(c, s, t, now), schedule[1..], p);
    }
  }

  /** How many threads can end up having given up a claim, the last one rightly. */
  function Losers(c: Config): nat {
    if c.literal then c.threads else 1
  }

  // Which runs are exact

  /** The cell that stands for the square of the number of claim p. */
  function SquareCell(c: Config, p: nat): nat {
    if c.kind.Eratosthenes? then (p + 2) * (p + 2) - 2 else 2 * (p * (p + 1))
  }

  lemma SquareCellIs(c: Config, p: nat)
    requires c.Valid() && Represents(c, p) * Represents(c, p) <= c.bound && p >= c.Start()
    ensures Represents(c, SquareCell(c, p)) == Represents(c, p) * Represents(c, p)
    ensures c.Start() <= SquareCell(c, p) < c.Cells()
  {
    if c.kind.Sundaram? {
      assert (2 * p + 1) * (2 * p + 1) == 4 * (p * (p + 1)) + 1;
      MulMonotone(1, p, 2, p + 1);
    } else {
      MulMonotone(2, p + 2, 2, p + 2);
    }
  }

  lemma OwnSquare(c: Config, p: nat)
    requires c.Valid() && Small(c, p) && p >= c.Start()
    ensures Crosses(c, p, SquareCell(c, p))
  {
    SquareCellIs(c, p);
    CrossesMeans(c, p, SquareCell(c, p));
    if c.kind.Sundaram? {
      assert (2 * p + 1) * (2 * p + 1) == 4 * (p * (p + 1)) + 1;
      MulMonotone(1, p, p, p);
      assert OddFactors(p, p, SquareCell(c, p));
    } else {
      MultipleIsDivided(p + 2, p + 2);
      MulMonotone(2, p + 2, p + 2, p + 2);
    }
  }

  /** Only the claim of a prime crosses out its square. */
  lemma SquareNeedsItsPrime(c: Config, p: nat, p': nat)
    requires c.Valid() && Represents(c, p) * Represents(c, p) <= c.bound && p >= c.Start()
    requires Prime(Represents(c, p)) && p' >= c.Start() && Crosses(c, p', SquareCell(c, p))
    ensures p' == p
  {
    var q, d, i := Represents(c, p), Represents(c, p'), SquareCell(c, p);
    SquareCellIs(c, p);
    CrossesMeans(c, p', i);
    if c.kind.Sundaram? {
      var at: nat :| p' <= at <= c.bound / 4 && OddFactors(p', at, i);
      SquareFactor(q, d, 2 * at + 1);
    } else {
      ProperSquareFactor(q, d);
    }
  }

  lemma ProperSquareFactor(q: nat, d: nat)
    requires Prime(q) && 2 <= d < q * q && Divides(d, q * q)
    ensures d == q
  {
    var k := q * q / d;
    assert q * q == d * k;
    MultipleSteps(d, k);
    assert k != 1;
    SquareFactor(q, d, k);
  }

  /** A complete run lists exactly the primes if and only if the claim of every prime up to the square
      root of the bound was carried through. */
  lemma ExactRuns(c: Config, s: State)
    requires Inv(c, s) && AllFinished(s)
    ensures Exact(c, s.number) <==>
      forall p: nat | c.Start() <= p < c.Cap() && Prime(Represents(c, p)) && Small(c, p) :: p in s.kept
  {
    FinalCells(c, s);
    if Exact(c, s.number) {
      forall p: nat | c.Start() <= p < c.Cap() && Prime(Represents(c, p)) && Small(c, p)
        ensures p in s.kept
      {
        SquareIsZero(c, s, p);
        var p' :| p' in s.kept && Crosses(c, p', SquareCell(c, p));
        SquareNeedsItsPrime(c, p, p');
      }
    } else if forall p: nat | c.Start() <= p < c.Cap() && Prime(Represents(c, p)) && Small(c, p) :: p in s.kept {
      forall i: nat | c.Start() <= i < c.Cells() && Represents(c, i) <= c.bound
        ensures s.number[i] == 0 <==> !Prime(Represents(c, i))
      {
        if Prime(Represents(c, i)) {
          PrimesSurvive(c, s, i);
        } else {
          var pos, at := CompositesAreCrossed(c, i);
          assert Small(c, pos) && Crosses(c, pos, i);
        }
      }
      CellsMakeExact(c, s);
    }
  }

  /** The number the claim stands for is at most the square root of the bound. */
  predicate Small(c: Config, p: nat) {
    Represents(c, p) * Represents(c, p) <= c.bound
  }

  lemma SquareIsZero(c: Config, s: State, p: nat)
    requires Inv(c, s) && Exact(c, s.number) && p >= c.Start() && Prime(Represents(c, p)) && Small(c, p)
    ensures c.Start() <= SquareCell(c, p) < c.Cells() && s.number[SquareCell(c, p)] == 0
  {
    var q, i := Represents(c, p), SquareCell(c, p);
    SquareCellIs(c, p);
    MultipleIsDivided(q, q);
    MulMonotone(2, q, q, q);
    assert Divides(q, q * q) && !Prime(q * q);
    UnlistedIsZero(c, s.number, i);
  }

  lemma UnlistedIsZero(c: Config, number: seq<int>, i: nat)
    requires c.Valid() && |number| == c.Cells() && Exact(c, number)
    requires c.Start() <= i < c.Cells() && Represents(c, i) <= c.bound && !Prime(Represents(c, i))
    ensures number[i] == 0
  {
    assert Listed(c, number, Represents(c, i)) == 0;
  }
}
