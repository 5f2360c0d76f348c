/** What every step of the sieve machine keeps: the lock protocol, where claims stand, why a cell is
    zero, what a finished claim has crossed out, which positions the cursor may leave behind, and the
    two barriers. */
module SieveInvariant {
  import opened SieveMachine

  // Counting over threads

  ghost function Sum(f: Pc -> int, pcs: seq<Pc>): int {
    if pcs == [] then 0 else f(pcs[0]) + Sum(f, pcs[1..])
  }

  lemma {:induction false} SumUpdate(f: Pc -> int, pcs: seq<Pc>, t: nat, pc: Pc)
    requires t < |pcs|
    ensures Sum(f, pcs[t := pc]) == Sum(f, pcs) - f(pcs[t]) + f(pc)
  {
    if t == 0 {
      assert pcs[0 := pc][1..] == pcs[1..];
    } else {
      SumUpdate(f, pcs[1..], t - 1, pc);
      assert pcs[t := pc][1..] == pcs[1..][t - 1 := pc];
    }
  }

  lemma MulStep(k: int, n: int)
    ensures k * n == k + k * (n - 1)
  {
  }

  lemma {:induction false} SumBounds(f: Pc -> int, pcs: seq<Pc>, lo: int, hi: int)
    requires forall pc | pc in pcs :: lo <= f(pc) <= hi
    ensures lo * |pcs| <= Sum(f, pcs) <= hi * |pcs|
    ensures Sum(f, pcs) == hi * |pcs| ==> forall pc | pc in pcs :: f(pc) == hi
  {
    if pcs != [] {
      var rest := pcs[1..];
      SumBounds(f, rest, lo, hi);
      MulStep(lo, |pcs|);
      MulStep(hi, |pcs|);
      assert forall pc | pc in pcs :: pc == pcs[0] || pc in rest;
    }
  }

  lemma {:induction false} SumConstant(f: Pc -> int, pc: Pc, pcs: seq<Pc>)
    requires forall i | 0 <= i < |pcs| :: pcs[i] == pc
    ensures Sum(f, pcs) == f(pc) * |pcs|
  {
    if pcs != [] {
      SumConstant(f, pc, pcs[1..]);
      MulStep(f(pc), |pcs|);
    }
  }

  /** How often a thread at `pc` has passed through the locked part of a barrier. */
  function Arrivals(pc: Pc): int {
    match pc
    case Arriving => 0
    case Leaving | Waiting | Claiming | Skipping(_) | Checking(_, _) | Crossing(_, _) => 1
    case Parting | Finishing | Finished => 2
  }

  function IsFinished(pc: Pc): int {
    if pc.Finished? then 1 else 0
  }

  predicate PastFirstBarrier(pc: Pc) {
    !pc.Arriving? && !pc.Waiting?
  }

  predicate LeftCompute(pc: Pc) {
    pc.Leaving? || pc.Parting? || pc.Finishing? || pc.Finished?
  }

  /** A claim whose fate is still open. */
  predicate Pending(pc: Pc, pos: nat) {
    (pc.Skipping? || pc.Checking?) && pc.pos == pos
  }

  /** The thread is inside the cross-out loop of `pos` and has yet to reach `at`. */
  predicate StillToCross(pc: Pc, pos: nat, at: nat) {
    pc.Crossing? && pc.pos == pos && pc.at <= at
  }

  /** The bound check sees the value the claim itself left in the cursor: by design, or because
      there is no other thread to move it. */
  predicate Faithful(c: Config) {
    !c.literal || c.threads == 1
  }

  ghost predicate Locks(c: Config, s: State)
    requires Shape(c, s)
  {
    && (s.lock.Held? ==> s.lock.holder < c.threads)
    && forall t | 0 <= t < c.threads :: s.pc[t].Skipping? <==> s.lock == Held(t)
  }

  ghost predicate Places(c: Config, s: State)
    requires Shape(c, s)
  {
    && c.Start() <= s.cur
    && s.kept !! s.dropped
    && (forall p | p in s.kept || p in s.dropped :: c.Start() <= p < s.cur)
    && (forall p | p in s.kept :: p < c.Cap())
    && (forall t | 0 <= t < c.threads :: PlaceOk(c, s, s.pc[t]))
  }

  /** No two open claims are for the same position. */
  ghost predicate Distinct(c: Config, s: State)
    requires Shape(c, s)
  {
    forall t, u | 0 <= t < c.threads && 0 <= u < c.threads && t != u :: Apart(s.pc[t], s.pc[u])
  }

  predicate PlaceOk(c: Config, s: State, pc: Pc) {
    match pc
    case Skipping(pos) => c.Start() <= pos < s.cur && pos !in s.kept && pos !in s.dropped
    case Checking(pos, left) =>
      && c.Start() <= pos < left <= s.cur && pos !in s.kept && pos !in s.dropped
      && (c.threads == 1 ==> left == s.cur)
    case Crossing(pos, at) => pos in s.kept && OnTrack(c, pos, at)
    case _ => true
  }

  predicate Apart(a: Pc, b: Pc) {
    (a.Skipping? || a.Checking?) && (b.Skipping? || b.Checking?) ==> a.pos != b.pos
  }

  /** A cell holds its number or zero, and is zero only when a kept claim crosses it. */
  ghost predicate Zeros(c: Config, s: State)
    requires Shape(c, s)
  {
    forall i | 0 <= i < c.Cells() ::
      && (s.number[i] == 0 || s.number[i] == c.InitialValue(i))
      && (s.number[i] == 0 ==> c.InitialValue(i) == 0 || exists p :: p in s.kept && Crosses(c, p, i))
  }

  /** A kept claim has crossed out everything its thread is past. */
  ghost predicate Crossed(c: Config, s: State)
    requires Shape(c, s)
  {
    forall p, at: nat | p in s.kept && OnTrack(c, p, at) && Hits(c, p, at) ::
      || s.number[c.Cell(p, at)] == 0
      || exists t :: 0 <= t < c.threads && StillToCross(s.pc[t], p, at)
  }

  /** The cursor only leaves behind positions that were claimed or are crossed out. */
  ghost predicate Covered(c: Config, s: State)
    requires Shape(c, s)
  {
    forall pos: nat | c.Start() <= pos < s.cur && pos < c.Cap() ::
      || pos in s.kept || pos in s.dropped
      || s.number[pos] == 0
      || exists t :: 0 <= t < c.threads && Pending(s.pc[t], pos)
  }

  /** Everything from `lo` up to `hi` that can be claimed is crossed out. */
  predicate Swept(c: Config, s: State, lo: nat, hi: nat)
    requires Shape(c, s)
  {
    forall j | lo < j < hi && j < c.Cap() :: s.number[j] == 0
  }

  ghost predicate Sweeps(c: Config, s: State)
    requires Shape(c, s)
  {
    && (forall t | 0 <= t < c.threads :: s.pc[t].Skipping? ==> Swept(c, s, s.pc[t].pos, s.cur))
    && (forall t | 0 <= t < c.threads :: s.pc[t].Checking? ==> Swept(c, s, s.pc[t].pos, s.pc[t].left))
    && (Faithful(c) ==> forall p | p in s.dropped :: Swept(c, s, p, c.Cap()))
  }

  /** The barrier counter counts arrivals; nobody is past a barrier before everybody reached it. */
  ghost predicate Barriers(c: Config, s: State)
    requires Shape(c, s)
  {
    && s.arrived == Sum(Arrivals, s.pc)
    && s.done == Sum(IsFinished, s.pc)
    && (forall t, u | 0 <= t < c.threads && 0 <= u < c.threads && PastFirstBarrier(s.pc[t]) :: !s.pc[u].Arriving?)
    && (forall t | 0 <= t < c.threads && (s.pc[t].Finishing? || s.pc[t].Finished?) :: s.arrived >= 2 * c.threads)
    && (forall t | 0 <= t < c.threads && LeftCompute(s.pc[t]) :: s.cur >= c.Cap())
  }

  ghost predicate Inv(c: Config, s: State) {
    && Shape(c, s)
    && Locks(c, s) && Places(c, s) && Distinct(c, s)
    && Zeros(c, s) && Crossed(c, s)
    && Covered(c, s) && Sweeps(c, s)
    && Barriers(c, s)
  }

  lemma InitInv(c: Config)
    requires c.Valid()
    ensures Inv(c, Init(c))
  {
    var s := Init(c);
    SumConstant(Arrivals, Arriving, s.pc);
    SumConstant(IsFinished, Arriving, s.pc);
  }

  lemma LocksKept(c: Config, s: State, t: nat, now: int)
    requires Shape(c, s) && Locks(c, s) && Enabled(c, s, t)
    ensures Locks(c, Next(c, s, t, now))
  {
  }

  lemma PlacesKept(c: Config, s: State, t: nat, now: int)
    requires Shape(c, s) && Locks(c, s) && Places(c, s) && Distinct(c, s) && Enabled(c, s, t)
    ensures Places(c, Next(c, s, t, now))
  {
    var s' := Next(c, s, t, now);
    ClaimsKept(c, s, t, now);
    forall u | 0 <= u < c.threads
      ensures PlaceOk(c, s', s'.pc[u])
    {
      if u == t {
        OwnPlaceKept(c, s, t, now);
      } else {
        assert Apart(s.pc[u], s.pc[t]);
        OtherPlaceKept(c, s, t, u, now);
      }
    }
  }

  lemma ClaimsKept(c: Config, s: State, t: nat, now: int)
    requires Shape(c, s) && Places(c, s) && Enabled(c, s, t)
    ensures var s' := Next(c, s, t, now);
      && c.Start() <= s'.cur && s'.kept !! s'.dropped
      && (forall p | p in s'.kept || p in s'.dropped :: c.Start() <= p < s'.cur)
      && (forall p | p in s'.kept :: p < c.Cap())
  {
    assert PlaceOk(c, s, s.pc[t]);
    if s.pc[t].Checking? {
      AtEndIsCap(c, s.cur);
      AtEndIsCap(c, s.pc[t].left);
    }
  }

  lemma OwnPlaceKept(c: Config, s: State, t: nat, now: int)
    requires Shape(c, s) && Places(c, s) && Enabled(c, s, t)
    ensures var s' := Next(c, s, t, now); PlaceOk(c, s', s'.pc[t])
  {
    assert PlaceOk(c, s, s.pc[t]);
    if s.pc[t].Checking? {
      TrackStart(c, s.pc[t].pos);
    } else if s.pc[t].Crossing? {
      TrackStep(c, s.pc[t].pos, s.pc[t].at);
    }
  }

  lemma OtherPlaceKept(c: Config, s: State, t: nat, u: nat, now: int)
    requires Shape(c, s) && Enabled(c, s, t) && u < c.threads && u != t
    requires PlaceOk(c, s, s.pc[u]) && Apart(s.pc[u], s.pc[t])
    ensures var s' := Next(c, s, t, now); PlaceOk(c, s', s'.pc[u])
  {
  }

  lemma DistinctKept(c: Config, s: State, t: nat, now: int)
    requires Shape(c, s) && Places(c, s) && Distinct(c, s) && Enabled(c, s, t)
    ensures Distinct(c, Next(c, s, t, now))
  {
    var s' := Next(c, s, t, now);
    forall u | 0 <= u < c.threads && u != t
      ensures Apart(s'.pc[u], s'.pc[t]) && Apart(s'.pc[t], s'.pc[u])
    {
      assert PlaceOk(c, s, s.pc[u]) && Apart(s.pc[u], s.pc[t]) && s'.pc[u] == s.pc[u];
    }
  }

  lemma ZerosKept(c: Config, s: State, t: nat, now: int)
    requires Shape(c, s) && Places(c, s) && Zeros(c, s) && Enabled(c, s, t)
    ensures Zeros(c, Next(c, s, t, now))
  {
    var s' := Next(c, s, t, now);
    assert s.kept <= s'.kept;
    assert PlaceOk(c, s, s.pc[t]);
  }

  lemma CrossedKept(c: Config, s: State, t: nat, now: int)
    requires Shape(c, s) && Places(c, s) && Crossed(c, s) && Enabled(c, s, t)
    ensures Crossed(c, Next(c, s, t, now))
  {
    var s' := Next(c, s, t, now);
    forall p, at: nat | p in s'.kept && OnTrack(c, p, at) && Hits(c, p, at)
      ensures s'.number[c.Cell(p, at)] == 0 || exists u :: 0 <= u < c.threads && StillToCross(s'.pc[u], p, at)
    {
      if p in s.kept {
        if s.number[c.Cell(p, at)] != 0 {
          var u: nat :| u < c.threads && StillToCross(s.pc[u], p, at);
          CrossingAdvances(c, s, t, now, u, p, at);
        } else {
          assert s'.number[c.Cell(p, at)] == 0;
        }
      } else {
        TrackStart(c, p);
        assert StillToCross(s'.pc[t], p, at);
      }
    }
  }

  /** A thread that has yet to reach `at` still has to, or has just crossed it out. */
  lemma CrossingAdvances(c: Config, s: State, t: nat, now: int, u: nat, p: nat, at: nat)
    requires Shape(c, s) && Enabled(c, s, t) && u < c.threads && PlaceOk(c, s, s.pc[u])
    requires StillToCross(s.pc[u], p, at) && OnTrack(c, p, at) && Hits(c, p, at)
    ensures var s' := Next(c, s, t, now); StillToCross(s'.pc[u], p, at) || s'.number[c.Cell(p, at)] == 0
  {
    if u == t {
      TrackStep(c, p, s.pc[u].at);
    }
  }

  lemma CoveredKept(c: Config, s: State, t: nat, now: int)
    requires Shape(c, s) && Locks(c, s) && Places(c, s) && Covered(c, s) && Enabled(c, s, t)
    ensures Covered(c, Next(c, s, t, now))
  {
    var s' := Next(c, s, t, now);
    AtEndIsCap(c, s.cur);
    forall pos: nat | c.Start() <= pos < s'.cur && pos < c.Cap()
      ensures || pos in s'.kept || pos in s'.dropped || s'.number[pos] == 0
              || exists u :: 0 <= u < c.threads && Pending(s'.pc[u], pos)
    {
      if pos < s.cur {
        if pos !in s.kept && pos !in s.dropped && s.number[pos] != 0 {
          var u :| 0 <= u < c.threads && Pending(s.pc[u], pos);
          assert Pending(s'.pc[u], pos) || pos in s'.kept || pos in s'.dropped;
        }
      } else if s.pc[t].Claiming? {
        assert Pending(s'.pc[t], pos);
      }
    }
  }

  lemma SweepsKept(c: Config, s: State, t: nat, now: int)
    requires Shape(c, s) && Locks(c, s) && Places(c, s) && Sweeps(c, s) && Enabled(c, s, t)
    ensures Sweeps(c, Next(c, s, t, now))
  {
    var s' := Next(c, s, t, now);
    AtEndIsCap(c, s.cur);
    assert PlaceOk(c, s, s.pc[t]);
    if s.pc[t].Checking? {
      AtEndIsCap(c, s.pc[t].left);
    }
    NumbersFade(c, s, t, now);
  }

  lemma NumbersFade(c: Config, s: State, t: nat, now: int)
    requires Shape(c, s) && Enabled(c, s, t)
    ensures forall j | 0 <= j < c.Cells() :: s.number[j] == 0 ==> Next(c, s, t, now).number[j] == 0
  {
  }

  lemma BarriersKept(c: Config, s: State, t: nat, now: int)
    requires Shape(c, s) && Places(c, s) && Barriers(c, s) && Enabled(c, s, t)
    ensures Barriers(c, Next(c, s, t, now))
  {
    var s' := Next(c, s, t, now);
    SumUpdate(Arrivals, s.pc, t, s'.pc[t]);
    SumUpdate(IsFinished, s.pc, t, s'.pc[t]);
    assert s'.pc == s.pc[t := s'.pc[t]];
    FirstBarrierKept(c, s, t, now);
    CapReached(c, s, t, now);
  }

  lemma FirstBarrierKept(c: Config, s: State, t: nat, now: int)
    requires Shape(c, s) && Barriers(c, s) && Enabled(c, s, t)
    ensures var s' := Next(c, s, t, now);
      forall u, w | 0 <= u < c.threads && 0 <= w < c.threads && PastFirstBarrier(s'.pc[u]) :: !s'.pc[w].Arriving?
  {
    if s.pc[t].Waiting? && forall u | 0 <= u < c.threads :: !PastFirstBarrier(s.pc[u]) {
      SumBounds(Arrivals, s.pc, 0, 1);
      assert forall u | 0 <= u < c.threads :: s.pc[u] in s.pc;
    }
  }

  lemma CapReached(c: Config, s: State, t: nat, now: int)
    requires Shape(c, s) && Places(c, s) && Barriers(c, s) && Enabled(c, s, t)
    ensures var s' := Next(c, s, t, now);
      forall u | 0 <= u < c.threads && LeftCompute(s'.pc[u]) :: s'.cur >= c.Cap()
  {
    assert PlaceOk(c, s, s.pc[t]);
    if s.pc[t].Checking? {
      AtEndIsCap(c, s.pc[t].left);
      AtEndIsCap(c, s.cur);
    }
  }

  lemma StepInv(c: Config, s: State, t: nat, now: int)
    requires Inv(c, s) && Enabled(c, s, t)
    ensures Inv(c, Next(c, s, t, now))
  {
    LocksKept(c, s, t, now);
    PlacesKept(c, s, t, now);
    DistinctKept(c, s, t, now);
    ZerosKept(c, s, t, now);
    CrossedKept(c, s, t, now);
    CoveredKept(c, s, t, now);
    SweepsKept(c, s, t, now);
    BarriersKept(c, s, t, now);
  }

  lemma {:induction false} RunInv(c: Config, s: State, schedule: seq<Choice>)
    requires Inv(c, s) && Legal(c, s, schedule)
    ensures Inv(c, Exec(c, s, schedule))
    decreases schedule
  {
    if schedule != [] {
      StepInv(c, s, schedule[0].thread, schedule[0].now);
      RunInv(c, Next(c, s, schedule[0].thread, schedule[0].now), schedule[1..]);
    }
  }
}
