/** The futex sleep lock of studio 11. Each atomic operation on the lock word, each futex call and
    each plain store is one step; a thread locks, works and unlocks once, as in `main`. Mutual
    exclusion always holds. Progress does not: a thread that found the lock taken stores -1 without
    looking again, and if the lock was released meanwhile, the release is lost. */
module SleepLock {

  datatype Pc =
    | Trying       // about to subtract one in lock()
    | Marking      // found the lock taken, about to store -1
    | Waiting      // about to call FUTEX_WAIT with -1
    | Asleep
    | Critical     // holds the lock, about to add one in unlock()
    | Releasing    // saw waiters, about to store 1
    | Waking       // about to call FUTEX_WAKE
    | Finished

  datatype State = State(value: int, pc: seq<Pc>)

  function Init(n: nat): State {
    State(1, seq(n, _ => Trying))
  }

  predicate Enabled(s: State, t: nat) {
    t < |s.pc| && !s.pc[t].Asleep? && !s.pc[t].Finished?
  }

  function WakeAll(pcs: seq<Pc>): (r: seq<Pc>)
    ensures |r| == |pcs|
    ensures forall t | 0 <= t < |pcs| :: r[t] == if pcs[t].Asleep? then Trying else pcs[t]
  {
    if pcs == [] then [] else [if pcs[0].Asleep? then Trying else pcs[0]] + WakeAll(pcs[1..])
  }

  function Next(s: State, t: nat): (s': State)
    requires Enabled(s, t)
    ensures |s'.pc| == |s.pc|
  {
    match s.pc[t]
    case Trying => State(s.value - 1, s.pc[t := if s.value - 1 < 0 then Marking else Critical])
    case Marking => State(-1, s.pc[t := Waiting])
    case Waiting => s.(pc := s.pc[t := if s.value == -1 then Asleep else Trying])
    case Critical => State(s.value + 1, s.pc[t := if s.value + 1 != 1 then Releasing else Finished])
    case Releasing => State(1, s.pc[t := Waking])
    case Waking => s.(pc := WakeAll(s.pc)[t := Finished])
  }

  predicate Legal(s: State, schedule: seq<nat>)
    decreases schedule
  {
    schedule != [] ==> Enabled(s, schedule[0]) && Legal(Next(s, schedule[0]), schedule[1..])
  }

  function Exec(s: State, schedule: seq<nat>): (s': State)
    requires Legal(s, schedule)
    ensures |s'.pc| == |s.pc|
    decreases schedule
  {
    if schedule == [] then s else Exec(Next(s, schedule[0]), schedule[1..])
  }

  predicate AllFinished(s: State) {
    forall t | 0 <= t < |s.pc| :: s.pc[t].Finished?
  }

  /** Between acquiring the lock and publishing its release. */
  predicate Holds(pc: Pc) {
    pc.Critical? || pc.Releasing?
  }

  predicate Held(s: State) {
    exists t :: 0 <= t < |s.pc| && Holds(s.pc[t])
  }

  function Markers(pcs: seq<Pc>): nat {
    if pcs == [] then 0 else (if pcs[0].Marking? then 1 else 0) + Markers(pcs[1..])
  }

  lemma {:induction false} MarkersUpdate(pcs: seq<Pc>, t: nat, pc: Pc)
    requires t < |pcs|
    ensures Markers(pcs[t := pc]) == Markers(pcs) - (if pcs[t].Marking? then 1 else 0) + if pc.Marking? then 1 else 0
  {
    if t == 0 {
      assert pcs[0 := pc][1..] == pcs[1..];
    } else {
      MarkersUpdate(pcs[1..], t - 1, pc);
      assert pcs[t := pc][1..] == pcs[1..][t - 1 := pc];
    }
  }

  lemma {:induction false} MarkersWake(pcs: seq<Pc>)
    ensures Markers(WakeAll(pcs)) == Markers(pcs)
  {
    if pcs != [] {
      MarkersWake(pcs[1..]);
    }
  }

  lemma {:induction false} MarkersBelow(pcs: seq<Pc>, t: nat)
    requires t < |pcs| && !pcs[t].Marking?
    ensures Markers(pcs) < |pcs|
  {
    if t > 0 {
      MarkersBelow(pcs[1..], t - 1);
    } else {
      MarkersAtMost(pcs[1..]);
    }
  }

  lemma {:induction false} MarkersAtMost(pcs: seq<Pc>)
    ensures Markers(pcs) <= |pcs|
  {
    if pcs != [] {
      MarkersAtMost(pcs[1..]);
    }
  }

  // Safety

  /** A sleeper has either a negative lock word, which makes the next unlocker call wake, or an
      unlocker on its way to that call. */
  ghost predicate SleepersAreOwed(s: State) {
    (exists t :: 0 <= t < |s.pc| && s.pc[t].Asleep?) ==>
      || s.value < 0
      || exists u :: 0 <= u < |s.pc| && (s.pc[u].Releasing? || s.pc[u].Waking?)
  }

  /** At most one thread holds the lock, and while one does the lock word is not positive. */
  ghost predicate Exclusive(s: State) {
    && (forall t, u | 0 <= t < |s.pc| && 0 <= u < |s.pc| && Holds(s.pc[t]) && Holds(s.pc[u]) :: t == u)
    && s.value <= 1
    && (Held(s) ==> s.value <= 0)
  }

  /** The lock word is one below -1 for each thread about to store -1, at worst. */
  predicate Floor(s: State) {
    s.value >= -1 - Markers(s.pc)
  }

  /** The thread has had the lock. */
  predicate Acquired(pc: Pc) {
    Holds(pc) || pc.Waking? || pc.Finished?
  }

  /** The thread still wants the lock. */
  predicate Stranded(pc: Pc) {
    !Acquired(pc)
  }

  /** Until someone has had the lock, it is free and untouched. */
  ghost predicate Begun(s: State) {
    || (s.value == 1 && forall t | 0 <= t < |s.pc| :: s.pc[t].Trying?)
    || exists t :: 0 <= t < |s.pc| && Acquired(s.pc[t])
  }

  /** Nobody holds the lock and it does not read as free. */
  predicate Lost(s: State) {
    !Held(s) && s.value != 1
  }

  ghost predicate LossHasVictim(s: State) {
    Lost(s) ==> exists t :: 0 <= t < |s.pc| && Stranded(s.pc[t])
  }

  ghost predicate Inv(s: State) {
    Exclusive(s) && Floor(s) && Begun(s) && SleepersAreOwed(s) && LossHasVictim(s)
  }

  lemma InitInv(n: nat)
    ensures Inv(Init(n))
  {
  }

  lemma StepExclusive(s: State, t: nat)
    requires Exclusive(s) && Enabled(s, t)
    ensures Exclusive(Next(s, t))
  {
    var s' := Next(s, t);
    if s.pc[t].Trying? && s.value == 1 {
      assert forall u | 0 <= u < |s.pc| :: !Holds(s.pc[u]);
    }
    assert forall u | 0 <= u < |s.pc| && u != t :: Holds(s'.pc[u]) == Holds(s.pc[u]);
  }

  lemma StepFloor(s: State, t: nat)
    requires Floor(s) && Enabled(s, t)
    ensures Floor(Next(s, t))
  {
    var s' := Next(s, t);
    MarkersUpdate(s.pc, t, s'.pc[t]);
    MarkersWake(s.pc);
    MarkersUpdate(WakeAll(s.pc), t, s'.pc[t]);
  }

  lemma StepBegun(s: State, t: nat)
    requires Begun(s) && Enabled(s, t)
    ensures Begun(Next(s, t))
  {
    var s' := Next(s, t);
    if u :| 0 <= u < |s.pc| && Acquired(s.pc[u]) {
      assert Acquired(s'.pc[u]);
    } else {
      assert Acquired(s'.pc[t]);
    }
  }

  lemma StepOwed(s: State, t: nat)
    requires SleepersAreOwed(s) && Enabled(s, t)
    ensures SleepersAreOwed(Next(s, t))
  {
    var s' := Next(s, t);
    if u: nat :| u < |s'.pc| && s'.pc[u].Asleep? && u != t {
      assert s.pc[u].Asleep?;
      if s.value >= 0 {
        var w :| 0 <= w < |s.pc| && (s.pc[w].Releasing? || s.pc[w].Waking?);
        assert s'.pc[w].Releasing? || s'.pc[w].Waking?;
      } else {
        assert s'.value < 0 || s'.pc[t].Releasing? || s'.pc[t].Waking?;
      }
    }
  }

  lemma StepVictim(s: State, t: nat)
    requires Exclusive(s) && LossHasVictim(s) && Enabled(s, t)
    ensures LossHasVictim(Next(s, t))
  {
    var s' := Next(s, t);
    if Lost(s') {
      if Lost(s) {
        var u :| 0 <= u < |s.pc| && Stranded(s.pc[u]);
        assert Stranded(s'.pc[u]);
      } else {
        LossComesFromMarking(s, t);
        assert Stranded(s'.pc[t]);
      }
    }
  }

  lemma StepInv(s: State, t: nat)
    requires Inv(s) && Enabled(s, t)
    ensures Inv(Next(s, t))
  {
    StepExclusive(s, t);
    StepFloor(s, t);
    StepBegun(s, t);
    StepOwed(s, t);
    StepVictim(s, t);
  }

  lemma {:induction false} RunInv(s: State, schedule: seq<nat>)
    requires Inv(s) && Legal(s, schedule)
    ensures Inv(Exec(s, schedule))
    decreases schedule
  {
    if schedule != [] {
      StepInv(s, schedule[0]);
      RunInv(Next(s, schedule[0]), schedule[1..]);
    }
  }

  /** Mutual exclusion, the range of the lock word, and who owes whom a wake-up, for every run. */
  lemma SafetyTheorem(n: nat, schedule: seq<nat>)
    requires n >= 1 && Legal(Init(n), schedule)
    ensures var s := Exec(Init(n), schedule);
      && (forall t, u | 0 <= t < n && 0 <= u < n && Holds(s.pc[t]) && Holds(s.pc[u]) :: t == u)
      && 0 <= s.value + n && s.value <= 1
      && SleepersAreOwed(s)
  {
    InitInv(n);
    RunInv(Init(n), schedule);
    var s := Exec(Init(n), schedule);
    if t :| 0 <= t < |s.pc| && Acquired(s.pc[t]) {
      MarkersBelow(s.pc, t);
    }
  }

  // The dichotomy

  /** The lock gets lost only by storing -1 over a released 1. */
  lemma LossComesFromMarking(s: State, t: nat)
    requires Exclusive(s) && Enabled(s, t)
    ensures !Lost(s) && Lost(Next(s, t)) ==> s.pc[t].Marking? && s.value == 1
  {
    var s' := Next(s, t);
    if u :| 0 <= u < |s.pc| && Holds(s.pc[u]) {
      assert Holds(s'.pc[u]) || s'.value == 1;
    } else {
      assert s.value == 1 ==> Holds(s'.pc[t]) || s.pc[t].Marking? || s'.value == 1;
    }
  }

  lemma LossIsForEver(s: State, t: nat)
    requires Exclusive(s) && Lost(s) && Enabled(s, t)
    ensures Lost(Next(s, t))
    ensures forall u | 0 <= u < |s.pc| :: Stranded(s.pc[u]) ==> Stranded(Next(s, t).pc[u])
  {
    assert forall u | 0 <= u < |s.pc| :: !Holds(s.pc[u]);
    assert forall u | 0 <= u < |s.pc| :: !Holds(Next(s, t).pc[u]);
  }

  /** From a lost state no continuation ever acquires the lock, and so none finishes. */
  lemma {:induction false} LostNeverAcquires(s: State, schedule: seq<nat>)
    requires Inv(s) && Lost(s) && Legal(s, schedule)
    ensures Lost(Exec(s, schedule)) && !AllFinished(Exec(s, schedule))
    ensures forall u | 0 <= u < |s.pc| :: Stranded(s.pc[u]) ==> Stranded(Exec(s, schedule).pc[u])
    decreases schedule
  {
    if schedule != [] {
      LossIsForEver(s, schedule[0]);
      StepInv(s, schedule[0]);
      LostNeverAcquires(Next(s, schedule[0]), schedule[1..]);
    }
  }

  /** As long as the lock is not lost, the threads still to finish are never all asleep. */
  lemma SomeoneIsAwake(s: State)
    requires Inv(s) && !Lost(s) && !AllFinished(s)
    ensures exists t :: Enabled(s, t)
  {
    var u :| 0 <= u < |s.pc| && !s.pc[u].Finished?;
    if s.pc[u].Asleep? {
      if s.value == 1 {
        var w :| 0 <= w < |s.pc| && (s.pc[w].Releasing? || s.pc[w].Waking?);
        assert Enabled(s, w);
      } else {
        var w :| 0 <= w < |s.pc| && Holds(s.pc[w]);
        assert Enabled(s, w);
      }
    } else {
      assert Enabled(s, u);
    }
  }

  /** No step stores -1 over a free lock. */
  predicate Careful(s: State, schedule: seq<nat>)
    requires Legal(s, schedule)
    decreases schedule
  {
    schedule != [] ==>
      && !(s.pc[schedule[0]].Marking? && s.value == 1)
      && Careful(Next(s, schedule[0]), schedule[1..])
  }

  /** In runs without such a store, whoever still has to finish is never left all asleep. */
  lemma {:induction false} CarefulRunsStayAwake(s: State, schedule: seq<nat>)
    requires Inv(s) && !Lost(s) && Legal(s, schedule) && Careful(s, schedule)
    ensures var s' := Exec(s, schedule); !Lost(s') && (AllFinished(s') || exists t :: Enabled(s', t))
    decreases schedule
  {
    if schedule != [] {
      LossComesFromMarking(s, schedule[0]);
      StepInv(s, schedule[0]);
      CarefulRunsStayAwake(Next(s, schedule[0]), schedule[1..]);
    } else if !AllFinished(s) {
      SomeoneIsAwake(s);
    }
  }

  /** Losing the lock takes a store of -1 over a free lock, and such a store always loses it. */
  lemma {:induction false} LostIfCareless(s: State, schedule: seq<nat>)
    requires Inv(s) && Legal(s, schedule)
    ensures Lost(Exec(s, schedule)) <==> Lost(s) || !Careful(s, schedule)
    decreases schedule
  {
    if schedule != [] {
      var t := schedule[0];
      LossComesFromMarking(s, t);
      StepInv(s, t);
      if Lost(s) {
        LostNeverAcquires(s, schedule);
      } else if s.pc[t].Marking? && s.value == 1 {
        assert forall u | 0 <= u < |s.pc| :: !Holds(s.pc[u]);
        assert Lost(Next(s, t));
        LostNeverAcquires(Next(s, t), schedule[1..]);
      } else {
        LostIfCareless(Next(s, t), schedule[1..]);
      }
    }
  }

  /** After every run, either nobody holds the lock exactly when it reads 1, or it is lost: nobody holds
      it and it is not positive. It is lost exactly in the runs that store -1 over a free lock. */
  lemma Dichotomy(n: nat, schedule: seq<nat>)
    requires Legal(Init(n), schedule)
    ensures var s := Exec(Init(n), schedule);
      && (Careful(Init(n), schedule) ==> (!Held(s) <==> s.value == 1))
      && (!Careful(Init(n), schedule) ==> !Held(s) && s.value <= 0)
  {
    InitInv(n);
    RunInv(Init(n), schedule);
    LostIfCareless(Init(n), schedule);
  }

  // Exactly when the run can still complete

  ghost predicate CanComplete(s: State) {
    exists schedule :: Legal(s, schedule) && AllFinished(Exec(s, schedule))
  }

  /** No thread is about to overwrite a free lock. */
  predicate Calm(s: State) {
    Held(s) || (s.value == 1 && forall t | 0 <= t < |s.pc| :: !s.pc[t].Marking?)
  }

  /** The lock is lost, or free with every unfinished thread that still wants it about to overwrite it. */
  predicate Doomed(s: State) {
    || Lost(s)
    || (!Calm(s) && forall t | 0 <= t < |s.pc| && Stranded(s.pc[t]) :: s.pc[t].Marking?)
  }

  function Rank(pc: Pc): nat {
    match pc
    case Marking => 7
    case Waiting => 6
    case Asleep => 5
    case Trying => 4
    case Critical => 3
    case Releasing => 2
    case Waking => 1
    case Finished => 0
  }

  function Ranks(pcs: seq<Pc>): nat {
    if pcs == [] then 0 else Rank(pcs[0]) + Ranks(pcs[1..])
  }

  lemma {:induction false} RanksUpdate(pcs: seq<Pc>, t: nat, pc: Pc)
    requires t < |pcs|
    ensures Ranks(pcs[t := pc]) == Ranks(pcs) - Rank(pcs[t]) + Rank(pc)
  {
    if t == 0 {
      assert pcs[0 := pc][1..] == pcs[1..];
    } else {
      RanksUpdate(pcs[1..], t - 1, pc);
      assert pcs[t := pc][1..] == pcs[1..][t - 1 := pc];
    }
  }

  lemma {:induction false} RanksWake(pcs: seq<Pc>)
    ensures Ranks(WakeAll(pcs)) <= Ranks(pcs)
  {
    if pcs != [] {
      RanksWake(pcs[1..]);
    }
  }

  /** A step that is neither a failing attempt nor a wait on a changed word brings the end closer. */
  lemma RankDrops(s: State, t: nat)
    requires Exclusive(s) && Enabled(s, t) && (s.pc[t].Trying? ==> s.value == 1)
    ensures Ranks(Next(s, t).pc) < Ranks(s.pc)
  {
    var s' := Next(s, t);
    if s.pc[t].Waking? {
      RanksWake(s.pc);
      RanksUpdate(WakeAll(s.pc), t, Finished);
    } else {
      RanksUpdate(s.pc, t, s'.pc[t]);
      assert s'.pc == s.pc[t := s'.pc[t]];
    }
  }

  /** From a calm state some step keeps calm and brings the threads closer to the end. */
  lemma CalmStep(s: State) returns (t: nat)
    requires Inv(s) && Calm(s) && !AllFinished(s)
    ensures Enabled(s, t) && Calm(Next(s, t)) && Ranks(Next(s, t).pc) < Ranks(s.pc)
  {
    t := CalmChoice(s);
    var s' := Next(s, t);
    RankDrops(s, t);
    StepExclusive(s, t);
    if h :| 0 <= h < |s.pc| && Holds(s.pc[h]) {
      assert Holds(s'.pc[h]) || (h == t && s'.value == 1);
      assert forall u | 0 <= u < |s.pc| && u != t :: s'.pc[u] == s.pc[u];
    } else if s.pc[t].Trying? {
      assert Holds(s'.pc[t]);
    } else {
      assert s'.value == 1;
      assert forall u | 0 <= u < |s.pc| :: !s'.pc[u].Marking?;
    }
  }

  /** Who moves: those about to mark a held lock, then the holder; with the lock free, a thread that
      tries, one about to wait, or one about to wake the others. */
  lemma CalmChoice(s: State) returns (t: nat)
    requires Inv(s) && Calm(s) && !AllFinished(s)
    ensures Enabled(s, t)
    ensures Held(s) ==> s.pc[t].Marking? || (Holds(s.pc[t]) && forall u | 0 <= u < |s.pc| :: !s.pc[u].Marking?)
    ensures !Held(s) ==> s.pc[t].Trying? || s.pc[t].Waiting? || s.pc[t].Waking?
  {
    if Held(s) {
      if u: nat :| u < |s.pc| && s.pc[u].Marking? {
        t := u;
      } else {
        t :| t < |s.pc| && Holds(s.pc[t]);
      }
    } else {
      SomeoneIsAwake(s);
      t :| Enabled(s, t);
    }
  }

  lemma {:induction false} CalmCompletes(s: State) returns (schedule: seq<nat>)
    requires Inv(s) && Calm(s)
    ensures Legal(s, schedule) && AllFinished(Exec(s, schedule))
    decreases Ranks(s.pc)
  {
    if AllFinished(s) {
      schedule := [];
    } else {
      var t := CalmStep(s);
      StepInv(s, t);
      var rest := CalmCompletes(Next(s, t));
      schedule := [t] + rest;
    }
  }

  /** With the lock free and a thread around that can still reach it, that thread can calm things down. */
  lemma ReachCalm(s: State) returns (schedule: seq<nat>)
    requires Inv(s) && !Doomed(s)
    ensures Legal(s, schedule) && Calm(Exec(s, schedule)) && |schedule| <= 2
  {
    if Calm(s) {
      schedule := [];
    } else {
      var t: nat :| t < |s.pc| && Stranded(s.pc[t]) && !s.pc[t].Marking?;
      var first := t;
      if s.pc[t].Asleep? {
        first :| 0 <= first < |s.pc| && (s.pc[first].Releasing? || s.pc[first].Waking?);
        assert s.pc[first].Releasing? ==> Held(s);
      }
      if s.pc[t].Trying? {
        schedule := [t];
        assert Holds(Next(s, t).pc[t]);
        assert schedule[1..] == [];
      } else {
        schedule := [first, t];
        var s1 := Next(s, first);
        assert s1.pc[t].Trying? && s1.value == 1;
        var s2 := Next(s1, t);
        assert Holds(s2.pc[t]);
        assert schedule[1..] == [t] && [t][1..] == [];
        assert Exec(s1, [t]) == s2;
      }
    }
  }

  /** A doomed state stays doomed whatever the threads do. */
  lemma DoomIsForEver(s: State, t: nat)
    requires Inv(s) && Doomed(s) && Enabled(s, t)
    ensures Doomed(Next(s, t))
  {
    var s' := Next(s, t);
    if Lost(s) {
      LossIsForEver(s, t);
    } else {
      assert forall u | 0 <= u < |s.pc| :: !Holds(s.pc[u]);
      if u :| 0 <= u < |s.pc| && s.pc[u].Asleep? {
        assert Stranded(s.pc[u]);
      }
      assert forall u | 0 <= u < |s.pc| && u != t :: s'.pc[u] == s.pc[u];
      assert !Held(s');
      if s.pc[t].Marking? {
        assert Lost(s');
      } else {
        var m :| 0 <= m < |s.pc| && s.pc[m].Marking?;
        assert s'.pc[m].Marking?;
      }
    }
  }

  lemma {:induction false} DoomedNeverCompletes(s: State, schedule: seq<nat>)
    requires Inv(s) && Doomed(s) && Legal(s, schedule)
    ensures !AllFinished(Exec(s, schedule))
    decreases schedule
  {
    if schedule == [] {
      if !Lost(s) {
        var m :| 0 <= m < |s.pc| && s.pc[m].Marking?;
        assert !s.pc[m].Finished?;
      }
    } else {
      DoomIsForEver(s, schedule[0]);
      StepInv(s, schedule[0]);
      DoomedNeverCompletes(Next(s, schedule[0]), schedule[1..]);
    }
  }

  lemma {:induction false} ExecAppend(s: State, a: seq<nat>, b: seq<nat>)
    requires Legal(s, a) && Legal(Exec(s, a), b)
    ensures Legal(s, a + b) && Exec(s, a + b) == Exec(Exec(s, a), b)
    decreases a
  {
    if a == [] {
      assert a + b == b;
    } else {
      ExecAppend(Next(s, a[0]), a[1..], b);
      assert (a + b)[1..] == a[1..] + b;
    }
  }

  /** Liveness with its exact condition: a reachable state can still be run to the end if and only if
      it is not doomed. */
  lemma CompletionTheorem(n: nat, schedule: seq<nat>)
    requires Legal(Init(n), schedule)
    ensures var s := Exec(Init(n), schedule); CanComplete(s) <==> !Doomed(s)
  {
    InitInv(n);
    RunInv(Init(n), schedule);
    var s := Exec(Init(n), schedule);
    if Doomed(s) {
      forall rest | Legal(s, rest)
        ensures !AllFinished(Exec(s, rest))
      {
        DoomedNeverCompletes(s, rest);
      }
    } else {
      var first := ReachCalm(s);
      RunInv(s, first);
      var rest := CalmCompletes(Exec(s, first));
      ExecAppend(s, first, rest);
    }
  }

  /** No run can go wrong exactly when there is at most one thread. */
  lemma ContentionTheorem(n: nat)
    ensures (forall schedule | Legal(Init(n), schedule) :: CanComplete(Exec(Init(n), schedule))) <==> n <= 1
  {
    if n <= 1 {
      forall schedule | Legal(Init(n), schedule)
        ensures CanComplete(Exec(Init(n), schedule))
      {
        InitInv(n);
        AloneIsCalm(Init(n), schedule);
        CompletionTheorem(n, schedule);
      }
    } else {
      var schedule := LosingRun(n);
      CompletionTheorem(n, schedule);
    }
  }

  lemma {:induction false} AloneIsCalm(s: State, schedule: seq<nat>)
    requires |s.pc| <= 1 && Inv(s) && Calm(s) && Legal(s, schedule)
    ensures Calm(Exec(s, schedule))
    decreases schedule
  {
    if schedule != [] {
      StepInv(s, schedule[0]);
      assert Calm(Next(s, schedule[0]));
      AloneIsCalm(Next(s, schedule[0]), schedule[1..]);
    }
  }

  /** Thread 0 takes the lock, thread 1 finds it taken, thread 0 releases it, thread 1 stores -1. */
  lemma LosingRun(n: nat) returns (schedule: seq<nat>)
    requires n >= 2
    ensures Legal(Init(n), schedule) && Doomed(Exec(Init(n), schedule))
  {
    var s1 := Next(Init(n), 0);
    var s2 := Next(s1, 1);
    var s3 := Next(s2, 0);
    var s4 := Next(s3, 0);
    var s5 := Next(s4, 1);
    assert Lost(s5);
    assert Exec(s5, []) == s5;
    assert [1][1..] == [] && Exec(s4, [1]) == s5;
    assert [0, 1][1..] == [1] && Exec(s3, [0, 1]) == s5;
    assert [0, 0, 1][1..] == [0, 1] && Exec(s2, [0, 0, 1]) == s5;
    assert [1, 0, 0, 1][1..] == [0, 0, 1] && Exec(s1, [1, 0, 0, 1]) == s5;
    schedule := [0, 1, 0, 0, 1];
    assert schedule[1..] == [1, 0, 0, 1];
  }
}
