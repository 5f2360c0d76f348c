/** Studio 10: threads increment one shared counter k times each, either as a load followed by a store
    (race.c) or atomically (atomic_race.c). The race can lose updates; here is exactly how many. */
module LostUpdate {

  /** A thread between two increments, or holding the value it has loaded. */
  datatype Thread = Idle(count: nat) | Loaded(count: nat, reg: nat)

  datatype State = State(shared: nat, threads: seq<Thread>)

  /** `k` increments per thread; `atomic` picks atomic_add. */
  datatype Config = Config(k: nat, atomic: bool)

  function Init(n: nat): State {
    State(0, seq(n, _ => Idle(0)))
  }

  predicate Enabled(c: Config, s: State, t: nat) {
    t < |s.threads| && (s.threads[t].Idle? ==> s.threads[t].count < c.k)
  }

  function Next(c: Config, s: State, t: nat): State
    requires Enabled(c, s, t)
  {
    match s.threads[t]
    case Idle(i) =>
      if c.atomic then State(s.shared + 1, s.threads[t := Idle(i + 1)])
      else State(s.shared, s.threads[t := Loaded(i, s.shared)])
    case Loaded(i, r) =>
      State(r + 1, s.threads[t := Idle(i + 1)])
  }

  predicate Legal(c: Config, s: State, schedule: seq<nat>)
    decreases schedule
  {
    schedule != [] ==> Enabled(c, s, schedule[0]) && Legal(c, Next(c, s, schedule[0]), schedule[1..])
  }

  function Exec(c: Config, s: State, schedule: seq<nat>): State
    requires Legal(c, s, schedule)
    decreases schedule
  {
    if schedule == [] then s else Exec(c, Next(c, s, schedule[0]), schedule[1..])
  }

  ghost predicate Reaches(c: Config, s: State, s': State) {
    exists schedule :: Legal(c, s, schedule) && Exec(c, s, schedule) == s'
  }

  predicate Complete(c: Config, s: State) {
    forall t | 0 <= t < |s.threads| :: s.threads[t] == Idle(c.k)
  }

  /** Some run of n threads ends with v in the counter. */
  ghost predicate CanEndWith(c: Config, n: nat, v: nat) {
    exists s :: Reaches(c, Init(n), s) && Complete(c, s) && s.shared == v
  }

  // Bounds

  function Total(threads: seq<Thread>): nat {
    if threads == [] then 0 else threads[0].count + Total(threads[1..])
  }

  lemma {:induction false} TotalUpdate(threads: seq<Thread>, t: nat, th: Thread)
    requires t < |threads|
    ensures Total(threads[t := th]) == Total(threads) - threads[t].count + th.count
  {
    if t == 0 {
      assert threads[0 := th][1..] == threads[1..];
    } else {
      TotalUpdate(threads[1..], t - 1, th);
      assert threads[t := th][1..] == threads[1..][t - 1 := th];
    }
  }

  lemma {:induction false} TotalConstant(threads: seq<Thread>, k: nat)
    requires forall t | 0 <= t < |threads| :: threads[t].count == k
    ensures Total(threads) == |threads| * k
  {
    if threads != [] {
      TotalConstant(threads[1..], k);
    }
  }

  /** The counter counts no more than the finished increments, is positive once one has finished, and
      neither holds of a stale register less. */
  ghost predicate Inv(c: Config, n: nat, s: State) {
    && |s.threads| == n
    && NotAbove(c, s) && NotBelow(c, s)
    && (n >= 1 && Complete(c, s) ==> s.shared >= Least(c))
    && (n == 1 ==> s.shared == s.threads[0].count && (s.threads[0].Loaded? ==> s.threads[0].reg == s.shared))
  }

  predicate NotAbove(c: Config, s: State) {
    && s.shared <= Total(s.threads)
    && (forall t | 0 <= t < |s.threads| && s.threads[t].Loaded? :: s.threads[t].reg <= Total(s.threads))
    && (c.atomic ==> s.shared == Total(s.threads))
  }

  predicate NotBelow(c: Config, s: State) {
    forall t | 0 <= t < |s.threads| ::
      && s.threads[t].count <= c.k
      && (s.threads[t].count >= 1 ==> s.shared >= 1)
      && (s.threads[t].Loaded? ==> s.threads[t].count < c.k && !c.atomic)
      && (s.threads[t].Loaded? && s.threads[t].count >= 1 ==> s.threads[t].reg >= 1)
  }

  function Least(c: Config): nat {
    if c.k <= 2 then c.k else 2
  }

  lemma StepNotAbove(c: Config, s: State, t: nat)
    requires NotAbove(c, s) && NotBelow(c, s) && Enabled(c, s, t)
    ensures NotAbove(c, Next(c, s, t))
  {
    TotalUpdate(s.threads, t, Next(c, s, t).threads[t]);
  }

  lemma StepNotBelow(c: Config, s: State, t: nat)
    requires NotBelow(c, s) && Enabled(c, s, t)
    ensures NotBelow(c, Next(c, s, t))
  {
  }

  lemma StepInv(c: Config, n: nat, s: State, t: nat)
    requires Inv(c, n, s) && Enabled(c, s, t)
    ensures Inv(c, n, Next(c, s, t))
  {
    StepNotAbove(c, s, t);
    StepNotBelow(c, s, t);
    if Complete(c, Next(c, s, t)) {
      LastStore(c, s, t);
    }
  }

  /** The store that completes the run leaves at least the smaller of k and 2. */
  lemma LastStore(c: Config, s: State, t: nat)
    requires NotAbove(c, s) && NotBelow(c, s) && Enabled(c, s, t) && Complete(c, Next(c, s, t))
    ensures Next(c, s, t).shared >= Least(c)
  {
    var s' := Next(c, s, t);
    assert s'.threads[t] == Idle(c.k);
    if c.atomic {
      StepNotAbove(c, s, t);
      TotalConstant(s'.threads, c.k);
      assert |s'.threads| * c.k >= c.k by { assert (|s'.threads| - 1) * c.k >= 0; }
    }
  }

  lemma {:induction false} RunInv(c: Config, n: nat, s: State, schedule: seq<nat>)
    requires Inv(c, n, s) && Legal(c, s, schedule)
    ensures Inv(c, n, Exec(c, s, schedule))
    decreases schedule
  {
    if schedule != [] {
      StepInv(c, n, s, schedule[0]);
      RunInv(c, n, Next(c, s, schedule[0]), schedule[1..]);
    }
  }

  lemma InitInv(c: Config, n: nat)
    ensures Inv(c, n, Init(n))
  {
    TotalConstant(Init(n).threads, 0);
  }

  /** The atomic version never loses an update. */
  lemma AtomicIsExact(c: Config, n: nat, schedule: seq<nat>)
    requires c.atomic && Legal(c, Init(n), schedule) && Complete(c, Exec(c, Init(n), schedule))
    ensures Exec(c, Init(n), schedule).shared == n * c.k
  {
    InitInv(c, n);
    RunInv(c, n, Init(n), schedule);
    TotalConstant(Exec(c, Init(n), schedule).threads, c.k);
  }

  // Runs that reach every value in between

  lemma {:induction false} ExecAppend(c: Config, s: State, a: seq<nat>, b: seq<nat>)
    requires Legal(c, s, a) && Legal(c, Exec(c, s, a), b)
    ensures Legal(c, s, a + b) && Exec(c, s, a + b) == Exec(c, Exec(c, s, a), b)
    decreases a
  {
    if a == [] {
      assert a + b == b;
    } else {
      ExecAppend(c, Next(c, s, a[0]), a[1..], b);
      assert (a + b)[1..] == a[1..] + b;
    }
  }

  lemma ReachesTransitive(c: Config, a: State, b: State, d: State)
    requires Reaches(c, a, b) && Reaches(c, b, d)
    ensures Reaches(c, a, d)
  {
    var x :| Legal(c, a, x) && Exec(c, a, x) == b;
    var y :| Legal(c, b, y) && Exec(c, b, y) == d;
    ExecAppend(c, a, x, y);
  }

  lemma ReachesStep(c: Config, s: State, t: nat)
    requires Enabled(c, s, t)
    ensures Reaches(c, s, s) && Reaches(c, s, Next(c, s, t))
  {
    var s' := Next(c, s, t);
    assert Legal(c, s, []) && Exec(c, s, []) == s;
    assert Legal(c, s', []) && Exec(c, s', []) == s';
    assert [t][0] == t && [t][1..] == [];
    assert Legal(c, s, [t]) && Exec(c, s, [t]) == s';
  }

  function Bumped(s: State, t: nat, j: nat): State
    requires t < |s.threads| && s.threads[t].Idle?
  {
    State(s.shared + j, s.threads[t := Idle(s.threads[t].count + j)])
  }

  /** A thread left alone does j increments and none is lost. */
  lemma {:induction false} RunAlone(c: Config, s: State, t: nat, j: nat)
    requires !c.atomic && t < |s.threads| && s.threads[t].Idle? && s.threads[t].count + j <= c.k
    ensures Reaches(c, s, Bumped(s, t, j))
    decreases j
  {
    if j == 0 {
      assert Bumped(s, t, 0) == s && Legal(c, s, []) && Exec(c, s, []) == s;
    } else {
      var s1 := Next(c, s, t);
      ReachesStep(c, s, t);
      ReachesStep(c, s1, t);
      assert Next(c, s1, t) == Bumped(s, t, 1);
      ReachesTransitive(c, s, s1, Bumped(s, t, 1));
      RunAlone(c, Bumped(s, t, 1), t, j - 1);
      assert Bumped(Bumped(s, t, 1), t, j - 1) == Bumped(s, t, j);
      ReachesTransitive(c, s, Bumped(s, t, 1), Bumped(s, t, j));
    }
  }

  /** All threads but 1 are between increments, thread 1 has done `own` of its own. */
  ghost predicate Poised(c: Config, n: nat, s: State, own: nat) {
    && |s.threads| == n >= 2 && s.threads[1] == Idle(own)
    && forall t | 0 <= t < n :: s.threads[t].Idle? && s.threads[t].count <= c.k
  }

  /** A thread other than 1 that still has increments to do. */
  lemma SomeoneLeft(c: Config, n: nat, s: State) returns (u: nat)
    requires c.k >= 1 && Poised(c, n, s, c.k - 1) && Total(s.threads) < n * c.k - 1
    ensures u < n && u != 1 && s.threads[u].count < c.k
  {
    if u' : nat :| u' < n && u' != 1 && s.threads[u'].count < c.k {
      u := u';
    } else {
      TotalUpdate(s.threads, 1, Idle(c.k));
      TotalConstant(s.threads[1 := Idle(c.k)], c.k);
      assert false;
    }
  }

  /** The threads other than 1 raise the counter to w together. */
  lemma {:induction false} RaiseTo(c: Config, n: nat, s: State, w: nat) returns (s': State)
    requires !c.atomic && c.k >= 1 && Poised(c, n, s, c.k - 1)
    requires s.shared <= w && s.shared <= Total(s.threads) && w + Total(s.threads) < n * c.k + s.shared
    ensures Reaches(c, s, s') && Poised(c, n, s', c.k - 1) && s'.shared == w
    decreases w - s.shared
  {
    if s.shared == w {
      s' := s;
      assert Legal(c, s, []) && Exec(c, s, []) == s;
    } else {
      var u := SomeoneLeft(c, n, s);
      var s1 := Bumped(s, u, 1);
      RunAlone(c, s, u, 1);
      TotalUpdate(s.threads, u, s1.threads[u]);
      s' := RaiseTo(c, n, s1, w);
      ReachesTransitive(c, s, s1, s');
    }
  }

  /** While thread 1 sits on its last loaded value, the others finish. */
  lemma {:induction false} OthersFinish(c: Config, n: nat, s: State, u: nat) returns (s': State)
    requires !c.atomic && |s.threads| == n >= 2 && u <= n
    requires s.threads[1].Loaded? && s.threads[1].count + 1 == c.k
    requires forall t | 0 <= t < n && t != 1 :: s.threads[t].Idle? && s.threads[t].count <= c.k
    requires forall t | 0 <= t < u && t != 1 :: s.threads[t] == Idle(c.k)
    ensures Reaches(c, s, s') && |s'.threads| == n && s'.threads[1] == s.threads[1]
    ensures forall t | 0 <= t < n && t != 1 :: s'.threads[t] == Idle(c.k)
    decreases n - u
  {
    if u == n {
      s' := s;
      assert Legal(c, s, []) && Exec(c, s, []) == s;
    } else if u == 1 {
      s' := OthersFinish(c, n, s, 2);
    } else {
      var j := c.k - s.threads[u].count;
      RunAlone(c, s, u, j);
      s' := OthersFinish(c, n, Bumped(s, u, j), u + 1);
      ReachesTransitive(c, s, Bumped(s, u, j), s');
    }
  }

  /** Thread 1 loads w for its last increment, everybody else finishes, thread 1 stores w + 1. */
  lemma LastWord(c: Config, n: nat, s: State)
    requires !c.atomic && c.k >= 1 && Poised(c, n, s, c.k - 1) && Reaches(c, Init(n), s)
    ensures CanEndWith(c, n, s.shared + 1)
  {
    var s1 := Next(c, s, 1);
    ReachesStep(c, s, 1);
    ReachesTransitive(c, Init(n), s, s1);
    var s2 := OthersFinish(c, n, s1, 0);
    ReachesTransitive(c, Init(n), s1, s2);
    var s3 := Next(c, s2, 1);
    ReachesStep(c, s2, 1);
    ReachesTransitive(c, Init(n), s2, s3);
    assert Complete(c, s3);
  }

  /** Thread 0 loads 0, thread 1 works, thread 0 wipes that out with a 1, thread 1 goes on to w. */
  lemma WipeOut(c: Config, n: nat, w: nat) returns (s: State)
    requires !c.atomic && n >= 2 && 1 <= w < c.k - 1
    ensures Reaches(c, Init(n), s) && Poised(c, n, s, c.k - 1) && s.shared == w
  {
    var a := Init(n);
    var b := Next(c, a, 0);
    ReachesStep(c, a, 0);
    var j := c.k - w;
    var d := Bumped(b, 1, j);
    RunAlone(c, b, 1, j);
    ReachesTransitive(c, a, b, d);
    var e := Next(c, d, 0);
    ReachesStep(c, d, 0);
    ReachesTransitive(c, a, d, e);
    s := Bumped(e, 1, w - 1);
    RunAlone(c, e, 1, w - 1);
    ReachesTransitive(c, a, e, s);
  }

  lemma EveryValueBetween(c: Config, n: nat, v: nat)
    requires !c.atomic && n >= 2 && c.k >= 1 && Least(c) <= v <= n * c.k
    ensures CanEndWith(c, n, v)
  {
    var s;
    if v >= c.k {
      var first := Bumped(Init(n), 1, c.k - 1);
      RunAlone(c, Init(n), 1, c.k - 1);
      TotalConstant(Init(n).threads, 0);
      TotalUpdate(Init(n).threads, 1, Idle(c.k - 1));
      s := RaiseTo(c, n, first, v - 1);
      ReachesTransitive(c, Init(n), first, s);
    } else {
      s := WipeOut(c, n, v - 1);
    }
    LastWord(c, n, s);
  }

  /** The possible outcomes of the race, exactly. */
  lemma OutcomeTheorem(c: Config, n: nat, v: nat)
    requires !c.atomic && n >= 1
    ensures CanEndWith(c, n, v) <==> if n == 1 then v == c.k else Least(c) <= v <= n * c.k
  {
    if CanEndWith(c, n, v) {
      var s :| Reaches(c, Init(n), s) && Complete(c, s) && s.shared == v;
      var schedule :| Legal(c, Init(n), schedule) && Exec(c, Init(n), schedule) == s;
      InitInv(c, n);
      RunInv(c, n, Init(n), schedule);
      TotalConstant(s.threads, c.k);
    }
    if n == 1 || c.k == 0 {
      var s := Bumped(Init(n), 0, c.k);
      RunAlone(c, Init(n), 0, c.k);
      assert Complete(c, s) && s.shared == c.k;
    } else if Least(c) <= v <= n * c.k {
      EveryValueBetween(c, n, v);
    }
  }
}
