/** Who sleeps on the futex of studio 11, and until when. While a thread holds the lock and does nothing
    about it, all others that want the lock can go to sleep without its help; they sleep on until some
    unlocker wakes them, and then all wake up. */
module Sleepers {
  import opened SleepLock

  lemma ExecFirst(s: State, t: nat, rest: seq<nat>)
    requires Enabled(s, t) && Legal(Next(s, t), rest)
    ensures Legal(s, [t] + rest) && Exec(s, [t] + rest) == Exec(Next(s, t), rest)
  {
    assert ([t] + rest)[1..] == rest;
  }

  // Falling asleep

  /** How far the thread is from sleeping on a held lock. */
  function StepsToSleep(s: State, t: nat): nat
    requires t < |s.pc|
  {
    match s.pc[t]
    case Trying => 3
    case Marking => 2
    case Waiting => if s.value == -1 then 1 else 4
    case _ => 0
  }

  /** A step of a thread that wants a held lock leaves it held and brings the thread closer to sleep. */
  lemma SleepStep(s: State, t: nat)
    requires Exclusive(s) && Held(s) && t < |s.pc| && Stranded(s.pc[t]) && !s.pc[t].Asleep?
    ensures Enabled(s, t) && Exclusive(Next(s, t)) && Held(Next(s, t))
    ensures Stranded(Next(s, t).pc[t]) && Next(s, t).pc == s.pc[t := Next(s, t).pc[t]]
    ensures StepsToSleep(Next(s, t), t) < StepsToSleep(s, t)
  {
    var h :| 0 <= h < |s.pc| && Holds(s.pc[h]);
    StepExclusive(s, t);
    assert Next(s, t).pc[h] == s.pc[h];
  }

  /** Left alone with a held lock, a thread that wants it goes to sleep. */
  lemma {:induction false} GoToSleep(s: State, t: nat) returns (schedule: seq<nat>)
    requires Exclusive(s) && Held(s) && t < |s.pc| && Stranded(s.pc[t])
    ensures Legal(s, schedule) && Exec(s, schedule).pc == s.pc[t := Asleep]
    ensures Exclusive(Exec(s, schedule)) && Held(Exec(s, schedule))
    ensures forall i | 0 <= i < |schedule| :: schedule[i] == t
    decreases StepsToSleep(s, t)
  {
    if s.pc[t].Asleep? {
      schedule := [];
    } else {
      SleepStep(s, t);
      var rest := GoToSleep(Next(s, t), t);
      schedule := [t] + rest;
      ExecFirst(s, t, rest);
    }
  }

  /** The threads with all of those below k asleep that want the lock. */
  function Bedded(pcs: seq<Pc>, k: nat): (r: seq<Pc>)
    ensures |r| == |pcs|
    ensures forall t | 0 <= t < |pcs| :: r[t] == if t < k && Stranded(pcs[t]) then Asleep else pcs[t]
  {
    seq(|pcs|, t requires 0 <= t < |pcs| => if t < k && Stranded(pcs[t]) then Asleep else pcs[t])
  }

  lemma OneMoreAsleep(s: State, pcs: seq<Pc>, t: nat) returns (schedule: seq<nat>)
    requires Exclusive(s) && Held(s) && t < |s.pc| == |pcs| && s.pc == Bedded(pcs, t)
    ensures Legal(s, schedule) && Exec(s, schedule).pc == Bedded(pcs, t + 1)
    ensures Exclusive(Exec(s, schedule)) && Held(Exec(s, schedule))
    ensures forall i | 0 <= i < |schedule| :: schedule[i] == t && Stranded(pcs[t])
  {
    schedule := [];
    if Stranded(pcs[t]) {
      schedule := GoToSleep(s, t);
    }
  }

  lemma {:induction false} AllGoToSleep(s: State, k: nat) returns (schedule: seq<nat>)
    requires Exclusive(s) && Held(s) && k <= |s.pc|
    ensures Legal(s, schedule) && Exec(s, schedule).pc == Bedded(s.pc, k)
    ensures Exclusive(Exec(s, schedule)) && Held(Exec(s, schedule))
    ensures forall i | 0 <= i < |schedule| :: schedule[i] < k && Stranded(s.pc[schedule[i]])
  {
    if k == 0 {
      schedule := [];
    } else {
      var first := AllGoToSleep(s, k - 1);
      var last := OneMoreAsleep(Exec(s, first), s.pc, k - 1);
      ExecAppend(s, first, last);
      schedule := first + last;
    }
  }

  /** From every reachable state in which the lock is held, the threads that want it, and they alone, can
      take steps after which all of them are asleep. */
  lemma SleepTheorem(n: nat, schedule: seq<nat>) returns (rest: seq<nat>)
    requires Legal(Init(n), schedule) && Held(Exec(Init(n), schedule))
    ensures var s := Exec(Init(n), schedule);
      Legal(s, rest) && OnlyStranded(s, rest) && Exec(s, rest).pc == Bedded(s.pc, n)
  {
    InitInv(n);
    RunInv(Init(n), schedule);
    var s := Exec(Init(n), schedule);
    rest := AllGoToSleep(s, n);
  }

  /** Only threads that want the lock take steps. */
  predicate OnlyStranded(s: State, schedule: seq<nat>) {
    forall i | 0 <= i < |schedule| :: schedule[i] < |s.pc| && Stranded(s.pc[schedule[i]])
  }

  // Waking up

  /** A thread falls asleep only in its own FUTEX_WAIT, with the word still at -1, and then always does. */
  lemma FallsAsleep(s: State, t: nat, u: nat)
    requires Enabled(s, t) && u < |s.pc| && !s.pc[u].Asleep?
    ensures Next(s, t).pc[u].Asleep? <==> u == t && s.pc[t].Waiting? && s.value == -1
  {
  }

  /** Nobody calls FUTEX_WAKE in the run. */
  predicate NobodyWakes(s: State, schedule: seq<nat>)
    requires Legal(s, schedule)
    decreases schedule
  {
    schedule != [] ==> !s.pc[schedule[0]].Waking? && NobodyWakes(Next(s, schedule[0]), schedule[1..])
  }

  lemma WakesAll(s: State, t: nat)
    requires Enabled(s, t) && s.pc[t].Waking?
    ensures forall u | 0 <= u < |s.pc| :: !Next(s, t).pc[u].Asleep?
  {
  }

  /** A sleeper sleeps on exactly as long as nobody calls FUTEX_WAKE. */
  lemma {:induction false} SleepsUntilWoken(s: State, schedule: seq<nat>, u: nat)
    requires Legal(s, schedule) && u < |s.pc| && s.pc[u].Asleep?
    ensures NobodyWakes(s, schedule) ==> Exec(s, schedule).pc[u].Asleep?
    ensures schedule != [] && s.pc[schedule[0]].Waking? ==> Next(s, schedule[0]).pc[u] == Trying
    decreases schedule
  {
    if schedule != [] && !s.pc[schedule[0]].Waking? {
      SleepsUntilWoken(Next(s, schedule[0]), schedule[1..], u);
    }
  }
}
