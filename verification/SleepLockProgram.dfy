/** The sleep lock as the program keeps it: the lock word and the threads' positions, updated in place by
    one method per atomic operation, store and futex call. Each method is proved to be the step that
    module SleepLock reasons about. */
module SleepLockProgram {
  import opened SleepLock

  class Team {
    var mylock: int
    const pc: array<Pc>

    ghost function Snapshot(): State
      reads this, pc
    {
      State(mylock, pc[..])
    }

    /** n threads and a free lock. */
    constructor (n: nat)
      ensures fresh(pc) && Snapshot() == Init(n)
    {
      mylock := 1;
      pc := new Pc[n](_ => Trying);
    }

    /** lock: subtract one; the lock is taken over unless the result is negative. */
    method SubFetch(t: nat)
      requires Enabled(Snapshot(), t) && pc[t].Trying?
      modifies this, pc
      ensures Snapshot() == Next(old(Snapshot()), t)
    {
      mylock := mylock - 1;
      pc[t] := if mylock < 0 then Marking else Critical;
    }

    /** lock: store -1, whatever the word has become since. */
    method StoreTaken(t: nat)
      requires Enabled(Snapshot(), t) && pc[t].Marking?
      modifies this, pc
      ensures Snapshot() == Next(old(Snapshot()), t)
    {
      mylock := -1;
      pc[t] := Waiting;
    }

    /** lock: FUTEX_WAIT sleeps only if the word is still -1. */
    method FutexWait(t: nat)
      requires Enabled(Snapshot(), t) && pc[t].Waiting?
      modifies pc
      ensures Snapshot() == Next(old(Snapshot()), t)
    {
      pc[t] := if mylock == -1 then Asleep else Trying;
    }

    /** unlock: add one; anything but 1 means somebody may be waiting. */
    method AddFetch(t: nat)
      requires Enabled(Snapshot(), t) && pc[t].Critical?
      modifies this, pc
      ensures Snapshot() == Next(old(Snapshot()), t)
    {
      mylock := mylock + 1;
      pc[t] := if mylock != 1 then Releasing else Finished;
    }

    /** unlock: store 1. */
    method StoreFree(t: nat)
      requires Enabled(Snapshot(), t) && pc[t].Releasing?
      modifies this, pc
      ensures Snapshot() == Next(old(Snapshot()), t)
    {
      mylock := 1;
      pc[t] := Waking;
    }

    /** unlock: FUTEX_WAKE sends every sleeper back to its attempt. */
    method FutexWake(t: nat)
      requires Enabled(Snapshot(), t) && pc[t].Waking?
      modifies pc
      ensures Snapshot() == Next(old(Snapshot()), t)
    {
      for i := 0 to pc.Length
        invariant forall u | 0 <= u < i :: pc[u] == if old(pc[u]).Asleep? then Trying else old(pc[u])
        invariant forall u | i <= u < pc.Length :: pc[u] == old(pc[u])
      {
        if pc[i].Asleep? {
          pc[i] := Trying;
        }
      }
      pc[t] := Finished;
      assert pc[..] == WakeAll(old(pc[..]))[t := Finished];
    }

    method Step(t: nat)
      requires Enabled(Snapshot(), t)
      modifies this, pc
      ensures Snapshot() == Next(old(Snapshot()), t)
    {
      match pc[t] {
        case Trying => SubFetch(t);
        case Marking => StoreTaken(t);
        case Waiting => FutexWait(t);
        case Critical => AddFetch(t);
        case Releasing => StoreFree(t);
        case Waking => FutexWake(t);
      }
    }

    /** The threads run under a scheduler's choices. */
    method Run(schedule: seq<nat>)
      requires Legal(Snapshot(), schedule)
      modifies this, pc
      ensures Snapshot() == Exec(old(Snapshot()), schedule)
    {
      for i := 0 to |schedule|
        invariant Legal(Snapshot(), schedule[i..])
        invariant Exec(Snapshot(), schedule[i..]) == Exec(old(Snapshot()), schedule)
      {
        assert schedule[i..][1..] == schedule[i + 1..];
        Step(schedule[i]);
      }
    }
  }

  /** main: a team locks, works and unlocks. If every thread gets through, the lock is free again; if
      the lock was lost on the way, they do not all get through, now or later. */
  method Parallel(n: nat, schedule: seq<nat>) returns (value: int, ghost s: State)
    requires Legal(Init(n), schedule)
    ensures s == Exec(Init(n), schedule) && value == s.value
    ensures AllFinished(s) ==> value == 1
    ensures Doomed(s) ==> forall rest | Legal(s, rest) :: !AllFinished(Exec(s, rest))
    ensures n >= 1 ==> 0 <= value + n && value <= 1
  {
    var team := new Team(n);
    team.Run(schedule);
    value, s := team.mylock, team.Snapshot();
    InitInv(n);
    RunInv(Init(n), schedule);
    CompletionTheorem(n, schedule);
    if n >= 1 {
      SafetyTheorem(n, schedule);
    }
  }
}
