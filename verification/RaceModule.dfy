/** The kernel modules of studio 10 with their shared counter updated in place: race.c by a load and a
    store, atomic_race.c by one atomic addition. */
module RaceModule {
  import opened LostUpdate

  class Counter {
    const c: Config
    var shared: nat
    const threads: array<Thread>

    ghost function Snapshot(): State
      reads this, threads
    {
      State(shared, threads[..])
    }

    /** n threads that have not incremented yet. */
    constructor (c: Config, n: nat)
      ensures this.c == c && fresh(threads) && Snapshot() == Init(n)
    {
      this.c := c;
      shared := 0;
      threads := new Thread[n](_ => Idle(0));
    }

    /** race.c, first half of the increment: the counter goes into a register. */
    method Load(t: nat)
      requires Enabled(c, Snapshot(), t) && !c.atomic && threads[t].Idle?
      modifies threads
      ensures Snapshot() == Next(c, old(Snapshot()), t)
    {
      threads[t] := Loaded(threads[t].count, shared);
    }

    /** race.c, second half: the register plus one goes back. */
    method Store(t: nat)
      requires Enabled(c, Snapshot(), t) && threads[t].Loaded?
      modifies this, threads
      ensures Snapshot() == Next(c, old(Snapshot()), t)
    {
      shared := threads[t].reg + 1;
      threads[t] := Idle(threads[t].count + 1);
    }

    /** atomic_race.c. */
    method AtomicAdd(t: nat)
      requires Enabled(c, Snapshot(), t) && c.atomic && threads[t].Idle?
      modifies this, threads
      ensures Snapshot() == Next(c, old(Snapshot()), t)
    {
      shared := shared + 1;
      threads[t] := Idle(threads[t].count + 1);
    }

    method Run(schedule: seq<nat>)
      requires Legal(c, Snapshot(), schedule)
      modifies this, threads
      ensures Snapshot() == Exec(c, old(Snapshot()), schedule)
    {
      for i := 0 to |schedule|
        invariant Legal(c, Snapshot(), schedule[i..])
        invariant Exec(c, Snapshot(), schedule[i..]) == Exec(c, old(Snapshot()), schedule)
      {
        assert schedule[i..][1..] == schedule[i + 1..];
        var t := schedule[i];
        if threads[t].Loaded? {
          Store(t);
        } else if c.atomic {
          AtomicAdd(t);
        } else {
          Load(t);
        }
      }
    }
  }

  /** One round of k increments in each of n threads, and the value printed at the end. */
  method Round(c: Config, n: nat, schedule: seq<nat>) returns (shared: nat)
    requires n >= 1 && Legal(c, Init(n), schedule) && Complete(c, Exec(c, Init(n), schedule))
    ensures Least(c) <= shared <= n * c.k
    ensures c.atomic || n == 1 ==> shared == n * c.k
  {
    var counter := new Counter(c, n);
    counter.Run(schedule);
    shared := counter.shared;
    InitInv(c, n);
    RunInv(c, n, Init(n), schedule);
    TotalConstant(Exec(c, Init(n), schedule).threads, c.k);
  }
}
