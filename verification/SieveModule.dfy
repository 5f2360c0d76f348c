/** The kernel module itself: arrays and counters updated in place, one method per atomic step of a
    thread, initialisation, and the reporting pass. Each step method is proved to be the machine's
    step, so everything proved about runs holds of the module's arrays. */
module SieveModule {
  import opened SieveMachine
  import opened SieveInvariant
  import opened SieveExactness
  import opened SieveAbandonment
  import opened SieveAccounting
  import opened SieveReport
  import opened SieveTheorems
  import opened SundaramFigure
  import opened SundaramRuns

  /** What showinfo prints. */
  datatype Info = Info(listing: seq<int>, primes: nat, nonPrimes: int, crossouts: nat, unnecessary: int)

  datatype Report = TooEarly | Printed(info: Info)

  class Sieve {
    const c: Config
    const number: array<int>
    const counter: array<nat>
    const pc: array<Pc>
    var cur: nat
    var lock: Owner
    var arrived: nat
    var done: nat
    var startStamp: int
    var endStamp: int
    var clock: int
    ghost var kept: set<nat>
    ghost var dropped: set<nat>
    ghost var crossings: Span

    ghost predicate Valid()
      reads this, number, counter, pc
    {
      && c.Valid()
      && number.Length == c.Cells()
      && counter.Length == pc.Length == c.threads
    }

    ghost function Snapshot(): State
      reads this, number, counter, pc
    {
      State(number[..], cur, lock, arrived, done, counter[..], pc[..],
            startStamp, endStamp, clock, kept, dropped, crossings)
    }

    /** simple_init for checked parameters. */
    constructor (c: Config)
      requires c.Valid()
      ensures Valid() && this.c == c && fresh(number) && fresh(counter) && fresh(pc)
      ensures Snapshot() == Init(c)
    {
      this.c := c;
      number := new int[c.Cells()];
      counter := new nat[c.threads];
      pc := new Pc[c.threads](_ => Arriving);
      cur, arrived, done, lock := c.Start(), 0, 0, Free;
      startStamp, endStamp, clock := 0, 0, 0;
      kept, dropped, crossings := {}, {}, Never;
      new;
      for index := 0 to number.Length
        invariant forall i | 0 <= i < index :: number[i] == c.InitialValue(i)
        invariant pc[..] == Init(c).pc
        modifies number
      {
        number[index] := c.InitialValue(index);
      }
      for index := 0 to counter.Length
        invariant forall i | 0 <= i < index :: counter[i] == 0
        invariant number[..] == Init(c).number && pc[..] == Init(c).pc
        modifies counter
      {
        counter[index] := 0;
      }
    }

    /** mybarrier up to its unlock: count the arrival, stamp the time. */
    method EnterBarrier(t: nat, now: int)
      requires Valid() && Enabled(c, Snapshot(), t) && (pc[t].Arriving? || pc[t].Leaving?)
      modifies this, pc
      ensures Valid() && Snapshot() == Next(c, old(Snapshot()), t, now)
    {
      clock := now;
      arrived := arrived + 1;
      if pc[t].Arriving? {
        startStamp := now;
        pc[t] := Waiting;
      } else {
        endStamp := now;
        pc[t] := Parting;
      }
    }

    /** mybarrier's busy wait lets the thread through. */
    method PassBarrier(t: nat, now: int)
      requires Valid() && Enabled(c, Snapshot(), t) && (pc[t].Waiting? || pc[t].Parting?)
      modifies this, pc
      ensures Valid() && Snapshot() == Next(c, old(Snapshot()), t, now)
    {
      clock := now;
      pc[t] := if pc[t].Waiting? then Claiming else Finishing;
    }

    /** compute: take the lock, remember the cursor and advance it. */
    method Claim(t: nat, now: int)
      requires Valid() && Enabled(c, Snapshot(), t) && pc[t].Claiming?
      modifies this, pc
      ensures Valid() && Snapshot() == Next(c, old(Snapshot()), t, now)
    {
      clock := now;
      lock := Held(t);
      pc[t] := Skipping(cur);
      cur := cur + 1;
    }

    /** compute: one turn of the skip loop, or the unlock that follows it. */
    method Skip(t: nat, now: int)
      requires Valid() && Enabled(c, Snapshot(), t) && pc[t].Skipping?
      modifies this, pc
      ensures Valid() && Snapshot() == Next(c, old(Snapshot()), t, now)
    {
      clock := now;
      AtEndIsCap(c, cur);
      if !c.AtEnd(cur) && number[cur] == 0 {
        cur := cur + 1;
      } else {
        pc[t] := Checking(pc[t].pos, cur);
        lock := Free;
      }
    }

    /** compute: the bound check after the unlock. */
    method CheckBound(t: nat, now: int)
      requires Valid() && Enabled(c, Snapshot(), t) && pc[t].Checking?
      modifies this, pc
      ensures Valid() && Snapshot() == Next(c, old(Snapshot()), t, now)
    {
      clock := now;
      var pos, left := pc[t].pos, pc[t].left;
      if c.AtEnd(if c.literal then cur else left) {
        dropped := dropped + {pos};
        pc[t] := Leaving;
      } else {
        kept := kept + {pos};
        pc[t] := Crossing(pos, c.First(pos));
      }
    }

    /** compute: one turn of the cross-out loop, or its exit. */
    method CrossOut(t: nat, now: int)
      requires Valid() && Enabled(c, Snapshot(), t) && pc[t].Crossing?
      modifies this, number, counter, pc
      ensures Valid() && Snapshot() == Next(c, old(Snapshot()), t, now)
    {
      clock := now;
      var pos, at := pc[t].pos, pc[t].at;
      if c.Guard(at) {
        if c.Cell(pos, at) < c.Cells() {
          number[c.Cell(pos, at)] := 0;
          counter[t] := counter[t] + 1;
          crossings := Widen(crossings, now);
        }
        pc[t] := Crossing(pos, c.After(pos, at));
      } else {
        pc[t] := Claiming;
      }
    }

    /** mythread_func: report completion. */
    method Finish(t: nat, now: int)
      requires Valid() && Enabled(c, Snapshot(), t) && pc[t].Finishing?
      modifies this, pc
      ensures Valid() && Snapshot() == Next(c, old(Snapshot()), t, now)
    {
      clock := now;
      done := done + 1;
      pc[t] := Finished;
    }

    method Step(t: nat, now: int)
      requires Valid() && Enabled(c, Snapshot(), t)
      modifies this, number, counter, pc
      ensures Valid() && Snapshot() == Next(c, old(Snapshot()), t, now)
    {
      match pc[t] {
        case Arriving | Leaving => EnterBarrier(t, now);
        case Waiting | Parting => PassBarrier(t, now);
        case Claiming => Claim(t, now);
        case Skipping(_) => Skip(t, now);
        case Checking(_, _) => CheckBound(t, now);
        case Crossing(_, _) => CrossOut(t, now);
        case Finishing => Finish(t, now);
      }
    }

    /** The threads run under a scheduler's choices. */
    method Run(schedule: seq<Choice>)
      requires Valid() && Legal(c, Snapshot(), schedule)
      modifies this, number, counter, pc
      ensures Valid() && Snapshot() == Exec(c, old(Snapshot()), schedule)
    {
      for i := 0 to |schedule|
        invariant Valid() && Legal(c, Snapshot(), schedule[i..])
        invariant Exec(c, Snapshot(), schedule[i..]) == Exec(c, old(Snapshot()), schedule)
      {
        assert schedule[i..][1..] == schedule[i + 1..];
        Step(schedule[i].thread, schedule[i].now);
      }
    }

    /** showinfo of the Sundaram sieves: replace indices by the odd numbers they stand for. */
    method Rewrite()
      requires Valid() && c.kind.Sundaram?
      modifies number
      ensures number[..] == Rewritten(old(number[..]))
    {
      var tmp := new int[number.Length](_ => 0);
      for index := 1 to number.Length
        invariant number[..] == old(number[..])
        invariant forall k | 0 <= k < tmp.Length ::
          tmp[k] == if k >= 3 && k % 2 == 1 && k / 2 < index && number[k / 2] != 0 then k else 0
      {
        if number[index] != 0 {
          var i := index * 2 + 1;
          if i < number.Length {
            tmp[i] := i;
          }
        }
      }
      for index := 1 to number.Length
        invariant number[0] == old(number[0])
        invariant forall k | 1 <= k < index :: number[k] == tmp[k]
        modifies number
      {
        number[index] := tmp[index];
      }
      number[2] := 2;
    }

    /** showinfo's count of the non-zero cells from `first` on. */
    method CountNonZero(first: nat) returns (count: nat)
      requires first <= number.Length
      ensures count == |NonZero(number[first..])|
    {
      count := 0;
      for index := first to number.Length
        invariant count == |NonZero(number[first..][..index - first])|
      {
        NonZeroSnoc(number[first..], index - first);
        if number[index] != 0 {
          count := count + 1;
        }
      }
      assert number[first..][..number.Length - first] == number[first..];
    }

    /** showinfo's sum of the threads' counters. */
    method AddCounters() returns (sum: nat)
      ensures sum == Total(counter[..])
    {
      sum := 0;
      for t := 0 to counter.Length
        invariant sum + Total(counter[t..]) == Total(counter[..])
      {
        sum := sum + counter[t];
      }
    }

    /** showinfo's list of the non-zero cells from `first` on. */
    method ListNonZero(first: nat) returns (listing: seq<int>)
      requires first <= number.Length
      ensures listing == NonZero(number[first..])
    {
      listing := [];
      for index := first to number.Length
        invariant listing == NonZero(number[first..][..index - first])
      {
        NonZeroSnoc(number[first..], index - first);
        if number[index] != 0 {
          listing := listing + [number[index]];
        }
      }
      assert number[first..][..number.Length - first] == number[first..];
    }

    /** showinfo: rewrite if need be, count the non-zero cells, add up the counters, list the primes. */
    method ShowInfo() returns (info: Info)
      requires Valid()
      modifies number
      ensures info.listing == NonZero(Printable(c, old(number[..])))
      ensures info.primes == |info.listing| && info.crossouts == Total(counter[..])
      ensures info.nonPrimes == (if c.kind.Eratosthenes? then c.bound - 1 else c.bound) - info.primes
      ensures info.unnecessary == info.crossouts - info.nonPrimes
    {
      if c.kind.Sundaram? {
        Rewrite();
      }
      assert number[c.Start()..] == Printable(c, old(number[..]));
      var primes := CountNonZero(c.Start());
      var crossouts := AddCounters();
      var listing := ListNonZero(c.Start());
      var nonPrimes := (if c.kind.Eratosthenes? then c.bound - 1 else c.bound) - primes;
      info := Info(listing, primes, nonPrimes, crossouts, crossouts - nonPrimes);
    }

    /** simple_exit: report only once every thread has added itself to done. */
    method SimpleExit() returns (report: Report)
      requires Valid()
      modifies number
      ensures report.TooEarly? <==> done != c.threads
      ensures report.TooEarly? ==> number[..] == old(number[..])
      ensures report.Printed? ==>
        && report.info.listing == NonZero(Printable(c, old(number[..])))
        && report.info.primes == |report.info.listing| && report.info.crossouts == Total(counter[..])
        && report.info.nonPrimes == (if c.kind.Eratosthenes? then c.bound - 1 else c.bound) - report.info.primes
        && report.info.unnecessary == report.info.crossouts - report.info.nonPrimes
    {
      if done != c.threads {
        report := TooEarly;
      } else {
        var info := ShowInfo();
        report := Printed(info);
      }
    }
  }

  /** simple_init: refuses parameters it cannot work with. `done` is num_threads until everything is set
      up, so a refused module looks finished to simple_exit although it has no arrays. */
  method SimpleInit(kind: Kind, threads: nat, bound: nat, literal: bool, lockFree: bool)
    returns (sieve: Sieve?, done: nat)
    ensures sieve == null <==> threads < 1 || bound < 2
    ensures sieve == null ==> done == threads
    ensures sieve != null ==>
      && fresh(sieve) && fresh(sieve.number) && fresh(sieve.counter) && fresh(sieve.pc)
      && sieve.c == Config(kind, threads, bound, literal, lockFree) && sieve.Snapshot() == Init(sieve.c)
      && done == sieve.done
  {
    done := threads;
    if threads < 1 {
      return null, done;
    }
    if bound < 2 {
      return null, done;
    }
    sieve := new Sieve(Config(kind, threads, bound, literal, lockFree));
    done := sieve.done;
  }

  /** Loading the module, running its threads under any schedule and unloading it. The report comes
      exactly when all threads have finished; with a faithful bound check it lists the primes up to the
      bound, and for Eratosthenes the figures add up. */
  method Lifetime(c: Config, schedule: seq<Choice>) returns (report: Report)
    requires c.Valid() && Legal(c, Init(c), schedule)
    ensures report.Printed? <==> CompleteRun(c, schedule)
    ensures report.Printed? && (!c.literal || c.threads == 1 || c.bound < FirstFragileBound(c)) ==>
              report.info.listing == PrimesUpTo(c.bound)
    ensures report.Printed? && c.kind.Eratosthenes? ==>
              && report.info.primes + report.info.nonPrimes == c.bound - 1
              && report.info.nonPrimes == ZeroCells(Exec(c, Init(c), schedule).number)
              && report.info.unnecessary >= 0
    ensures report.Printed? && c.kind.Sundaram? ==>
              && report.info.primes + report.info.nonPrimes == c.bound
              && (var s := Exec(c, Init(c), schedule);
                  report.info.unnecessary == OddMultiples(c.bound, s.kept, s.cur) - report.info.nonPrimes)
    ensures report.Printed? && c.kind.Sundaram? ==>
              report.info.unnecessary == Figure(c.bound, Exec(c, Init(c), schedule).kept)
    ensures report.Printed? && c.kind.Sundaram? && Pays(c.bound, Losers(c)) ==> report.info.unnecessary >= 0
  {
    var sieve := new Sieve(c);
    sieve.Run(schedule);
    DoneMeansComplete(c, schedule);
    report := sieve.SimpleExit();
    if report.Printed? {
      FiguresAddUp(c, schedule);
    }
  }

  lemma DoneMeansComplete(c: Config, schedule: seq<Choice>)
    requires c.Valid() && Legal(c, Init(c), schedule)
    ensures Exec(c, Init(c), schedule).done == c.threads <==> CompleteRun(c, schedule)
  {
    Reachable(c, schedule);
    BarrierSafety(c, Exec(c, Init(c), schedule));
  }

  /** What the report's figures are after a complete run. */
  lemma FiguresAddUp(c: Config, schedule: seq<Choice>)
    requires c.Valid() && CompleteRun(c, schedule)
    ensures var s := Exec(c, Init(c), schedule);
      && (!c.literal || c.threads == 1 || c.bound < FirstFragileBound(c) ==>
            NonZero(Printable(c, s.number)) == PrimesUpTo(c.bound))
      && (c.kind.Eratosthenes? ==> NonPrimes(c, s.number) == ZeroCells(s.number) && Unnecessary(c, s) >= 0)
      && (c.kind.Sundaram? ==>
            && Unnecessary(c, s) == OddMultiples(c.bound, s.kept, s.cur) - NonPrimes(c, s.number)
            && Unnecessary(c, s) == Figure(c.bound, s.kept)
            && (Pays(c.bound, Losers(c)) ==> Unnecessary(c, s) >= 0))
  {
    var s := Exec(c, Init(c), schedule);
    ExactnessTheorem(c);
    if Exact(c, s.number) {
      ExactListing(c, s.number);
    }
    if c.kind.Eratosthenes? {
      AccountingTheorem(c, schedule);
      ZeroOrListed(s.number);
    } else {
      FigureOfRun(c, schedule);
      FigureTheorem(c);
    }
  }
}
