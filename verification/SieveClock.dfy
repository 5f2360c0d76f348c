/** What the time stamps and the lock mean, told from the steps of a run: the stamp of a barrier is the time
    of the last arrival there, cross-outs happen between the two stamps, and while a thread holds the lock
    the others leave alone what it protects. */
module SieveClock {
  import opened SieveMachine
  import opened SieveInvariant
  import opened SieveAccounting

  // Times of events

  datatype Event = Arrival | Departure | CrossOut

  /** Thread t's next step is such an event. */
  predicate Makes(c: Config, s: State, t: nat, e: Event)
    requires Shape(c, s) && t < c.threads
  {
    match e
    case Arrival => s.pc[t].Arriving?
    case Departure => s.pc[t].Leaving?
    case CrossOut => s.pc[t].Crossing? && Hits(c, s.pc[t].pos, s.pc[t].at)
  }

  /** Such an event happens at time `now` of the run. */
  predicate Happens(c: Config, s: State, schedule: seq<Choice>, e: Event, now: int)
    requires Shape(c, s) && Legal(c, s, schedule)
    decreases schedule
  {
    schedule != [] &&
    (|| (Makes(c, s, schedule[0].thread, e) && schedule[0].now == now)
     || Happens(c, Next(c, s, schedule[0].thread, schedule[0].now), schedule[1..], e, now))
  }

  /** The stamp the barrier's arrivals leave. */
  function Stamp(s: State, e: Event): int
    requires !e.CrossOut?
  {
    if e.Arrival? then s.startStamp else s.endStamp
  }

  lemma {:induction false} NotBefore(c: Config, s: State, schedule: seq<Choice>, e: Event, now: int)
    requires Shape(c, s) && Legal(c, s, schedule) && Happens(c, s, schedule, e, now)
    ensures s.clock <= now <= Exec(c, s, schedule).clock
    decreases schedule
  {
    var s1 := Next(c, s, schedule[0].thread, schedule[0].now);
    ClockRuns(c, s1, schedule[1..]);
    if !(Makes(c, s, schedule[0].thread, e) && schedule[0].now == now) {
      NotBefore(c, s1, schedule[1..], e, now);
    }
  }

  lemma {:induction false} ClockRuns(c: Config, s: State, schedule: seq<Choice>)
    requires Shape(c, s) && Legal(c, s, schedule)
    ensures s.clock <= Exec(c, s, schedule).clock
    decreases schedule
  {
    if schedule != [] {
      ClockRuns(c, Next(c, s, schedule[0].thread, schedule[0].now), schedule[1..]);
    }
  }

  /** A stamp is the time of an arrival, unless it has never been taken. */
  lemma {:induction false} StampHappens(c: Config, s: State, schedule: seq<Choice>, e: Event)
    requires Shape(c, s) && Legal(c, s, schedule) && !e.CrossOut?
    ensures var stamp := Stamp(Exec(c, s, schedule), e);
      Happens(c, s, schedule, e, stamp) || stamp == Stamp(s, e)
    decreases schedule
  {
    if schedule != [] {
      StampStep(c, s, schedule[0].thread, schedule[0].now, e);
      StampHappens(c, Next(c, s, schedule[0].thread, schedule[0].now), schedule[1..], e);
    }
  }

  /** The stamp of a barrier is the time of the last arrival there. */
  lemma {:induction false} StampIsLast(c: Config, s: State, schedule: seq<Choice>, e: Event, at: int)
    requires Shape(c, s) && Legal(c, s, schedule) && !e.CrossOut? && Happens(c, s, schedule, e, at)
    ensures var stamp := Stamp(Exec(c, s, schedule), e);
      at <= stamp && Happens(c, s, schedule, e, stamp)
    decreases schedule
  {
    var t, now := schedule[0].thread, schedule[0].now;
    var s1, rest := Next(c, s, t, now), schedule[1..];
    StampStep(c, s, t, now, e);
    if Happens(c, s1, rest, e, at) {
      StampIsLast(c, s1, rest, e, at);
    } else {
      StampHappens(c, s1, rest, e);
      var stamp := Stamp(Exec(c, s1, rest), e);
      if Happens(c, s1, rest, e, stamp) {
        NotBefore(c, s1, rest, e, stamp);
      }
    }
  }

  lemma StampStep(c: Config, s: State, t: nat, now: int, e: Event)
    requires Shape(c, s) && Enabled(c, s, t) && !e.CrossOut?
    ensures Stamp(Next(c, s, t, now), e) == if Makes(c, s, t, e) then now else Stamp(s, e)
    ensures Next(c, s, t, now).clock == now
  {
  }

  /** The span in the history covers every cross-out of the run. */
  lemma {:induction false} SpanCovers(c: Config, s: State, schedule: seq<Choice>, at: int)
    requires Shape(c, s) && Legal(c, s, schedule) && Ordered(s)
    requires Includes(s.crossings, at) || Happens(c, s, schedule, CrossOut, at)
    ensures Includes(Exec(c, s, schedule).crossings, at)
    decreases schedule
  {
    if schedule != [] {
      SpanStep(c, s, schedule[0].thread, schedule[0].now, at);
      SpanCovers(c, Next(c, s, schedule[0].thread, schedule[0].now), schedule[1..], at);
    }
  }

  predicate Includes(span: Span, now: int) {
    span.Between? && span.first <= now <= span.last
  }

  predicate Ordered(s: State) {
    s.crossings.Between? ==> s.crossings.first <= s.crossings.last <= s.clock
  }

  lemma SpanStep(c: Config, s: State, t: nat, now: int, at: int)
    requires Shape(c, s) && Enabled(c, s, t) && Ordered(s) && now >= s.clock
    ensures var s' := Next(c, s, t, now);
      && Ordered(s')
      && (Includes(s.crossings, at) || (Makes(c, s, t, CrossOut) && at == now) ==> Includes(s'.crossings, at))
  {
  }

  // The lock

  /** The next step of thread t crosses out while another thread holds the lock. */
  predicate Races(c: Config, s: State, t: nat)
    requires Shape(c, s)
  {
    Enabled(c, s, t) && s.lock.Held? && s.lock.holder != t && Makes(c, s, t, CrossOut)
  }

  /** While a thread holds the lock, the others can only leave the first barrier, test the bound, leave their
      cross-out loop or, in the lock-free sieves, cross out. They do not touch the cursor, the barriers or the
      stamps, nor, unless the sieve is lock-free, the array. */
  lemma LockProtects(c: Config, s: State, t: nat, now: int)
    requires Inv(c, s) && s.lock.Held? && t < c.threads && t != s.lock.holder
    ensures Enabled(c, s, t) <==>
      s.pc[t].Waiting? || s.pc[t].Checking? || (s.pc[t].Crossing? && (c.lockFree || !Makes(c, s, t, CrossOut)))
    ensures Enabled(c, s, t) ==> var s' := Next(c, s, t, now);
      && s'.lock == s.lock && s'.cur == s.cur && s'.arrived == s.arrived && s'.done == s.done
      && s'.startStamp == s.startStamp && s'.endStamp == s.endStamp
      && (c.lockFree || s'.number == s.number)
  {
    var u := s.lock.holder;
    assert s.pc[u].Skipping? && PastFirstBarrier(s.pc[u]);
    SumBounds(Arrivals, s.pc, 1, 2);
    assert s.pc[u] in s.pc;
    BarrierSafety(c, s);
  }
}
