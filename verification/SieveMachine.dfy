/** The four concurrent sieves of project 2 as one step machine. A configuration picks the index
    arithmetic (Eratosthenes or Sundaram), whether cross-outs take the lock (`lockFree`), and whether
    the bound check after the unlock reads the shared cursor, as the code does (`literal`), or the
    value the thread's own locked region left there. Every lock acquisition, iteration of the skip
    loop, bound check, cross-out and barrier poll is a step of its own. */
module SieveMachine {
  import opened Primes

  datatype Kind = Eratosthenes | Sundaram

  datatype Config = Config(kind: Kind, threads: nat, bound: nat, literal: bool, lockFree: bool) {

    /** What simple_init demands of the module parameters. */
    predicate Valid() {
      threads >= 1 && bound >= 2
    }

    /** Length of the number array. */
    function Cells(): nat
      requires Valid()
    {
      if kind.Eratosthenes? then bound - 1 else bound + 1
    }

    function InitialValue(i: nat): nat {
      if kind.Eratosthenes? then i + 2 else i
    }

    function Start(): nat {
      if kind.Eratosthenes? then 0 else 1
    }

    predicate AtEnd(cur: nat)
      requires Valid()
    {
      if kind.Eratosthenes? then cur >= bound - 1 else cur * 4 > bound
    }

    /** The first cursor value at which AtEnd holds. */
    function Cap(): nat
      requires Valid()
    {
      if kind.Eratosthenes? then bound - 1 else bound / 4 + 1
    }

    // The cross-out loop of the claim `pos`: its first index, guard, stride and the cell it hits.

    function First(pos: nat): nat {
      if kind.Eratosthenes? then pos + (pos + 2) else pos
    }

    predicate Guard(at: nat)
      requires Valid()
    {
      if kind.Eratosthenes? then at < bound - 1 else at <= bound / 4
    }

    function After(pos: nat, at: nat): nat {
      if kind.Eratosthenes? then at + (pos + 2) else at + 1
    }

    function Cell(pos: nat, at: nat): nat {
      if kind.Eratosthenes? then at else at + pos + 2 * (pos * at)
    }
  }

  datatype Owner = Free | Held(holder: nat)

  /** Where a thread is, with its live local variables. */
  datatype Pc =
    | Arriving                          // about to enter mybarrier(0)
    | Waiting                           // spinning in mybarrier(0)
    | Claiming                          // about to lock and claim a position
    | Skipping(pos: nat)                // in the skip loop, lock held
    | Checking(pos: nat, left: nat)     // unlocked, about to test the bound; `left` is the cursor it left
    | Crossing(pos: nat, at: nat)       // in the cross-out loop
    | Leaving                           // about to enter mybarrier(1)
    | Parting                           // spinning in mybarrier(1)
    | Finishing                         // about to add to done
    | Finished

  datatype Span = Never | Between(first: int, last: int)

  /** The shared variables, each thread's position, and a history: which claims were crossed out
      (`kept`), which were given up (`dropped`), and when the first and last cross-out happened. */
  datatype State = State(
    number: seq<int>, cur: nat, lock: Owner, arrived: nat, done: nat, counter: seq<nat>, pc: seq<Pc>,
    startStamp: int, endStamp: int, clock: int,
    kept: set<nat>, dropped: set<nat>, crossings: Span)

  function Init(c: Config): State
    requires c.Valid()
  {
    State(seq(c.Cells(), i requires i >= 0 => c.InitialValue(i)), c.Start(), Free, 0, 0,
          seq(c.threads, _ => 0), seq(c.threads, _ => Arriving), 0, 0, 0, {}, {}, Never)
  }

  predicate Shape(c: Config, s: State) {
    && c.Valid()
    && |s.number| == c.Cells()
    && |s.counter| == |s.pc| == c.threads
  }

  predicate Hits(c: Config, pos: nat, at: nat)
    requires c.Valid()
  {
    c.Guard(at) && c.Cell(pos, at) < c.Cells()
  }

  /** Whether thread t can take its next step: a lock acquisition needs the lock free, a barrier
      lets a thread through once enough have arrived. */
  predicate Enabled(c: Config, s: State, t: nat)
    requires Shape(c, s)
  {
    t < c.threads &&
    match s.pc[t]
    case Arriving => s.lock.Free?
    case Waiting => s.arrived >= c.threads
    case Claiming => s.lock.Free?
    case Skipping(_) => true
    case Checking(_, _) => true
    case Crossing(pos, at) => c.lockFree || s.lock.Free? || !Hits(c, pos, at)
    case Leaving => s.lock.Free?
    case Parting => s.arrived >= 2 * c.threads
    case Finishing => true
    case Finished => false
  }

  function Widen(span: Span, now: int): Span {
    match span
    case Never => Between(now, now)
    case Between(first, _) => Between(first, now)
  }

  /** The step of thread t at time `now`. */
  function Next(c: Config, s: State, t: nat, now: int): (s': State)
    requires Shape(c, s) && Enabled(c, s, t)
    ensures Shape(c, s')
  {
    var s := s.(clock := now);
    match s.pc[t]
    case Arriving =>
      s.(arrived := s.arrived + 1, startStamp := now, pc := s.pc[t := Waiting])
    case Waiting =>
      s.(pc := s.pc[t := Claiming])
    case Claiming =>
      s.(lock := Held(t), cur := s.cur + 1, pc := s.pc[t := Skipping(s.cur)])
    case Skipping(pos) =>
      if !c.AtEnd(s.cur) && s.number[s.cur] == 0
      then s.(cur := s.cur + 1)
      else s.(lock := Free, pc := s.pc[t := Checking(pos, s.cur)])
    case Checking(pos, left) =>
      if c.AtEnd(if c.literal then s.cur else left)
      then s.(dropped := s.dropped + {pos}, pc := s.pc[t := Leaving])
      else s.(kept := s.kept + {pos}, pc := s.pc[t := Crossing(pos, c.First(pos))])
    case Crossing(pos, at) =>
      if !c.Guard(at) then s.(pc := s.pc[t := Claiming])
      else
        var s := s.(pc := s.pc[t := Crossing(pos, c.After(pos, at))]);
        if Hits(c, pos, at)
        then s.(number := s.number[c.Cell(pos, at) := 0], counter := s.counter[t := s.counter[t] + 1],
                crossings := Widen(s.crossings, now))
        else s
    case Leaving =>
      s.(arrived := s.arrived + 1, endStamp := now, pc := s.pc[t := Parting])
    case Parting =>
      s.(pc := s.pc[t := Finishing])
    case Finishing =>
      s.(done := s.done + 1, pc := s.pc[t := Finished])
  }

  // Runs

  datatype Choice = Choice(thread: nat, now: int)

  /** A schedule picks an enabled thread at every step, at times that never run backwards. */
  predicate Legal(c: Config, s: State, schedule: seq<Choice>)
    requires Shape(c, s)
    decreases schedule
  {
    schedule != [] ==>
      && Enabled(c, s, schedule[0].thread)
      && schedule[0].now >= s.clock
      && Legal(c, Next(c, s, schedule[0].thread, schedule[0].now), schedule[1..])
  }

  function Exec(c: Config, s: State, schedule: seq<Choice>): (s': State)
    requires Shape(c, s) && Legal(c, s, schedule)
    ensures Shape(c, s')
    decreases schedule
  {
    if schedule == [] then s
    else Exec(c, Next(c, s, schedule[0].thread, schedule[0].now), schedule[1..])
  }

  predicate AllFinished(s: State) {
    forall t | 0 <= t < |s.pc| :: s.pc[t].Finished?
  }

  lemma {:induction false} ExecAppend(c: Config, s: State, a: seq<Choice>, b: seq<Choice>)
    requires Shape(c, s) && Legal(c, s, a) && Legal(c, Exec(c, s, a), b)
    ensures Legal(c, s, a + b) && Exec(c, s, a + b) == Exec(c, Exec(c, s, a), b)
    decreases a
  {
    if a == [] {
      assert a + b == b;
    } else {
      ExecAppend(c, Next(c, s, a[0].thread, a[0].now), a[1..], b);
      assert (a + b)[1..] == a[1..] + b;
    }
  }

  // Number theory of the cross-out loops

  /** `at` is a value the loop variable of claim `pos` takes. */
  predicate OnTrack(c: Config, pos: nat, at: nat) {
    if c.kind.Eratosthenes? then at > pos && Divides(pos + 2, at + 2) else at >= pos
  }

  ghost predicate Crosses(c: Config, pos: nat, i: nat)
    requires c.Valid()
  {
    exists at: nat :: OnTrack(c, pos, at) && c.Guard(at) && c.Cell(pos, at) == i
  }

  lemma AtEndIsCap(c: Config, cur: nat)
    requires c.Valid()
    ensures c.AtEnd(cur) <==> cur >= c.Cap()
    ensures c.Start() <= c.Cap() <= c.Cells()
  {
  }

  lemma NearMultiples(d: nat, a: nat, b: nat)
    requires d > 0 && Divides(d, a) && Divides(d, b) && a < b
    ensures a + d <= b
  {
    assert a == d * (a / d) && b == d * (b / d);
    assert d * (b / d - a / d) > 0;
    MultipleSteps(d, b / d - a / d);
  }

  lemma TrackStart(c: Config, pos: nat)
    ensures OnTrack(c, pos, c.First(pos))
    ensures forall at: nat | OnTrack(c, pos, at) :: at >= c.First(pos)
  {
    MultipleIsDivided(pos + 2, 2);
    MultipleIsDivided(pos + 2, 1);
    forall at: nat | OnTrack(c, pos, at)
      ensures at >= c.First(pos)
    {
      if c.kind.Eratosthenes? {
        NearMultiples(pos + 2, pos + 2, at + 2);
      }
    }
  }

  lemma TrackStep(c: Config, pos: nat, at: nat)
    requires OnTrack(c, pos, at)
    ensures c.After(pos, at) > at && OnTrack(c, pos, c.After(pos, at))
    ensures forall at': nat | OnTrack(c, pos, at') && at' > at :: at' >= c.After(pos, at)
  {
    var d := pos + 2;
    if c.kind.Eratosthenes? {
      assert at + 2 + d == d * ((at + 2) / d + 1);
      MultipleIsDivided(d, (at + 2) / d + 1);
      forall at': nat | OnTrack(c, pos, at') && at' > at
        ensures at' >= c.After(pos, at)
      {
        NearMultiples(d, at + 2, at' + 2);
      }
    }
  }

  /** The number a cell stands for: the sieves look for the primes among these. */
  function Represents(c: Config, i: nat): nat {
    if c.kind.Eratosthenes? then i + 2 else 2 * i + 1
  }

  /** What a claim crosses out: the larger multiples of its number, respectively the products of its odd
      number and another one at least as large whose index is within a quarter of the bound. */
  lemma CrossesMeans(c: Config, pos: nat, i: nat)
    requires c.Valid()
    ensures c.kind.Eratosthenes? ==> (Crosses(c, pos, i) <==> pos < i < c.bound - 1 && Divides(pos + 2, i + 2))
    ensures c.kind.Sundaram? ==> (Crosses(c, pos, i) <==>
      exists at: nat :: pos <= at <= c.bound / 4 && OddFactors(pos, at, i))
  {
    if c.kind.Eratosthenes? {
      assert Crosses(c, pos, i) <== OnTrack(c, pos, i) && c.Guard(i);
    } else {
      forall at: nat
        ensures c.Cell(pos, at) == i <==> OddFactors(pos, at, i)
      {
        assert (2 * pos + 1) * (2 * at + 1) == 4 * (pos * at) + 2 * pos + 2 * at + 1;
      }
    }
  }

  predicate OddFactors(pos: nat, at: nat, i: nat) {
    2 * i + 1 == (2 * pos + 1) * (2 * at + 1)
  }

  /** No cross-out hits a cell that stands for a prime. */
  lemma PrimesAreNotCrossed(c: Config, pos: nat, i: nat)
    requires c.Valid() && pos >= c.Start() && Crosses(c, pos, i)
    ensures !Prime(Represents(c, i))
  {
    var at: nat :| OnTrack(c, pos, at) && c.Guard(at) && c.Cell(pos, at) == i;
    if c.kind.Sundaram? {
      OddProduct(pos, at, i);
    } else {
      assert Divides(pos + 2, i + 2);
    }
  }

  /** Sundaram's identity: index pos + at + 2 pos at stands for a product of two odd numbers. */
  lemma OddProduct(pos: nat, at: nat, i: nat)
    requires pos >= 1 && at >= 1 && i == at + pos + 2 * (pos * at)
    ensures Divides(2 * pos + 1, 2 * i + 1) && 2 * pos + 1 < 2 * i + 1
  {
    assert (2 * pos + 1) * (2 * at + 1) == 4 * (pos * at) + 2 * pos + 2 * at + 1;
    MultipleIsDivided(2 * pos + 1, 2 * at + 1);
  }

  /** A cell standing for a composite is hit by the claim of a prime factor. */
  lemma CompositesAreCrossed(c: Config, i: nat) returns (pos: nat, at: nat)
    requires c.Valid() && c.Start() <= i && Represents(c, i) <= c.bound && !Prime(Represents(c, i))
    ensures Prime(Represents(c, pos)) && c.Start() <= pos < c.Cap() && pos < i < c.Cells()
    ensures OnTrack(c, pos, at) && c.Guard(at) && c.Cell(pos, at) == i
    ensures Represents(c, pos) * Represents(c, pos) <= Represents(c, i)
  {
    var v := Represents(c, i);
    var p, k := CompositeSplit(v);
    if c.kind.Eratosthenes? {
      pos, at := p - 2, i;
    } else {
      pos, at := SundaramSplit(p, k, i, c.bound);
    }
  }

  /** The two factors of an odd composite as Sundaram indices. */
  lemma SundaramSplit(p: nat, k: nat, i: nat, n: nat) returns (pos: nat, at: nat)
    requires 2 <= p <= k && 2 * i + 1 == p * k <= n
    ensures 1 <= pos <= at <= n / 4 && 2 * pos + 1 == p && at + pos + 2 * (pos * at) == i
  {
    EvenFactor(p, k);
    EvenFactor(k, p);
    assert k * p == p * k;
    pos, at := p / 2, k / 2;
    SundaramRange(pos, at, n);
  }

  lemma CompositeSplit(v: nat) returns (p: nat, k: nat)
    requires v >= 2 && !Prime(v)
    ensures Prime(p) && 2 <= p <= k && v == p * k == k * p && p < v && p * p <= v && Divides(p, v)
  {
    p := PrimeFactor(v);
    k := v / p;
    assert v == p * k;
    Smaller(p, k);
    assert p * (p - 2) >= 0;
  }

  lemma Smaller(p: nat, k: nat)
    requires p >= 1 && p * p <= p * k
    ensures p <= k
  {
    assert p * (k - p) >= 0;
    MultipleSteps(p, k - p);
  }

  lemma EvenFactor(a: nat, b: nat)
    ensures a % 2 == 0 ==> a * b % 2 == 0
  {
    if a % 2 == 0 {
      assert a * b == 2 * (a / 2 * b);
    }
  }

  lemma SundaramRange(pos: nat, at: nat, n: nat)
    requires 1 <= pos <= at && (2 * pos + 1) * (2 * at + 1) <= n
    ensures at <= n / 4 && pos <= n / 4
    ensures at + pos + 2 * (pos * at) == ((2 * pos + 1) * (2 * at + 1) - 1) / 2
  {
    assert (2 * pos + 1) * (2 * at + 1) == 4 * (pos * at) + 2 * pos + 2 * at + 1;
    assert (pos - 1) * at >= 0;
  }
}
