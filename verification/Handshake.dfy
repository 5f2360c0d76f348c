/** Studio 13: a leader and a follower pass an array through shared memory under three guard words.
    Every guard write, guard poll and element copy is a step. The leader resets only write_guard, so
    what was in the region before matters, and so does whether the follower announces itself before
    that reset. */
module Handshake {

  datatype LeaderPc = Resetting | AwaitingFollower | Filling(next: nat) | AwaitingDelete | Unlinking | LeaderDone

  datatype FollowerPc = Announcing | AwaitingData | Copying(next: nat) | FollowerDone

  datatype State = State(
    write: int, read: int, delete: int, data: seq<int>,
    leader: LeaderPc, follower: FollowerPc, copy: seq<int>)

  datatype Agent = Leader | Follower

  /** The leader's array and what the shared region holds when the two programs start. */
  datatype Setting = Setting(source: seq<int>, write0: int, read0: int, delete0: int, data0: seq<int>) {
    predicate Valid() {
      |data0| == |source|
    }
  }

  function Init(g: Setting): State {
    State(g.write0, g.read0, g.delete0, g.data0, Resetting, Announcing, seq(|g.source|, _ => 0))
  }

  predicate Shape(g: Setting, s: State) {
    && |s.data| == |s.copy| == |g.source|
    && (s.leader.Filling? ==> s.leader.next <= |g.source|)
    && (s.follower.Copying? ==> s.follower.next <= |g.source|)
  }

  predicate Enabled(g: Setting, s: State, a: Agent) {
    if a.Leader? then
      match s.leader
      case AwaitingFollower => s.write != 0
      case AwaitingDelete => s.delete != 0
      case LeaderDone => false
      case _ => true
    else
      match s.follower
      case AwaitingData => s.read != 0
      case FollowerDone => false
      case _ => true
  }

  function Next(g: Setting, s: State, a: Agent): (s': State)
    requires Shape(g, s) && Enabled(g, s, a)
    ensures Shape(g, s')
  {
    if a.Leader? then
      match s.leader
      case Resetting => s.(write := 0, leader := AwaitingFollower)
      case AwaitingFollower => s.(leader := Filling(0))
      case Filling(i) =>
        if i < |g.source| then s.(data := s.data[i := g.source[i]], leader := Filling(i + 1))
        else s.(read := 1, leader := AwaitingDelete)
      case AwaitingDelete => s.(leader := Unlinking)
      case Unlinking => s.(leader := LeaderDone)
    else
      match s.follower
      case Announcing => s.(write := 1, follower := AwaitingData)
      case AwaitingData => s.(follower := Copying(0))
      case Copying(i) =>
        if i < |g.source| then s.(copy := s.copy[i := s.data[i]], follower := Copying(i + 1))
        else s.(delete := 1, follower := FollowerDone)
  }

  predicate Legal(g: Setting, s: State, schedule: seq<Agent>)
    requires Shape(g, s)
    decreases schedule
  {
    schedule != [] ==> Enabled(g, s, schedule[0]) && Legal(g, Next(g, s, schedule[0]), schedule[1..])
  }

  function Exec(g: Setting, s: State, schedule: seq<Agent>): (s': State)
    requires Shape(g, s) && Legal(g, s, schedule)
    ensures Shape(g, s')
    decreases schedule
  {
    if schedule == [] then s else Exec(g, Next(g, s, schedule[0]), schedule[1..])
  }

  ghost predicate Reachable(g: Setting, s: State)
    requires g.Valid()
  {
    exists schedule :: Legal(g, Init(g), schedule) && Exec(g, Init(g), schedule) == s
  }

  lemma {:induction false} ExecAppend(g: Setting, s: State, a: seq<Agent>, b: seq<Agent>)
    requires Shape(g, s) && Legal(g, s, a) && Legal(g, Exec(g, s, a), b)
    ensures Legal(g, s, a + b) && Exec(g, s, a + b) == Exec(g, Exec(g, s, a), b)
    decreases a
  {
    if a == [] {
      assert a + b == b;
    } else {
      ExecAppend(g, Next(g, s, a[0]), a[1..], b);
      assert (a + b)[1..] == a[1..] + b;
    }
  }

  lemma StepReachable(g: Setting, s: State, a: Agent)
    requires g.Valid() && Reachable(g, s) && Shape(g, s) && Enabled(g, s, a)
    ensures Reachable(g, Next(g, s, a))
  {
    var x :| Legal(g, Init(g), x) && Exec(g, Init(g), x) == s;
    assert [a][1..] == [] && Exec(g, s, [a]) == Next(g, s, a);
    ExecAppend(g, Init(g), x, [a]);
  }

  // Safety

  predicate Published(s: State) {
    s.leader.AwaitingDelete? || s.leader.Unlinking? || s.leader.LeaderDone?
  }

  /** Cells the leader has written are the leader's; the rest are as they were. */
  ghost predicate DataIs(g: Setting, s: State)
    requires g.Valid() && Shape(g, s)
  {
    forall i | 0 <= i < |g.source| ::
      s.data[i] == if Published(s) || (s.leader.Filling? && i < s.leader.next) then g.source[i] else g.data0[i]
  }

  /** What holds when stale guard words cannot let a party through: read_guard starts at zero, or the
      region happens to hold the leader's array already. */
  ghost predicate CopyInv(g: Setting, s: State)
    requires g.Valid() && Shape(g, s)
  {
    && DataIs(g, s)
    && (g.read0 == 0 ==> (s.read != 0 <==> Published(s)))
    && (g.read0 == 0 ==> (s.follower.Copying? || s.follower.FollowerDone? ==> Published(s)))
    && (forall i | 0 <= i < |g.source| ::
          s.follower.FollowerDone? || (s.follower.Copying? && i < s.follower.next) ==> s.copy[i] == g.source[i])
  }

  ghost predicate DeleteInv(g: Setting, s: State) {
    && (s.delete != 0 <==> s.follower.FollowerDone?)
    && (s.leader.Unlinking? || s.leader.LeaderDone? ==> s.follower.FollowerDone?)
  }

  lemma {:induction false} RunCopy(g: Setting, s: State, schedule: seq<Agent>)
    requires g.Valid() && Shape(g, s) && CopyInv(g, s) && Legal(g, s, schedule)
    requires g.read0 == 0 || g.data0 == g.source
    ensures CopyInv(g, Exec(g, s, schedule))
    decreases schedule
  {
    if schedule != [] {
      RunCopy(g, Next(g, s, schedule[0]), schedule[1..]);
    }
  }

  lemma {:induction false} RunDelete(g: Setting, s: State, schedule: seq<Agent>)
    requires g.Valid() && Shape(g, s) && DeleteInv(g, s) && Legal(g, s, schedule)
    ensures DeleteInv(g, Exec(g, s, schedule))
    decreases schedule
  {
    if schedule != [] {
      RunDelete(g, Next(g, s, schedule[0]), schedule[1..]);
    }
  }

  /** The follower's copy equals the leader's array whenever it confirms, in every run, if and only if
      read_guard was zero to begin with or the old data were the right ones anyway. */
  lemma CopyTheorem(g: Setting)
    requires g.Valid()
    ensures (forall s | Reachable(g, s) && s.follower.FollowerDone? :: s.copy == g.source)
            <==> g.read0 == 0 || g.data0 == g.source
  {
    if g.read0 == 0 || g.data0 == g.source {
      forall s | Reachable(g, s) && s.follower.FollowerDone?
        ensures s.copy == g.source
      {
        var x :| Legal(g, Init(g), x) && Exec(g, Init(g), x) == s;
        RunCopy(g, Init(g), x);
      }
    } else {
      var rest := CopyStale(g, Init(g));
      var s := Exec(g, Init(g), rest);
      assert Reachable(g, s) && s.copy != g.source;
    }
  }

  /** A follower that has not read yet gets through a stale read_guard and takes the old data. */
  lemma {:induction false} CopyStale(g: Setting, s: State) returns (rest: seq<Agent>)
    requires g.Valid() && Shape(g, s) && s.data == g.data0
    requires !s.follower.FollowerDone? && (s.follower.Copying? || s.read != 0)
    requires s.follower.Copying? ==> s.copy[..s.follower.next] == g.data0[..s.follower.next]
    ensures Legal(g, s, rest)
    ensures var s' := Exec(g, s, rest); s'.follower.FollowerDone? && s'.copy == g.data0
    decreases FollowerLeft(g, s.follower)
  {
    var s1 := Next(g, s, Follower);
    rest := [];
    if !s1.follower.FollowerDone? {
      rest := CopyStale(g, s1);
    }
    rest := [Follower] + rest;
  }

  predicate GuardsAre(g: Setting, s: State) {
    && s.read == (if Published(s) then 1 else g.read0)
    && s.delete == (if s.follower.FollowerDone? then 1 else g.delete0)
    && (s.follower.Announcing? ==> s.write == if s.leader.Resetting? then g.write0 else 0)
    && (!s.follower.Announcing? ==> s.write == 1 || (s.write == 0 && s.leader.AwaitingFollower?))
  }

  /** A guard word keeps what was in the region until the program it belongs to sets it: the leader's
      reset touches write_guard alone, and write_guard is 1 or 0 from then on. */
  lemma {:induction false} GuardTheorem(g: Setting, s: State, schedule: seq<Agent>)
    requires Shape(g, s) && GuardsAre(g, s) && Legal(g, s, schedule)
    ensures GuardsAre(g, Exec(g, s, schedule))
    decreases schedule
  {
    if schedule != [] {
      GuardTheorem(g, Next(g, s, schedule[0]), schedule[1..]);
    }
  }

  /** Starting the leader first does not help: after its reset a stale read_guard is as harmful as
      before, so the condition of the copy theorem is exact for these runs too. */
  lemma ResetDoesNotHelp(g: Setting)
    requires g.Valid()
    ensures var s := Next(g, Init(g), Leader);
      (forall rest :: Legal(g, s, rest) && Exec(g, s, rest).follower.FollowerDone? ==>
        Exec(g, s, rest).copy == g.source)
      <==> g.read0 == 0 || g.data0 == g.source
  {
    var s := Next(g, Init(g), Leader);
    if g.read0 == 0 || g.data0 == g.source {
      forall rest | Legal(g, s, rest) && Exec(g, s, rest).follower.FollowerDone?
        ensures Exec(g, s, rest).copy == g.source
      {
        RunCopy(g, s, rest);
      }
    } else {
      var rest := CopyStale(g, s);
      assert Legal(g, s, rest) && Exec(g, s, rest).copy != g.source;
    }
  }

  /** The leader unlinks only after the follower's confirmation, in every run, if and only if
      delete_guard was zero to begin with. */
  lemma UnlinkTheorem(g: Setting)
    requires g.Valid()
    ensures (forall s | Reachable(g, s) && s.leader.LeaderDone? :: s.follower.FollowerDone?) <==> g.delete0 == 0
  {
    if g.delete0 == 0 {
      forall s | Reachable(g, s) && s.leader.LeaderDone?
        ensures s.follower.FollowerDone?
      {
        var x :| Legal(g, Init(g), x) && Exec(g, Init(g), x) == s;
        RunDelete(g, Init(g), x);
      }
    } else {
      assert Legal(g, Init(g), []) && Exec(g, Init(g), []) == Init(g);
      StepReachable(g, Init(g), Leader);
      var s1 := Next(g, Init(g), Leader);
      StepReachable(g, s1, Follower);
      var s2 := Next(g, s1, Follower);
      StepReachable(g, s2, Leader);
      var s := UnlinkEarly(g, Next(g, s2, Leader));
      assert !s.follower.FollowerDone?;
    }
  }

  /** The leader runs to the end on a stale delete_guard while the follower has not read anything. */
  lemma {:induction false} UnlinkEarly(g: Setting, s: State) returns (s': State)
    requires g.Valid() && Shape(g, s) && Reachable(g, s)
    requires !s.leader.Resetting? && !s.leader.AwaitingFollower? && s.delete != 0 && s.follower.AwaitingData?
    ensures Reachable(g, s') && s'.leader.LeaderDone? && s'.follower.AwaitingData?
    decreases LeaderLeft(g, s.leader)
  {
    if s.leader.LeaderDone? {
      s' := s;
    } else {
      StepReachable(g, s, Leader);
      s' := UnlinkEarly(g, Next(g, s, Leader));
    }
  }

  // Progress, from a zeroed region

  function LeaderLeft(g: Setting, pc: LeaderPc): nat {
    match pc
    case Resetting => |g.source| + 5
    case AwaitingFollower => |g.source| + 4
    case Filling(i) => if i <= |g.source| then |g.source| + 3 - i else 0
    case AwaitingDelete => 2
    case Unlinking => 1
    case LeaderDone => 0
  }

  function FollowerLeft(g: Setting, pc: FollowerPc): nat {
    match pc
    case Announcing => |g.source| + 3
    case AwaitingData => |g.source| + 2
    case Copying(i) => if i <= |g.source| then |g.source| + 1 - i else 0
    case FollowerDone => 0
  }

  predicate BothDone(s: State) {
    s.leader.LeaderDone? && s.follower.FollowerDone?
  }

  /** The follower's announcement is, or is about to be, wiped out by the leader's reset. */
  predicate Missed(s: State) {
    !s.follower.Announcing? && (s.leader.Resetting? || (s.leader.AwaitingFollower? && s.write == 0))
  }

  ghost predicate ProgressInv(g: Setting, s: State) {
    && Shape(g, s)
    && (s.read != 0 <==> Published(s))
    && (s.delete != 0 <==> s.follower.FollowerDone?)
    && (s.follower.Copying? || s.follower.FollowerDone? ==> Published(s))
    && (s.leader.AwaitingFollower? && s.follower.Announcing? ==> s.write == 0)
  }

  /** The announcement is missed only when it comes before the reset, and then for good. */
  lemma MissedOnlyByEarlyAnnouncement(g: Setting, s: State, a: Agent)
    requires ProgressInv(g, s) && Enabled(g, s, a)
    ensures ProgressInv(g, Next(g, s, a))
    ensures Missed(Next(g, s, a)) <==> Missed(s) || (a.Follower? && s.follower.Announcing? && s.leader.Resetting?)
  {
  }

  lemma {:induction false} RunProgress(g: Setting, s: State, schedule: seq<Agent>)
    requires ProgressInv(g, s) && Legal(g, s, schedule)
    ensures ProgressInv(g, Exec(g, s, schedule))
    ensures Missed(s) ==> Missed(Exec(g, s, schedule))
    ensures |schedule| <= LeaderLeft(g, s.leader) + FollowerLeft(g, s.follower)
    decreases schedule
  {
    if schedule != [] {
      MissedOnlyByEarlyAnnouncement(g, s, schedule[0]);
      RunProgress(g, Next(g, s, schedule[0]), schedule[1..]);
    }
  }

  /** A state that has not missed the announcement runs on until both are done, however it is scheduled
      short of announcing before the reset. */
  lemma {:induction false} CanComplete(g: Setting, s: State) returns (schedule: seq<Agent>)
    requires ProgressInv(g, s) && !Missed(s)
    ensures Legal(g, s, schedule) && BothDone(Exec(g, s, schedule))
    decreases LeaderLeft(g, s.leader) + FollowerLeft(g, s.follower)
  {
    if BothDone(s) {
      schedule := [];
    } else {
      var a := if Enabled(g, s, Leader) then Leader else Follower;
      MissedOnlyByEarlyAnnouncement(g, s, a);
      var rest := CanComplete(g, Next(g, s, a));
      schedule := [a] + rest;
    }
  }

  /** From a zeroed region the announcement is missed in exactly the runs in which the follower makes it
      before the leader has reset its guard, and the reset is the leader's first step. */
  lemma {:induction false} MissedRuns(g: Setting, s: State, schedule: seq<Agent>)
    requires ProgressInv(g, s) && Legal(g, s, schedule)
    ensures Missed(Exec(g, s, schedule)) <==>
      Missed(s) || (s.leader.Resetting? && s.follower.Announcing? && schedule != [] && schedule[0].Follower?)
    decreases schedule
  {
    if schedule != [] {
      MissedOnlyByEarlyAnnouncement(g, s, schedule[0]);
      MissedRuns(g, Next(g, s, schedule[0]), schedule[1..]);
    }
  }

  /** The run that gets stuck: the follower announces itself and the leader wipes that out. */
  lemma StuckRun(g: Setting)
    requires g.Valid() && g.write0 == g.read0 == g.delete0 == 0
    ensures Legal(g, Init(g), [Follower, Leader])
    ensures var s := Exec(g, Init(g), [Follower, Leader]);
      !Enabled(g, s, Leader) && !Enabled(g, s, Follower) && !BothDone(s)
  {
    var s1 := Next(g, Init(g), Follower);
    var s2 := Next(g, s1, Leader);
    assert [Leader][1..] == [] && Exec(g, s2, []) == s2;
    assert Legal(g, s1, [Leader]) && Exec(g, s1, [Leader]) == s2;
    assert [Follower, Leader][1..] == [Leader];
  }

  /** From a zeroed region every run stops within a fixed number of steps. It can go on to completion if
      and only if the follower did not announce itself before the leader's reset, which is when the
      follower did not move first; it is stuck short of completion only if the follower did, and some run
      is. */
  lemma ProgressTheorem(g: Setting, schedule: seq<Agent>)
    requires g.Valid() && g.write0 == g.read0 == g.delete0 == 0 && Legal(g, Init(g), schedule)
    ensures |schedule| <= 2 * |g.source| + 8
    ensures var s, early := Exec(g, Init(g), schedule), schedule != [] && schedule[0].Follower?;
      && (Missed(s) <==> early)
      && ((exists rest :: Legal(g, s, rest) && BothDone(Exec(g, s, rest))) <==> !early)
      && (!Enabled(g, s, Leader) && !Enabled(g, s, Follower) && !BothDone(s) ==> early)
    ensures exists stuck :: Legal(g, Init(g), stuck) && var s := Exec(g, Init(g), stuck);
      !Enabled(g, s, Leader) && !Enabled(g, s, Follower) && !BothDone(s)
  {
    RunProgress(g, Init(g), schedule);
    MissedRuns(g, Init(g), schedule);
    StuckRun(g);
    var s := Exec(g, Init(g), schedule);
    if Missed(s) {
      forall rest | Legal(g, s, rest)
        ensures !BothDone(Exec(g, s, rest))
      {
        RunProgress(g, s, rest);
      }
    } else {
      var rest := CanComplete(g, s);
      assert exists x :: Legal(g, s, x) && BothDone(Exec(g, s, x));
    }
  }
}
