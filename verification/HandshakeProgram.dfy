/** The shared region of studio 13 and the two programs that use it, updated in place: one method per
    guard write, guard poll and element copy, each proved to be the step of module Handshake. */
module HandshakeProgram {
  import opened Handshake

  class Region {
    ghost const g: Setting
    const source: array<int>      // the leader's own array
    const data: array<int>        // the shared array
    const copy: array<int>        // the follower's own array
    var writeGuard: int
    var readGuard: int
    var deleteGuard: int
    var leader: LeaderPc
    var follower: FollowerPc

    ghost predicate Valid()
      reads this, source, data, copy
    {
      && source[..] == g.source
      && source != data && source != copy && data != copy
      && Shape(g, Snapshot())
    }

    ghost function Snapshot(): State
      reads this, data, copy
    {
      State(writeGuard, readGuard, deleteGuard, data[..], leader, follower, copy[..])
    }

    /** The region as it is found, the leader's array, and an empty array of the follower's. */
    constructor (source: array<int>, data: array<int>, writeGuard: int, readGuard: int, deleteGuard: int)
      requires source != data && source.Length == data.Length
      ensures this.source == source && this.data == data && fresh(copy)
      ensures g == Setting(source[..], writeGuard, readGuard, deleteGuard, data[..])
      ensures Valid() && Snapshot() == Init(g)
    {
      this.g := Setting(source[..], writeGuard, readGuard, deleteGuard, data[..]);
      this.source, this.data := source, data;
      this.writeGuard, this.readGuard, this.deleteGuard := writeGuard, readGuard, deleteGuard;
      copy := new int[source.Length](_ => 0);
      leader, follower := Resetting, Announcing;
    }

    /** leader.c: reset write_guard, or poll a guard that has been set. */
    method LeaderGuard()
      requires Valid() && Enabled(g, Snapshot(), Leader) && !leader.Filling?
      modifies this
      ensures Valid() && Snapshot() == Next(g, old(Snapshot()), Leader)
    {
      match leader {
        case Resetting => writeGuard, leader := 0, AwaitingFollower;
        case AwaitingFollower => leader := Filling(0);
        case AwaitingDelete => leader := Unlinking;
        case Unlinking => leader := LeaderDone;
      }
    }

    /** leader.c: one element of the memcpy, or read_guard once all are written. */
    method LeaderFill()
      requires Valid() && leader.Filling?
      modifies this, data
      ensures Valid() && Snapshot() == Next(g, old(Snapshot()), Leader)
    {
      var i := leader.next;
      if i < source.Length {
        data[i] := source[i];
        leader := Filling(i + 1);
      } else {
        readGuard, leader := 1, AwaitingDelete;
      }
    }

    /** follower.c: set write_guard, or find read_guard set. */
    method FollowerGuard()
      requires Valid() && Enabled(g, Snapshot(), Follower) && !follower.Copying?
      modifies this
      ensures Valid() && Snapshot() == Next(g, old(Snapshot()), Follower)
    {
      match follower {
        case Announcing => writeGuard, follower := 1, AwaitingData;
        case AwaitingData => follower := Copying(0);
      }
    }

    /** follower.c: one element of the memcpy, or delete_guard once all are copied. */
    method FollowerCopy()
      requires Valid() && follower.Copying?
      modifies this, copy
      ensures Valid() && Snapshot() == Next(g, old(Snapshot()), Follower)
    {
      var i := follower.next;
      if i < copy.Length {
        copy[i] := data[i];
        follower := Copying(i + 1);
      } else {
        deleteGuard, follower := 1, FollowerDone;
      }
    }

    method Step(a: Agent)
      requires Valid() && Enabled(g, Snapshot(), a)
      modifies this, data, copy
      ensures Valid() && Snapshot() == Next(g, old(Snapshot()), a)
    {
      if a.Leader? {
        if leader.Filling? {
          LeaderFill();
        } else {
          LeaderGuard();
        }
      } else if follower.Copying? {
        FollowerCopy();
      } else {
        FollowerGuard();
      }
    }

    method Run(schedule: seq<Agent>)
      requires Valid() && Legal(g, Snapshot(), schedule)
      modifies this, data, copy
      ensures Valid() && Snapshot() == Exec(g, old(Snapshot()), schedule)
    {
      for i := 0 to |schedule|
        invariant Valid() && Legal(g, Snapshot(), schedule[i..])
        invariant Exec(g, Snapshot(), schedule[i..]) == Exec(g, old(Snapshot()), schedule)
      {
        assert schedule[i..][1..] == schedule[i + 1..];
        Step(schedule[i]);
      }
    }
  }

  /** Both programs run on the region. Where read_guard is found zero, a follower that confirms has the
      leader's array; where delete_guard is, a leader that is done has waited for that confirmation. */
  method Exchange(source: array<int>, data: array<int>, write0: int, read0: int, delete0: int, schedule: seq<Agent>)
    returns (copy: array<int>, leaderDone: bool, followerDone: bool)
    requires source != data && source.Length == data.Length
    requires var g := Setting(source[..], write0, read0, delete0, data[..]); Legal(g, Init(g), schedule)
    modifies data
    ensures source[..] == old(source[..])
    ensures followerDone && read0 == 0 ==> copy[..] == source[..]
    ensures leaderDone && delete0 == 0 ==> followerDone
  {
    var region := new Region(source, data, write0, read0, delete0);
    ghost var g := region.g;
    region.Run(schedule);
    CopyTheorem(g);
    UnlinkTheorem(g);
    assert Reachable(g, region.Snapshot());
    copy, leaderDone, followerDone := region.copy, region.leader.LeaderDone?, region.follower.FollowerDone?;
  }
}
