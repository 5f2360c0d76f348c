/** The paging module's callbacks, updating its counters, trackers and areas in place; each is proved to
    be the step the account of pages is kept for. */
module PagingModule {
  import opened Paging

  datatype FaultResult = NoPage | OutOfMemory | SigBus

  datatype MmapResult = Success | NoMemory | BadAddress

  lemma {:induction false} SuccessesAre(outcomes: seq<Outcome>, n: nat, k: nat)
    requires k <= n <= |outcomes| && (forall i | 0 <= i < k :: outcomes[i].Mapped?) && (k < n ==> !outcomes[k].Mapped?)
    ensures Successes(outcomes, n) == k
  {
    if n > 0 {
      SuccessesAre(outcomes, n - 1, if k < n then k else n - 1);
    }
  }

  class Module {
    const pageSize: nat
    var allocCount: nat
    var freeCount: nat
    var trackers: map<nat, Tracker>
    var vmas: map<nat, Vma>
    var nextPage: Page
    var nextTracker: nat
    ghost var slot: map<Page, (nat, nat)>
    ghost var lost: set<Page>
    ghost var uncounted: set<Page>

    ghost function Snapshot(): State
      reads this
    {
      State(allocCount, freeCount, trackers, vmas, nextPage, nextTracker, slot, lost, uncounted)
    }

    /** kmod_paging_init. */
    constructor (pageSize: nat)
      requires pageSize > 0
      ensures Snapshot() == Init() && this.pageSize == pageSize
    {
      this.pageSize := pageSize;
      allocCount, freeCount, nextPage, nextTracker := 0, 0, 0, 0;
      trackers, vmas := map[], map[];
      slot, lost, uncounted := map[], {}, {};
    }

    /** do_fault. */
    method DoFault(v: nat, address: nat, outcome: Outcome) returns (r: FaultResult)
      requires CanFault(Snapshot(), v, address, pageSize)
      modifies this
      ensures Snapshot() == FaultNext(old(Snapshot()), v, address, outcome, pageSize)
      ensures r == match outcome { case Mapped => NoPage case AllocFails => OutOfMemory case RemapFails => SigBus }
    {
      var offset := (address - vmas[v].start) / pageSize;
      var aligned := PageAlign(address, pageSize);
      if outcome.AllocFails? {
        return OutOfMemory;
      }
      if outcome.Mapped? {
        MapAndRecord(v, offset, aligned);
        return NoPage;
      }
      lost := lost + {nextPage};
      nextPage := nextPage + 1;
      allocCount := allocCount + 1;
      return SigBus;
    }

    /** The successful part of do_fault: count the page, map it and record it. */
    method MapAndRecord(v: nat, offset: nat, aligned: nat)
      requires v in vmas && vmas[v].tracker in trackers && offset < |trackers[vmas[v].tracker].pages|
      modifies this
      ensures Snapshot() == Record(old(Snapshot()), v, offset, aligned)
    {
      var page, tr := nextPage, vmas[v].tracker;
      nextPage := nextPage + 1;
      allocCount := allocCount + 1;
      ghost var before := trackers[tr].pages[offset];
      if before.Some? {
        slot, lost := slot - {before.value}, lost + {before.value};
      }
      slot := slot[page := (tr, offset)];
      vmas := vmas[v := vmas[v].(mapped := vmas[v].mapped[aligned := page])];
      trackers := trackers[tr := trackers[tr].(pages := trackers[tr].pages[offset := Some(page)])];
    }

    /** paging_vma_open for a copy of v. */
    method VmaOpen(v: nat, copy: nat)
      requires v in vmas && vmas[v].tracker in trackers && copy !in vmas
      modifies this
      ensures Snapshot() == OpenNext(old(Snapshot()), v, copy)
    {
      var tr := vmas[v].tracker;
      vmas := vmas[copy := vmas[v]];
      trackers := trackers[tr := trackers[tr].(counter := trackers[tr].counter + 1)];
    }

    /** paging_vma_close, and the removal of the area that goes with it. */
    method VmaClose(v: nat)
      requires v in vmas && vmas[v].tracker in trackers && vmas[v].start <= vmas[v].end && pageSize > 0
      requires |trackers[vmas[v].tracker].pages| == PagesCount(vmas[v].start, vmas[v].end, pageSize)
      modifies this
      ensures Snapshot() == CloseNext(old(Snapshot()), v)
    {
      var tr := vmas[v].tracker;
      var count := PagesCount(vmas[v].start, vmas[v].end, pageSize);
      var t := trackers[tr].(counter := trackers[tr].counter - 1);
      vmas := vmas - {v};
      if t.counter == 0 {
        FreePages(t.pages, count);
        slot := SlotsLeft(slot, tr, count);
        trackers := trackers - {tr};
      } else {
        trackers := trackers[tr := t];
      }
    }

    /** The loop of paging_vma_close that gives the recorded pages back. */
    method FreePages(pages: seq<Option<Page>>, count: nat)
      requires count == |pages|
      modifies this`freeCount
      ensures freeCount == old(freeCount) + Recorded(pages)
    {
      var i := 0;
      while i < count
        invariant 0 <= i <= count && freeCount == old(freeCount) + Recorded(pages[..i])
      {
        assert pages[..i + 1][..i] == pages[..i];
        if pages[i].Some? {
          freeCount := freeCount + 1;
        }
        i := i + 1;
      }
      assert pages[..count] == pages;
    }

    /** paging_mmap for a new area v; `outcomes` is what allocation and remapping answer when the area
        is filled at once. */
    method Mmap(v: nat, start: nat, end: nat, demandPaging: bool, outcomes: seq<Outcome>) returns (r: MmapResult)
      requires CanMmap(Snapshot(), v, start, end, demandPaging, outcomes, pageSize)
      modifies this
      ensures Snapshot() == MmapNext(old(Snapshot()), v, start, end, demandPaging, outcomes, pageSize)
      ensures r.Success? <==> v in vmas
    {
      var count := PagesCount(start, end, pageSize);
      if demandPaging {
        var pages := FreshPages(nextPage, count, 0);
        Install(v, start, end, pages, map[], FreshSlots(nextTracker, nextPage, 0), Snapshot(), 0);
        r := Success;
      } else {
        r := Fill(v, start, end, count, outcomes);
      }
    }

    method Fill(v: nat, start: nat, end: nat, count: nat, outcomes: seq<Outcome>) returns (r: MmapResult)
      requires v !in vmas && count <= |outcomes|
      modifies this
      ensures Snapshot() == FillNext(old(Snapshot()), v, start, end, count, outcomes, pageSize)
      ensures r.Success? <==> v in vmas
    {
      ghost var s := Snapshot();
      var pages, mapped;
      r, pages, mapped := PrePage(start, count, outcomes);
      if r.Success? {
        Install(v, start, end, pages, mapped, FreshSlots(s.nextTracker, s.nextPage, count), s, count);
      }
    }

    /** The tracker and the area are set up; since state s, k pages have been allocated for them. */
    method Install(v: nat, start: nat, end: nat, pages: seq<Option<Page>>, mapped: map<nat, Page>,
                   ghost slots: map<Page, (nat, nat)>, ghost s: State, ghost k: nat)
      requires Snapshot() == s.(allocCount := s.allocCount + k, nextPage := s.nextPage + k)
      modifies this`nextTracker, this`trackers, this`vmas, this`slot
      ensures v in vmas && Snapshot() == Installed(s, v, start, end, k, pages, mapped, slots)
    {
      var tr := nextTracker;
      nextTracker := nextTracker + 1;
      trackers := trackers[tr := Tracker(1, pages)];
      vmas := vmas[v := Vma(start, end, tr, mapped)];
      slot := slot + slots;
    }

    /** The pre-paging loop of paging_mmap: it stops at the first page that cannot be had or mapped. */
    method PrePage(start: nat, count: nat, outcomes: seq<Outcome>)
      returns (r: MmapResult, pages: seq<Option<Page>>, mapped: map<nat, Page>)
      requires count <= |outcomes|
      modifies this`nextPage, this`allocCount, this`nextTracker, this`lost, this`uncounted
      ensures var k, s := Successes(outcomes, count), old(Snapshot());
        && (r.Success? <==> k == count)
        && (r.NoMemory? <==> k < count && outcomes[k].AllocFails?)
        && pages == FreshPages(s.nextPage, count, k) && mapped == MappedPages(start, s.nextPage, k, pageSize)
        && Snapshot() ==
             if k == count then s.(allocCount := s.allocCount + k, nextPage := s.nextPage + k)
             else GivenUp(s, k, outcomes[k].RemapFails?)
    {
      var i := 0;
      ghost var s := Snapshot();
      pages, mapped := FreshPages(nextPage, count, 0), map[];
      while i < count && outcomes[i].Mapped?
        invariant 0 <= i <= count && forall j | 0 <= j < i :: outcomes[j].Mapped?
        invariant Snapshot() == s.(allocCount := s.allocCount + i, nextPage := s.nextPage + i)
        invariant pages == FreshPages(s.nextPage, count, i) && mapped == MappedPages(start, s.nextPage, i, pageSize)
      {
        var page := nextPage;
        nextPage := nextPage + 1;
        mapped := mapped[start + i * pageSize := page];
        pages := pages[i := Some(page)];
        assert pages == FreshPages(s.nextPage, count, i + 1);
        allocCount := allocCount + 1;
        i := i + 1;
      }
      SuccessesAre(outcomes, count, i);
      if i == count {
        r := Success;
      } else {
        r := GiveUp(outcomes[i], s, i);
      }
    }

    /** The error exits of that loop: the tracker is dropped with whatever it recorded, and so is a page
        that was allocated but could not be mapped. */
    method GiveUp(outcome: Outcome, ghost s: State, ghost k: nat) returns (r: MmapResult)
      requires !outcome.Mapped? && Snapshot() == s.(allocCount := s.allocCount + k, nextPage := s.nextPage + k)
      modifies this`nextPage, this`nextTracker, this`lost, this`uncounted
      ensures Snapshot() == GivenUp(s, k, outcome.RemapFails?)
      ensures r == if outcome.AllocFails? then NoMemory else BadAddress
    {
      lost, nextTracker := lost + PageRange(s.nextPage, k), nextTracker + 1;
      if outcome.AllocFails? {
        return NoMemory;
      }
      uncounted, nextPage := uncounted + {nextPage}, nextPage + 1;
      return BadAddress;
    }

    /** Any sequence of callbacks, as the kernel makes them. */
    method Serve(events: seq<Event>)
      requires Inv(Snapshot(), pageSize) && Legal(Snapshot(), events, pageSize)
      modifies this
      ensures Snapshot() == Exec(old(Snapshot()), events, pageSize)
    {
      for i := 0 to |events|
        invariant Inv(Snapshot(), pageSize) && Legal(Snapshot(), events[i..], pageSize)
        invariant Exec(Snapshot(), events[i..], pageSize) == Exec(old(Snapshot()), events, pageSize)
      {
        assert events[i..][0] == events[i] && events[i..][1..] == events[i + 1..];
        StepInv(Snapshot(), events[i], pageSize);
        Callback(events[i]);
      }
    }

    method Callback(e: Event)
      requires Inv(Snapshot(), pageSize) && Feasible(Snapshot(), e, pageSize)
      modifies this
      ensures Snapshot() == Next(old(Snapshot()), e, pageSize)
    {
      match e {
        case MmapEvent(v, start, end, demand, outcomes) =>
          var r := Mmap(v, start, end, demand, outcomes);
        case FaultEvent(v, address, outcome) =>
          FaultReady(Snapshot(), v, address, pageSize);
          var r := DoFault(v, address, outcome);
        case OpenEvent(v, copy) => VmaOpen(v, copy);
        case CloseEvent(v) =>
          CountIsCover(vmas[v].start, vmas[v].end, pageSize);
          VmaClose(v);
      }
    }
  }

  /** From loading the module to unloading it with every area closed: the two printed counters are equal
      exactly when no callback lost a page. */
  method Lifetime(pageSize: nat, events: seq<Event>) returns (allocCount: nat, freeCount: nat, open: bool)
    requires pageSize > 0 && Legal(Init(), events, pageSize)
    ensures open <==> Exec(Init(), events, pageSize).vmas != map[]
    ensures !open ==> allocCount == freeCount + TotalLoss(Init(), events, pageSize)
    ensures !open ==> (allocCount == freeCount <==> TotalLoss(Init(), events, pageSize) == 0)
  {
    var m := new Module(pageSize);
    m.Serve(events);
    ConservationTheorem(events, pageSize);
    allocCount, freeCount, open := m.allocCount, m.freeCount, m.vmas != map[];
  }
}
