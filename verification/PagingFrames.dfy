/** Which frame lies at which address: no area maps one frame twice, a fault maps the frame its slot records,
    pre-paging maps the frame of slot o at page o, sharers agree on where their area lies, and no callback
    touches the areas it is not for. */
module PagingFrames {
  import opened Paging

  /** No two addresses of the area lead to the same frame. */
  ghost predicate OneFramePerPage(vma: Vma) {
    forall a, b | a in vma.mapped && b in vma.mapped && vma.mapped[a] == vma.mapped[b] :: a == b
  }

  ghost predicate FramesDistinct(s: State) {
    forall v | v in s.vmas :: OneFramePerPage(s.vmas[v])
  }

  /** Areas that share a tracker lie at the same addresses. */
  ghost predicate SharersAgree(s: State) {
    forall u, v | u in s.vmas && v in s.vmas && s.vmas[u].tracker == s.vmas[v].tracker ::
      s.vmas[u].start == s.vmas[v].start && s.vmas[u].end == s.vmas[v].end
  }

  ghost predicate Framed(s: State) {
    FramesDistinct(s) && SharersAgree(s)
  }

  /** A page table never holds a frame that has not been handed out yet. */
  lemma MappedIsOld(s: State, v: nat, a: nat)
    requires Conserved(s) && MappingsAlive(s) && v in s.vmas && a in s.vmas[v].mapped
    ensures s.vmas[v].mapped[a] < s.nextPage
  {
    assert MappingAlive(s, s.vmas[v], a);
  }

  /** What one callback does to the areas: only the one it is for can change, and stays where it is. */
  lemma OthersUntouched(s: State, e: Event, pageSize: nat, u: nat)
    requires Inv(s, pageSize) && Feasible(s, e, pageSize) && u in s.vmas
    ensures var s' := Next(s, e, pageSize);
      && (u != e.v || e.OpenEvent? ==> u in s'.vmas && s'.vmas[u] == s.vmas[u])
      && (u == e.v && e.FaultEvent? ==>
            && u in s'.vmas && s'.vmas[u].tracker == s.vmas[u].tracker
            && s'.vmas[u].start == s.vmas[u].start && s'.vmas[u].end == s.vmas[u].end)
      && (u == e.v && e.CloseEvent? ==> u !in s'.vmas)
  {
    match e {
      case MmapEvent(v, start, end, demand, outcomes) =>
        MmapAreas(s, v, start, end, demand, outcomes, pageSize);
      case FaultEvent(v, address, outcome) =>
        FaultReady(s, v, address, pageSize);
        FaultOneArea(s, v, address, outcome, pageSize);
      case OpenEvent(v, copy) => OpenAreas(s, v, copy);
      case CloseEvent(v) => CloseAreas(s, v);
    }
  }

  lemma OpenAreas(s: State, v: nat, copy: nat)
    requires v in s.vmas && s.vmas[v].tracker in s.trackers
    ensures OpenNext(s, v, copy).vmas == s.vmas[copy := s.vmas[v]]
  {
  }

  lemma CloseAreas(s: State, v: nat)
    requires v in s.vmas && s.vmas[v].tracker in s.trackers
    ensures CloseNext(s, v).vmas == s.vmas - {v}
  {
  }

  lemma MmapAreas(s: State, v: nat, start: nat, end: nat, demand: bool, outcomes: seq<Outcome>, pageSize: nat)
    requires CanMmap(s, v, start, end, demand, outcomes, pageSize)
    ensures var s' := MmapNext(s, v, start, end, demand, outcomes, pageSize);
      || s'.vmas == s.vmas
      || (v in s'.vmas && s'.vmas == s.vmas[v := s'.vmas[v]] && s'.vmas[v].tracker == s.nextTracker
          && s'.vmas[v].start == start && s'.vmas[v].end == end)
  {
  }

  /** A fault touches one area and one slot. If it succeeds, the frame now mapped at the rounded address is
      the one the slot of the fault's page records, a frame nobody has had before; if not, nothing is mapped
      and nothing recorded. */
  lemma FaultAreas(s: State, v: nat, address: nat, outcome: Outcome, pageSize: nat)
    requires CanFault(s, v, address, pageSize)
    ensures var s' := FaultNext(s, v, address, outcome, pageSize);
      && (!outcome.Mapped? ==> s'.vmas == s.vmas && s'.trackers == s.trackers)
      && (outcome.Mapped? ==>
            && CanFault(s', v, address, pageSize) && SlotOf(s', v, address, pageSize) == Some(s.nextPage)
            && s'.vmas == s.vmas[v := s'.vmas[v]]
            && s'.vmas[v] ==
                 s.vmas[v].(mapped := s.vmas[v].mapped[PageAlign(address, pageSize) := s.nextPage])
            && s'.trackers == s.trackers[s.vmas[v].tracker := s'.trackers[s.vmas[v].tracker]])
  {
  }

  lemma FaultOneArea(s: State, v: nat, address: nat, outcome: Outcome, pageSize: nat)
    requires CanFault(s, v, address, pageSize)
    ensures var s' := FaultNext(s, v, address, outcome, pageSize);
      && v in s'.vmas && s'.vmas == s.vmas[v := s'.vmas[v]]
      && s'.vmas[v].(mapped := s.vmas[v].mapped) == s.vmas[v]
  {
    FaultAreas(s, v, address, outcome, pageSize);
  }

  lemma FaultOtherSlots(s: State, v: nat, address: nat, outcome: Outcome, pageSize: nat, i: nat)
    requires CanFault(s, v, address, pageSize) && i < |s.trackers[s.vmas[v].tracker].pages|
    requires i != Offset(s.vmas[v].start, address, pageSize)
    ensures var s' := FaultNext(s, v, address, outcome, pageSize);
      && s.vmas[v].tracker in s'.trackers
      && |s'.trackers[s.vmas[v].tracker].pages| == |s.trackers[s.vmas[v].tracker].pages|
      && s'.trackers[s.vmas[v].tracker].pages[i] == s.trackers[s.vmas[v].tracker].pages[i]
  {
  }

  // Frames over runs

  lemma FaultFramed(s: State, v: nat, address: nat, outcome: Outcome, pageSize: nat)
    requires Inv(s, pageSize) && CanFault(s, v, address, pageSize) && Framed(s)
    ensures Framed(FaultNext(s, v, address, outcome, pageSize))
  {
    FaultAreas(s, v, address, outcome, pageSize);
    if outcome.Mapped? {
      forall a | a in s.vmas[v].mapped
        ensures s.vmas[v].mapped[a] != s.nextPage
      {
        MappedIsOld(s, v, a);
      }
      OneMoreFrame(s, FaultNext(s, v, address, outcome, pageSize), v, PageAlign(address, pageSize));
    }
  }

  lemma OneMoreFrame(s: State, s': State, v: nat, at: nat)
    requires Framed(s) && v in s.vmas && v in s'.vmas && s'.vmas == s.vmas[v := s'.vmas[v]]
    requires s'.vmas[v] == s.vmas[v].(mapped := s.vmas[v].mapped[at := s.nextPage])
    requires forall a | a in s.vmas[v].mapped :: s.vmas[v].mapped[a] != s.nextPage
    ensures Framed(s')
  {
    FreshFrame(s.vmas[v], at, s.nextPage);
  }

  lemma FreshFrame(vma: Vma, at: nat, frame: Page)
    requires OneFramePerPage(vma) && forall a | a in vma.mapped :: vma.mapped[a] != frame
    ensures OneFramePerPage(vma.(mapped := vma.mapped[at := frame]))
  {
  }

  /** The page table pre-paging makes: page o, and no other, has frame `first + o`. */
  lemma {:induction false} MappedPagesAt(start: nat, first: Page, n: nat, pageSize: nat, o: nat)
    requires pageSize > 0 && o < n
    ensures var mapped := MappedPages(start, first, n, pageSize);
      PageAddress(start, o, pageSize) in mapped && mapped[PageAddress(start, o, pageSize)] == first + o
  {
    if o < n - 1 {
      MappedPagesAt(start, first, n - 1, pageSize, o);
      if PageAddress(start, o, pageSize) == PageAddress(start, n - 1, pageSize) {
        PageAddressInjective(start, o, n - 1, pageSize);
      }
      assert PageAddress(start, n - 1, pageSize) == start + (n - 1) * pageSize;
    } else {
      assert PageAddress(start, o, pageSize) == start + (n - 1) * pageSize;
    }
  }

  lemma PrePagedFrames(start: nat, end: nat, tracker: nat, first: Page, n: nat, pageSize: nat)
    requires pageSize > 0
    ensures OneFramePerPage(Vma(start, end, tracker, MappedPages(start, first, n, pageSize)))
  {
    var mapped := MappedPages(start, first, n, pageSize);
    forall a, b | a in mapped && b in mapped && mapped[a] == mapped[b]
      ensures a == b
    {
      MappedPagesKeys(start, first, n, pageSize, a);
      MappedPagesKeys(start, first, n, pageSize, b);
      var o: nat :| o < n && a == PageAddress(start, o, pageSize);
      var o': nat :| o' < n && b == PageAddress(start, o', pageSize);
      MappedPagesAt(start, first, n, pageSize, o);
      MappedPagesAt(start, first, n, pageSize, o');
    }
  }

  /** A pre-paged area maps at page o the frame that slot o records, for every o. */
  lemma PrePagingTheorem(s: State, v: nat, start: nat, end: nat, outcomes: seq<Outcome>, pageSize: nat, o: nat)
    requires CanMmap(s, v, start, end, false, outcomes, pageSize) && o < PagesCount(start, end, pageSize)
    ensures var s' := MmapNext(s, v, start, end, false, outcomes, pageSize);
      v in s'.vmas ==>
        && s'.vmas[v].tracker in s'.trackers
        && |s'.trackers[s'.vmas[v].tracker].pages| == PagesCount(start, end, pageSize)
        && PageAddress(start, o, pageSize) in s'.vmas[v].mapped
        && s'.trackers[s'.vmas[v].tracker].pages[o] == Some(s'.vmas[v].mapped[PageAddress(start, o, pageSize)])
  {
    var count := PagesCount(start, end, pageSize);
    MappedPagesAt(start, s.nextPage, count, pageSize, o);
    FilledIs(s, v, start, end, count, outcomes, pageSize);
  }

  lemma FilledIs(s: State, v: nat, start: nat, end: nat, count: nat, outcomes: seq<Outcome>, pageSize: nat)
    requires count <= |outcomes| && v !in s.vmas
    ensures var s' := FillNext(s, v, start, end, count, outcomes, pageSize);
      v in s'.vmas ==>
        && s'.vmas[v].tracker in s'.trackers
        && s'.trackers[s'.vmas[v].tracker].pages == FreshPages(s.nextPage, count, count)
        && s'.vmas[v].mapped == MappedPages(start, s.nextPage, count, pageSize)
  {
    var s' := FillNext(s, v, start, end, count, outcomes, pageSize);
    if Successes(outcomes, count) < count {
      assert s'.vmas == s.vmas;
    } else {
      assert s' == NewArea(s, v, start, end, count, count, pageSize);
    }
  }

  lemma MmapFramed(s: State, v: nat, start: nat, end: nat, demand: bool, outcomes: seq<Outcome>, pageSize: nat)
    requires Inv(s, pageSize) && CanMmap(s, v, start, end, demand, outcomes, pageSize) && Framed(s)
    ensures Framed(MmapNext(s, v, start, end, demand, outcomes, pageSize))
  {
    var s' := MmapNext(s, v, start, end, demand, outcomes, pageSize);
    MmapAreas(s, v, start, end, demand, outcomes, pageSize);
    if s'.vmas != s.vmas {
      NewAreaFrames(s, v, start, end, demand, outcomes, pageSize);
    }
  }

  lemma NewAreaFrames(s: State, v: nat, start: nat, end: nat, demand: bool, outcomes: seq<Outcome>, pageSize: nat)
    requires CanMmap(s, v, start, end, demand, outcomes, pageSize)
    ensures var s' := MmapNext(s, v, start, end, demand, outcomes, pageSize);
      v in s'.vmas ==> OneFramePerPage(s'.vmas[v])
  {
    var count := PagesCount(start, end, pageSize);
    PrePagedFrames(start, end, s.nextTracker, s.nextPage, if demand then 0 else count, pageSize);
  }

  lemma StepFramed(s: State, e: Event, pageSize: nat)
    requires Inv(s, pageSize) && Feasible(s, e, pageSize) && Framed(s)
    ensures Framed(Next(s, e, pageSize))
  {
    match e {
      case MmapEvent(v, start, end, demand, outcomes) =>
        MmapFramed(s, v, start, end, demand, outcomes, pageSize);
      case FaultEvent(v, address, outcome) =>
        FaultReady(s, v, address, pageSize);
        FaultFramed(s, v, address, outcome, pageSize);
      case OpenEvent(v, copy) => OpenAreas(s, v, copy);
      case CloseEvent(v) => CloseAreas(s, v);
    }
  }

  lemma {:induction false} RunFramed(s: State, events: seq<Event>, pageSize: nat)
    requires Inv(s, pageSize) && Legal(s, events, pageSize) && Framed(s)
    ensures Framed(Exec(s, events, pageSize))
    decreases events
  {
    if events != [] {
      StepInv(s, events[0], pageSize);
      StepFramed(s, events[0], pageSize);
      RunFramed(Next(s, events[0], pageSize), events[1..], pageSize);
    }
  }

  /** After any sequence of callbacks no area maps one frame at two addresses, and areas that share a tracker
      lie at the same addresses, so that a page has the same slot in each of them. */
  lemma FrameTheorem(events: seq<Event>, pageSize: nat)
    requires pageSize > 0 && Legal(Init(), events, pageSize)
    ensures var s := Exec(Init(), events, pageSize);
      && (forall v | v in s.vmas :: OneFramePerPage(s.vmas[v]))
      && (forall u, v | u in s.vmas && v in s.vmas && s.vmas[u].tracker == s.vmas[v].tracker ::
            s.vmas[u].start == s.vmas[v].start && s.vmas[u].end == s.vmas[v].end)
  {
    RunFramed(Init(), events, pageSize);
  }
}
