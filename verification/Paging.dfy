/** Project 3: the paging module. A tracker counts the VMAs that share it and records the physical page
    behind each page slot; mmap and the fault, open and close callbacks keep two module-wide counters of
    pages allocated and freed. Callbacks run one at a time, the slots of a new tracker start out empty,
    and VMAs that share a tracker have equal extents. */
module Paging {
  import opened Primes
  import opened Sets

  datatype Option<+T> = None | Some(value: T)

  /** A physical page, by frame number. */
  type Page = nat

  datatype Tracker = Tracker(counter: int, pages: seq<Option<Page>>)

  /** `mapped` is the page table of the area: page address to frame. */
  datatype Vma = Vma(start: nat, end: nat, tracker: nat, mapped: map<nat, Page>)

  /** What alloc_page and remap_pfn_range do when asked for one more page. */
  datatype Outcome = Mapped | AllocFails | RemapFails

  /** The module's counters, trackers and VMAs. For the account of pages: `slot` is the slot that
      records a page, `lost` are pages counted as allocated that nobody records or will free, and
      `uncounted` pages a failing mmap allocated before counting them. */
  datatype State = State(
    allocCount: nat, freeCount: nat, trackers: map<nat, Tracker>, vmas: map<nat, Vma>,
    nextPage: Page, nextTracker: nat,
    slot: map<Page, (nat, nat)>, lost: set<Page>, uncounted: set<Page>)

  function Init(): (s: State)
    ensures forall pageSize | pageSize > 0 :: Inv(s, pageSize)
  {
    State(0, 0, map[], map[], 0, 0, map[], {}, {})
  }

  // Address arithmetic

  /** get_pages_count. */
  function PagesCount(start: nat, end: nat, pageSize: nat): nat
    requires start <= end && pageSize > 0
  {
    if (end - start) % pageSize != 0 then (end - start) / pageSize + 1 else (end - start) / pageSize
  }

  /** The pages it takes to cover `bytes` bytes, counted one at a time. */
  function Cover(bytes: nat, pageSize: nat): nat
    requires pageSize > 0
  {
    if bytes == 0 then 0 else if bytes <= pageSize then 1 else 1 + Cover(bytes - pageSize, pageSize)
  }

  /** get_pages_count is the number of pages that cover the area. */
  lemma {:induction false} CountIsCover(start: nat, end: nat, pageSize: nat)
    requires start <= end && pageSize > 0
    ensures PagesCount(start, end, pageSize) == Cover(end - start, pageSize)
    decreases end - start
  {
    var bytes := end - start;
    if bytes > pageSize {
      CountIsCover(start + pageSize, end, pageSize);
      DivModStep(bytes, pageSize);
    } else if bytes == pageSize {
      DivModUnique(bytes, pageSize, 1, 0);
    } else {
      DivModUnique(bytes, pageSize, 0, bytes);
    }
  }

  function Offset(start: nat, address: nat, pageSize: nat): nat
    requires start <= address && pageSize > 0
  {
    (address - start) / pageSize
  }

  /** PAGE_ALIGN: up to the next page boundary. */
  function PageAlign(address: nat, pageSize: nat): nat
    requires pageSize > 0
  {
    (address + pageSize - 1) / pageSize * pageSize
  }

  /** Every fault inside the area indexes a slot the tracker has. */
  lemma OffsetInRange(start: nat, end: nat, address: nat, pageSize: nat)
    requires start <= address < end && pageSize > 0
    ensures Offset(start, address, pageSize) < PagesCount(start, end, pageSize)
  {
    var q, k := (address - start) / pageSize, (end - start) / pageSize;
    assert address - start == pageSize * q + (address - start) % pageSize;
    assert end - start == pageSize * k + (end - start) % pageSize;
    assert pageSize * (q - k) == pageSize * q - pageSize * k;
    MultipleSteps(pageSize, q - k);
  }

  function PageAddress(start: nat, o: nat, pageSize: nat): nat {
    start + o * pageSize
  }

  lemma AlignUp(address: nat, pageSize: nat)
    requires pageSize > 0
    ensures PageAlign(address, pageSize) ==
            pageSize * (address / pageSize) + if address % pageSize == 0 then 0 else pageSize
  {
    var a, r := address / pageSize, address % pageSize;
    assert address == pageSize * a + r;
    Difference(pageSize, a + 1, a);
    if r == 0 {
      RoundUp(address, pageSize, a, pageSize - 1);
    } else {
      RoundUp(address, pageSize, a + 1, r - 1);
    }
  }

  lemma RoundUp(address: nat, pageSize: nat, q: nat, r: nat)
    requires r < pageSize && address + pageSize - 1 == pageSize * q + r
    ensures PageAlign(address, pageSize) == pageSize * q
  {
    DivModUnique(address + pageSize - 1, pageSize, q, r);
    Difference(pageSize, q, 0);
  }

  /** The page table entry a fault at `address` fills: its own page's, or the next one's. */
  lemma AlignedFrom(start: nat, address: nat, pageSize: nat)
    requires pageSize > 0 && start % pageSize == 0 && start <= address
    ensures var o := Offset(start, address, pageSize);
      PageAlign(address, pageSize) == PageAddress(start, if address % pageSize == 0 then o else o + 1, pageSize)
  {
    var s, a, r := start / pageSize, address / pageSize, address % pageSize;
    OffsetIs(start, address, pageSize, s, a, r);
    AlignUp(address, pageSize);
    Difference(pageSize, a + 1, s);
    Difference(pageSize, a + 1, a);
  }

  lemma OffsetIs(start: nat, address: nat, pageSize: nat, s: int, a: int, r: int)
    requires pageSize > 0 && start <= address && 0 <= r < pageSize
    requires start == pageSize * s && address == pageSize * a + r
    ensures Offset(start, address, pageSize) == a - s && (a - s) * pageSize == pageSize * a - start
  {
    Difference(pageSize, a, s);
    DivModUnique(address - start, pageSize, a - s, r);
  }

  lemma Difference(k: int, a: int, s: int)
    ensures k * (a - s) == k * a - k * s == (a - s) * k
  {
  }

  /** The fault handler maps the page whose slot it fills exactly when the fault address is aligned. */
  lemma SlotMatchesMapping(start: nat, address: nat, pageSize: nat)
    requires pageSize > 0 && start % pageSize == 0 && start <= address
    ensures PageAlign(address, pageSize) == PageAddress(start, Offset(start, address, pageSize), pageSize)
            <==> address % pageSize == 0
  {
    AlignedFrom(start, address, pageSize);
    var o := Offset(start, address, pageSize);
    Difference(pageSize, o + 1, o);
  }

  // The callbacks

  /** do_fault. An allocation that fails changes nothing; a remap that fails leaves a counted page that
      nobody records; success records the page, forgetting whatever the slot recorded before. */
  function FaultNext(s: State, v: nat, address: nat, outcome: Outcome, pageSize: nat): State
    requires CanFault(s, v, address, pageSize)
  {
    var offset := Offset(s.vmas[v].start, address, pageSize);
    match outcome
    case AllocFails => s
    case RemapFails => s.(allocCount := s.allocCount + 1, nextPage := s.nextPage + 1, lost := s.lost + {s.nextPage})
    case Mapped => Record(s, v, offset, PageAlign(address, pageSize))
  }

  /** A fresh page goes into slot `offset` of v's tracker and is mapped at address `at`. */
  function Record(s: State, v: nat, offset: nat, at: nat): State
    requires v in s.vmas && s.vmas[v].tracker in s.trackers && offset < |s.trackers[s.vmas[v].tracker].pages|
  {
    var vma := s.vmas[v];
    var t := s.trackers[vma.tracker];
    var s := if t.pages[offset].Some? then Forget(s, t.pages[offset].value) else s;
    Add(s, (vma.tracker, offset)).(
      trackers := s.trackers[vma.tracker := t.(pages := t.pages[offset := Some(s.nextPage)])],
      vmas := s.vmas[v := vma.(mapped := vma.mapped[at := s.nextPage])])
  }

  /** A recorded page becomes a lost one. */
  function Forget(s: State, p: Page): State {
    s.(slot := s.slot - {p}, lost := s.lost + {p})
  }

  /** A fresh page is counted and becomes a recorded one. */
  function Add(s: State, at: (nat, nat)): State {
    s.(allocCount := s.allocCount + 1, nextPage := s.nextPage + 1, slot := s.slot[s.nextPage := at])
  }

  predicate CanFault(s: State, v: nat, address: nat, pageSize: nat) {
    && v in s.vmas && s.vmas[v].start <= address < s.vmas[v].end && pageSize > 0
    && s.vmas[v].tracker in s.trackers
    && Offset(s.vmas[v].start, address, pageSize) < |s.trackers[s.vmas[v].tracker].pages|
  }

  /** paging_vma_open: a copy of v shares its tracker. */
  function OpenNext(s: State, v: nat, copy: nat): State
    requires v in s.vmas && s.vmas[v].tracker in s.trackers
  {
    var tr := s.vmas[v].tracker;
    s.(trackers := s.trackers[tr := s.trackers[tr].(counter := s.trackers[tr].counter + 1)],
       vmas := s.vmas[copy := s.vmas[v]])
  }

  function Recorded(pages: seq<Option<Page>>): nat {
    if pages == [] then 0
    else Recorded(pages[..|pages| - 1]) + if pages[|pages| - 1].Some? then 1 else 0
  }

  /** The slots left when those of tracker tr below i have been given back. */
  ghost function SlotsLeft(slot: map<Page, (nat, nat)>, tr: nat, i: nat): map<Page, (nat, nat)> {
    map p | p in slot && !(slot[p].0 == tr && slot[p].1 < i) :: slot[p]
  }

  /** paging_vma_close: the last VMA of a tracker frees the recorded pages and the tracker. */
  ghost function CloseNext(s: State, v: nat): State
    requires v in s.vmas && s.vmas[v].tracker in s.trackers
  {
    var tr := s.vmas[v].tracker;
    var t := s.trackers[tr].(counter := s.trackers[tr].counter - 1);
    var s := s.(vmas := s.vmas - {v});
    if t.counter == 0
    then s.(freeCount := s.freeCount + Recorded(t.pages), trackers := s.trackers - {tr},
            slot := SlotsLeft(s.slot, tr, |t.pages|))
    else s.(trackers := s.trackers[tr := t])
  }

  /** How many of the first n pages get mapped before something fails. */
  function Successes(outcomes: seq<Outcome>, n: nat): (k: nat)
    requires n <= |outcomes|
    ensures k <= n && forall i | 0 <= i < k :: outcomes[i].Mapped?
    ensures k < n ==> !outcomes[k].Mapped?
  {
    if n == 0 then 0
    else
      var k := Successes(outcomes, n - 1);
      if k == n - 1 && outcomes[k].Mapped? then n else k
  }

  function PageRange(first: Page, n: nat): (pages: set<Page>)
    ensures |pages| == n && forall p: Page :: p in pages <==> first <= p < first + n
  {
    if n == 0 then {} else PageRange(first, n - 1) + {first + (n - 1)}
  }

  /** The page table after n pages from `first` have been mapped. */
  function MappedPages(start: nat, first: Page, n: nat, pageSize: nat): map<nat, Page> {
    if n == 0 then map[]
    else MappedPages(start, first, n - 1, pageSize)[start + (n - 1) * pageSize := first + (n - 1)]
  }

  /** paging_mmap for a new area v: an empty tracker, filled at once when not paging on demand. If that
      fails the area is given up: pages counted so far are never freed, nor is one that could not be
      mapped, which was not counted. */
  function MmapNext(s: State, v: nat, start: nat, end: nat, demand: bool, outcomes: seq<Outcome>, pageSize: nat): State
    requires CanMmap(s, v, start, end, demand, outcomes, pageSize)
  {
    var count := PagesCount(start, end, pageSize);
    if demand then NewArea(s, v, start, end, count, 0, pageSize)
    else FillNext(s, v, start, end, count, outcomes, pageSize)
  }

  /** mmap of count pages at once. */
  function FillNext(s: State, v: nat, start: nat, end: nat, count: nat, outcomes: seq<Outcome>, pageSize: nat): State
    requires count <= |outcomes|
  {
    var k := Successes(outcomes, count);
    if k == count then NewArea(s, v, start, end, count, k, pageSize)
    else GivenUp(s, k, outcomes[k].RemapFails?)
  }

  predicate CanMmap(s: State, v: nat, start: nat, end: nat, demand: bool, outcomes: seq<Outcome>, pageSize: nat) {
    && v !in s.vmas && start <= end && pageSize > 0
    && (!demand ==> PagesCount(start, end, pageSize) <= |outcomes|)
  }

  // Runs

  datatype Event =
    | MmapEvent(v: nat, start: nat, end: nat, demand: bool, outcomes: seq<Outcome>)
    | FaultEvent(v: nat, address: nat, outcome: Outcome)
    | OpenEvent(v: nat, copy: nat)
    | CloseEvent(v: nat)

  /** What the kernel guarantees when it calls back. */
  predicate Feasible(s: State, e: Event, pageSize: nat) {
    pageSize > 0 &&
    match e
    case MmapEvent(v, start, end, demand, outcomes) => CanMmap(s, v, start, end, demand, outcomes, pageSize)
    case FaultEvent(v, address, _) => v in s.vmas && s.vmas[v].start <= address < s.vmas[v].end
    case OpenEvent(v, copy) => v in s.vmas && copy !in s.vmas
    case CloseEvent(v) => v in s.vmas
  }

  ghost function Next(s: State, e: Event, pageSize: nat): State
    requires Inv(s, pageSize) && Feasible(s, e, pageSize)
  {
    match e
    case MmapEvent(v, start, end, demand, outcomes) => MmapNext(s, v, start, end, demand, outcomes, pageSize)
    case FaultEvent(v, address, outcome) =>
      FaultReady(s, v, address, pageSize);
      FaultNext(s, v, address, outcome, pageSize)
    case OpenEvent(v, copy) => OpenNext(s, v, copy)
    case CloseEvent(v) => CloseNext(s, v)
  }

  ghost predicate Legal(s: State, events: seq<Event>, pageSize: nat)
    requires Inv(s, pageSize)
    decreases events
  {
    events != [] ==>
      && Feasible(s, events[0], pageSize)
      && (StepInv(s, events[0], pageSize); Legal(Next(s, events[0], pageSize), events[1..], pageSize))
  }

  ghost function Exec(s: State, events: seq<Event>, pageSize: nat): (s': State)
    requires Inv(s, pageSize) && Legal(s, events, pageSize)
    ensures Inv(s', pageSize)
    decreases events
  {
    if events == [] then s
    else StepInv(s, events[0], pageSize); Exec(Next(s, events[0], pageSize), events[1..], pageSize)
  }

  // Invariants

  /** The VMAs that share a tracker. */
  ghost function Users(s: State, tr: nat): set<nat> {
    set v | v in s.vmas && s.vmas[v].tracker == tr
  }

  /** `slot` and the trackers' records are each other's inverse. */
  ghost predicate SlotsMatch(s: State) {
    && (forall p | p in s.slot :: SlotOk(s, p))
    && RecordsMatch(s)
  }

  ghost predicate RecordsMatch(s: State) {
    forall tr, i | tr in s.trackers && 0 <= i < |s.trackers[tr].pages| && s.trackers[tr].pages[i].Some? ::
      s.trackers[tr].pages[i].value in s.slot && s.slot[s.trackers[tr].pages[i].value] == (tr, i)
  }

  predicate SlotOk(s: State, p: Page)
    requires p in s.slot
  {
    && s.slot[p].0 in s.trackers && s.slot[p].1 < |s.trackers[s.slot[p].0].pages|
    && s.trackers[s.slot[p].0].pages[s.slot[p].1] == Some(p)
  }

  /** Each tracker's counter is the number of live VMAs that share it. */
  ghost predicate CountersMatch(s: State) {
    && (forall tr | tr in s.trackers :: tr < s.nextTracker && s.trackers[tr].counter == |Users(s, tr)| >= 1)
    && (forall v | v in s.vmas :: s.vmas[v].tracker in s.trackers)
  }

  ghost predicate ExtentsMatch(s: State, pageSize: nat)
    requires pageSize > 0
  {
    forall v | v in s.vmas && s.vmas[v].tracker in s.trackers ::
      ExtentOk(s.vmas[v].start, s.vmas[v].end, |s.trackers[s.vmas[v].tracker].pages|, pageSize)
  }

  /** An area and the number of slots of its tracker. */
  predicate ExtentOk(start: nat, end: nat, slots: nat, pageSize: nat)
    requires pageSize > 0
  {
    start <= end && slots == Cover(end - start, pageSize)
  }

  /** Pages are recorded, lost or uncounted, never two of these, and the counters add up. */
  ghost predicate Conserved(s: State) {
    && s.slot.Keys !! s.lost && s.slot.Keys !! s.uncounted && s.lost !! s.uncounted
    && (forall p | p in s.slot || p in s.lost || p in s.uncounted :: p < s.nextPage)
    && s.allocCount == s.freeCount + |s.slot| + |s.lost|
    && s.nextPage == s.allocCount + |s.uncounted|
  }

  /** No live VMA maps a page that has been freed: what it maps is recorded by its own tracker, or lost. */
  ghost predicate MappingsAlive(s: State) {
    forall v, a | v in s.vmas && a in s.vmas[v].mapped :: MappingAlive(s, s.vmas[v], a)
  }

  predicate MappingAlive(s: State, vma: Vma, a: nat)
    requires a in vma.mapped
  {
    vma.mapped[a] in s.lost || (vma.mapped[a] in s.slot && s.slot[vma.mapped[a]].0 == vma.tracker)
  }

  ghost predicate Inv(s: State, pageSize: nat) {
    && pageSize > 0
    && SlotsMatch(s) && CountersMatch(s) && ExtentsMatch(s, pageSize) && Conserved(s) && MappingsAlive(s)
  }

  lemma FaultReady(s: State, v: nat, address: nat, pageSize: nat)
    requires Inv(s, pageSize) && v in s.vmas && s.vmas[v].start <= address < s.vmas[v].end
    ensures CanFault(s, v, address, pageSize)
  {
    OffsetInRange(s.vmas[v].start, s.vmas[v].end, address, pageSize);
    CountIsCover(s.vmas[v].start, s.vmas[v].end, pageSize);
  }

  lemma FaultInv(s: State, v: nat, address: nat, outcome: Outcome, pageSize: nat)
    requires Inv(s, pageSize) && CanFault(s, v, address, pageSize)
    ensures Inv(FaultNext(s, v, address, outcome, pageSize), pageSize)
  {
    match outcome {
      case AllocFails =>
      case RemapFails => LosePage(s, pageSize);
      case Mapped =>
        RecordInv(s, v, Offset(s.vmas[v].start, address, pageSize), PageAlign(address, pageSize), pageSize);
    }
  }

  lemma LosePage(s: State, pageSize: nat)
    requires Inv(s, pageSize)
    ensures Inv(s.(allocCount := s.allocCount + 1, nextPage := s.nextPage + 1, lost := s.lost + {s.nextPage}), pageSize)
  {
    var s' := s.(allocCount := s.allocCount + 1, nextPage := s.nextPage + 1, lost := s.lost + {s.nextPage});
    assert Conserved(s');
    MoreLost(s, s', pageSize);
  }

  /** A state that differs only in its account, with no fewer lost pages. */
  lemma MoreLost(s: State, s': State, pageSize: nat)
    requires Inv(s, pageSize) && Conserved(s') && s.lost <= s'.lost && s.nextTracker <= s'.nextTracker
    requires s'.trackers == s.trackers && s'.vmas == s.vmas && s'.slot == s.slot
    ensures Inv(s', pageSize)
  {
    UsersUnchanged(s, s');
    forall p | p in s'.slot
      ensures SlotOk(s', p)
    {
      assert SlotOk(s, p);
    }
    forall u, a | u in s'.vmas && a in s'.vmas[u].mapped
      ensures MappingAlive(s', s'.vmas[u], a)
    {
      assert MappingAlive(s, s.vmas[u], a);
    }
  }

  lemma UsersUnchanged(s: State, s': State)
    requires s.vmas.Keys == s'.vmas.Keys && forall v | v in s.vmas :: s'.vmas[v].tracker == s.vmas[v].tracker
    ensures forall tr :: Users(s', tr) == Users(s, tr)
  {
  }

  lemma RecordInv(s: State, v: nat, offset: nat, at: nat, pageSize: nat)
    requires Inv(s, pageSize)
    requires v in s.vmas && s.vmas[v].tracker in s.trackers && offset < |s.trackers[s.vmas[v].tracker].pages|
    ensures Inv(Record(s, v, offset, at), pageSize)
  {
    RecordSlots(s, v, offset, at);
    RecordConserved(s, v, offset, at);
    RecordCounters(s, v, offset, at);
    RecordExtents(s, v, offset, at, pageSize);
    RecordMappings(s, v, offset, at);
  }

  lemma RecordCounters(s: State, v: nat, offset: nat, at: nat)
    requires CountersMatch(s)
    requires v in s.vmas && s.vmas[v].tracker in s.trackers && offset < |s.trackers[s.vmas[v].tracker].pages|
    ensures CountersMatch(Record(s, v, offset, at))
  {
    UsersUnchanged(s, Record(s, v, offset, at));
  }

  lemma RecordSlots(s: State, v: nat, offset: nat, at: nat)
    requires SlotsMatch(s) && Conserved(s)
    requires v in s.vmas && s.vmas[v].tracker in s.trackers && offset < |s.trackers[s.vmas[v].tracker].pages|
    ensures SlotsMatch(Record(s, v, offset, at))
  {
    var s' := Record(s, v, offset, at);
    RecordRecords(s, v, offset, at);
    forall p | p in s'.slot
      ensures SlotOk(s', p)
    {
      if p != s.nextPage {
        assert SlotOk(s, p);
      }
    }
  }

  lemma RecordRecords(s: State, v: nat, offset: nat, at: nat)
    requires SlotsMatch(s) && Conserved(s)
    requires v in s.vmas && s.vmas[v].tracker in s.trackers && offset < |s.trackers[s.vmas[v].tracker].pages|
    ensures RecordsMatch(Record(s, v, offset, at))
  {
  }

  lemma RecordExtents(s: State, v: nat, offset: nat, at: nat, pageSize: nat)
    requires pageSize > 0 && ExtentsMatch(s, pageSize)
    requires v in s.vmas && s.vmas[v].tracker in s.trackers && offset < |s.trackers[s.vmas[v].tracker].pages|
    ensures ExtentsMatch(Record(s, v, offset, at), pageSize)
  {
  }

  lemma MapGrows<K, V>(m: map<K, V>, k: K, x: V)
    requires k !in m
    ensures |m[k := x]| == |m| + 1
  {
    assert m[k := x].Keys == m.Keys + {k};
  }

  lemma MapShrinks<K, V>(m: map<K, V>, k: K)
    requires k in m
    ensures |m - {k}| == |m| - 1
  {
    assert (m - {k}).Keys == m.Keys - {k};
  }

  lemma ForgetConserved(s: State, p: Page)
    requires Conserved(s) && p in s.slot
    ensures Conserved(Forget(s, p))
  {
    MapShrinks(s.slot, p);
  }

  lemma AddConserved(s: State, at: (nat, nat))
    requires Conserved(s)
    ensures Conserved(Add(s, at))
  {
    MapGrows(s.slot, s.nextPage, at);
  }

  lemma RecordConserved(s: State, v: nat, offset: nat, at: nat)
    requires SlotsMatch(s) && Conserved(s)
    requires v in s.vmas && s.vmas[v].tracker in s.trackers && offset < |s.trackers[s.vmas[v].tracker].pages|
    ensures Conserved(Record(s, v, offset, at))
  {
    var tr := s.vmas[v].tracker;
    var before := s.trackers[tr].pages[offset];
    var s1 := if before.Some? then Forget(s, before.value) else s;
    if before.Some? {
      ForgetConserved(s, before.value);
    }
    AddConserved(s1, (tr, offset));
    SameAccount(Add(s1, (tr, offset)), Record(s, v, offset, at));
  }

  lemma SameAccount(s: State, s': State)
    requires Conserved(s) && s'.slot == s.slot && s'.lost == s.lost && s'.uncounted == s.uncounted
    requires s'.nextPage == s.nextPage && s'.allocCount == s.allocCount && s'.freeCount == s.freeCount
    ensures Conserved(s')
  {
  }

  lemma RecordMappings(s: State, v: nat, offset: nat, at: nat)
    requires MappingsAlive(s)
    requires v in s.vmas && s.vmas[v].tracker in s.trackers && offset < |s.trackers[s.vmas[v].tracker].pages|
    requires s.nextPage !in s.slot
    ensures MappingsAlive(Record(s, v, offset, at))
  {
    var s' := Record(s, v, offset, at);
    forall u, a | u in s'.vmas && a in s'.vmas[u].mapped
      ensures MappingAlive(s', s'.vmas[u], a)
    {
      if !(u == v && a == at) {
        assert MappingAlive(s, s.vmas[u], a);
      }
    }
  }

  lemma OpenInv(s: State, v: nat, copy: nat, pageSize: nat)
    requires Inv(s, pageSize) && v in s.vmas && copy !in s.vmas
    ensures Inv(OpenNext(s, v, copy), pageSize)
  {
    var s' := OpenNext(s, v, copy);
    OpenCounters(s, v, copy);
    forall p | p in s'.slot
      ensures SlotOk(s', p)
    {
      assert SlotOk(s, p);
    }
    OpenMappings(s, v, copy);
    OpenExtents(s, v, copy, pageSize);
  }

  lemma OpenExtents(s: State, v: nat, copy: nat, pageSize: nat)
    requires pageSize > 0 && ExtentsMatch(s, pageSize) && v in s.vmas && s.vmas[v].tracker in s.trackers
    ensures ExtentsMatch(OpenNext(s, v, copy), pageSize)
  {
  }

  lemma OpenCounters(s: State, v: nat, copy: nat)
    requires CountersMatch(s) && v in s.vmas && copy !in s.vmas
    ensures CountersMatch(OpenNext(s, v, copy))
  {
    var s' := OpenNext(s, v, copy);
    var tr := s.vmas[v].tracker;
    assert Users(s', tr) == Users(s, tr) + {copy};
    forall tr' | tr' != tr
      ensures Users(s', tr') == Users(s, tr')
    {
    }
  }

  lemma OpenMappings(s: State, v: nat, copy: nat)
    requires MappingsAlive(s) && v in s.vmas && copy !in s.vmas && s.vmas[v].tracker in s.trackers
    ensures MappingsAlive(OpenNext(s, v, copy))
  {
    var s' := OpenNext(s, v, copy);
    forall u, a | u in s'.vmas && a in s'.vmas[u].mapped
      ensures MappingAlive(s', s'.vmas[u], a)
    {
      var u0 := if u == copy then v else u;
      assert MappingAlive(s, s.vmas[u0], a);
    }
  }

  /** Giving back the slots of a tracker one by one gives back as many pages as it records. */
  lemma {:induction false} SlotsLeftSize(s: State, tr: nat, i: nat)
    requires SlotsMatch(s) && tr in s.trackers && i <= |s.trackers[tr].pages|
    ensures |s.slot| == |SlotsLeft(s.slot, tr, i)| + Recorded(s.trackers[tr].pages[..i])
  {
    var pages := s.trackers[tr].pages;
    if i == 0 {
      assert SlotsLeft(s.slot, tr, 0) == s.slot;
    } else {
      SlotsLeftSize(s, tr, i - 1);
      assert pages[..i][..i - 1] == pages[..i - 1];
      SlotsLeftStep(s, tr, i - 1);
    }
  }

  lemma SlotsLeftStep(s: State, tr: nat, i: nat)
    requires SlotsMatch(s) && tr in s.trackers && i < |s.trackers[tr].pages|
    ensures |SlotsLeft(s.slot, tr, i)| ==
            |SlotsLeft(s.slot, tr, i + 1)| + if s.trackers[tr].pages[i].Some? then 1 else 0
  {
    var page := s.trackers[tr].pages[i];
    var before, after := SlotsLeft(s.slot, tr, i), SlotsLeft(s.slot, tr, i + 1);
    forall p | p in before && p !in after
      ensures page == Some(p)
    {
      assert SlotOk(s, p);
    }
    if page.Some? {
      MapShrinks(before, page.value);
      SameMap(after, before - {page.value});
    } else {
      SameMap(after, before);
    }
  }

  lemma SameMap<K, V>(a: map<K, V>, b: map<K, V>)
    requires forall k :: k in a <==> k in b
    requires forall k | k in a :: a[k] == b[k]
    ensures a == b
  {
  }

  lemma CloseInv(s: State, v: nat, pageSize: nat)
    requires Inv(s, pageSize) && v in s.vmas
    ensures Inv(CloseNext(s, v), pageSize)
  {
    CloseCounters(s, v);
    CloseSlots(s, v);
    CloseConserved(s, v);
    CloseMappings(s, v);
    CloseExtents(s, v, pageSize);
  }

  lemma CloseExtents(s: State, v: nat, pageSize: nat)
    requires pageSize > 0 && ExtentsMatch(s, pageSize) && v in s.vmas && s.vmas[v].tracker in s.trackers
    ensures ExtentsMatch(CloseNext(s, v), pageSize)
  {
  }

  lemma CloseCounters(s: State, v: nat)
    requires CountersMatch(s) && v in s.vmas
    ensures CountersMatch(CloseNext(s, v))
    ensures s.vmas[v].tracker in CloseNext(s, v).trackers <==> Users(s, s.vmas[v].tracker) != {v}
  {
    var s' := CloseNext(s, v);
    var tr := s.vmas[v].tracker;
    assert v in Users(s, tr);
    assert Users(s', tr) == Users(s, tr) - {v};
    assert |Users(s', tr)| == 0 <==> Users(s, tr) == {v};
    forall tr' | tr' != tr
      ensures Users(s', tr') == Users(s, tr')
    {
    }
    forall u | u in s'.vmas
      ensures s'.vmas[u].tracker in s'.trackers
    {
      assert u in Users(s', s'.vmas[u].tracker);
    }
  }

  lemma CloseSlots(s: State, v: nat)
    requires SlotsMatch(s) && v in s.vmas && s.vmas[v].tracker in s.trackers
    ensures SlotsMatch(CloseNext(s, v))
  {
    var s' := CloseNext(s, v);
    forall p | p in s'.slot
      ensures SlotOk(s', p)
    {
      assert SlotOk(s, p);
    }
  }

  lemma CloseConserved(s: State, v: nat)
    requires SlotsMatch(s) && Conserved(s) && v in s.vmas && s.vmas[v].tracker in s.trackers
    ensures Conserved(CloseNext(s, v))
  {
    var tr := s.vmas[v].tracker;
    var pages := s.trackers[tr].pages;
    assert pages[..|pages|] == pages;
    SlotsLeftSize(s, tr, |pages|);
    assert SlotsLeft(s.slot, tr, |pages|).Keys <= s.slot.Keys;
  }

  lemma CloseMappings(s: State, v: nat)
    requires CountersMatch(s) && MappingsAlive(s) && v in s.vmas
    ensures MappingsAlive(CloseNext(s, v))
  {
    var s' := CloseNext(s, v);
    CloseCounters(s, v);
    forall u, a | u in s'.vmas && a in s'.vmas[u].mapped
      ensures MappingAlive(s', s'.vmas[u], a)
    {
      assert MappingAlive(s, s.vmas[u], a);
      assert u in Users(s, s.vmas[u].tracker);
    }
  }

  lemma {:induction false} MappedPagesValues(start: nat, first: Page, n: nat, pageSize: nat)
    ensures forall a | a in MappedPages(start, first, n, pageSize) ::
      MappedPages(start, first, n, pageSize)[a] in PageRange(first, n)
  {
    if n > 0 {
      MappedPagesValues(start, first, n - 1, pageSize);
    }
  }

  function FreshPages(first: Page, count: nat, k: nat): (pages: seq<Option<Page>>)
    ensures |pages| == count && forall i | 0 <= i < count :: pages[i] == if i < k then Some(first + i) else None
  {
    seq(count, i requires i >= 0 => if i < k then Some(first + i) else None)
  }

  function FreshSlots(tr: nat, first: Page, k: nat): (m: map<Page, (nat, nat)>)
    ensures m.Keys == PageRange(first, k)
    ensures forall p | p in m :: first <= p < first + k && m[p] == (tr, p - first)
  {
    map p | p in PageRange(first, k) :: (tr, p - first)
  }

  /** A new area with a fresh tracker whose first k slots record fresh pages, all of them mapped. */
  function NewArea(s: State, v: nat, start: nat, end: nat, count: nat, k: nat, pageSize: nat): State {
    Installed(s, v, start, end, k, FreshPages(s.nextPage, count, k),
              MappedPages(start, s.nextPage, k, pageSize), FreshSlots(s.nextTracker, s.nextPage, k))
  }

  function Installed(s: State, v: nat, start: nat, end: nat, k: nat,
                     pages: seq<Option<Page>>, mapped: map<nat, Page>, slots: map<Page, (nat, nat)>): State {
    s.(nextTracker := s.nextTracker + 1, allocCount := s.allocCount + k, nextPage := s.nextPage + k,
       trackers := s.trackers[s.nextTracker := Tracker(1, pages)],
       vmas := s.vmas[v := Vma(start, end, s.nextTracker, mapped)],
       slot := s.slot + slots)
  }

  lemma NewAreaInv(s: State, v: nat, start: nat, end: nat, k: nat, pageSize: nat)
    requires Inv(s, pageSize) && v !in s.vmas && start <= end && k <= PagesCount(start, end, pageSize)
    ensures Inv(NewArea(s, v, start, end, PagesCount(start, end, pageSize), k, pageSize), pageSize)
  {
    var count := PagesCount(start, end, pageSize);
    NewAreaSlots(s, v, start, end, count, k, pageSize);
    NewAreaCounters(s, v, start, end, count, k, pageSize);
    NewAreaConserved(s, v, start, end, count, k, pageSize);
    NewAreaMappings(s, v, start, end, count, k, pageSize);
    CountIsCover(start, end, pageSize);
    NewAreaExtents(s, v, start, end, count, k, pageSize);
  }

  lemma NewAreaExtents(s: State, v: nat, start: nat, end: nat, count: nat, k: nat, pageSize: nat)
    requires pageSize > 0 && CountersMatch(s) && ExtentsMatch(s, pageSize)
    requires ExtentOk(start, end, count, pageSize)
    ensures ExtentsMatch(NewArea(s, v, start, end, count, k, pageSize), pageSize)
  {
    var s' := NewArea(s, v, start, end, count, k, pageSize);
    ExtentsExtend(s, s', v, s'.vmas[v], s'.trackers[s.nextTracker], pageSize);
  }

  lemma ExtentsExtend(s: State, s': State, v: nat, vma: Vma, t: Tracker, pageSize: nat)
    requires pageSize > 0 && CountersMatch(s) && ExtentsMatch(s, pageSize)
    requires s'.vmas == s.vmas[v := vma] && vma.tracker == s.nextTracker
    requires s'.trackers == s.trackers[s.nextTracker := t]
    requires ExtentOk(vma.start, vma.end, |t.pages|, pageSize)
    ensures ExtentsMatch(s', pageSize)
  {
    forall u | u in s'.vmas && s'.vmas[u].tracker in s'.trackers
      ensures ExtentOk(s'.vmas[u].start, s'.vmas[u].end, |s'.trackers[s'.vmas[u].tracker].pages|, pageSize)
    {
      if u != v {
        assert s'.vmas[u] == s.vmas[u] && s.vmas[u].tracker < s.nextTracker;
      }
    }
  }

  /** A tracker and the slots of the pages it records join the account together. */
  lemma SlotsExtend(s: State, s': State, tr: nat, t: Tracker, added: map<Page, (nat, nat)>)
    requires SlotsMatch(s) && tr !in s.trackers && s'.trackers == s.trackers[tr := t]
    requires s.slot.Keys !! added.Keys && s'.slot == s.slot + added
    requires forall p | p in added :: added[p].0 == tr && added[p].1 < |t.pages| && t.pages[added[p].1] == Some(p)
    requires forall i | 0 <= i < |t.pages| && t.pages[i].Some? ::
      t.pages[i].value in added && added[t.pages[i].value] == (tr, i)
    ensures SlotsMatch(s')
  {
    forall p | p in s'.slot
      ensures SlotOk(s', p)
    {
      assert p !in added ==> SlotOk(s, p);
    }
  }

  lemma NewAreaSlots(s: State, v: nat, start: nat, end: nat, count: nat, k: nat, pageSize: nat)
    requires SlotsMatch(s) && Conserved(s) && CountersMatch(s) && k <= count
    ensures SlotsMatch(NewArea(s, v, start, end, count, k, pageSize))
  {
    var s' := NewArea(s, v, start, end, count, k, pageSize);
    FreshMatch(s.nextTracker, s.nextPage, count, k);
    assert s.slot.Keys !! PageRange(s.nextPage, k);
    SlotsExtend(s, s', s.nextTracker, s'.trackers[s.nextTracker], FreshSlots(s.nextTracker, s.nextPage, k));
  }

  lemma FreshMatch(tr: nat, first: Page, count: nat, k: nat)
    requires k <= count
    ensures var pages, added := FreshPages(first, count, k), FreshSlots(tr, first, k);
      && (forall p | p in added :: added[p].0 == tr && added[p].1 < |pages| && pages[added[p].1] == Some(p))
      && (forall i | 0 <= i < |pages| && pages[i].Some? :: pages[i].value in added && added[pages[i].value] == (tr, i))
  {
    var pages, added := FreshPages(first, count, k), FreshSlots(tr, first, k);
    forall p | p in added
      ensures added[p].0 == tr && added[p].1 < |pages| && pages[added[p].1] == Some(p)
    {
      var i := p - first;
      assert pages[i] == Some(first + i);
    }
    forall i | 0 <= i < |pages| && pages[i].Some?
      ensures pages[i].value in added && added[pages[i].value] == (tr, i)
    {
      InFreshSlots(tr, first, k, i);
    }
  }

  lemma InFreshSlots(tr: nat, first: Page, k: nat, i: nat)
    requires i < k
    ensures first + i in FreshSlots(tr, first, k) && FreshSlots(tr, first, k)[first + i] == (tr, i)
  {
    var p := first + i;
    assert p in PageRange(first, k);
  }

  /** A VMA and its own tracker join together. */
  lemma CountersExtend(s: State, s': State, v: nat, vma: Vma, t: Tracker)
    requires CountersMatch(s) && v !in s.vmas && s'.vmas == s.vmas[v := vma] && vma.tracker == s.nextTracker
    requires s'.trackers == s.trackers[s.nextTracker := t] && t.counter == 1 && s'.nextTracker == s.nextTracker + 1
    ensures CountersMatch(s')
  {
    forall tr | tr in s.trackers
      ensures Users(s', tr) == Users(s, tr)
    {
    }
    assert Users(s', s.nextTracker) == {v};
  }

  lemma NewAreaCounters(s: State, v: nat, start: nat, end: nat, count: nat, k: nat, pageSize: nat)
    requires CountersMatch(s) && v !in s.vmas
    ensures CountersMatch(NewArea(s, v, start, end, count, k, pageSize))
  {
    var s' := NewArea(s, v, start, end, count, k, pageSize);
    CountersExtend(s, s', v, s'.vmas[v], s'.trackers[s.nextTracker]);
  }

  lemma NewAreaConserved(s: State, v: nat, start: nat, end: nat, count: nat, k: nat, pageSize: nat)
    requires Conserved(s)
    ensures Conserved(NewArea(s, v, start, end, count, k, pageSize))
  {
    var s' := NewArea(s, v, start, end, count, k, pageSize);
    assert s'.slot.Keys == s.slot.Keys + PageRange(s.nextPage, k);
    assert |s'.slot.Keys| == |s.slot.Keys| + k;
  }

  lemma NewAreaMappings(s: State, v: nat, start: nat, end: nat, count: nat, k: nat, pageSize: nat)
    requires MappingsAlive(s) && Conserved(s)
    ensures MappingsAlive(NewArea(s, v, start, end, count, k, pageSize))
  {
    var s' := NewArea(s, v, start, end, count, k, pageSize);
    MappedPagesValues(start, s.nextPage, k, pageSize);
    forall u, a | u in s'.vmas && a in s'.vmas[u].mapped
      ensures MappingAlive(s', s'.vmas[u], a)
    {
      assert u != v ==> MappingAlive(s, s.vmas[u], a);
    }
  }

  /** The state after an mmap that failed with k pages counted, and possibly one more allocated. */
  function GivenUp(s: State, k: nat, oneMore: bool): State {
    var s := s.(nextTracker := s.nextTracker + 1, allocCount := s.allocCount + k, nextPage := s.nextPage + k,
                lost := s.lost + PageRange(s.nextPage, k));
    if oneMore then s.(uncounted := s.uncounted + {s.nextPage}, nextPage := s.nextPage + 1) else s
  }

  lemma GivenUpInv(s: State, k: nat, oneMore: bool, pageSize: nat)
    requires Inv(s, pageSize)
    ensures Inv(GivenUp(s, k, oneMore), pageSize)
  {
    GivenUpConserved(s, k, oneMore);
    MoreLost(s, GivenUp(s, k, oneMore), pageSize);
  }

  lemma GivenUpConserved(s: State, k: nat, oneMore: bool)
    requires Conserved(s)
    ensures Conserved(GivenUp(s, k, oneMore))
  {
    assert |s.lost + PageRange(s.nextPage, k)| == |s.lost| + k;
  }

  lemma MmapInv(s: State, v: nat, start: nat, end: nat, demand: bool, outcomes: seq<Outcome>, pageSize: nat)
    requires Inv(s, pageSize) && CanMmap(s, v, start, end, demand, outcomes, pageSize)
    ensures Inv(MmapNext(s, v, start, end, demand, outcomes, pageSize), pageSize)
  {
    var count := PagesCount(start, end, pageSize);
    var k := if demand then 0 else Successes(outcomes, count);
    if demand || k == count {
      NewAreaInv(s, v, start, end, k, pageSize);
    } else {
      GivenUpInv(s, k, outcomes[k].RemapFails?, pageSize);
    }
  }

  lemma StepInv(s: State, e: Event, pageSize: nat)
    requires Inv(s, pageSize) && Feasible(s, e, pageSize)
    ensures Inv(Next(s, e, pageSize), pageSize)
  {
    match e {
      case MmapEvent(v, start, end, demand, outcomes) => MmapInv(s, v, start, end, demand, outcomes, pageSize);
      case FaultEvent(v, address, outcome) =>
        FaultReady(s, v, address, pageSize);
        FaultInv(s, v, address, outcome, pageSize);
      case OpenEvent(v, copy) => OpenInv(s, v, copy, pageSize);
      case CloseEvent(v) => CloseInv(s, v, pageSize);
    }
  }

  // Main results

  /** Pages an event loses: those counted by a failing mmap, the one of a failed remap, the one whose
      record is overwritten because a sharer of the tracker had already filled the slot. */
  function Loss(s: State, e: Event, pageSize: nat): nat
    requires Feasible(s, e, pageSize)
  {
    match e
    case MmapEvent(_, start, end, demand, outcomes) =>
      var count := PagesCount(start, end, pageSize);
      if demand || Successes(outcomes, count) == count then 0 else Successes(outcomes, count)
    case FaultEvent(v, address, RemapFails) => 1
    case FaultEvent(v, address, Mapped) =>
      if CanFault(s, v, address, pageSize) && SlotOf(s, v, address, pageSize).Some? then 1 else 0
    case _ => 0
  }

  function SlotOf(s: State, v: nat, address: nat, pageSize: nat): Option<Page>
    requires CanFault(s, v, address, pageSize)
  {
    s.trackers[s.vmas[v].tracker].pages[Offset(s.vmas[v].start, address, pageSize)]
  }

  lemma LossIsExact(s: State, e: Event, pageSize: nat)
    requires Inv(s, pageSize) && Feasible(s, e, pageSize)
    ensures |Next(s, e, pageSize).lost| == |s.lost| + Loss(s, e, pageSize)
  {
    match e {
      case MmapEvent(v, start, end, demand, outcomes) => MmapLoss(s, v, start, end, demand, outcomes, pageSize);
      case FaultEvent(v, address, outcome) => FaultLoss(s, v, address, outcome, pageSize);
      case OpenEvent(v, copy) => assert OpenNext(s, v, copy).lost == s.lost;
      case CloseEvent(v) => assert CloseNext(s, v).lost == s.lost;
    }
  }

  lemma MmapLoss(s: State, v: nat, start: nat, end: nat, demand: bool, outcomes: seq<Outcome>, pageSize: nat)
    requires Conserved(s) && CanMmap(s, v, start, end, demand, outcomes, pageSize)
    ensures |MmapNext(s, v, start, end, demand, outcomes, pageSize).lost| ==
            |s.lost| + Loss(s, MmapEvent(v, start, end, demand, outcomes), pageSize)
  {
    var count := PagesCount(start, end, pageSize);
    if !demand && Successes(outcomes, count) < count {
      var k := Successes(outcomes, count);
      GivenUpLoss(s, k, outcomes[k].RemapFails?);
    }
  }

  lemma GivenUpLoss(s: State, k: nat, oneMore: bool)
    requires Conserved(s)
    ensures |GivenUp(s, k, oneMore).lost| == |s.lost| + k
  {
    assert |s.lost + PageRange(s.nextPage, k)| == |s.lost| + k;
  }

  lemma FaultLoss(s: State, v: nat, address: nat, outcome: Outcome, pageSize: nat)
    requires Inv(s, pageSize) && v in s.vmas && s.vmas[v].start <= address < s.vmas[v].end
    ensures var e := FaultEvent(v, address, outcome);
            |Next(s, e, pageSize).lost| == |s.lost| + Loss(s, e, pageSize)
  {
    FaultReady(s, v, address, pageSize);
    if outcome.Mapped? {
      RecordLoss(s, v, Offset(s.vmas[v].start, address, pageSize), PageAlign(address, pageSize));
    }
  }

  lemma RecordLoss(s: State, v: nat, offset: nat, at: nat)
    requires SlotsMatch(s) && Conserved(s)
    requires v in s.vmas && s.vmas[v].tracker in s.trackers && offset < |s.trackers[s.vmas[v].tracker].pages|
    ensures |Record(s, v, offset, at).lost| ==
            |s.lost| + if s.trackers[s.vmas[v].tracker].pages[offset].Some? then 1 else 0
  {
  }

  ghost function TotalLoss(s: State, events: seq<Event>, pageSize: nat): nat
    requires Inv(s, pageSize) && Legal(s, events, pageSize)
    decreases events
  {
    if events == [] then 0
    else
      StepInv(s, events[0], pageSize);
      Loss(s, events[0], pageSize) + TotalLoss(Next(s, events[0], pageSize), events[1..], pageSize)
  }

  lemma {:induction false} TotalLossIsExact(s: State, events: seq<Event>, pageSize: nat)
    requires Inv(s, pageSize) && Legal(s, events, pageSize)
    ensures |Exec(s, events, pageSize).lost| == |s.lost| + TotalLoss(s, events, pageSize)
    decreases events
  {
    if events != [] {
      StepInv(s, events[0], pageSize);
      LossIsExact(s, events[0], pageSize);
      TotalLossIsExact(Next(s, events[0], pageSize), events[1..], pageSize);
    }
  }

  /** Pages an event takes from the kernel without counting them: the one a failing mmap could not map. */
  function Stray(s: State, e: Event, pageSize: nat): nat
    requires Feasible(s, e, pageSize)
  {
    match e
    case MmapEvent(_, start, end, demand, outcomes) =>
      var count := PagesCount(start, end, pageSize);
      if demand || Successes(outcomes, count) == count then 0
      else if outcomes[Successes(outcomes, count)].RemapFails? then 1 else 0
    case _ => 0
  }

  lemma StrayIsExact(s: State, e: Event, pageSize: nat)
    requires Inv(s, pageSize) && Feasible(s, e, pageSize)
    ensures |Next(s, e, pageSize).uncounted| == |s.uncounted| + Stray(s, e, pageSize)
  {
    match e {
      case MmapEvent(v, start, end, demand, outcomes) =>
        MmapStray(s, v, start, end, demand, outcomes, pageSize);
      case FaultEvent(v, address, outcome) => FaultStray(s, v, address, outcome, pageSize);
      case OpenEvent(v, copy) => assert OpenNext(s, v, copy).uncounted == s.uncounted;
      case CloseEvent(v) => assert CloseNext(s, v).uncounted == s.uncounted;
    }
  }

  lemma FaultStray(s: State, v: nat, address: nat, outcome: Outcome, pageSize: nat)
    requires Inv(s, pageSize) && v in s.vmas && s.vmas[v].start <= address < s.vmas[v].end
    ensures Next(s, FaultEvent(v, address, outcome), pageSize).uncounted == s.uncounted
  {
    FaultReady(s, v, address, pageSize);
    FaultKeepsUncounted(s, v, address, outcome, pageSize);
  }

  lemma FaultKeepsUncounted(s: State, v: nat, address: nat, outcome: Outcome, pageSize: nat)
    requires CanFault(s, v, address, pageSize)
    ensures FaultNext(s, v, address, outcome, pageSize).uncounted == s.uncounted
  {
  }

  lemma MmapStray(s: State, v: nat, start: nat, end: nat, demand: bool, outcomes: seq<Outcome>, pageSize: nat)
    requires Conserved(s) && CanMmap(s, v, start, end, demand, outcomes, pageSize)
    ensures |MmapNext(s, v, start, end, demand, outcomes, pageSize).uncounted| ==
            |s.uncounted| + Stray(s, MmapEvent(v, start, end, demand, outcomes), pageSize)
  {
    var count := PagesCount(start, end, pageSize);
    if !demand && Successes(outcomes, count) < count {
      var k := Successes(outcomes, count);
      GivenUpStray(s, k, outcomes[k].RemapFails?);
    }
  }

  lemma GivenUpStray(s: State, k: nat, oneMore: bool)
    requires Conserved(s)
    ensures |GivenUp(s, k, oneMore).uncounted| == |s.uncounted| + if oneMore then 1 else 0
  {
    assert s.nextPage + k !in s.uncounted;
  }

  ghost function TotalStray(s: State, events: seq<Event>, pageSize: nat): nat
    requires Inv(s, pageSize) && Legal(s, events, pageSize)
    decreases events
  {
    if events == [] then 0
    else
      StepInv(s, events[0], pageSize);
      Stray(s, events[0], pageSize) + TotalStray(Next(s, events[0], pageSize), events[1..], pageSize)
  }

  lemma {:induction false} TotalStrayIsExact(s: State, events: seq<Event>, pageSize: nat)
    requires Inv(s, pageSize) && Legal(s, events, pageSize)
    ensures |Exec(s, events, pageSize).uncounted| == |s.uncounted| + TotalStray(s, events, pageSize)
    decreases events
  {
    if events != [] {
      StepInv(s, events[0], pageSize);
      StrayIsExact(s, events[0], pageSize);
      TotalStrayIsExact(Next(s, events[0], pageSize), events[1..], pageSize);
    }
  }

  /** Every page ever allocated is accounted for: freed, recorded, lost, or allocated by a failing mmap
      without being counted. Once every VMA is closed, the pages that leak are exactly those of the
      failures and overwritten slots, which the two counters do not show in full. */
  lemma LeakTheorem(events: seq<Event>, pageSize: nat)
    requires pageSize > 0 && Legal(Init(), events, pageSize)
    ensures var s := Exec(Init(), events, pageSize);
      var leak := TotalLoss(Init(), events, pageSize) + TotalStray(Init(), events, pageSize);
      && s.nextPage == s.freeCount + |s.slot| + leak
      && (s.vmas == map[] ==> s.nextPage == s.freeCount + leak)
      && s.nextPage == s.allocCount + TotalStray(Init(), events, pageSize)
  {
    ConservationTheorem(events, pageSize);
    TotalStrayIsExact(Init(), events, pageSize);
  }

  /** After any sequence of callbacks the counters differ by the pages recorded and the pages lost; once
      every VMA is closed nothing is recorded, and the counters agree exactly when nothing was lost. */
  lemma ConservationTheorem(events: seq<Event>, pageSize: nat)
    requires pageSize > 0 && Legal(Init(), events, pageSize)
    ensures var s := Exec(Init(), events, pageSize);
      && (forall tr | tr in s.trackers :: s.trackers[tr].counter == |Users(s, tr)| >= 1)
      && s.allocCount - s.freeCount == |s.slot| + TotalLoss(Init(), events, pageSize)
      && (s.vmas == map[] ==> s.slot == map[] && s.trackers == map[])
      && (s.vmas == map[] ==> (s.allocCount == s.freeCount <==> TotalLoss(Init(), events, pageSize) == 0))
  {
    TotalLossIsExact(Init(), events, pageSize);
    var s := Exec(Init(), events, pageSize);
    if s.vmas == map[] {
      NothingLeft(s);
    }
  }

  lemma NothingLeft(s: State)
    requires SlotsMatch(s) && CountersMatch(s) && s.vmas == map[]
    ensures s.trackers == map[] && s.slot == map[]
  {
    assert forall tr :: Users(s, tr) == {};
    assert forall tr :: |Users(s, tr)| == 0;
    if p :| p in s.slot {
      assert SlotOk(s, p);
    }
  }

  /** A page stops being recorded without being lost only when the last VMA of its tracker closes, and
      a page that is not recorded any more never is again: no page is freed twice, or while in use. */
  lemma FreedOnce(s: State, e: Event, pageSize: nat, p: Page)
    requires Inv(s, pageSize) && Feasible(s, e, pageSize)
    ensures var s' := Next(s, e, pageSize);
      && (p in s.slot && p !in s'.slot && p !in s'.lost ==>
            e.CloseEvent? && s.slot[p].0 == s.vmas[e.v].tracker && Users(s, s.slot[p].0) == {e.v})
      && (p < s.nextPage && p !in s.slot ==> p < s'.nextPage && p !in s'.slot)
  {
    match e {
      case MmapEvent(v, start, end, demand, outcomes) =>
        FreedNotByMmap(s, v, start, end, demand, outcomes, pageSize, p);
      case FaultEvent(v, address, outcome) =>
        FaultReady(s, v, address, pageSize);
        FreedNotByFault(s, v, address, outcome, pageSize, p);
      case OpenEvent(v, copy) => assert OpenNext(s, v, copy).slot == s.slot;
      case CloseEvent(v) => FreedByClose(s, v, p);
    }
  }

  lemma FreedNotByMmap(s: State, v: nat, start: nat, end: nat, demand: bool, outcomes: seq<Outcome>,
                       pageSize: nat, p: Page)
    requires Conserved(s) && CanMmap(s, v, start, end, demand, outcomes, pageSize)
    ensures var s' := MmapNext(s, v, start, end, demand, outcomes, pageSize);
      && (p in s.slot ==> p in s'.slot)
      && (p < s.nextPage && p !in s.slot ==> p < s'.nextPage && p !in s'.slot)
  {
  }

  lemma FreedNotByFault(s: State, v: nat, address: nat, outcome: Outcome, pageSize: nat, p: Page)
    requires CanFault(s, v, address, pageSize)
    ensures var s' := FaultNext(s, v, address, outcome, pageSize);
      && (p in s.slot ==> p in s'.slot || p in s'.lost)
      && (p < s.nextPage && p !in s.slot ==> p < s'.nextPage && p !in s'.slot)
  {
  }

  lemma FreedByClose(s: State, v: nat, p: Page)
    requires SlotsMatch(s) && CountersMatch(s) && v in s.vmas
    ensures p in s.slot && p !in CloseNext(s, v).slot ==>
              s.slot[p].0 == s.vmas[v].tracker && Users(s, s.slot[p].0) == {v}
    ensures p !in s.slot ==> p !in CloseNext(s, v).slot
  {
    CloseCounters(s, v);
    if p in s.slot {
      assert SlotOk(s, p);
    }
  }

  /** In every reachable state no live VMA maps a freed page: each mapping leads to a page its own
      tracker records, or to one that was lost and will never be freed. */
  lemma NoDanglingMapping(events: seq<Event>, pageSize: nat, v: nat, a: nat)
    requires pageSize > 0 && Legal(Init(), events, pageSize)
    requires var s := Exec(Init(), events, pageSize); v in s.vmas && a in s.vmas[v].mapped
    ensures var s := Exec(Init(), events, pageSize);
      var p := s.vmas[v].mapped[a];
      p in s.lost || (p in s.slot && s.slot[p].0 == s.vmas[v].tracker)
  {
    var s := Exec(Init(), events, pageSize);
    assert MappingAlive(s, s.vmas[v], a);
  }

  // Demand paging against pre-paging

  function AllMapped(n: nat): seq<Outcome> {
    seq(n, _ => Mapped)
  }

  /** Successful faults at the given addresses. */
  function Touches(v: nat, at: seq<nat>): seq<Event> {
    if at == [] then [] else [FaultEvent(v, at[0], Mapped)] + Touches(v, at[1..])
  }

  lemma PageAddressInjective(start: nat, o: nat, o': nat, pageSize: nat)
    requires pageSize > 0 && PageAddress(start, o, pageSize) == PageAddress(start, o', pageSize)
    ensures o == o'
  {
    assert pageSize * (o - o') == o * pageSize - o' * pageSize;
    MultipleSteps(pageSize, o - o');
    MultipleSteps(pageSize, o' - o);
  }

  predicate SamePage(start: nat, a: nat, b: nat, pageSize: nat)
    requires pageSize > 0
  {
    start <= a && start <= b && Offset(start, a, pageSize) == Offset(start, b, pageSize)
  }

  /** The address lies in a page of area v whose slot is still empty. */
  predicate Fresh(s: State, v: nat, address: nat, pageSize: nat) {
    CanFault(s, v, address, pageSize) && SlotOf(s, v, address, pageSize).None?
  }

  /** Addresses in different pages, none of them touched yet. */
  ghost predicate Untouched(s: State, v: nat, at: seq<nat>, pageSize: nat)
    requires v in s.vmas && pageSize > 0
  {
    && (forall i | 0 <= i < |at| :: Fresh(s, v, at[i], pageSize))
    && Apart(s.vmas[v].start, at, pageSize)
  }

  ghost predicate Apart(start: nat, at: seq<nat>, pageSize: nat)
    requires pageSize > 0
  {
    forall i, j | 0 <= i < j < |at| :: !SamePage(start, at[i], at[j], pageSize)
  }

  function Aligned(at: seq<nat>, pageSize: nat): set<nat>
    requires pageSize > 0
  {
    if at == [] then {} else {PageAlign(at[0], pageSize)} + Aligned(at[1..], pageSize)
  }

  lemma {:induction false} AlignedAre(at: seq<nat>, pageSize: nat, x: nat)
    requires pageSize > 0
    ensures x in Aligned(at, pageSize) <==> exists i :: 0 <= i < |at| && PageAlign(at[i], pageSize) == x
  {
    if at != [] {
      AlignedAre(at[1..], pageSize, x);
      if i :| 0 <= i < |at| && PageAlign(at[i], pageSize) == x {
        assert i > 0 ==> at[1..][i - 1] == at[i];
      }
    }
  }

  /** s' is s after faults at the addresses `at` of area v, each successful, nothing lost. */
  ghost predicate Touched(s: State, s': State, v: nat, at: seq<nat>, pageSize: nat)
    requires v in s.vmas && pageSize > 0
  {
    && v in s'.vmas && s'.allocCount == s.allocCount + |at| && s'.lost == s.lost
    && s'.vmas[v].start == s.vmas[v].start
    && s'.vmas[v].mapped.Keys == s.vmas[v].mapped.Keys + Aligned(at, pageSize)
  }

  lemma TouchedMore(s: State, s1: State, s': State, v: nat, at: seq<nat>, pageSize: nat)
    requires pageSize > 0 && v in s.vmas && at != []
    requires Touched(s, s1, v, [at[0]], pageSize) && Touched(s1, s', v, at[1..], pageSize)
    ensures Touched(s, s', v, at, pageSize)
  {
    assert [at[0]][1..] == [];
    assert Aligned([at[0]], pageSize) == {PageAlign(at[0], pageSize)};
  }

  lemma {:induction false} TouchPages(s: State, v: nat, at: seq<nat>, pageSize: nat)
    requires Inv(s, pageSize) && v in s.vmas && Untouched(s, v, at, pageSize)
    ensures Legal(s, Touches(v, at), pageSize)
    ensures Touched(s, Exec(s, Touches(v, at), pageSize), v, at, pageSize)
    decreases |at|
  {
    if at != [] {
      var e := FaultEvent(v, at[0], Mapped);
      TouchOne(s, v, at, pageSize);
      StepInv(s, e, pageSize);
      var s1, rest := Next(s, e, pageSize), Touches(v, at[1..]);
      TouchPages(s1, v, at[1..], pageSize);
      ExecFirst(s, e, rest, pageSize);
      TouchedMore(s, s1, Exec(s1, rest, pageSize), v, at, pageSize);
    }
  }

  lemma ExecFirst(s: State, e: Event, rest: seq<Event>, pageSize: nat)
    requires Inv(s, pageSize) && Feasible(s, e, pageSize)
    requires Inv(Next(s, e, pageSize), pageSize) && Legal(Next(s, e, pageSize), rest, pageSize)
    ensures Legal(s, [e] + rest, pageSize)
    ensures Exec(s, [e] + rest, pageSize) == Exec(Next(s, e, pageSize), rest, pageSize)
  {
    assert ([e] + rest)[0] == e && ([e] + rest)[1..] == rest;
  }

  lemma TouchOne(s: State, v: nat, at: seq<nat>, pageSize: nat)
    requires Inv(s, pageSize) && v in s.vmas && Untouched(s, v, at, pageSize) && at != []
    ensures var e := FaultEvent(v, at[0], Mapped);
      && Feasible(s, e, pageSize)
      && Touched(s, Next(s, e, pageSize), v, [at[0]], pageSize)
      && Untouched(Next(s, e, pageSize), v, at[1..], pageSize)
  {
    assert Fresh(s, v, at[0], pageSize);
    TouchMaps(s, v, at[0], pageSize);
    OthersStayFresh(s, v, at, pageSize);
  }

  lemma TouchMaps(s: State, v: nat, a: nat, pageSize: nat)
    requires Fresh(s, v, a, pageSize)
    ensures Touched(s, FaultNext(s, v, a, Mapped, pageSize), v, [a], pageSize)
  {
    RecordTouches(s, v, Offset(s.vmas[v].start, a, pageSize), PageAlign(a, pageSize));
    assert [a][1..] == [] && Aligned([a], pageSize) == {PageAlign(a, pageSize)};
  }

  lemma OthersStayFresh(s: State, v: nat, at: seq<nat>, pageSize: nat)
    requires pageSize > 0 && v in s.vmas && at != [] && Untouched(s, v, at, pageSize) && Fresh(s, v, at[0], pageSize)
    ensures var s' := FaultNext(s, v, at[0], Mapped, pageSize);
      v in s'.vmas && Untouched(s', v, at[1..], pageSize)
  {
    var s' := FaultNext(s, v, at[0], Mapped, pageSize);
    forall i | 0 <= i < |at[1..]|
      ensures Fresh(s', v, at[1..][i], pageSize)
    {
      assert at[1..][i] == at[i + 1];
      StaysFresh(s, v, at[0], at[i + 1], pageSize);
    }
    forall i, j | 0 <= i < j < |at[1..]|
      ensures !SamePage(s.vmas[v].start, at[1..][i], at[1..][j], pageSize)
    {
      assert !SamePage(s.vmas[v].start, at[i + 1], at[j + 1], pageSize);
    }
  }

  lemma RecordTouches(s: State, v: nat, offset: nat, at: nat)
    requires v in s.vmas && s.vmas[v].tracker in s.trackers && offset < |s.trackers[s.vmas[v].tracker].pages|
    requires s.trackers[s.vmas[v].tracker].pages[offset].None?
    ensures var s' := Record(s, v, offset, at);
      && v in s'.vmas && s'.vmas[v].start == s.vmas[v].start && s'.allocCount == s.allocCount + 1 && s'.lost == s.lost
      && s'.vmas[v].mapped.Keys == s.vmas[v].mapped.Keys + {at}
  {
  }

  /** Filling one page's slot leaves the others empty. */
  lemma StaysFresh(s: State, v: nat, a: nat, b: nat, pageSize: nat)
    requires Fresh(s, v, a, pageSize) && Fresh(s, v, b, pageSize) && !SamePage(s.vmas[v].start, a, b, pageSize)
    ensures Fresh(FaultNext(s, v, a, Mapped, pageSize), v, b, pageSize)
  {
  }

  lemma {:induction false} MappedPagesKeys(start: nat, first: Page, n: nat, pageSize: nat, a: nat)
    ensures a in MappedPages(start, first, n, pageSize) <==>
      exists o: nat :: o < n && a == PageAddress(start, o, pageSize)
  {
    if n > 0 {
      MappedPagesKeys(start, first, n - 1, pageSize, a);
      assert PageAddress(start, n - 1, pageSize) == start + (n - 1) * pageSize;
    }
  }

  /** One address in each of the area's pages, in any order. */
  ghost predicate OnePerPage(start: nat, end: nat, at: seq<nat>, pageSize: nat)
    requires pageSize > 0 && start <= end
  {
    && |at| == PagesCount(start, end, pageSize)
    && (forall i | 0 <= i < |at| :: start <= at[i] < end)
    && Apart(start, at, pageSize)
  }

  predicate InPage(start: nat, address: nat, o: nat, pageSize: nat)
    requires pageSize > 0
  {
    start <= address && Offset(start, address, pageSize) == o
  }

  predicate AllAligned(at: seq<nat>, pageSize: nat)
    requires pageSize > 0
  {
    forall i | 0 <= i < |at| :: at[i] % pageSize == 0
  }

  function Pages(start: nat, at: seq<nat>, pageSize: nat): set<nat>
    requires pageSize > 0 && forall i | 0 <= i < |at| :: start <= at[i]
  {
    if at == [] then {} else {Offset(start, at[0], pageSize)} + Pages(start, at[1..], pageSize)
  }

  lemma {:induction false} PagesAre(start: nat, at: seq<nat>, pageSize: nat, o: nat)
    requires pageSize > 0 && forall i | 0 <= i < |at| :: start <= at[i]
    ensures o in Pages(start, at, pageSize) <==> exists i :: 0 <= i < |at| && InPage(start, at[i], o, pageSize)
  {
    if at != [] {
      PagesAre(start, at[1..], pageSize, o);
      if i :| 0 <= i < |at| && InPage(start, at[i], o, pageSize) {
        assert i > 0 ==> at[1..][i - 1] == at[i];
      }
      if i :| 0 <= i < |at[1..]| && InPage(start, at[1..][i], o, pageSize) {
        assert InPage(start, at[i + 1], o, pageSize);
      }
      assert InPage(start, at[0], o, pageSize) <==> o == Offset(start, at[0], pageSize);
    }
  }

  lemma {:induction false} PagesDistinct(start: nat, at: seq<nat>, pageSize: nat)
    requires pageSize > 0 && (forall i | 0 <= i < |at| :: start <= at[i]) && Apart(start, at, pageSize)
    ensures |Pages(start, at, pageSize)| == |at|
  {
    if at != [] {
      var o := Offset(start, at[0], pageSize);
      forall i, j | 0 <= i < j < |at[1..]|
        ensures !SamePage(start, at[1..][i], at[1..][j], pageSize)
      {
        assert !SamePage(start, at[i + 1], at[j + 1], pageSize);
      }
      PagesDistinct(start, at[1..], pageSize);
      PagesAre(start, at[1..], pageSize, o);
      forall i | 0 <= i < |at[1..]|
        ensures !InPage(start, at[1..][i], o, pageSize)
      {
        assert !SamePage(start, at[0], at[i + 1], pageSize);
      }
    }
  }

  /** As many addresses as pages, in different pages, leave no page out. */
  lemma EveryPageIsTouched(start: nat, end: nat, at: seq<nat>, o: nat, pageSize: nat) returns (i: nat)
    requires pageSize > 0 && start <= end && OnePerPage(start, end, at, pageSize) && o < |at|
    ensures i < |at| && InPage(start, at[i], o, pageSize)
  {
    var pages, all := Pages(start, at, pageSize), PageRange(0, |at|);
    PagesDistinct(start, at, pageSize);
    if o !in pages {
      forall x | x in pages + {o}
        ensures x in all
      {
        if x != o {
          PagesAre(start, at, pageSize, x);
          var j :| 0 <= j < |at| && InPage(start, at[j], x, pageSize);
          OffsetInRange(start, end, at[j], pageSize);
        }
      }
      SubsetIsSmaller(pages + {o}, all);
      assert false;
    }
    PagesAre(start, at, pageSize, o);
    i :| i < |at| && InPage(start, at[i], o, pageSize);
  }

  /** Touching every page of a new area once, in any order and anywhere in the page, allocates and loses as
      many pages as filling the area in mmap. It maps the same addresses if and only if every touch is at
      a page boundary: the handler rounds the address up, while the slot it fills is the page's own. */
  lemma DemandAgreesWithPrePaging(s: State, v: nat, start: nat, end: nat, at: seq<nat>, pageSize: nat)
    requires Inv(s, pageSize) && v !in s.vmas && start <= end && start % pageSize == 0
    requires OnePerPage(start, end, at, pageSize)
    ensures var demand := [MmapEvent(v, start, end, true, [])] + Touches(v, at);
      var filled := MmapNext(s, v, start, end, false, AllMapped(|at|), pageSize);
      && Legal(s, demand, pageSize)
      && (var touched := Exec(s, demand, pageSize);
          && v in touched.vmas && v in filled.vmas
          && touched.allocCount == filled.allocCount == s.allocCount + |at|
          && touched.lost == filled.lost == s.lost
          && (touched.vmas[v].mapped.Keys == filled.vmas[v].mapped.Keys <==> AllAligned(at, pageSize)))
  {
    DemandRun(s, v, start, end, at, pageSize);
    FilledArea(s, v, start, end, |at|, pageSize);
    SameKeysIfAligned(start, end, s.nextPage, at, pageSize);
  }

  lemma SameKeysIfAligned(start: nat, end: nat, first: Page, at: seq<nat>, pageSize: nat)
    requires pageSize > 0 && start <= end && start % pageSize == 0 && OnePerPage(start, end, at, pageSize)
    ensures Aligned(at, pageSize) == MappedPages(start, first, |at|, pageSize).Keys <==> AllAligned(at, pageSize)
  {
    if AllAligned(at, pageSize) {
      forall x
        ensures x in Aligned(at, pageSize) <==> x in MappedPages(start, first, |at|, pageSize)
      {
        AlignedKeys(start, end, first, at, pageSize, x);
      }
    } else if Aligned(at, pageSize) == MappedPages(start, first, |at|, pageSize).Keys {
      AlignedUpTo(start, end, first, at, |at|, pageSize);
    }
  }

  lemma AlignedKeys(start: nat, end: nat, first: Page, at: seq<nat>, pageSize: nat, x: nat)
    requires pageSize > 0 && start <= end && start % pageSize == 0 && OnePerPage(start, end, at, pageSize)
    requires AllAligned(at, pageSize)
    ensures x in Aligned(at, pageSize) <==> x in MappedPages(start, first, |at|, pageSize)
  {
    AlignedAre(at, pageSize, x);
    MappedPagesKeys(start, first, |at|, pageSize, x);
    if i: nat :| i < |at| && PageAlign(at[i], pageSize) == x {
      var o := AlignedTouch(start, end, at[i], pageSize);
    }
    if o: nat :| o < |at| && x == PageAddress(start, o, pageSize) {
      var i := EveryPageIsTouched(start, end, at, o, pageSize);
      var o' := AlignedTouch(start, end, at[i], pageSize);
    }
  }

  lemma AlignedTouch(start: nat, end: nat, address: nat, pageSize: nat) returns (o: nat)
    requires pageSize > 0 && start % pageSize == 0 && start <= address < end && address % pageSize == 0
    ensures o < PagesCount(start, end, pageSize) && InPage(start, address, o, pageSize)
    ensures PageAlign(address, pageSize) == PageAddress(start, o, pageSize)
  {
    o := Offset(start, address, pageSize);
    AlignedFrom(start, address, pageSize);
    OffsetInRange(start, end, address, pageSize);
  }

  /** If all pages are mapped, the touches in the first k pages are aligned: page k is mapped by its own
      touch, aligned, or by an unaligned one in the page below. */
  lemma {:induction false} AlignedUpTo(start: nat, end: nat, first: Page, at: seq<nat>, k: nat, pageSize: nat)
    requires pageSize > 0 && start <= end && start % pageSize == 0 && OnePerPage(start, end, at, pageSize)
    requires k <= |at| && Aligned(at, pageSize) == MappedPages(start, first, |at|, pageSize).Keys
    ensures forall i | 0 <= i < |at| && InPages(start, at[i], k, pageSize) :: at[i] % pageSize == 0
    ensures k == |at| ==> AllAligned(at, pageSize)
  {
    if k > 0 {
      AlignedUpTo(start, end, first, at, k - 1, pageSize);
      var x := PageAddress(start, k - 1, pageSize);
      MappedPagesKeys(start, first, |at|, pageSize, x);
      AlignedAre(at, pageSize, x);
      var j :| 0 <= j < |at| && PageAlign(at[j], pageSize) == x;
      MappedByOwnTouch(start, at, k - 1, j, pageSize);
      forall i | 0 <= i < |at| && InPages(start, at[i], k, pageSize)
        ensures at[i] % pageSize == 0
      {
        if !InPages(start, at[i], k - 1, pageSize) {
          assert SamePage(start, at[i], at[j], pageSize);
          assert i == j;
        }
      }
    }
    if k == |at| {
      forall i | 0 <= i < |at|
        ensures at[i] % pageSize == 0
      {
        OffsetInRange(start, end, at[i], pageSize);
        assert InPages(start, at[i], k, pageSize);
      }
    }
  }

  /** The address lies in one of the first k pages. */
  predicate InPages(start: nat, address: nat, k: nat, pageSize: nat)
    requires pageSize > 0
  {
    start <= address && Offset(start, address, pageSize) < k
  }

  lemma MappedByOwnTouch(start: nat, at: seq<nat>, o: nat, j: nat, pageSize: nat)
    requires pageSize > 0 && start % pageSize == 0 && j < |at| && start <= at[j]
    requires PageAlign(at[j], pageSize) == PageAddress(start, o, pageSize)
    requires forall i | 0 <= i < |at| && InPages(start, at[i], o, pageSize) :: at[i] % pageSize == 0
    ensures InPage(start, at[j], o, pageSize) && at[j] % pageSize == 0
  {
    AlignedFrom(start, at[j], pageSize);
    var own := Offset(start, at[j], pageSize);
    PageAddressInjective(start, o, if at[j] % pageSize == 0 then own else own + 1, pageSize);
    if at[j] % pageSize != 0 {
      assert InPages(start, at[j], o, pageSize);
      assert false;
    }
  }

  /** An area mapped on demand, then touched page by page. */
  lemma DemandRun(s: State, v: nat, start: nat, end: nat, at: seq<nat>, pageSize: nat)
    requires Inv(s, pageSize) && v !in s.vmas && start <= end
    requires (forall i | 0 <= i < |at| :: start <= at[i] < end) && Apart(start, at, pageSize)
    ensures Legal(s, [MmapEvent(v, start, end, true, [])] + Touches(v, at), pageSize)
    ensures var s' := Exec(s, [MmapEvent(v, start, end, true, [])] + Touches(v, at), pageSize);
      && v in s'.vmas && s'.allocCount == s.allocCount + |at| && s'.lost == s.lost
      && s'.vmas[v].mapped.Keys == Aligned(at, pageSize)
  {
    var e := MmapEvent(v, start, end, true, []);
    EmptyArea(s, v, start, end, at, pageSize);
    StepInv(s, e, pageSize);
    var s1 := Next(s, e, pageSize);
    TouchPages(s1, v, at, pageSize);
    ExecFirst(s, e, Touches(v, at), pageSize);
    TouchedFromEmpty(s1, Exec(s1, Touches(v, at), pageSize), v, at, pageSize);
  }

  lemma TouchedFromEmpty(s: State, s': State, v: nat, at: seq<nat>, pageSize: nat)
    requires pageSize > 0 && v in s.vmas && s.vmas[v].mapped == map[] && Touched(s, s', v, at, pageSize)
    ensures v in s'.vmas && s'.allocCount == s.allocCount + |at| && s'.lost == s.lost
    ensures s'.vmas[v].mapped.Keys == Aligned(at, pageSize)
  {
  }

  lemma EmptyArea(s: State, v: nat, start: nat, end: nat, at: seq<nat>, pageSize: nat)
    requires Inv(s, pageSize) && v !in s.vmas && start <= end
    requires (forall i | 0 <= i < |at| :: start <= at[i] < end) && Apart(start, at, pageSize)
    ensures var s1 := MmapNext(s, v, start, end, true, [], pageSize);
      && v in s1.vmas && s1.vmas[v].start == start && s1.vmas[v].mapped == map[]
      && Untouched(s1, v, at, pageSize)
      && s1.allocCount == s.allocCount && s1.lost == s.lost
  {
    var s1 := MmapNext(s, v, start, end, true, [], pageSize);
    forall i | 0 <= i < |at|
      ensures Fresh(s1, v, at[i], pageSize)
    {
      OffsetInRange(start, end, at[i], pageSize);
    }
  }

  lemma FilledArea(s: State, v: nat, start: nat, end: nat, n: nat, pageSize: nat)
    requires Inv(s, pageSize) && v !in s.vmas && start <= end && n == PagesCount(start, end, pageSize)
    ensures var s1 := MmapNext(s, v, start, end, false, AllMapped(n), pageSize);
      && v in s1.vmas && s1.vmas[v].mapped == MappedPages(start, s.nextPage, n, pageSize)
      && s1.allocCount == s.allocCount + n && s1.lost == s.lost
  {
    assert Successes(AllMapped(n), n) == n;
  }
}
