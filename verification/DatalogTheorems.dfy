/** What holds after every run of the datalog pallet: for every window, every initial legacy
map and every interleaving of accepted and rejected calls by any accounts. */
module DatalogTheorems {
  import opened Machine
  import opened RingBuffer
  import opened AccountLog
  import opened Datalog

  // ----- the data -----------------------------------------------------------

  /** `data(a)` is the newest `w - 1` of the records `a` stored since its last erase. */
  lemma DataIsNewestRecords(cfg: Config, legacy: map<AccountId, seq<Item>>, calls: seq<Call>, a: AccountId)
    ensures Data(cfg.window, Run(cfg, legacy, calls).storage, a) == Newest(Recorded(cfg, calls, a), cfg.window - 1)
  {
    var st := Run(cfg, legacy, calls).storage;
    RunRepresents(cfg, legacy, calls, a);
    DataIsContentsOfView(cfg.window, st, a);
    ContentsAreNewest(cfg.window, View(st, a), Recorded(cfg, calls, a), DeadCell(cfg, calls, a));
  }

  lemma IndexClosedForm(cfg: Config, legacy: map<AccountId, seq<Item>>, calls: seq<Call>, a: AccountId)
    ensures var idx, n := StoredIndex(Run(cfg, legacy, calls).storage, a), |Recorded(cfg, calls, a)|;
            && idx.end == n % cfg.window
            && idx.start == (if n < cfg.window then 0 else (n + 1) % cfg.window)
            && Length(cfg.window, idx) == Min(n, cfg.window - 1)
  {
    RunRepresents(cfg, legacy, calls, a);
    ViewOfWellFormed(cfg.window, Run(cfg, legacy, calls).storage, a);
    AfterClosedForm(cfg.window, |Recorded(cfg, calls, a)|);
  }

  // ----- the cells ------------------------------------------------------------

  /** The slots `a` has a cell in. */
  function Occupied(st: Storage, a: AccountId): (slots: set<u64>)
    ensures forall i: u64 :: i in slots <==> (a, i) in st.items
  {
    assert forall i: u64 {:trigger (a, i) in st.items} :: i in View(st, a).cells <==> (a, i) in st.items by {
      forall i: u64 ensures i in View(st, a).cells <==> (a, i) in st.items {
        ViewCells(st, a, i);
      }
    }
    View(st, a).cells.Keys
  }

  /** The occupied cells are the live range plus at most one dead cell; once the window has
      been filled the dead cell is the one at `end`. */
  lemma Occupancy(cfg: Config, legacy: map<AccountId, seq<Item>>, calls: seq<Call>, a: AccountId)
    ensures var st, n, w := Run(cfg, legacy, calls).storage, |Recorded(cfg, calls, a)|, cfg.window;
            var live, dead := LiveSlots(w, StoredIndex(st, a)), ToSet(DeadCell(cfg, calls, a));
            && Occupied(st, a) == live + dead && live !! dead
            && |live| == Min(n, w - 1) && |Occupied(st, a)| == |live| + |dead| <= w
            && (w <= n ==> dead == {StoredIndex(st, a).end})
  {
    var st := Run(cfg, legacy, calls).storage;
    RunRepresents(cfg, legacy, calls, a);
    ViewOfWellFormed(cfg.window, st, a);
    OccupancyCount(cfg.window, View(st, a), Recorded(cfg, calls, a), DeadCell(cfg, calls, a));
    LiveSlotCount(cfg.window, |Recorded(cfg, calls, a)|);
  }

  /** What an accepted erase leaves behind is the dead cell, and no live slot. */
  lemma EraseLeavesOnlyDeadCell(cfg: Config, legacy: map<AccountId, seq<Item>>, calls: seq<Call>, a: AccountId)
    ensures var st := Run(cfg, legacy, calls + [EraseLog(Signed(a))]).storage;
            && Occupied(st, a) == ToSet(DeadCell(cfg, calls, a))
            && Data(cfg.window, st, a) == []
            && a !in st.index && a !in st.legacy
  {
    var all := calls + [EraseLog(Signed(a))];
    assert all[..|all| - 1] == calls;
    Occupancy(cfg, legacy, all, a);
    DataIsNewestRecords(cfg, legacy, all, a);
  }

  /** How long `a`'s log was after each prefix of the calls. */
  function LogLengths(cfg: Config, calls: seq<Call>, a: AccountId): seq<nat> {
    seq(|calls| + 1, q requires 0 <= q <= |calls| => |Recorded(cfg, calls[..q], a)|)
  }

  /** The log filled the window at time `p`, `d` was the slot to be written next, and at no
      later time had a log grown past `d` and written it. */
  ghost predicate LeftAt(w: Window, lengths: seq<nat>, d: u64, p: nat) {
    && p < |lengths|
    && w <= lengths[p]
    && d == lengths[p] % w
    && forall q :: p < q < |lengths| ==> lengths[q] <= d
  }

  lemma LeftAtWhenFull(w: Window, lengths: seq<nat>, n: nat, d: u64)
    requires w <= n
    ensures (exists p: nat :: LeftAt(w, lengths + [n], d, p)) <==> d == n % w
  {
    var all := lengths + [n];
    assert all[|lengths|] == n;
    if d == n % w {
      assert LeftAt(w, all, d, |lengths|);
    }
    forall p: nat | LeftAt(w, all, d, p) ensures p == |lengths| {
      ModSuccessor(all[p], w);
    }
  }

  lemma LeftAtStep(w: Window, lengths: seq<nat>, n: nat, d: u64)
    requires n < w
    ensures (exists p: nat :: LeftAt(w, lengths + [n], d, p)) <==> (exists p: nat :: LeftAt(w, lengths, d, p)) && n <= d
  {
    var all := lengths + [n];
    forall p: nat | LeftAt(w, all, d, p) ensures LeftAt(w, lengths, d, p) && n <= d {
      assert all[|lengths|] <= d;
      assert forall q :: 0 <= q < |lengths| ==> all[q] == lengths[q];
    }
    forall p: nat | LeftAt(w, lengths, d, p) && n <= d ensures LeftAt(w, all, d, p) {
    }
  }

  /** As long as the window is not full, the last call keeps a dead cell unless it wrote it. */
  lemma DeadCellStep(cfg: Config, calls: seq<Call>, a: AccountId, d: u64)
    requires calls != [] && |Recorded(cfg, calls, a)| < cfg.window
    ensures DeadCell(cfg, calls, a) == Some(d) <==>
              DeadCell(cfg, calls[..|calls| - 1], a) == Some(d) && |Recorded(cfg, calls, a)| <= d
  {
    var earlier := calls[..|calls| - 1];
    RunRepresents(cfg, map[], earlier, a);
    AfterWithoutModulo(cfg.window, |Recorded(cfg, earlier, a)|);
  }

  lemma DeadCellWhenFull(cfg: Config, calls: seq<Call>, a: AccountId)
    requires cfg.window <= |Recorded(cfg, calls, a)|
    ensures DeadCell(cfg, calls, a) == Some(|Recorded(cfg, calls, a)| % cfg.window)
  {
    RunRepresents(cfg, map[], calls, a);
    AfterClosedForm(cfg.window, |Recorded(cfg, calls, a)|);
  }

  /** Exactly when a dead cell survives, in terms of the trace alone. */
  lemma {:induction false} DeadCellCharacterised(cfg: Config, calls: seq<Call>, a: AccountId, d: u64)
    ensures DeadCell(cfg, calls, a) == Some(d) <==> exists p: nat :: LeftAt(cfg.window, LogLengths(cfg, calls, a), d, p)
  {
    var lengths, n := LogLengths(cfg, calls, a), |Recorded(cfg, calls, a)|;
    assert calls[..|calls|] == calls;
    assert lengths == lengths[..|calls|] + [n];
    if cfg.window <= n {
      DeadCellWhenFull(cfg, calls, a);
      LeftAtWhenFull(cfg.window, lengths[..|calls|], n, d);
    } else {
      LeftAtStep(cfg.window, lengths[..|calls|], n, d);
      if calls != [] {
        var earlier := calls[..|calls| - 1];
        assert forall q :: 0 <= q <= |earlier| ==> calls[..q] == earlier[..q];
        assert lengths[..|calls|] == LogLengths(cfg, earlier, a);
        DeadCellCharacterised(cfg, earlier, a, d);
        DeadCellStep(cfg, calls, a, d);
      }
    }
  }

  // ----- a dead cell is never read ------------------------------------------------

  /** Two accounts that may differ in their legacy entry and in cells that are not live. */
  ghost predicate AgreeOnLive(w: Window, acc: Account, acc': Account)
    requires WellFormed(w, acc)
  {
    && acc.Idx() == acc'.Idx()
    && forall i: u64 :: IsLive(w, acc.Idx(), i) ==> Cell(acc, i) == Cell(acc', i)
  }

  lemma AgreeAfterDispatch(cfg: Config, acc: Account, acc': Account, c: Call, a: AccountId)
    requires WellFormed(cfg.window, acc) && AgreeOnLive(cfg.window, acc, acc')
    ensures WellFormed(cfg.window, DispatchView(cfg, acc, c, a))
    ensures AgreeOnLive(cfg.window, DispatchView(cfg, acc, c, a), DispatchView(cfg, acc', c, a))
  {
    if Accepted(cfg, c, a) && c.StoreRecord? {
      forall i: u64 {
        AdvanceLive(cfg.window, acc.Idx(), i);
      }
    }
  }

  lemma AgreeMeansSameData(w: Window, st: Storage, st': Storage, a: AccountId)
    requires WellFormedStorage(w, st) && WellFormedStorage(w, st')
    requires WellFormed(w, View(st, a)) && AgreeOnLive(w, View(st, a), View(st', a))
    ensures Data(w, st, a) == Data(w, st', a)
  {
    DataIsContentsOfView(w, st, a);
    DataIsContentsOfView(w, st', a);
    IterateIsCyclicOrder(w, View(st, a).Idx());
    assert Contents(w, View(st, a)) == Contents(w, View(st', a));
  }

  lemma {:induction false} AgreeAfterRun(cfg: Config, s: State, s': State, calls: seq<Call>, a: AccountId)
    requires WellFormedStorage(cfg.window, s.storage) && WellFormedStorage(cfg.window, s'.storage)
    requires WellFormed(cfg.window, View(s.storage, a)) && AgreeOnLive(cfg.window, View(s.storage, a), View(s'.storage, a))
    ensures var st, st' := RunFrom(cfg, s, calls).storage, RunFrom(cfg, s', calls).storage;
            WellFormed(cfg.window, View(st, a)) && AgreeOnLive(cfg.window, View(st, a), View(st', a))
  {
    if calls != [] {
      var earlier, c := calls[..|calls| - 1], calls[|calls| - 1];
      var r, r' := RunFrom(cfg, s, earlier), RunFrom(cfg, s', earlier);
      AgreeAfterRun(cfg, s, s', earlier, a);
      ViewOfDispatch(cfg, r, c, a);
      ViewOfDispatch(cfg, r', c, a);
      AgreeAfterDispatch(cfg, View(r.storage, a), View(r'.storage, a), c, a);
    }
  }

  /** Nothing but the live cells is ever read, now or later: whatever the other cells and the
      legacy map hold, every continuation of the run returns the same data. */
  lemma OnlyLiveCellsMatter(cfg: Config, s: State, s': State, calls: seq<Call>, a: AccountId)
    requires WellFormedStorage(cfg.window, s.storage) && WellFormedStorage(cfg.window, s'.storage)
    requires WellFormed(cfg.window, View(s.storage, a)) && AgreeOnLive(cfg.window, View(s.storage, a), View(s'.storage, a))
    ensures Data(cfg.window, RunFrom(cfg, s, calls).storage, a) == Data(cfg.window, RunFrom(cfg, s', calls).storage, a)
  {
    AgreeAfterRun(cfg, s, s', calls, a);
    AgreeMeansSameData(cfg.window, RunFrom(cfg, s, calls).storage, RunFrom(cfg, s', calls).storage, a);
  }

  /** The storage without its dead cells and its legacy entries. */
  function Scrub(w: Window, st: Storage): (r: Storage)
    requires WellFormedStorage(w, st)
    ensures WellFormedStorage(w, r)
  {
    Storage(map[], st.index, map k | k in st.items && IsLive(w, StoredIndex(st, k.0), k.1) :: st.items[k])
  }

  lemma DeadCellsAreNeverRead(cfg: Config, s: State, calls: seq<Call>, a: AccountId)
    requires WellFormedStorage(cfg.window, s.storage)
    ensures Data(cfg.window, RunFrom(cfg, s, calls).storage, a)
         == Data(cfg.window, RunFrom(cfg, s.(storage := Scrub(cfg.window, s.storage)), calls).storage, a)
  {
    var w, s' := cfg.window, s.(storage := Scrub(cfg.window, s.storage));
    ViewOfWellFormed(w, s.storage, a);
    ViewOfWellFormed(w, s'.storage, a);
    forall i: u64 | IsLive(w, View(s.storage, a).Idx(), i)
      ensures Cell(View(s.storage, a), i) == Cell(View(s'.storage, a), i)
    {
      ViewCells(s.storage, a, i);
      ViewCells(s'.storage, a, i);
    }
    OnlyLiveCellsMatter(cfg, s, s', calls, a);
  }

  /** In a reachable state what is left are exactly the live cells. */
  lemma ScrubLeavesLiveCells(cfg: Config, legacy: map<AccountId, seq<Item>>, calls: seq<Call>, a: AccountId)
    ensures var st := Run(cfg, legacy, calls).storage;
            var scrubbed := Scrub(cfg.window, st);
            && Occupied(scrubbed, a) == LiveSlots(cfg.window, StoredIndex(st, a))
            && Data(cfg.window, scrubbed, a) == Data(cfg.window, st, a)
            && a !in scrubbed.legacy
  {
    var w, s := cfg.window, Run(cfg, legacy, calls);
    IterateIsCyclicOrder(w, StoredIndex(s.storage, a));
    DataReadsOnlyWrittenCells(cfg, legacy, calls, a);
    DeadCellsAreNeverRead(cfg, s, [], a);
  }

  /** In a reachable state every slot `data` visits holds a cell, so no default is read. */
  lemma DataReadsOnlyWrittenCells(cfg: Config, legacy: map<AccountId, seq<Item>>, calls: seq<Call>, a: AccountId)
    ensures var st := Run(cfg, legacy, calls).storage;
            forall i :: i in Iterate(cfg.window, StoredIndex(st, a)) ==> (a, i) in st.items
  {
    var st := Run(cfg, legacy, calls).storage;
    Occupancy(cfg, legacy, calls, a);
    forall i | i in Iterate(cfg.window, StoredIndex(st, a)) ensures (a, i) in st.items {
      assert i in LiveSlots(cfg.window, StoredIndex(st, a));
    }
  }

  /** Where there are no cells at all, every live slot reads as moment 0 and an empty record. */
  lemma AbsentCellsReadAsDefault(w: Window, st: Storage, a: AccountId)
    requires WellFormedStorage(w, st) && st.items == map[]
    ensures |Data(w, st, a)| == Length(w, StoredIndex(st, a))
    ensures forall k :: 0 <= k < |Data(w, st, a)| ==> Data(w, st, a)[k] == Item(0, [])
  {
    IterateClosedForm(w, StoredIndex(st, a));
  }

  // ----- events and rejected calls -------------------------------------------------

  /** The bounded log an observer of the events keeps for `a`. */
  function ReplayEvent(w: Window, log: seq<Item>, e: Event, a: AccountId): seq<Item> {
    if e.who != a then log
    else match e
      case NewRecord(_, now, record) => Newest(log + [Item(now, record)], w - 1)
      case Erased(_) => []
  }

  function Replay(w: Window, events: seq<Event>, a: AccountId): seq<Item> {
    if events == [] then []
    else ReplayEvent(w, Replay(w, events[..|events| - 1], a), events[|events| - 1], a)
  }

  lemma NewestOfNewest<T>(log: seq<T>, x: T, k: nat)
    ensures Newest(Newest(log, k) + [x], k) == Newest(log + [x], k)
  {
  }

  lemma ReplayOneMore(w: Window, events: seq<Event>, e: Event, a: AccountId)
    ensures Replay(w, events + [e], a) == ReplayEvent(w, Replay(w, events, a), e, a)
  {
    var all := events + [e];
    assert all[..|all| - 1] == events && all[|all| - 1] == e;
  }

  lemma ReplayOneDispatch(cfg: Config, s: State, c: Call, log: seq<Item>, a: AccountId)
    requires WellFormedStorage(cfg.window, s.storage)
    requires Replay(cfg.window, s.events, a) == Newest(log, cfg.window - 1)
    ensures Replay(cfg.window, Dispatch(cfg, s, c).events, a) == Newest(LogAfter(cfg, log, c, a), cfg.window - 1)
  {
    if Rejection(cfg, c).None? {
      var e := if c.StoreRecord? then NewRecord(c.origin.who, c.now, c.record) else Erased(c.origin.who);
      ReplayOneMore(cfg.window, s.events, e, a);
      if c.StoreRecord? {
        NewestOfNewest(log, Item(c.now, c.record), cfg.window - 1);
      }
    }
  }

  lemma {:induction false} EventsReproduceRecorded(cfg: Config, legacy: map<AccountId, seq<Item>>, calls: seq<Call>, a: AccountId)
    ensures Replay(cfg.window, Run(cfg, legacy, calls).events, a) == Newest(Recorded(cfg, calls, a), cfg.window - 1)
  {
    if calls != [] {
      var earlier, c := calls[..|calls| - 1], calls[|calls| - 1];
      EventsReproduceRecorded(cfg, legacy, earlier, a);
      ReplayOneDispatch(cfg, Run(cfg, legacy, earlier), c, Recorded(cfg, earlier, a), a);
    }
  }

  /** The events a trace gives rise to: one for each accepted call, in order, and no other. */
  function EventsOf(cfg: Config, calls: seq<Call>): seq<Event> {
    if calls == [] then []
    else
      EventsOf(cfg, calls[..|calls| - 1]) +
      match calls[|calls| - 1]
      case StoreRecord(Signed(a), now, record, sizeHint) =>
        if sizeHint <= cfg.maxSize then [NewRecord(a, now, record)] else []
      case EraseLog(Signed(a)) => [Erased(a)]
      case _ => []
  }

  /** The exact event list of every run. */
  lemma {:induction false} EventsOfRun(cfg: Config, legacy: map<AccountId, seq<Item>>, calls: seq<Call>)
    ensures Run(cfg, legacy, calls).events == EventsOf(cfg, calls)
  {
    if calls != [] {
      EventsOfRun(cfg, legacy, calls[..|calls| - 1]);
    }
  }

  /** Replaying the emitted events reproduces `data(a)` for every account. */
  lemma EventsReproduceData(cfg: Config, legacy: map<AccountId, seq<Item>>, calls: seq<Call>, a: AccountId)
    ensures var s := Run(cfg, legacy, calls);
            Replay(cfg.window, s.events, a) == Data(cfg.window, s.storage, a)
  {
    EventsReproduceRecorded(cfg, legacy, calls, a);
    DataIsNewestRecords(cfg, legacy, calls, a);
  }

  /** A call leaves the state alone exactly when it is rejected, whether its record is too big
      or its origin unsigned; an accepted call emits exactly one event, its sender's. */
  lemma RejectedExactlyWhenInert(cfg: Config, s: State, c: Call)
    requires WellFormedStorage(cfg.window, s.storage)
    ensures var s' := Dispatch(cfg, s, c);
            && (s' == s <==> (!c.origin.Signed? || (c.StoreRecord? && cfg.maxSize < c.sizeHint)))
            && (s' != s ==> |s'.events| == |s.events| + 1 && s.events < s'.events
                            && s'.events[|s.events|].who == c.origin.who)
  {
    assert |Dispatch(cfg, s, c).events| == if Rejection(cfg, c).Some? then |s.events| else |s.events| + 1;
  }

  function AcceptedOnly(cfg: Config, calls: seq<Call>): seq<Call> {
    if calls == [] then []
    else
      var before, c := AcceptedOnly(cfg, calls[..|calls| - 1]), calls[|calls| - 1];
      if Rejection(cfg, c).None? then before + [c] else before
  }

  /** Striking all rejected calls from a trace changes neither storage nor events. */
  lemma {:induction false} RejectedCallsLeaveNoTrace(cfg: Config, s: State, calls: seq<Call>)
    requires WellFormedStorage(cfg.window, s.storage)
    ensures forall i :: 0 <= i < |AcceptedOnly(cfg, calls)| ==> Rejection(cfg, AcceptedOnly(cfg, calls)[i]).None?
    ensures RunFrom(cfg, s, calls) == RunFrom(cfg, s, AcceptedOnly(cfg, calls))
  {
    if calls != [] {
      var earlier, c := calls[..|calls| - 1], calls[|calls| - 1];
      RejectedCallsLeaveNoTrace(cfg, s, earlier);
      var kept := AcceptedOnly(cfg, calls);
      assert Rejection(cfg, c).None? ==> kept[..|kept| - 1] == AcceptedOnly(cfg, earlier);
    }
  }

  // ----- accounts do not interfere ---------------------------------------------------

  /** The calls `a` signed, in order, each with its own clock reading. */
  function OwnCalls(calls: seq<Call>, a: AccountId): seq<Call> {
    if calls == [] then []
    else
      var before, c := OwnCalls(calls[..|calls| - 1], a), calls[|calls| - 1];
      if c.origin == Signed(a) then before + [c] else before
  }

  /** What is filed under `a` depends only on what was filed there before and on `a`'s own calls. */
  lemma {:induction false} AccountsDoNotInterfere(cfg: Config, s: State, s': State, calls: seq<Call>, a: AccountId)
    requires WellFormedStorage(cfg.window, s.storage) && WellFormedStorage(cfg.window, s'.storage)
    requires View(s.storage, a) == View(s'.storage, a)
    ensures View(RunFrom(cfg, s, calls).storage, a) == View(RunFrom(cfg, s', OwnCalls(calls, a)).storage, a)
  {
    if calls != [] {
      var earlier, c := calls[..|calls| - 1], calls[|calls| - 1];
      AccountsDoNotInterfere(cfg, s, s', earlier, a);
      ViewOfDispatch(cfg, RunFrom(cfg, s, earlier), c, a);
      if c.origin == Signed(a) {
        var own := OwnCalls(calls, a);
        assert own[..|own| - 1] == OwnCalls(earlier, a);
        ViewOfDispatch(cfg, RunFrom(cfg, s', OwnCalls(earlier, a)), c, a);
      }
    }
  }

  lemma ViewsDetermineStorage(st: Storage, st': Storage)
    requires forall a :: View(st, a) == View(st', a)
    ensures st == st'
  {
    forall a ensures Lookup(st.legacy, a) == Lookup(st'.legacy, a) && Lookup(st.index, a) == Lookup(st'.index, a) {
      assert View(st, a) == View(st', a);
    }
    assert st.legacy == st'.legacy by { SameMap(st.legacy, st'.legacy); }
    assert st.index == st'.index by { SameMap(st.index, st'.index); }
    forall k: (AccountId, u64) ensures Lookup(st.items, k) == Lookup(st'.items, k) {
      assert View(st, k.0) == View(st', k.0);
      ViewCells(st, k.0, k.1);
      ViewCells(st', k.0, k.1);
    }
    SameMap(st.items, st'.items);
  }

  lemma SameMap<K(!new), V>(m: map<K, V>, m': map<K, V>)
    requires forall k :: Lookup(m, k) == Lookup(m', k)
    ensures m == m'
  {
    forall k ensures (k in m <==> k in m') && (k in m ==> m[k] == m'[k]) {
      assert Lookup(m, k) == Lookup(m', k);
    }
  }

  /** Two interleavings of the same per-account call sequences leave the same storage. */
  lemma InterleavingIsImmaterial(cfg: Config, s: State, calls: seq<Call>, calls': seq<Call>)
    requires WellFormedStorage(cfg.window, s.storage)
    requires forall a :: OwnCalls(calls, a) == OwnCalls(calls', a)
    ensures RunFrom(cfg, s, calls).storage == RunFrom(cfg, s, calls').storage
  {
    var st, st' := RunFrom(cfg, s, calls).storage, RunFrom(cfg, s, calls').storage;
    forall a ensures View(st, a) == View(st', a) {
      assert OwnCalls(calls, a) == OwnCalls(calls', a);
      AccountsDoNotInterfere(cfg, s, s, calls, a);
      AccountsDoNotInterfere(cfg, s, s, calls', a);
    }
    ViewsDetermineStorage(st, st');
  }

  /** Calls by different signers commute on storage. */
  lemma DifferentSignersCommute(cfg: Config, s: State, c: Call, d: Call)
    requires WellFormedStorage(cfg.window, s.storage)
    requires c.origin != d.origin || !c.origin.Signed?
    ensures Dispatch(cfg, Dispatch(cfg, s, c), d).storage == Dispatch(cfg, Dispatch(cfg, s, d), c).storage
  {
    forall a ensures OwnCalls([c, d], a) == OwnCalls([d, c], a) {
      OwnCallsOfTwo(c, d, a);
      OwnCallsOfTwo(d, c, a);
    }
    InterleavingIsImmaterial(cfg, s, [c, d], [d, c]);
    RunOfTwo(cfg, s, c, d);
    RunOfTwo(cfg, s, d, c);
  }

  lemma OwnCallsOfTwo(c: Call, d: Call, a: AccountId)
    ensures OwnCalls([c, d], a)
         == (if c.origin == Signed(a) then [c] else []) + (if d.origin == Signed(a) then [d] else [])
  {
    var two, one := [c, d], [c];
    assert two[..|two| - 1] == one && one[..|one| - 1] == [];
    assert OwnCalls(one, a) == if c.origin == Signed(a) then [c] else [];
  }

  lemma RunOfTwo(cfg: Config, s: State, c: Call, d: Call)
    requires WellFormedStorage(cfg.window, s.storage)
    ensures RunFrom(cfg, s, [c, d]) == Dispatch(cfg, Dispatch(cfg, s, c), d)
  {
    var two, one := [c, d], [c];
    assert two[..|two| - 1] == one && one[..|one| - 1] == [];
    assert RunFrom(cfg, s, one) == Dispatch(cfg, s, c);
  }

  // ----- order in time -------------------------------------------------------------------

  /** The clock never decreases along the run. */
  ghost predicate ClockMonotone(calls: seq<Call>) {
    forall i, j :: 0 <= i < j < |calls| && calls[i].StoreRecord? && calls[j].StoreRecord? ==> calls[i].now <= calls[j].now
  }

  ghost predicate Chronological(log: seq<Item>) {
    forall i, j :: 0 <= i < j < |log| ==> log[i].moment <= log[j].moment
  }

  lemma {:induction false} RecordedMomentsComeFromCalls(cfg: Config, calls: seq<Call>, a: AccountId, k: nat)
    requires k < |Recorded(cfg, calls, a)|
    ensures exists i :: 0 <= i < |calls| && calls[i].StoreRecord? && calls[i].now == Recorded(cfg, calls, a)[k].moment
  {
    var earlier, c := calls[..|calls| - 1], calls[|calls| - 1];
    if k < |Recorded(cfg, earlier, a)| && !(Accepted(cfg, c, a) && c.EraseLog?) {
      RecordedMomentsComeFromCalls(cfg, earlier, a, k);
      var i :| 0 <= i < |earlier| && earlier[i].StoreRecord? && earlier[i].now == Recorded(cfg, earlier, a)[k].moment;
      assert calls[i] == earlier[i];
    }
  }

  lemma {:induction false} RecordedIsChronological(cfg: Config, calls: seq<Call>, a: AccountId)
    requires ClockMonotone(calls)
    ensures Chronological(Recorded(cfg, calls, a))
  {
    if calls != [] {
      var earlier, c := calls[..|calls| - 1], calls[|calls| - 1];
      RecordedIsChronological(cfg, earlier, a);
      var log := Recorded(cfg, earlier, a);
      if Accepted(cfg, c, a) && c.StoreRecord? {
        forall k | 0 <= k < |log| ensures log[k].moment <= c.now {
          RecordedMomentsComeFromCalls(cfg, earlier, a, k);
          var i :| 0 <= i < |earlier| && earlier[i].StoreRecord? && earlier[i].now == log[k].moment;
          assert calls[i] == earlier[i];
        }
      }
    }
  }

  /** If the clock never decreases, `data` is in chronological order, also after wraps and erases. */
  lemma DataIsChronological(cfg: Config, legacy: map<AccountId, seq<Item>>, calls: seq<Call>, a: AccountId)
    requires ClockMonotone(calls)
    ensures Chronological(Data(cfg.window, Run(cfg, legacy, calls).storage, a))
  {
    RecordedIsChronological(cfg, calls, a);
    DataIsNewestRecords(cfg, legacy, calls, a);
  }

  // ----- the legacy map -------------------------------------------------------------------

  /** A legacy entry keeps its initial value until its account's first accepted call and is
      absent from then on. */
  lemma {:induction false} LegacyOnlyShrinks(cfg: Config, legacy: map<AccountId, seq<Item>>, calls: seq<Call>, a: AccountId)
    ensures Lookup(Run(cfg, legacy, calls).storage.legacy, a)
         == if exists i :: 0 <= i < |calls| && Accepted(cfg, calls[i], a) then None else Lookup(legacy, a)
  {
    if calls != [] {
      var earlier, c := calls[..|calls| - 1], calls[|calls| - 1];
      LegacyOnlyShrinks(cfg, legacy, earlier, a);
      assert forall i :: 0 <= i < |earlier| ==> earlier[i] == calls[i];
      assert Accepted(cfg, c, a) ==> Accepted(cfg, calls[|calls| - 1], a);
    }
  }
}
