/** The datalog pallet as a state machine over traces of calls (pallets/datalog/src/lib.rs). */
module Datalog {
  import opened Machine
  import opened RingBuffer
  import opened AccountLog

  type AccountId = nat
  type Moment = u64
  type Record = seq<u8>

  /** `WindowSize` and `MaximumMessageSize`; both stay fixed during a run. */
  datatype Config = Config(window: Window, maxSize: nat)

  datatype Origin = Signed(who: AccountId) | Root | Unsigned

  /** An extrinsic with what it reads from its environment: the clock at the time of the
      call and the size hint of its record. */
  datatype Call =
    | StoreRecord(origin: Origin, now: Moment, record: Record, sizeHint: nat)
    | EraseLog(origin: Origin)

  datatype Event = NewRecord(who: AccountId, now: Moment, record: Record) | Erased(who: AccountId)

  datatype DispatchError = RecordTooBig | BadOrigin

  /** The storage maps; an absent key reads as the default value. */
  datatype Storage = Storage(
    legacy: map<AccountId, seq<Item>>,
    index: map<AccountId, Index>,
    items: map<(AccountId, u64), Item>)

  datatype State = State(storage: Storage, events: seq<Event>)

  /** Why a call is rejected, if it is; the size is checked before the origin. */
  function Rejection(cfg: Config, c: Call): Option<DispatchError> {
    if c.StoreRecord? && c.sizeHint > cfg.maxSize then Some(RecordTooBig)
    else if !c.origin.Signed? then Some(BadOrigin)
    else None
  }

  function Lookup<K, V>(m: map<K, V>, k: K): Option<V> {
    if k in m then Some(m[k]) else None
  }

  function StoredIndex(st: Storage, a: AccountId): Index {
    Lookup(st.index, a).GetOr(EMPTY)
  }

  predicate WellFormedStorage(w: Window, st: Storage) {
    forall a :: a in st.index ==> InRange(w, st.index[a])
  }

  /** The keys `(a, i)` with `i` in `slots`. */
  function CellKeys(a: AccountId, slots: set<u64>): set<(AccountId, u64)> {
    set i | i in slots :: (a, i)
  }

  function StoreRecordIn(w: Window, st: Storage, a: AccountId, item: Item): (r: Storage)
    requires WellFormedStorage(w, st)
    ensures WellFormedStorage(w, r)
  {
    var idx := StoredIndex(st, a);
    Storage(st.legacy - {a}, st.index[a := Advance(w, idx)], st.items[(a, idx.end) := item])
  }

  function EraseLogIn(w: Window, st: Storage, a: AccountId): (r: Storage)
    requires WellFormedStorage(w, st)
    ensures WellFormedStorage(w, r)
  {
    Storage(st.legacy - {a}, st.index - {a}, st.items - CellKeys(a, LiveSlots(w, StoredIndex(st, a))))
  }

  function Dispatch(cfg: Config, s: State, c: Call): (r: State)
    requires WellFormedStorage(cfg.window, s.storage)
    ensures WellFormedStorage(cfg.window, r.storage)
  {
    if Rejection(cfg, c).Some? then s
    else match c
      case StoreRecord(Signed(a), now, record, _) =>
        State(StoreRecordIn(cfg.window, s.storage, a, Item(now, record)), s.events + [NewRecord(a, now, record)])
      case EraseLog(Signed(a)) =>
        State(EraseLogIn(cfg.window, s.storage, a), s.events + [Erased(a)])
  }

  /** The pallet's own maps start empty; the legacy map may hold anything. */
  function Genesis(legacy: map<AccountId, seq<Item>>): State {
    State(Storage(legacy, map[], map[]), [])
  }

  function RunFrom(cfg: Config, s: State, calls: seq<Call>): (r: State)
    requires WellFormedStorage(cfg.window, s.storage)
    ensures WellFormedStorage(cfg.window, r.storage)
  {
    if calls == [] then s
    else Dispatch(cfg, RunFrom(cfg, s, calls[..|calls| - 1]), calls[|calls| - 1])
  }

  function Run(cfg: Config, legacy: map<AccountId, seq<Item>>, calls: seq<Call>): (r: State)
    ensures WellFormedStorage(cfg.window, r.storage)
  {
    RunFrom(cfg, Genesis(legacy), calls)
  }

  lemma RunOneMore(cfg: Config, legacy: map<AccountId, seq<Item>>, calls: seq<Call>, c: Call)
    ensures Run(cfg, legacy, calls + [c]) == Dispatch(cfg, Run(cfg, legacy, calls), c)
  {
    var all := calls + [c];
    assert all[..|all| - 1] == calls;
  }

  // ----- one account's view --------------------------------------------------

  /** The part of the storage filed under `a`. */
  function View(st: Storage, a: AccountId): Account {
    Account(Lookup(st.legacy, a), Lookup(st.index, a),
            map k | k in st.items && k.0 == a :: k.1 := st.items[k])
  }

  /** What is stored for `a` in each of the slots, in order. */
  function ItemsAt(items: map<(AccountId, u64), Item>, a: AccountId, slots: seq<u64>): seq<Item> {
    seq(|slots|, k requires 0 <= k < |slots| => Lookup(items, (a, slots[k])).GetOr(DEFAULT_ITEM))
  }

  lemma ItemsAtOneMore(items: map<(AccountId, u64), Item>, a: AccountId, slots: seq<u64>, slot: u64)
    ensures ItemsAt(items, a, slots + [slot]) == ItemsAt(items, a, slots) + [Lookup(items, (a, slot)).GetOr(DEFAULT_ITEM)]
  {
  }

  function Data(w: Window, st: Storage, a: AccountId): seq<Item>
    requires WellFormedStorage(w, st)
  {
    ItemsAt(st.items, a, Iterate(w, StoredIndex(st, a)))
  }

  // ----- what a trace means, without any storage ------------------------------

  predicate Accepted(cfg: Config, c: Call, a: AccountId) {
    Rejection(cfg, c).None? && c.origin == Signed(a)
  }

  /** What one call does to the unbounded log of `a`. */
  function LogAfter(cfg: Config, log: seq<Item>, c: Call, a: AccountId): seq<Item> {
    if !Accepted(cfg, c, a) then log
    else match c
      case StoreRecord(_, now, record, _) => log + [Item(now, record)]
      case EraseLog(_) => []
  }

  /** Everything `a` recorded since its last erase, oldest first. */
  function Recorded(cfg: Config, calls: seq<Call>, a: AccountId): seq<Item> {
    if calls == [] then []
    else LogAfter(cfg, Recorded(cfg, calls[..|calls| - 1], a), calls[|calls| - 1], a)
  }

  /** The one cell of `a` outside its live range, if there is one. */
  function DeadCell(cfg: Config, calls: seq<Call>, a: AccountId): Option<u64> {
    if calls == [] then None
    else
      var earlier, c := calls[..|calls| - 1], calls[|calls| - 1];
      var before := DeadCell(cfg, earlier, a);
      if Accepted(cfg, c, a) && c.StoreRecord?
      then DeadAfterPush(cfg.window, |Recorded(cfg, earlier, a)|, before)
      else before
  }

  // ----- one step, seen by one account ----------------------------------------

  lemma ViewOfWellFormed(w: Window, st: Storage, a: AccountId)
    requires WellFormedStorage(w, st)
    ensures WellFormed(w, View(st, a)) && View(st, a).Idx() == StoredIndex(st, a)
  {
  }

  lemma ViewCells(st: Storage, a: AccountId, i: u64)
    ensures Lookup(View(st, a).cells, i) == Lookup(st.items, (a, i))
  {
    assert (a, i) in st.items ==> (a, i).1 in View(st, a).cells;
  }

  lemma SameCells(c: map<u64, Item>, d: map<u64, Item>)
    requires forall i: u64 :: Lookup(c, i) == Lookup(d, i)
    ensures c == d
  {
    forall i: u64 ensures i in c <==> i in d {
      assert Lookup(c, i) == Lookup(d, i);
    }
    forall i: u64 | i in c ensures c[i] == d[i] {
      assert Lookup(c, i) == Lookup(d, i);
    }
  }

  lemma ViewOfStoreRecord(w: Window, st: Storage, a: AccountId, item: Item, b: AccountId)
    requires WellFormedStorage(w, st)
    ensures View(StoreRecordIn(w, st, a, item), b) == if a == b then Push(w, View(st, a), item) else View(st, b)
  {
    var st' := StoreRecordIn(w, st, a, item);
    var expected := if a == b then Push(w, View(st, a), item) else View(st, b);
    forall i: u64 ensures Lookup(View(st', b).cells, i) == Lookup(expected.cells, i) {
      ViewCells(st', b, i);
      ViewCells(st, b, i);
    }
    SameCells(View(st', b).cells, expected.cells);
  }

  lemma ViewOfEraseLog(w: Window, st: Storage, a: AccountId, b: AccountId)
    requires WellFormedStorage(w, st)
    ensures View(EraseLogIn(w, st, a), b) == if a == b then Clear(w, View(st, a)) else View(st, b)
  {
    var st' := EraseLogIn(w, st, a);
    var expected := if a == b then Clear(w, View(st, a)) else View(st, b);
    forall i: u64 ensures Lookup(View(st', b).cells, i) == Lookup(expected.cells, i) {
      ViewCells(st', b, i);
      ViewCells(st, b, i);
    }
    SameCells(View(st', b).cells, expected.cells);
  }

  /** What one call does to one account. */
  function DispatchView(cfg: Config, acc: Account, c: Call, a: AccountId): Account
    requires WellFormed(cfg.window, acc)
  {
    if !Accepted(cfg, c, a) then acc
    else match c
      case StoreRecord(_, now, record, _) => Push(cfg.window, acc, Item(now, record))
      case EraseLog(_) => Clear(cfg.window, acc)
  }

  lemma ViewOfDispatch(cfg: Config, s: State, c: Call, a: AccountId)
    requires WellFormedStorage(cfg.window, s.storage)
    ensures WellFormed(cfg.window, View(s.storage, a))
    ensures View(Dispatch(cfg, s, c).storage, a) == DispatchView(cfg, View(s.storage, a), c, a)
  {
    ViewOfWellFormed(cfg.window, s.storage, a);
    if Rejection(cfg, c).None? {
      match c
      case StoreRecord(Signed(b), now, record, _) =>
        ViewOfStoreRecord(cfg.window, s.storage, b, Item(now, record), a);
      case EraseLog(Signed(b)) =>
        ViewOfEraseLog(cfg.window, s.storage, b, a);
    }
  }

  /** The invariant of every reachable state. */
  lemma {:induction false} RunRepresents(cfg: Config, legacy: map<AccountId, seq<Item>>, calls: seq<Call>, a: AccountId)
    ensures Represents(cfg.window, View(Run(cfg, legacy, calls).storage, a), Recorded(cfg, calls, a), DeadCell(cfg, calls, a))
  {
    if calls == [] {
      FreshRepresents(cfg.window, Lookup(legacy, a));
      assert View(Genesis(legacy).storage, a) == Account(Lookup(legacy, a), None, map[]);
    } else {
      var earlier, c := calls[..|calls| - 1], calls[|calls| - 1];
      var s := Run(cfg, legacy, earlier);
      var log, dead := Recorded(cfg, earlier, a), DeadCell(cfg, earlier, a);
      RunRepresents(cfg, legacy, earlier, a);
      ViewOfDispatch(cfg, s, c, a);
      if Accepted(cfg, c, a) {
        match c
        case StoreRecord(_, now, record, _) =>
          PushRepresents(cfg.window, View(s.storage, a), log, dead, Item(now, record));
        case EraseLog(_) =>
          ClearRepresents(cfg.window, View(s.storage, a), log, dead);
      }
    }
  }

  lemma DataIsContentsOfView(w: Window, st: Storage, a: AccountId)
    requires WellFormedStorage(w, st)
    ensures WellFormed(w, View(st, a)) && Data(w, st, a) == Contents(w, View(st, a))
  {
    ViewOfWellFormed(w, st, a);
    var slots := Iterate(w, StoredIndex(st, a));
    forall k | 0 <= k < |slots| ensures Data(w, st, a)[k] == Contents(w, View(st, a))[k] {
      ViewCells(st, a, slots[k]);
    }
  }
}
