/** What the three storage maps of the datalog pallet hold for one account
(pallets/datalog/src/lib.rs), and how that represents a log of records. */
module AccountLog {
  import opened Machine
  import opened RingBuffer

  /** A record with the moment it was stored at. */
  datatype Item = Item(moment: u64, record: seq<u8>)

  const DEFAULT_ITEM := Item(0, [])

  /** One account's part of the storage; `None` is an absent key. */
  datatype Account = Account(legacy: Option<seq<Item>>, stored: Option<Index>, cells: map<u64, Item>) {
    /** An absent index reads as the default one. */
    function Idx(): Index {
      stored.GetOr(EMPTY)
    }
  }

  predicate WellFormed(w: Window, acc: Account) {
    InRange(w, acc.Idx())
  }

  function Cell(acc: Account, slot: u64): Item {
    if slot in acc.cells then acc.cells[slot] else DEFAULT_ITEM
  }

  function Push(w: Window, acc: Account, item: Item): (r: Account)
    requires WellFormed(w, acc)
    ensures WellFormed(w, r)
  {
    Account(None, Some(Advance(w, acc.Idx())), acc.cells[acc.Idx().end := item])
  }

  function Clear(w: Window, acc: Account): (r: Account)
    requires WellFormed(w, acc)
    ensures WellFormed(w, r)
  {
    Account(None, None, acc.cells - LiveSlots(w, acc.Idx()))
  }

  /** What `Module::data` returns. */
  function Contents(w: Window, acc: Account): seq<Item>
    requires WellFormed(w, acc)
  {
    var slots := Iterate(w, acc.Idx());
    seq(|slots|, k requires 0 <= k < |slots| => Cell(acc, slots[k]))
  }

  function Elements(s: seq<u64>): set<u64> {
    set i | i in s
  }

  function LiveSlots(w: Window, idx: Index): set<u64>
    requires InRange(w, idx)
  {
    Elements(Iterate(w, idx))
  }

  /** The last `k` elements of a log. */
  function Newest<T>(log: seq<T>, k: nat): seq<T> {
    if |log| <= k then log else log[|log| - k..]
  }

  // ----- the ring represents a log ------------------------------------------

  /** Each of the last `w` records is still in the cell it went to, counting back from `end`. */
  ghost predicate HoldsNewest(w: Window, acc: Account, log: seq<Item>)
    requires WellFormed(w, acc)
  {
    forall k :: 1 <= k <= Min(|log|, w) ==>
      var slot := Behind(w, acc.Idx().end, k); slot in acc.cells && acc.cells[slot] == log[|log| - k]
  }

  /** The occupied cells are the live ones and `dead`. */
  ghost predicate Occupies(w: Window, acc: Account, dead: Option<u64>)
    requires WellFormed(w, acc)
  {
    && (forall i: u64 :: i in acc.cells <==> IsLive(w, acc.Idx(), i) || dead == Some(i))
    && (dead.Some? ==> dead.value < w && !IsLive(w, acc.Idx(), dead.value))
  }

  /** `acc` holds the log `log` of everything recorded since the last erase, and `dead` is
      the one cell outside the live range, if there is one. */
  ghost predicate Represents(w: Window, acc: Account, log: seq<Item>, dead: Option<u64>) {
    && acc.Idx() == After(w, |log|)
    && HoldsNewest(w, acc, log)
    && Occupies(w, acc, dead)
    && (w <= |log| ==> dead == Some(acc.Idx().end))
  }

  /** Which cell is dead after one more record on a log of `n`: once the window is full the
      slot the next record will go to, before that the old one unless it was just reused. */
  function DeadAfterPush(w: Window, n: nat, dead: Option<u64>): Option<u64> {
    if w <= n + 1 then Some(After(w, n + 1).end)
    else if dead == Some(n) then None
    else dead
  }

  lemma FreshRepresents(w: Window, legacy: Option<seq<Item>>)
    ensures Represents(w, Account(legacy, None, map[]), [], None)
  {
  }

  lemma PushHoldsNewest(w: Window, acc: Account, log: seq<Item>, item: Item)
    requires WellFormed(w, acc) && HoldsNewest(w, acc, log)
    ensures HoldsNewest(w, Push(w, acc, item), log + [item])
  {
    var n, end, r := |log|, acc.Idx().end, Push(w, acc, item);
    forall k | 1 <= k <= Min(n + 1, w)
      ensures var slot := Behind(w, r.Idx().end, k);
              slot in r.cells && r.cells[slot] == (log + [item])[n + 1 - k]
    {
      if k == 1 {
        assert Behind(w, r.Idx().end, 1) == end;
      } else {
        assert Behind(w, r.Idx().end, k) == Behind(w, end, k - 1) != end;
      }
    }
  }

  lemma PushOccupies(w: Window, acc: Account, n: nat, dead: Option<u64>, item: Item)
    requires acc.Idx() == After(w, n) && Occupies(w, acc, dead)
    requires w <= n ==> dead == Some(acc.Idx().end)
    ensures Occupies(w, Push(w, acc, item), DeadAfterPush(w, n, dead))
  {
    var idx, r := acc.Idx(), Push(w, acc, item);
    AfterWithoutModulo(w, n);
    AfterWithoutModulo(w, n + 1);
    var dead' := DeadAfterPush(w, n, dead);
    forall i: u64
      ensures i in r.cells <==> IsLive(w, r.Idx(), i) || dead' == Some(i)
    {
      AdvanceLive(w, idx, i);
      assert i in r.cells <==> i in acc.cells || i == idx.end;
    }
  }

  lemma PushRepresents(w: Window, acc: Account, log: seq<Item>, dead: Option<u64>, item: Item)
    requires Represents(w, acc, log, dead)
    ensures Represents(w, Push(w, acc, item), log + [item], DeadAfterPush(w, |log|, dead))
  {
    PushHoldsNewest(w, acc, log, item);
    PushOccupies(w, acc, |log|, dead, item);
    assert |log + [item]| == |log| + 1;
  }

  lemma ClearRepresents(w: Window, acc: Account, log: seq<Item>, dead: Option<u64>)
    requires Represents(w, acc, log, dead)
    ensures Represents(w, Clear(w, acc), [], dead)
  {
    IterateIsCyclicOrder(w, acc.Idx());
  }

  lemma LiveCellHolds(w: Window, acc: Account, log: seq<Item>, k: nat)
    requires WellFormed(w, acc) && HoldsNewest(w, acc, log)
    requires k < Length(w, acc.Idx()) <= |log|
    ensures Cell(acc, Ahead(w, acc.Idx().start, k)) == log[|log| - Length(w, acc.Idx()) + k]
  {
    var idx := acc.Idx();
    assert Ahead(w, idx.start, k) == Behind(w, idx.end, Length(w, idx) - k);
  }

  /** `data` reads back the newest `w - 1` records, oldest first. */
  lemma ContentsAreNewest(w: Window, acc: Account, log: seq<Item>, dead: Option<u64>)
    requires Represents(w, acc, log, dead)
    ensures Contents(w, acc) == Newest(log, w - 1)
  {
    var idx := acc.Idx();
    var len := Length(w, idx);
    assert len == Min(|log|, w - 1) by {
      AfterWithoutModulo(w, |log|);
    }
    IterateClosedForm(w, idx);
    forall k | 0 <= k < len ensures Contents(w, acc)[k] == log[|log| - len + k] {
      LiveCellHolds(w, acc, log, k);
    }
  }

  function ToSet<T>(o: Option<T>): set<T> {
    match o
    case Some(x) => {x}
    case None => {}
  }

  lemma {:induction false} DistinctCount(s: seq<u64>)
    requires forall i, j :: 0 <= i < j < |s| ==> s[i] != s[j]
    ensures |Elements(s)| == |s|
  {
    if s != [] {
      var front, last := s[..|s| - 1], s[|s| - 1];
      DistinctCount(front);
      assert s == front + [last];
      assert last !in front;
      assert Elements(s) == Elements(front) + {last};
    }
  }

  lemma LiveSlotCount(w: Window, n: nat)
    ensures |LiveSlots(w, After(w, n))| == Min(n, w - 1)
  {
    var idx := After(w, n);
    IterateIsCyclicOrder(w, idx);
    IterateClosedForm(w, idx);
    AfterClosedForm(w, n);
    DistinctCount(Iterate(w, idx));
  }

  lemma OccupiedKeys(w: Window, acc: Account, dead: Option<u64>)
    requires WellFormed(w, acc) && Occupies(w, acc, dead)
    ensures acc.cells.Keys == LiveSlots(w, acc.Idx()) + ToSet(dead)
    ensures LiveSlots(w, acc.Idx()) !! ToSet(dead)
  {
    IterateIsCyclicOrder(w, acc.Idx());
  }

  /** Exactly which cells are occupied, and how many. */
  lemma OccupancyCount(w: Window, acc: Account, log: seq<Item>, dead: Option<u64>)
    requires Represents(w, acc, log, dead)
    ensures acc.cells.Keys == LiveSlots(w, acc.Idx()) + ToSet(dead)
    ensures LiveSlots(w, acc.Idx()) !! ToSet(dead)
    ensures |acc.cells.Keys| == Min(|log|, w - 1) + |ToSet(dead)| <= w
  {
    LiveSlotCount(w, |log|);
    OccupiedKeys(w, acc, dead);
  }
}
