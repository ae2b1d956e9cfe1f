/** The datalog pallet as the source writes it: methods that read and write storage maps in
place (pallets/datalog/src/lib.rs). Each is proved against `Datalog.Dispatch`, and the
object's ghost history ties every reachable object state to `Datalog.Run`. */
module DatalogPallet {
  import opened Machine
  import opened RingBuffer
  import opened AccountLog
  import opened Datalog
  import opened DatalogTheorems
  import opened Weights

  /** A storage map of the host; `readCount` and `writeCount` count the accesses to it. */
  class StorageMap<K(==), V> {
    var entries: map<K, V>
    ghost var readCount: nat
    ghost var writeCount: nat

    constructor (entries: map<K, V>)
      ensures this.entries == entries && readCount == 0 && writeCount == 0
    {
      this.entries := entries;
      readCount, writeCount := 0, 0;
    }

    method Get(k: K, default: V) returns (v: V)
      modifies this`readCount
      ensures v == Lookup(entries, k).GetOr(default)
      ensures readCount == old(readCount) + 1
    {
      v := if k in entries then entries[k] else default;
      readCount := readCount + 1;
    }

    method Insert(k: K, v: V)
      modifies this`entries, this`writeCount
      ensures entries == old(entries)[k := v]
      ensures writeCount == old(writeCount) + 1
    {
      entries := entries[k := v];
      writeCount := writeCount + 1;
    }

    method Remove(k: K)
      modifies this`entries, this`writeCount
      ensures entries == old(entries) - {k}
      ensures writeCount == old(writeCount) + 1
    {
      entries := entries - {k};
      writeCount := writeCount + 1;
    }

    method Take(k: K, default: V) returns (v: V)
      modifies this
      ensures v == Lookup(old(entries), k).GetOr(default)
      ensures entries == old(entries) - {k}
      ensures readCount == old(readCount) + 1 && writeCount == old(writeCount) + 1
    {
      v := Get(k, default);
      Remove(k);
    }
  }

  /** The timestamp source. */
  class Clock {
    var moment: Moment
    ghost var readCount: nat

    constructor (moment: Moment)
      ensures this.moment == moment && readCount == 0
    {
      this.moment, readCount := moment, 0;
    }

    method Now() returns (now: Moment)
      modifies this`readCount
      ensures now == moment
      ensures readCount == old(readCount) + 1
    {
      now := moment;
      readCount := readCount + 1;
    }
  }

  lemma MoveOne(visited: seq<u64>, slot: u64, rest: seq<u64>)
    ensures visited + ([slot] + rest) == visited + [slot] + rest
  {
  }

  lemma RemoveOneMore(items: map<(AccountId, u64), Item>, a: AccountId, visited: seq<u64>, slot: u64)
    ensures items - CellKeys(a, Elements(visited)) - {(a, slot)} == items - CellKeys(a, Elements(visited + [slot]))
  {
    assert Elements(visited + [slot]) == Elements(visited) + {slot};
    assert CellKeys(a, Elements(visited) + {slot}) == CellKeys(a, Elements(visited)) + {(a, slot)};
  }

  class Pallet {
    const cfg: Config
    const datalog: StorageMap<AccountId, seq<Item>>
    const datalogIndex: StorageMap<AccountId, Index>
    const datalogItem: StorageMap<(AccountId, u64), Item>
    const time: Clock
    var events: seq<Event>
    ghost const genesis: map<AccountId, seq<Item>>
    ghost var history: seq<Call>

    ghost function Repr(): set<object> {
      {this, datalog, datalogIndex, datalogItem, time}
    }

    ghost function Current(): State
      reads this, datalog`entries, datalogIndex`entries, datalogItem`entries
    {
      State(Storage(datalog.entries, datalogIndex.entries, datalogItem.entries), events)
    }

    /** The object is in the state its history of calls leads to. */
    ghost predicate Valid()
      reads this, datalog`entries, datalogIndex`entries, datalogItem`entries
    {
      && |Repr()| == 5
      && Current() == Run(cfg, genesis, history)
    }

    ghost function Reads(): nat
      reads datalog, datalogIndex, datalogItem, time
    {
      datalog.readCount + datalogIndex.readCount + datalogItem.readCount + time.readCount
    }

    ghost function Writes(): nat
      reads datalog, datalogIndex, datalogItem
    {
      datalog.writeCount + datalogIndex.writeCount + datalogItem.writeCount
    }

    constructor (cfg: Config, legacy: map<AccountId, seq<Item>>, time: Clock)
      ensures Valid() && history == []
      ensures this.cfg == cfg && genesis == legacy && this.time == time
      ensures fresh(Repr() - {time})
    {
      this.cfg, this.time, this.genesis := cfg, time, legacy;
      datalog := new StorageMap(legacy);
      datalogIndex := new StorageMap(map[]);
      datalogItem := new StorageMap(map[]);
      events, history := [], [];
    }

    /** `record`: the call is appended to the history with the clock reading it made. */
    method StoreRecord(origin: Origin, record: Record, sizeHint: nat) returns (error: Option<DispatchError>)
      requires Valid()
      modifies Repr()
      ensures Valid() && time.moment == old(time.moment)
      ensures history == old(history) + [Call.StoreRecord(origin, time.moment, record, sizeHint)]
      ensures Current() == Dispatch(cfg, old(Current()), Call.StoreRecord(origin, time.moment, record, sizeHint))
      ensures error == Rejection(cfg, Call.StoreRecord(origin, time.moment, record, sizeHint))
           == if sizeHint > cfg.maxSize then Some(RecordTooBig) else if !origin.Signed? then Some(BadOrigin) else None
      ensures error.None? ==> Reads() == old(Reads()) + 2 && Writes() == old(Writes()) + 3
      ensures error.Some? ==> Reads() == old(Reads()) && Writes() == old(Writes())
    {
      ghost var call := Call.StoreRecord(origin, time.moment, record, sizeHint);
      history := history + [call];
      RunOneMore(cfg, genesis, old(history), call);
      if sizeHint > cfg.maxSize {
        return Some(RecordTooBig);
      }
      if !origin.Signed? {
        return Some(BadOrigin);
      }
      var sender := origin.who;

      datalog.Remove(sender);
      var now := time.Now();
      var item := Item(now, record);
      PushItem(sender, item);

      events := events + [NewRecord(sender, item.moment, item.record)];
      return None;
    }

    /** The closure that `record` mutates the index with. */
    method PushItem(sender: AccountId, item: Item)
      requires |Repr()| == 5 && WellFormedStorage(cfg.window, Current().storage)
      modifies datalogIndex, datalogItem
      ensures datalogIndex.entries == old(datalogIndex.entries)[
        sender := Advance(cfg.window, StoredIndex(old(Current()).storage, sender))]
      ensures datalogItem.entries == old(datalogItem.entries)[
        (sender, StoredIndex(old(Current()).storage, sender).end) := item]
      ensures datalogIndex.readCount == old(datalogIndex.readCount) + 1 && datalogItem.readCount == old(datalogItem.readCount)
      ensures datalogIndex.writeCount == old(datalogIndex.writeCount) + 1
      ensures datalogItem.writeCount == old(datalogItem.writeCount) + 1
    {
      var stored := datalogIndex.Get(sender, EMPTY);
      var idx := new RingBufferIndex(stored);
      var end := idx.Add(cfg.window);
      datalogItem.Insert((sender, end), item);
      stored := idx.Encode();
      datalogIndex.Insert(sender, stored);
    }

    /** `erase`: one removal per slot the iterator yields. */
    method EraseLog(origin: Origin) returns (error: Option<DispatchError>)
      requires Valid()
      modifies Repr()
      ensures Valid() && time.moment == old(time.moment)
      ensures history == old(history) + [Call.EraseLog(origin)]
      ensures Current() == Dispatch(cfg, old(Current()), Call.EraseLog(origin))
      ensures error == Rejection(cfg, Call.EraseLog(origin)) == if origin.Signed? then None else Some(BadOrigin)
      ensures error.None? ==> Reads() == old(Reads()) + 1
      ensures error.None? ==> Writes() == old(Writes()) + EraseWrites(cfg.window, StoredIndex(old(Current()).storage, origin.who))
      ensures error.Some? ==> Reads() == old(Reads()) && Writes() == old(Writes())
    {
      history := history + [Call.EraseLog(origin)];
      RunOneMore(cfg, genesis, old(history), Call.EraseLog(origin));
      if !origin.Signed? {
        return Some(BadOrigin);
      }
      var sender := origin.who;
      datalog.Remove(sender);

      var stored := datalogIndex.Take(sender, EMPTY);
      var idx := new RingBufferIndex(stored);
      RemoveLiveItems(sender, idx);

      events := events + [Erased(sender)];
      return None;
    }

    /** The loop of `erase`. */
    method RemoveLiveItems(sender: AccountId, idx: RingBufferIndex)
      requires InRange(cfg.window, idx.Value())
      modifies idx, datalogItem
      ensures datalogItem.entries == old(datalogItem.entries) - CellKeys(sender, LiveSlots(cfg.window, old(idx.Value())))
      ensures datalogItem.writeCount == old(datalogItem.writeCount) + Length(cfg.window, old(idx.Value()))
      ensures datalogItem.readCount == old(datalogItem.readCount)
      ensures idx.start == idx.end == old(idx.end)
    {
      ghost var slots, visited, end := Iterate(cfg.window, idx.Value()), [], idx.end;
      ghost var items := datalogItem.entries;
      IterateClosedForm(cfg.window, idx.Value());
      var it := new RingBufferIterator(idx, cfg.window);
      var start := it.Next();
      while start.Some?
        invariant InRange(cfg.window, idx.Value()) && idx.end == end
        invariant start.None? ==> idx.start == idx.end
        invariant slots == visited + (if start.Some? then [start.value] + Iterate(cfg.window, idx.Value()) else [])
        invariant datalogItem.entries == items - CellKeys(sender, Elements(visited))
        invariant datalogItem.writeCount == old(datalogItem.writeCount) + |visited|
        invariant datalogItem.readCount == old(datalogItem.readCount)
        decreases |slots| - |visited|
      {
        datalogItem.Remove((sender, start.value));
        ghost var rest := Iterate(cfg.window, idx.Value());
        MoveOne(visited, start.value, rest);
        RemoveOneMore(items, sender, visited, start.value);
        visited := visited + [start.value];
        assert slots == visited + rest;
        start := it.Next();
      }
    }

    /** `Module::data`: exactly the newest records of the account, whatever happened before. */
    method Data(account: AccountId) returns (items: seq<Item>)
      requires Valid()
      modifies datalogIndex`readCount, datalogItem`readCount
      ensures Valid() && Current() == old(Current()) && Writes() == old(Writes())
      ensures items == Newest(Recorded(cfg, history, account), cfg.window - 1)
      ensures Reads() == old(Reads()) + 1 + |items|
    {
      var stored := datalogIndex.Get(account, EMPTY);
      var idx := new RingBufferIndex(stored);
      items := ReadLiveItems(account, idx);
      DataIsNewestRecords(cfg, genesis, history, account);
    }

    /** The iterator chain of `data`. */
    method ReadLiveItems(account: AccountId, idx: RingBufferIndex) returns (items: seq<Item>)
      requires InRange(cfg.window, idx.Value())
      modifies idx, datalogItem`readCount
      ensures items == ItemsAt(datalogItem.entries, account, Iterate(cfg.window, old(idx.Value())))
      ensures datalogItem.readCount == old(datalogItem.readCount) + |items|
      ensures idx.start == idx.end == old(idx.end)
    {
      ghost var slots, visited, end := Iterate(cfg.window, idx.Value()), [], idx.end;
      ghost var cells := datalogItem.entries;
      var it := new RingBufferIterator(idx, cfg.window);
      items := [];
      var i := it.Next();
      while i.Some?
        modifies idx, datalogItem`readCount
        invariant InRange(cfg.window, idx.Value()) && idx.end == end
        invariant i.None? ==> idx.start == idx.end
        invariant slots == visited + (if i.Some? then [i.value] + Iterate(cfg.window, idx.Value()) else [])
        invariant items == ItemsAt(cells, account, visited)
        invariant datalogItem.readCount == old(datalogItem.readCount) + |items|
        decreases |slots| - |visited|
      {
        var item := datalogItem.Get((account, i.value), DEFAULT_ITEM);
        ghost var rest := Iterate(cfg.window, idx.Value());
        MoveOne(visited, i.value, rest);
        ItemsAtOneMore(cells, account, visited, i.value);
        items := items + [item];
        visited := visited + [i.value];
        assert slots == visited + rest;
        i := it.Next();
      }
    }
  }
}
