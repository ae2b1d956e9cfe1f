/** The declared weights of the datalog pallet (pallets/datalog/src/default_weight.rs) against
the storage accesses its calls make. The database prices are parameters. */
module Weights {
  import opened Machine
  import opened RingBuffer
  import opened AccountLog
  import opened Datalog
  import opened DatalogTheorems

  type Weight = u64

  /** What one read and one write cost. */
  datatype DbWeight = DbWeight(read: Weight, write: Weight) {
    function Reads(n: u64): Weight {
      SaturatingMul(read, n)
    }

    function Writes(n: u64): Weight {
      SaturatingMul(write, n)
    }

    /** The unbounded price of a number of accesses. */
    function Price(readCount: nat, writeCount: nat): nat {
      read * readCount + write * writeCount
    }
  }

  function SaturatingAdd(a: u64, b: u64): u64 {
    Min(a + b, U64_MAX)
  }

  function SaturatingMul(a: u64, b: u64): u64 {
    var p: nat := a * b;
    Min(p, U64_MAX)
  }

  /** `+` on `u64` in a release build. */
  function WrappingAdd(a: u64, b: u64): u64 {
    (a + b) % (U64_MAX + 1)
  }

  function RecordWeight(db: DbWeight): Weight {
    SaturatingAdd(SaturatingAdd(500_000, db.Reads(2)), db.Writes(3))
  }

  function EraseWeight(db: DbWeight, win: u64): Weight {
    SaturatingAdd(SaturatingAdd(100_000, db.Reads(1)), db.Writes(WrappingAdd(1, win)))
  }

  /** A weight covers a price if it reaches it, or reaches the top of its range. */
  predicate Covers(weight: Weight, price: nat) {
    Min(price, U64_MAX) <= weight
  }

  /** The writes of an accepted `erase` that finds the index `idx`: legacy entry, index, and
      one for each live slot. The method `EraseLog` is proved to make exactly these. */
  function EraseWrites(w: Window, idx: Index): nat
    requires InRange(w, idx)
  {
    2 + Length(w, idx)
  }

  /** In every reachable state `erase` writes at most `1 + w` times, and exactly that often
      when the ring is full. */
  lemma EraseWritesBounded(cfg: Config, legacy: map<AccountId, seq<Item>>, calls: seq<Call>, a: AccountId)
    ensures var idx := StoredIndex(Run(cfg, legacy, calls).storage, a);
            && EraseWrites(cfg.window, idx) <= 1 + cfg.window
            && (EraseWrites(cfg.window, idx) == 1 + cfg.window <==> cfg.window - 1 <= |Recorded(cfg, calls, a)|)
  {
    IndexClosedForm(cfg, legacy, calls, a);
  }

  /** The declared weight of `erase` covers its accesses, whatever they cost: it is the constant
      and the price of `1 + w` writes and one read, up to the top of its range; for the largest window of all `1 + win`
      wraps around and no write is charged. */
  lemma EraseWeightCovers(db: DbWeight, w: Window, idx: Index)
    requires InRange(w, idx)
    ensures w < U64_MAX ==> Covers(EraseWeight(db, w), db.Price(1, EraseWrites(w, idx)))
    ensures w < U64_MAX ==> EraseWeight(db, w) == Min(100_000 + db.Price(1, 1 + w), U64_MAX)
    ensures w == U64_MAX ==> EraseWeight(db, w) == SaturatingAdd(100_000, db.read)
  {
    if w < U64_MAX {
      DivModUnique(1 + w, U64_MAX + 1, 0, 1 + w);
      MulMonotone(db.write, EraseWrites(w, idx), 1 + w);
    } else {
      DivModUnique(1 + w, U64_MAX + 1, 1, 0);
    }
  }

  /** ... and it does so for all prices and all reachable indices exactly when `1 + w` does
      not wrap around. */
  lemma EraseWeightCoversExactlyBelowMax(w: Window)
    ensures (forall db: DbWeight, n: nat :: Covers(EraseWeight(db, w), db.Price(1, EraseWrites(w, After(w, n)))))
            <==> w < U64_MAX
  {
    if w < U64_MAX {
      forall db: DbWeight, n: nat
        ensures Covers(EraseWeight(db, w), db.Price(1, EraseWrites(w, After(w, n))))
      {
        EraseWeightCovers(db, w, After(w, n));
      }
    } else {
      var db := DbWeight(0, 1_000_000);
      assert EraseWeight(db, w) == 100_000;
      assert !Covers(EraseWeight(db, w), db.Price(1, EraseWrites(w, After(w, 0))));
    }
  }

  /** `record` is declared with exactly the accesses it makes, those the method
      `StoreRecord` is proved to make. */
  lemma RecordWeightCovers(db: DbWeight)
    ensures Covers(RecordWeight(db), db.Price(2, 3))
    ensures RecordWeight(db) == Min(500_000 + db.Price(2, 3), U64_MAX)
  {
  }
}
