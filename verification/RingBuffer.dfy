/** The wrap-around index of the datalog pallet (pallets/datalog/src/lib.rs).

The first half is a specification on values; the second half holds the classes
whose methods update `start` and `end` in place, proved against it. */
module RingBuffer {
  import opened Machine

  /** A window size the ring is defined for. */
  type Window = w: u64 | 1 <= w witness 1

  /** The `(start, end)` pair as it is stored. */
  datatype Index = Index(start: u64, end: u64)

  const EMPTY := Index(0, 0)

  predicate InRange(w: Window, idx: Index) {
    idx.start < w && idx.end < w
  }

  function Next(val: u64, w: Window): u64
    requires val < w
  {
    if val + 1 == w then 0 else val + 1
  }

  /** The index after one more record; the record itself goes to slot `idx.end`. */
  function Advance(w: Window, idx: Index): (r: Index)
    requires InRange(w, idx)
    ensures InRange(w, r)
  {
    var end := Next(idx.end, w);
    Index(if idx.start == end then Next(idx.start, w) else idx.start, end)
  }

  /** How many slots lie between `start` and `end` going round the ring. */
  function Length(w: Window, idx: Index): nat
    requires InRange(w, idx)
  {
    if idx.start <= idx.end then idx.end - idx.start else idx.end + w - idx.start
  }

  /** The slots an iterator over `idx` yields, in order. */
  function Iterate(w: Window, idx: Index): seq<u64>
    requires InRange(w, idx)
    decreases Length(w, idx)
  {
    if idx.end == idx.start then []
    else [idx.start] + Iterate(w, idx.(start := Next(idx.start, w)))
  }

  /** The slot `k` places after `start`. */
  function Ahead(w: Window, start: u64, k: nat): u64
    requires start < w && k <= w
  {
    if start + k < w then start + k else start + k - w
  }

  /** The slot `k` places before `end`. */
  function Behind(w: Window, end: u64, k: nat): u64
    requires end < w && k <= w
  {
    if k <= end then end - k else end + w - k
  }

  predicate IsLive(w: Window, idx: Index, slot: u64)
    requires InRange(w, idx)
  {
    slot < w && (if idx.start <= slot then slot - idx.start else slot + w - idx.start) < Length(w, idx)
  }

  /** Iteration ends after exactly `Length` slots, and the `k`-th is `k` places after `start`. */
  lemma {:induction false} IterateClosedForm(w: Window, idx: Index)
    requires InRange(w, idx)
    ensures |Iterate(w, idx)| == Length(w, idx) < w
    ensures forall k :: 0 <= k < Length(w, idx) ==> Iterate(w, idx)[k] == Ahead(w, idx.start, k)
    decreases Length(w, idx)
  {
    if idx.end != idx.start {
      IterateClosedForm(w, idx.(start := Next(idx.start, w)));
    }
  }

  /** The slots are pairwise distinct, they are exactly the live ones, each is followed by its
      ring successor, and the successor of the last one is `end`. */
  lemma {:induction false} IterateIsCyclicOrder(w: Window, idx: Index)
    requires InRange(w, idx)
    ensures var s := Iterate(w, idx);
            && (forall i, j :: 0 <= i < j < |s| ==> s[i] != s[j])
            && (forall i: u64 :: i in s <==> IsLive(w, idx, i))
            && (forall k :: 0 <= k < |s| ==> s[k] < w && Next(s[k], w) == if k + 1 < |s| then s[k + 1] else idx.end)
            && (s != [] ==> s[0] == idx.start)
  {
    IterateClosedForm(w, idx);
    var s := Iterate(w, idx);
    forall i: u64 | IsLive(w, idx, i) ensures i in s {
      var k := if idx.start <= i then i - idx.start else i + w - idx.start;
      assert s[k] == Ahead(w, idx.start, k) == i;
    }
  }

  lemma ModSuccessor(n: nat, w: Window)
    ensures n % w < w && (n + 1) % w == Next(n % w, w)
  {
    var q, r := n / w, n % w;
    if r + 1 == w {
      assert n + 1 == (q + 1) * w + 0;
      DivModUnique(n + 1, w, q + 1, 0);
    } else {
      DivModUnique(n + 1, w, q, r + 1);
    }
  }

  /** The index after `n` records on an empty ring. */
  function After(w: Window, n: nat): (r: Index)
    ensures InRange(w, r)
  {
    if n == 0 then EMPTY else Advance(w, After(w, n - 1))
  }

  /** Closed form of the index for every number of records and every window. */
  lemma {:induction false} AfterClosedForm(w: Window, n: nat)
    ensures After(w, n).end == n % w
    ensures After(w, n).start == if n < w then 0 else (n + 1) % w
    ensures Length(w, After(w, n)) == Min(n, w - 1)
  {
    if n == 0 {
      DivModUnique(0, w, 0, 0);
    } else {
      AfterClosedForm(w, n - 1);
      ModSuccessor(n - 1, w);
      ModSuccessor(n, w);
      if n <= w {
        DivModUnique(n - 1, w, 0, n - 1);
      }
    }
  }

  /** Until the window is full nothing wraps; from then on `start` stays one ahead of `end`. */
  lemma AfterWithoutModulo(w: Window, n: nat)
    ensures n < w ==> After(w, n) == Index(0, n)
    ensures w - 1 <= n ==> After(w, n).start == Next(After(w, n).end, w)
    ensures Length(w, After(w, n)) == Min(n, w - 1)
  {
    AfterClosedForm(w, n);
    if n < w {
      DivModUnique(n, w, 0, n);
    }
  }

  /** One more record: the slot it goes to becomes live, unless the window is one, and the
      only slot that stops being live is the oldest, and only when the ring is full. */
  lemma AdvanceLive(w: Window, idx: Index, slot: u64)
    requires InRange(w, idx)
    ensures !IsLive(w, idx, idx.end)
    ensures IsLive(w, Advance(w, idx), slot) <==>
              (IsLive(w, idx, slot) && !(Length(w, idx) == w - 1 && slot == idx.start))
              || (slot == idx.end && 1 < w)
  {
  }

  // ----- the classes of the source ------------------------------------------

  method NextInPlace(val: u64, max: Window) returns (r: u64)
    requires val < max
    ensures r == Next(val, max) == (val + 1) % max
  {
    r := val + 1;
    DivModUnique(val + 1, max, if r == max then 1 else 0, if r == max then 0 else r);
    if r == max {
      r := 0;
    }
  }

  /** A decoded index; its methods change `start` and `end` in place. */
  class RingBufferIndex {
    var start: u64
    var end: u64

    ghost function Value(): Index
      reads this
    {
      Index(start, end)
    }

    constructor (stored: Index)
      ensures Value() == stored
    {
      start, end := stored.start, stored.end;
    }

    method Add(max: Window) returns (v: u64)
      requires InRange(max, Value())
      modifies this
      ensures v == old(end)
      ensures Value() == Advance(max, old(Value()))
    {
      v := end;
      end := NextInPlace(end, max);
      if start == end {
        start := NextInPlace(start, max);
      }
    }

    method Encode() returns (stored: Index)
      ensures stored == Value()
    {
      stored := Index(start, end);
    }
  }

  /** Yields the live slots of `inner`, moving its `start` as it goes. */
  class RingBufferIterator {
    const inner: RingBufferIndex
    const max: Window

    constructor (inner: RingBufferIndex, max: Window)
      ensures this.inner == inner && this.max == max
    {
      this.inner, this.max := inner, max;
    }

    /** Yields the head of the remaining iteration and leaves its tail. */
    method Next() returns (u: Option<u64>)
      requires InRange(max, inner.Value())
      modifies inner
      ensures InRange(max, inner.Value()) && inner.end == old(inner.end)
      ensures u.None? <==> old(Iterate(max, inner.Value())) == []
      ensures u.None? ==> inner.start == old(inner.start) == inner.end
      ensures u.Some? ==> old(Iterate(max, inner.Value())) == [u.value] + Iterate(max, inner.Value())
      ensures u.Some? ==> Length(max, inner.Value()) == old(Length(max, inner.Value())) - 1
    {
      if inner.end == inner.start {
        u := None;
      } else {
        u := Some(inner.start);
        inner.start := NextInPlace(inner.start, max);
      }
    }
  }
}
