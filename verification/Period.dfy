/** The mortality period an offchain transaction is signed with (node/runtime/src/lib.rs). */
module Period {
  import opened Machine

  function Pow2(k: nat): (p: nat)
    ensures 1 <= p
  {
    if k == 0 then 1 else 2 * Pow2(k - 1)
  }

  ghost predicate IsPowerOfTwo(p: nat) {
    exists k: nat :: p == Pow2(k)
  }

  /** The first of `p`, `2p`, `4p`, ... that reaches `c`. */
  function DoubleUntil(p: nat, c: nat): nat
    requires 0 < p
    decreases c - p
  {
    if c <= p then p else DoubleUntil(2 * p, c)
  }

  /** `None` when the power of two does not fit `u32`. */
  function CheckedNextPowerOfTwo(c: u32): Option<u32> {
    var p := DoubleUntil(1, c);
    if p <= U32_MAX then Some(p) else None
  }

  function Period(blockHashCount: u32): u64 {
    match CheckedNextPowerOfTwo(blockHashCount)
    case Some(p) => p / 2
    case None => 2
  }

  lemma {:induction false} DoubleUntilIsLeast(k: nat, c: nat)
    requires k == 0 || Pow2(k - 1) < c
    ensures var p := DoubleUntil(Pow2(k), c);
            && IsPowerOfTwo(p) && c <= p
            && (p == Pow2(k) || p < 2 * c)
            && (1 < p && k == 0 ==> IsPowerOfTwo(p / 2) && p / 2 < c && p % 2 == 0)
            && (0 < k ==> IsPowerOfTwo(p / 2) && p / 2 < c && p % 2 == 0)
    decreases c - Pow2(k)
  {
    if Pow2(k) < c {
      assert Pow2(k + 1) == 2 * Pow2(k);
      DoubleUntilIsLeast(k + 1, c);
    } else if 0 < k {
      assert Pow2(k) / 2 == Pow2(k - 1);
    }
  }

  lemma {:induction false} Pow2Monotone(j: nat, k: nat)
    requires j < k
    ensures 2 * Pow2(j) <= Pow2(k)
  {
    if j + 1 < k {
      Pow2Monotone(j, k - 1);
    }
  }

  lemma {:induction false} Pow2OfSum(j: nat, k: nat)
    ensures Pow2(j + k) == Pow2(j) * Pow2(k)
  {
    if 0 < k {
      Pow2OfSum(j, k - 1);
      assert Pow2(j + k) == 2 * Pow2(j + (k - 1));
    }
  }

  lemma Pow2Of32()
    ensures Pow2(31) == 0x8000_0000 && Pow2(32) == 0x1_0000_0000
  {
    assert Pow2(4) == 16;
    Pow2OfSum(4, 4);
    Pow2OfSum(8, 8);
    Pow2OfSum(16, 16);
  }

  lemma FitsU32ExactlyUpTo2To31(c: u32)
    ensures CheckedNextPowerOfTwo(c).Some? <==> c <= 0x8000_0000
  {
    DoubleUntilIsLeast(0, c);
    var p := DoubleUntil(1, c);
    var k: nat :| p == Pow2(k);
    Pow2Of32();
    if k < 31 {
      Pow2Monotone(k, 31);
    } else if 32 < k {
      Pow2Monotone(32, k);
    }
  }

  /** The period is the largest power of two strictly below the number of known block hashes,
      exactly for counts from 2 to `2^31`. */
  lemma PeriodIsLargestPowerBelow(c: u32)
    ensures (IsPowerOfTwo(Period(c)) && Period(c) < c <= 2 * Period(c)) <==> 2 <= c <= 0x8000_0000
    ensures 2 <= c <= 0x8000_0000 ==> forall j: nat :: Pow2(j) < c ==> Pow2(j) <= Period(c)
    ensures c < 2 ==> Period(c) == 0
    ensures 0x8000_0000 < c ==> Period(c) == 2
  {
    FitsU32ExactlyUpTo2To31(c);
    DoubleUntilIsLeast(0, c);
    if 2 <= c <= 0x8000_0000 {
      var k: nat :| Period(c) == Pow2(k);
      forall j: nat | Pow2(j) < c ensures Pow2(j) <= Period(c) {
        if k < j {
          Pow2Monotone(k, j);
        } else if j < k {
          Pow2Monotone(j, k);
        }
      }
    }
  }
}
