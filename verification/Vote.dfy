/** Scaling of balances to election votes and back (node/runtime/src/impls.rs). The total
issuance is a parameter, fixed during one election. */
module Vote {
  import opened Machine

  /** `total / u64::MAX`, at least one. */
  function Factor(total: u128): (f: u128)
    ensures 1 <= f
  {
    var f: nat := total / U64_MAX;
    if f < 1 then 1 else f
  }

  /** Balance to `u64`; the cast keeps the low 64 bits. */
  function ToVote(total: u128, x: u128): u64 {
    (x / Factor(total)) % (U64_MAX + 1)
  }

  /** Vote total back to balance; `None` when the multiplication overflows `u128`. */
  function ToBalance(total: u128, v: u128): Option<u128> {
    var p: nat := v * Factor(total);
    if p <= U128_MAX then Some(p) else None
  }

  /** The balance `x` is converted without losing high bits. */
  predicate Fits(total: u128, x: u128) {
    x / Factor(total) <= U64_MAX
  }

  /** The bits of `x` the cast drops, in units of `2^64` votes. */
  function Dropped(total: u128, x: u128): nat {
    (x / Factor(total)) / (U64_MAX + 1)
  }

  function Sum(xs: seq<nat>): nat {
    if xs == [] then 0 else xs[0] + Sum(xs[1..])
  }

  function ToVotes(total: u128, stakes: seq<u128>): seq<u64> {
    seq(|stakes|, i requires 0 <= i < |stakes| => ToVote(total, stakes[i]))
  }

  // ----- arithmetic -------------------------------------------------------------

  lemma DivBelow(x: nat, d: nat, q: nat)
    requires 0 < d
    ensures x / d < q <==> x < q * d
  {
    var q', r := x / d, x % d;
    assert x == q' * d + r;
    if q' < q {
      MulAtLeast(q - q', d);
      assert q * d == q' * d + (q - q') * d;
    } else {
      assert q' * d == q * d + (q' - q) * d;
      assert 0 <= (q' - q) * d;
    }
  }

  /** The issuance is `factor` times `u64::MAX` plus a remainder below `u64::MAX`. */
  lemma IssuanceSplit(total: u128)
    ensures total < U64_MAX ==> Factor(total) == 1
    ensures U64_MAX <= total ==> total == Factor(total) * U64_MAX + total % U64_MAX && Factor(total) == total / U64_MAX
  {
  }

  // ----- where the cast truncates ----------------------------------------------------

  /** Which issuances never lose high bits for any balance up to the issuance. */
  lemma TruncationBoundary(total: u128)
    ensures (forall x: u128 :: x <= total ==> Fits(total, x))
            <==> (total < U64_MAX || total % U64_MAX < total / U64_MAX)
  {
    var f := Factor(total);
    IssuanceSplit(total);
    forall x: u128 ensures Fits(total, x) <==> x < (U64_MAX + 1) * f {
      DivBelow(x, f, U64_MAX + 1);
    }
    assert (U64_MAX + 1) * f == f * U64_MAX + f;
    assert Fits(total, total) <==> total < (U64_MAX + 1) * f;
  }

  lemma FitsMeansNothingDropped(total: u128, x: u128)
    ensures Fits(total, x) <==> x < (U64_MAX + 1) * Factor(total)
    ensures Fits(total, x) <==> Dropped(total, x) == 0
  {
    DivBelow(x, Factor(total), U64_MAX + 1);
  }

  /** No balance up to half the issuance is truncated, whatever the issuance. */
  lemma HalfOfIssuanceFits(total: u128, x: u128)
    requires x <= total / 2
    ensures Fits(total, x)
  {
    IssuanceSplit(total);
    FitsMeansNothingDropped(total, x);
  }

  /** The issuance that shows the law fails without a condition: whoever holds all of it
      gets no vote at all. */
  lemma SoleHolderGetsNoVote()
    ensures ToVote(0x1_0000_0000_0000_0000, 0x1_0000_0000_0000_0000) == 0
  {
  }

  // ----- one balance there and back -----------------------------------------------------

  /** What converting `x` and scaling back loses: the remainder of the division, and a
      multiple of `2^64` votes exactly when the cast truncates. */
  lemma ScalingBackOne(total: u128, x: u128)
    ensures var f := Factor(total);
            x == ToVote(total, x) * f + x % f + (U64_MAX + 1) * f * Dropped(total, x)
  {
    SplitTwice(x, Factor(total), U64_MAX + 1);
  }

  lemma SplitTwice(x: nat, f: nat, c: nat)
    requires 0 < f && 0 < c
    ensures x == ((x / f) % c) * f + x % f + c * f * ((x / f) / c)
  {
    var q := x / f;
    var low, high := q % c, q / c;
    assert x == q * f + x % f;
    assert q == high * c + low;
    assert (high * c + low) * f == high * c * f + low * f;
    assert high * c * f == c * f * high;
  }

  /** Scaling one vote back never exceeds the balance, and falls short of it by less than one
      factor exactly when the cast did not truncate. */
  lemma RoundTrip(total: u128, x: u128)
    ensures var back := ToBalance(total, ToVote(total, x));
            && back.Some? && back.value <= x
            && (Fits(total, x) <==> x - back.value < Factor(total))
  {
    var f := Factor(total);
    ScalingBackOne(total, x);
    FitsMeansNothingDropped(total, x);
    LossOfOne(x, ToVote(total, x) * f, x % f, f, Dropped(total, x));
  }

  /** The remainder alone is less than one factor; any dropped vote is at least one. */
  lemma LossOfOne(x: nat, back: nat, remainder: nat, f: nat, dropped: nat)
    requires x == back + remainder + (U64_MAX + 1) * f * dropped && remainder < f
    ensures back <= x && (dropped == 0 <==> x - back < f)
  {
    var unit := (U64_MAX + 1) * f;
    if dropped != 0 {
      MulAtLeast(dropped, unit);
      assert unit * dropped == dropped * unit;
    }
  }

  /** Scaling back overflows exactly beyond `u128::MAX / factor`, and division by the factor
      undoes it. */
  lemma ScalingBackIsExact(total: u128, v: u128)
    ensures ToBalance(total, v).Some? <==> v <= U128_MAX / Factor(total)
    ensures ToBalance(total, v).Some? ==>
              var x := ToBalance(total, v).value; x / Factor(total) == v && x % Factor(total) == 0
  {
    var f := Factor(total);
    DivModUnique(v * f, f, v, 0);
    DivBelow(U128_MAX, f, v);
  }

  /** Votes keep the order of balances, and tell apart balances at least `factor` apart. */
  lemma Ranking(total: u128, x: u128, y: u128)
    requires x <= y && Fits(total, y)
    ensures ToVote(total, x) <= ToVote(total, y)
    ensures x + Factor(total) <= y ==> ToVote(total, x) < ToVote(total, y)
  {
    var f := Factor(total);
    DivBelow(y, f, x / f);
    assert x == (x / f) * f + x % f;
    if x + f <= y {
      DivBelow(y, f, x / f + 1);
      assert (x / f + 1) * f == (x / f) * f + f;
    }
  }

  /** Votes keep the order of all balances up to the issuance exactly when none is truncated. */
  lemma RankingExactlyWithoutTruncation(total: u128)
    ensures (forall x: u128, y: u128 :: x <= y <= total ==> ToVote(total, x) <= ToVote(total, y))
            <==> (total < U64_MAX || total % U64_MAX < total / U64_MAX)
  {
    TruncationBoundary(total);
    if total < U64_MAX || total % U64_MAX < total / U64_MAX {
      forall x: u128, y: u128 | x <= y <= total ensures ToVote(total, x) <= ToVote(total, y) {
        Ranking(total, x, y);
      }
    } else {
      TruncatedTopRanksLast(total);
    }
  }

  /** The pair that is ranked the wrong way round: the largest vote, and one factor more. */
  lemma TruncatedTopRanksLast(total: u128)
    requires U64_MAX <= total && total / U64_MAX <= total % U64_MAX
    ensures var f := Factor(total);
            U64_MAX * f + f <= total && ToVote(total, U64_MAX * f) == U64_MAX && ToVote(total, U64_MAX * f + f) == 0
  {
    var f := Factor(total);
    IssuanceSplit(total);
    assert U64_MAX * f + f == (U64_MAX + 1) * f;
    DivModUnique(U64_MAX * f, f, U64_MAX, 0);
    DivModUnique((U64_MAX + 1) * f, f, U64_MAX + 1, 0);
  }

  /** The conversion is the identity on all balances exactly when the issuance fits `u64`. */
  lemma IdentityExactlyForSmallIssuance(total: u128)
    ensures (forall x: u128 :: x <= total ==> ToVote(total, x) == x) <==> total <= U64_MAX
    ensures total <= U64_MAX ==> forall v: u128 :: ToBalance(total, v) == Some(v)
  {
    if total <= U64_MAX {
      assert Factor(total) == 1;
    } else {
      var top: u128 := U64_MAX + 1;
      assert ToVote(total, top) <= U64_MAX;
    }
  }

  // ----- a list of stakes --------------------------------------------------------------------

  /** What the division by the factor loses of `x`. */
  function Remainder(total: u128, x: u128): nat {
    x % Factor(total)
  }

  function Remainders(total: u128, stakes: seq<u128>): seq<nat> {
    seq(|stakes|, i requires 0 <= i < |stakes| => Remainder(total, stakes[i]))
  }

  function DroppedAll(total: u128, stakes: seq<u128>): seq<nat> {
    seq(|stakes|, i requires 0 <= i < |stakes| => Dropped(total, stakes[i]))
  }

  lemma {:induction false} ScalingBackAll(total: u128, stakes: seq<u128>)
    ensures var f := Factor(total);
            Sum(stakes) == Sum(ToVotes(total, stakes)) * f + Sum(Remainders(total, stakes))
                           + (U64_MAX + 1) * f * Sum(DroppedAll(total, stakes))
  {
    var f := Factor(total);
    if stakes != [] {
      var x, rest := stakes[0], stakes[1..];
      ScalingBackAll(total, rest);
      ScalingBackOne(total, x);
      assert ToVotes(total, stakes)[1..] == ToVotes(total, rest);
      assert Remainders(total, stakes)[1..] == Remainders(total, rest);
      assert DroppedAll(total, stakes)[1..] == DroppedAll(total, rest);
      Distribute(ToVote(total, x), Sum(ToVotes(total, rest)), f);
      Distribute(Dropped(total, x), Sum(DroppedAll(total, rest)), (U64_MAX + 1) * f);
    }
  }

  lemma Distribute(a: nat, b: nat, c: nat)
    ensures (a + b) * c == a * c + b * c && c * (a + b) == c * a + c * b
  {
  }

  lemma {:induction false} SumIsZero(xs: seq<nat>)
    ensures Sum(xs) == 0 <==> forall i :: 0 <= i < |xs| ==> xs[i] == 0
  {
    if xs != [] {
      SumIsZero(xs[1..]);
      assert forall i :: 1 <= i < |xs| ==> xs[i] == xs[1..][i - 1];
    }
  }

  lemma {:induction false} RemaindersBound(total: u128, stakes: seq<u128>)
    ensures Sum(Remainders(total, stakes)) <= |stakes| * (Factor(total) - 1)
  {
    if stakes != [] {
      RemaindersBound(total, stakes[1..]);
      assert Remainders(total, stakes)[1..] == Remainders(total, stakes[1..]);
      Distribute(1, |stakes| - 1, Factor(total) - 1);
    }
  }

  /** Converting stakes to votes, adding the votes up and scaling the sum back never overflows
      and never creates balance. What is lost is the sum of the remainders, and `2^64` votes
      more exactly when a stake is truncated, which happens to at most one. */
  lemma VoteSumConservation(total: u128, stakes: seq<u128>)
    requires Sum(stakes) <= total
    ensures var f, votes := Factor(total), Sum(ToVotes(total, stakes));
            var dropped := Sum(DroppedAll(total, stakes));
            && votes <= U128_MAX && ToBalance(total, votes).Some?
            && var back := ToBalance(total, votes).value;
            && back <= Sum(stakes)
            && Sum(stakes) - back == Sum(Remainders(total, stakes)) + (U64_MAX + 1) * f * dropped
            && Sum(Remainders(total, stakes)) <= |stakes| * (f - 1)
            && dropped <= 1
            && (dropped == 0 <==> forall i :: 0 <= i < |stakes| ==> Fits(total, stakes[i]))
  {
    var f, votes := Factor(total), Sum(ToVotes(total, stakes));
    var dropped := Sum(DroppedAll(total, stakes));
    ScalingBackAll(total, stakes);
    RemaindersBound(total, stakes);
    SumIsZero(DroppedAll(total, stakes));
    forall i | 0 <= i < |stakes| ensures Fits(total, stakes[i]) <==> DroppedAll(total, stakes)[i] == 0 {
      FitsMeansNothingDropped(total, stakes[i]);
    }
    NoOverflow(Sum(stakes), votes, f, Sum(Remainders(total, stakes)), (U64_MAX + 1) * f, dropped);
    AtMostOneDropped(total, dropped, Sum(stakes));
  }

  lemma NoOverflow(sum: nat, votes: nat, f: nat, remainders: nat, unit: nat, dropped: nat)
    requires sum == votes * f + remainders + unit * dropped && 1 <= f && sum <= U128_MAX
    ensures votes <= U128_MAX && votes * f <= sum && unit * dropped <= sum
  {
    assert 0 <= unit * dropped;
    assert votes * f == votes + votes * (f - 1);
    assert 0 <= votes * (f - 1);
  }

  lemma AtMostOneDropped(total: u128, dropped: nat, sum: nat)
    requires sum <= total && (U64_MAX + 1) * Factor(total) * dropped <= sum
    ensures dropped <= 1
  {
    var f := Factor(total);
    IssuanceSplit(total);
    if dropped >= 2 {
      MulMonotone((U64_MAX + 1) * f, 2, dropped);
    }
  }

  /** If no stake exceeds half the issuance, each stake loses less than one `factor`. */
  lemma VoteSumLossWithoutMajority(total: u128, stakes: seq<u128>)
    requires Sum(stakes) <= total
    requires forall i :: 0 <= i < |stakes| ==> stakes[i] <= total / 2
    ensures var votes := Sum(ToVotes(total, stakes));
            && votes <= U128_MAX && ToBalance(total, votes).Some?
            && Sum(stakes) - |stakes| * (Factor(total) - 1) <= ToBalance(total, votes).value <= Sum(stakes)
  {
    VoteSumConservation(total, stakes);
    forall i | 0 <= i < |stakes| ensures Fits(total, stakes[i]) {
      HalfOfIssuanceFits(total, stakes[i]);
    }
  }
}
