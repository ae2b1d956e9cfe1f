/** The machine integers of the source and a few stock datatypes. */
module Machine {
  const U32_MAX: nat := 0xFFFF_FFFF
  const U64_MAX: nat := 0xFFFF_FFFF_FFFF_FFFF
  const U128_MAX: nat := 0xFFFF_FFFF_FFFF_FFFF_FFFF_FFFF_FFFF_FFFF

  type u8 = x: nat | x < 0x100
  type u32 = x: nat | x <= U32_MAX
  type u64 = x: nat | x <= U64_MAX
  type u128 = x: nat | x <= U128_MAX

  datatype Option<+T> = None | Some(value: T) {
    function GetOr(default: T): T {
      match this
      case Some(v) => v
      case None => default
    }
  }

  function Min(a: nat, b: nat): nat {
    if a <= b then a else b
  }

  lemma MulAtLeast(a: int, d: int)
    requires 1 <= a && 0 <= d
    ensures d <= a * d
  {
    assert a * d == d + (a - 1) * d;
  }

  lemma MulMonotone(p: nat, a: nat, b: nat)
    requires a <= b
    ensures p * a <= p * b
  {
    assert p * b == p * a + p * (b - a);
  }

  /** Division with remainder has only one solution. */
  lemma DivModUnique(n: int, d: int, q: int, r: int)
    requires 0 < d && 0 <= r < d && n == q * d + r
    ensures n / d == q && n % d == r
  {
    var e := q - n / d;
    assert e * d == q * d - (n / d) * d == n % d - r;
    if e >= 1 {
      MulAtLeast(e, d);
    } else if e <= -1 {
      MulAtLeast(-e, d);
    }
  }
}
