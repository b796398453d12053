/** Machine integers of the quote engine.

    The engine computes in Rust's `u64` and `u128`. A `checked_*` operation answers `None` where the exact
    result does not fit, and the `?` operator then abandons the quote; here that is `Option` and `:-`. */
module Machine {
  const U64_MAX: int := 0xFFFF_FFFF_FFFF_FFFF
  const U128_MAX: int := 0xFFFF_FFFF_FFFF_FFFF_FFFF_FFFF_FFFF_FFFF
  const TWO_127: int := 0x8000_0000_0000_0000_0000_0000_0000_0000
  const TWO_128: int := 0x1_0000_0000_0000_0000_0000_0000_0000_0000

  /** One in Q64.64 fixed point. */
  const Q64: int := 0x1_0000_0000_0000_0000

  type u64 = x: int | 0 <= x <= U64_MAX
  type u128 = x: int | 0 <= x <= U128_MAX
  type i128 = x: int | -TWO_127 <= x < TWO_127

  datatype Option<+T> = None | Some(value: T) {
    predicate IsFailure() {
      None?
    }

    function PropagateFailure<U>(): Option<U>
      requires None?
    {
      None
    }

    function Extract(): T
      requires Some?
    {
      value
    }
  }

  function Fit(x: int): Option<u128> {
    if 0 <= x <= U128_MAX then Some(x) else None
  }

  function CheckedAdd(a: u128, b: u128): Option<u128> {
    Fit(a + b)
  }

  function CheckedSub(a: u128, b: u128): Option<u128> {
    Fit(a - b)
  }

  function CheckedMul(a: u128, b: u128): Option<u128> {
    Fit(a * b)
  }

  function CheckedDiv(a: u128, b: u128): Option<u128> {
    if b == 0 then None else
    assert a / b <= a by { QuotientBounds(a, b); }
    Some(a / b)
  }

  function SaturatingSub(a: nat, b: nat): (r: nat)
    ensures r <= a
  {
    if a <= b then 0 else a - b
  }

  /** `a / b` rounded up, and 0 for a zero divisor. */
  function CeilDiv(a: nat, b: nat): nat {
    if b == 0 then 0 else (a + b - 1) / b
  }

  /** `x as i128`: the bits are kept, so the upper half of the range turns negative. */
  function AsI128(x: u128): i128 {
    if x < TWO_127 then x else x - TWO_128
  }

  /** `y as u128`: the bits are kept, so a negative value turns huge. */
  function AsU128(y: i128): u128 {
    if y >= 0 then y else y + TWO_128
  }

  // ---- Facts about quotients, with the divisor a variable ----

  lemma MulMono(a: int, b: int, c: int)
    requires a <= b && c >= 0
    ensures a * c <= b * c
    ensures c * a <= c * b
  {
  }

  lemma QuotientBounds(a: nat, d: nat)
    requires d > 0
    ensures 0 <= a / d <= a
    ensures (a / d) * d <= a < (a / d) * d + d
  {
    var k := a / d;
    assert a == d * k + a % d && 0 <= a % d < d;
    if k < 0 { MulMono(k, -1, d); }
    MulMono(1, d, k);
  }

  lemma QuotientAtLeast(a: nat, d: nat, k: nat)
    requires d > 0 && k * d <= a
    ensures k <= a / d
  {
    QuotientBounds(a, d);
    if k > a / d {
      MulMono(a / d + 1, k, d);
      assert false;
    }
  }

  lemma QuotientBelow(a: nat, d: nat, k: nat)
    requires d > 0 && a < k * d
    ensures a / d < k
  {
    QuotientBounds(a, d);
    if k <= a / d {
      MulMono(k, a / d, d);
      assert false;
    }
  }

  lemma QuotientMono(a: nat, b: nat, d: nat)
    requires d > 0 && a <= b
    ensures a / d <= b / d
  {
    QuotientBounds(a, d);
    QuotientAtLeast(b, d, a / d);
  }

  /** A larger divisor gives no larger quotient. */
  lemma QuotientAntitone(a: nat, d: nat, e: nat)
    requires 0 < d <= e
    ensures a / e <= a / d
  {
    QuotientBounds(a, e);
    MulMono(d, e, a / e);
    QuotientAtLeast(a, d, a / e);
  }

  lemma MulStrict(a: int, b: int, c: int)
    requires a < b && c > 0
    ensures a * c < b * c
    ensures c * a < c * b
  {
  }

  lemma MulRegroup(a: int, b: int, c: int)
    ensures (a * b) * c == (a * c) * b == a * (b * c)
  {
  }

  lemma MulDistribute(a: int, b: int, c: int)
    ensures a * (b + c) == a * b + a * c
    ensures (b + c) * a == b * a + c * a
  {
  }

  lemma CancelLe(a: int, b: int, c: int)
    requires a * c <= b * c && c > 0
    ensures a <= b
  {
    if a > b { MulStrict(b, a, c); }
  }

  lemma CancelLt(a: int, b: int, c: int)
    requires a * c < b * c && c > 0
    ensures a < b
  {
    if a >= b { MulMono(b, a, c); }
  }

  /** The ceiling is the least `k` with `a <= k * b`. */
  lemma {:induction false} CeilDivBounds(a: nat, b: nat)
    requires b > 0
    ensures a <= CeilDiv(a, b) * b < a + b
  {
    QuotientBounds(a + b - 1, b);
  }

  lemma CeilDivAtMost(a: nat, b: nat)
    requires b > 0
    ensures CeilDiv(a, b) <= a
  {
    MulMono(1, b, a);
    assert (a + 1) * b == a * b + b;
    if a > 0 { MulMono(1, a, b - 1); assert a * (b - 1) == a * b - a; }
    QuotientBelow(a + b - 1, b, a + 1);
  }

  lemma CeilDivMono(a: nat, c: nat, b: nat)
    requires b > 0 && a <= c
    ensures CeilDiv(a, b) <= CeilDiv(c, b)
  {
    QuotientMono(a + b - 1, c + b - 1, b);
  }
}
