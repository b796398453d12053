/** Integer division toward negative infinity, as four places of the engine write it on top of Rust's division,
    which truncates toward zero. */
module FloorDivision {
  import opened Machine

  /** Rust's `a / b` and `a % b` on signed integers. */
  function TruncDiv(a: int, b: int): int
    requires b != 0
  {
    if a >= 0 then (if b > 0 then a / b else -(a / -b))
    else if b > 0 then -((-a) / b) else (-a) / (-b)
  }

  function TruncRem(a: int, b: int): int
    requires b != 0
  {
    a - TruncDiv(a, b) * b
  }

  function Signum(a: int): int {
    if a > 0 then 1 else if a == 0 then 0 else -1
  }

  /** The helper shared by the swap builders. */
  function FloorDiv(dividend: int, divisor: int): int
    requires divisor != 0
  {
    if TruncRem(dividend, divisor) == 0 || Signum(dividend) == Signum(divisor)
    then TruncDiv(dividend, divisor) else TruncDiv(dividend, divisor) - 1
  }

  /** The bin walk: shift a negative id down before truncating. */
  function ShiftedDiv(id: int, n: int): int
    requires n > 0
  {
    if id >= 0 then TruncDiv(id, n) else TruncDiv(id - (n - 1), n)
  }

  /** The DLMM swap builder: truncate, then step down unless exact. */
  function SteppedDiv(id: int, n: int): int
    requires n > 0
  {
    if id >= 0 || TruncRem(id, n) == 0 then TruncDiv(id, n) else TruncDiv(id, n) - 1
  }

  /** The stream's start of a tick array. */
  function ArrayStart(tick: int, n: int): int
    requires n > 0
  {
    if tick >= 0 then TruncDiv(tick, n) * n else TruncDiv(tick - n + 1, n) * n
  }

  /** `k` is the mathematical floor of `a / b`. */
  predicate IsFloor(a: int, b: int, k: int) {
    if b > 0 then k * b <= a < k * b + b else k * b >= a > k * b + b
  }

  lemma FloorUnique(a: int, b: int, j: int, k: int)
    requires b != 0 && IsFloor(a, b, j) && IsFloor(a, b, k)
    ensures j == k
  {
    var c := if b > 0 then b else -b;
    if j < k {
      MulMono(j + 1, k, c);
    } else if k < j {
      MulMono(k + 1, j, c);
    }
  }

  /** Truncation as quotient and remainder: the remainder is smaller than the divisor and has the dividend's sign. */
  lemma TruncBounds(a: int, b: int)
    requires b != 0
    ensures var c := if b > 0 then b else -b;
            if a >= 0 then 0 <= TruncRem(a, b) < c else -c < TruncRem(a, b) <= 0
  {
    var x, y := (if a >= 0 then a else -a), (if b > 0 then b else -b);
    QuotientBounds(x, y);
    var k := x / y;
    assert (-k) * b == -(k * b) && k * (-b) == -(k * b);
  }

  lemma FloorDivIsFloor(a: int, b: int)
    requires b != 0
    ensures IsFloor(a, b, FloorDiv(a, b))
  {
    TruncBounds(a, b);
    var k := TruncDiv(a, b);
    assert (k - 1) * b == k * b - b;
  }

  lemma SteppedDivIsFloor(a: int, n: int)
    requires n > 0
    ensures IsFloor(a, n, SteppedDiv(a, n))
  {
    TruncBounds(a, n);
    var k := TruncDiv(a, n);
    assert (k - 1) * n == k * n - n;
  }

  lemma ShiftedDivIsFloor(a: int, n: int)
    requires n > 0
    ensures IsFloor(a, n, ShiftedDiv(a, n))
  {
    if a >= 0 { TruncBounds(a, n); } else { TruncBounds(a - (n - 1), n); }
  }

  lemma ArrayStartIsFloor(tick: int, n: int)
    requires n > 0
    ensures ArrayStart(tick, n) <= tick < ArrayStart(tick, n) + n
    ensures ArrayStart(tick, n) == FloorDiv(tick, n) * n
  {
    FloorDivIsFloor(tick, n);
    ShiftedDivIsFloor(tick, n);
    assert ArrayStart(tick, n) == ShiftedDiv(tick, n) * n;
    FloorUnique(tick, n, FloorDiv(tick, n), ShiftedDiv(tick, n));
  }

  /** All the ways of writing it agree. */
  lemma FloorIdiomsAgree(a: int, n: int)
    requires n > 0
    ensures FloorDiv(a, n) == ShiftedDiv(a, n) == SteppedDiv(a, n)
    ensures IsFloor(a, n, FloorDiv(a, n))
  {
    FloorDivIsFloor(a, n);
    ShiftedDivIsFloor(a, n);
    SteppedDivIsFloor(a, n);
    FloorUnique(a, n, FloorDiv(a, n), ShiftedDiv(a, n));
    FloorUnique(a, n, FloorDiv(a, n), SteppedDiv(a, n));
  }
}
