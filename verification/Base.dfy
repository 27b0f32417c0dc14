/** Shared values: options, results, exact rounding, and what a limiter reports. */
module Base {

  datatype Option<+T> = None | Some(value: T)

  /** A call either returns a value or raises `throttled.exceptions.DataError`. */
  datatype Result<+T> = Ok(value: T) | DataError

  /** Python's `math.ceil` on an exact number. */
  function Ceil(x: real): (c: int)
    ensures x <= c as real < x + 1.0
  {
    -((-x).Floor)
  }

  function Max(a: real, b: real): real { if a >= b then a else b }

  function Min(a: real, b: real): real { if a <= b then a else b }

  function MaxInt(a: int, b: int): int { if a >= b then a else b }

  function MinInt(a: int, b: int): int { if a <= b then a else b }

  function Abs(x: real): real { if x < 0.0 then -x else x }

  /** `int(time.time())` for a clock that is never negative. */
  function Seconds(now: real): int { now.Floor }

  /** `int(time.time() * 1000)`. */
  function Millis(now: real): int { (now * 1000.0).Floor }

  /** `RateLimitState`: the fields every limiter reports. */
  datatype RateLimitState = RateLimitState(limit: int, remaining: int, resetAfter: real, retryAfter: real)

  /** What one call of a limiter gives its caller: `limit` decides, `peek` only looks. */
  datatype Response =
    | Decision(limited: bool, state: RateLimitState)
    | Snapshot(state: RateLimitState)
    | Failed
  {
    predicate Admits() { Decision? && !limited }
  }

  /** `Rate` and `Quota`: `limit` requests per `periodSec` seconds, bursts up to `burst`. */
  datatype Quota = Quota(limit: int, periodSec: int, burst: int) {
    predicate Valid() { limit >= 1 && periodSec >= 1 && burst >= 0 }

    function EmissionInterval(): real
      requires Valid()
    {
      periodSec as real / limit as real
    }

    function FillRate(): real
      requires Valid()
    {
      limit as real / periodSec as real
    }
  }

  /** The two derived rates of a quota are positive and reciprocal. */
  lemma RatesAreReciprocal(q: Quota)
    requires q.Valid()
    ensures q.EmissionInterval() > 0.0 && q.FillRate() > 0.0
    ensures q.EmissionInterval() * q.FillRate() == 1.0
  {
    var p, l := q.periodSec as real, q.limit as real;
    assert (p / l) * (l / p) == 1.0;
  }

  // ----- exact arithmetic used throughout

  lemma FloorMonotone(x: real, y: real)
    requires x <= y
    ensures x.Floor <= y.Floor
  {
  }

  lemma FloorShift(x: real, k: int)
    ensures (x + k as real).Floor == x.Floor + k
  {
  }

  lemma MulMonotone(x: real, y: real, r: real)
    requires x <= y && r >= 0.0
    ensures x * r <= y * r
  {
  }

  lemma MulMonotoneLeft(r: real, x: real, y: real)
    requires x <= y && r >= 0.0
    ensures r * x <= r * y
  {
  }

  lemma SubMul(x: real, y: real, z: real)
    ensures (x - y) * z == x * z - y * z
  {
  }

  lemma SubMulInt(x: int, y: int, z: real)
    ensures (x - y) as real * z == x as real * z - y as real * z
  {
    SubMul(x as real, y as real, z);
  }

  lemma MulSwap(x: real, y: real, z: real)
    ensures (x * y) * z == (x * z) * y && x * y == y * x
  {
  }

  lemma MulStrict(x: real, y: real, r: real)
    requires x < y && r > 0.0
    ensures x * r < y * r
  {
  }

  lemma DivBounds(x: real, d: real, k: real)
    requires d > 0.0
    ensures x / d >= k <==> x >= k * d
    ensures x / d <= k <==> x <= k * d
    ensures (x / d) * d == x
  {
    var q := x / d;
    assert q * d == x;
    ScaleOrder(q, k, d);
    ScaleOrder(k, q, d);
  }

  lemma ScaleOrder(x: real, y: real, r: real)
    requires r > 0.0
    ensures x <= y <==> x * r <= y * r
  {
    if x <= y { MulMonotone(x, y, r); } else { MulStrict(y, x, r); }
  }
}
