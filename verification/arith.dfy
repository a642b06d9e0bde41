/**
 * The integer and index arithmetic of the Swift standard library that the
 * grouping adapters rely on, over unbounded integers.  Indices of a
 * random-access base are the integers `0 ..< |base|` plus the past-the-end
 * index `|base|`.
 */
module Arith {

  import opened Wrappers

  function Min(a: int, b: int): int { if a <= b then a else b }

  function Max(a: int, b: int): int { if a <= b then b else a }

  function Abs(x: int): nat { if x < 0 then -x else x }

  /** Swift's `signum()`. */
  function Signum(x: int): int { if x > 0 then 1 else if x < 0 then -1 else 0 }

  /** The quotient of Swift's `quotientAndRemainder(dividingBy:)`, which truncates toward zero. */
  function Quotient(a: int, b: int): int
    requires b != 0
  {
    var q := Abs(a) / Abs(b);
    if (a < 0) == (b < 0) then q else -q
  }

  /** The remainder of Swift's `quotientAndRemainder(dividingBy:)`: it takes the sign of the dividend. */
  function Remainder(a: int, b: int): int
    requires b != 0
  {
    a - b * Quotient(a, b)
  }

  /** Truncated division agrees with Dafny's Euclidean division on a non-negative dividend and is odd in it. */
  lemma TruncatedDivision(a: int, b: int)
    requires b > 0
    ensures a >= 0 ==> Quotient(a, b) == a / b && Remainder(a, b) == a % b
    ensures Quotient(-a, b) == -Quotient(a, b) && Remainder(-a, b) == -Remainder(a, b)
    ensures a == b * Quotient(a, b) + Remainder(a, b)
    ensures a >= 0 ==> 0 <= Remainder(a, b) < b
    ensures a <= 0 ==> -b < Remainder(a, b) <= 0
  {
  }

  /** `n * span` strictly below `m * span` only when `n < m`. */
  lemma MulStrictMono(n: int, m: int, span: int)
    requires span > 0 && n * span < m * span
    ensures n < m
  {
  }

  /** Multiplication by a non-negative factor is monotone. */
  lemma MulLe(a: int, b: int, span: int)
    requires a <= b && span >= 0
    ensures a * span <= b * span
  {
    assert b * span - a * span == (b - a) * span;
  }

  /** Multiplication distributes over a sum. */
  lemma Distrib(a: int, b: int, span: int)
    ensures (a + b) * span == a * span + b * span
  {
  }

  /** One multiple of `span` is the previous multiple plus `span`. */
  lemma MulPredecessor(k: int, span: int)
    ensures k * span == (k - 1) * span + span
  {
  }

  /** A non-negative multiplicand does not shrink under a positive multiplier. */
  lemma MulAtLeast(q: int, span: int)
    requires q >= 0 && span >= 1
    ensures q <= q * span
  {
  }

  /**
   * `q + r.signum()` where `(q, r) = n.quotientAndRemainder(dividingBy: span)`:
   * the number of span-sized groups `n` elements make, a partial group
   * counting as one, rounded away from zero for a negative `n`.
   */
  function QuotientRoundedOut(n: int, span: int): (c: int)
    requires span > 0
    ensures n >= 0 ==> 0 <= c <= n && (c - 1) * span < n <= c * span
    ensures c == 0 <==> n == 0
  {
    CeilingBounds(n, span);
    Quotient(n, span) + Signum(Remainder(n, span))
  }

  /** The truncated quotient plus the remainder's sign is the ceiling of a non-negative `n / span`. */
  lemma CeilingBounds(n: int, span: int)
    requires span > 0
    ensures var c := Quotient(n, span) + Signum(Remainder(n, span));
      (n >= 0 ==> 0 <= c <= n && (c - 1) * span < n <= c * span) && (c == 0 <==> n == 0)
  {
    if n >= 0 {
      assert Quotient(n, span) == n / span;
      assert Remainder(n, span) == n % span;
      CeilingOfNatural(n, span, n / span, n % span);
    } else {
      var m := -n;
      assert Quotient(n, span) == -(m / span);
      assert Remainder(n, span) == -(m % span);
      CeilingOfNatural(m, span, m / span, m % span);
    }
  }

  lemma CeilingOfNatural(n: int, span: int, q: int, r: int)
    requires span > 0 && n >= 0 && q >= 0 && 0 <= r < span && n == span * q + r
    ensures var c := q + Signum(r);
      0 <= c <= n && (c - 1) * span < n <= c * span && (c == 0 <==> n == 0)
  {
    MulAtLeast(q, span);
    assert (q + 1) * span == span * q + span;
    assert (q - 1) * span == span * q - span;
  }

  /** The group count of a negated distance is the negated group count. */
  lemma QuotientRoundedOutOdd(n: int, span: int)
    requires span > 0
    ensures QuotientRoundedOut(-n, span) == -QuotientRoundedOut(n, span)
  {
    TruncatedDivision(n, span);
  }

  /** A non-negative count has exactly one group count `c`, the one with `(c - 1) * span < n <= c * span`. */
  lemma QuotientRoundedOutUnique(n: int, span: int, c: int)
    requires span > 0 && n >= 0
    requires (c - 1) * span < n <= c * span
    ensures QuotientRoundedOut(n, span) == c
  {
    var d := QuotientRoundedOut(n, span);
    MulStrictMono(c - 1, d, span);
    MulStrictMono(d - 1, c, span);
  }

  /**
   * `index(i, offsetBy: k, limitedBy: limit)` of a random-access collection
   * with integer indices: no index when `limit` lies in the direction of travel
   * strictly before the destination.
   */
  function OffsetLimited(i: int, k: int, limit: int): Option<int>
  {
    var l := limit - i;
    if (if k > 0 then 0 <= l < k else k < l <= 0) then None else Some(i + k)
  }

  /**
   * `index(i, offsetBy: k, limitedBy: limit) ?? limit`: a clamp of `i + k` at
   * `limit` whenever `limit` lies in the direction of `k`.
   */
  function OffsetOrLimit(i: int, k: int, limit: int): (r: int)
    ensures k >= 0 && i <= limit ==> r == Min(i + k, limit)
    ensures k <= 0 && limit <= i ==> r == Max(i + k, limit)
  {
    match OffsetLimited(i, k, limit)
    case Some(j) => j
    case None => limit
  }

}
