/**
 * `ChunkedCollection`: a lazy collection whose elements are the span-sized
 * slices of `base[target]`, the last one possibly shorter.  Its indices are
 * base indices (the start of each slice, plus the target's end index); moving
 * an index by one chunk moves it by `span` base indices, clamped at the
 * target's bounds.  The view is also its own iterator: `Next` hands out the
 * first slice and moves the target's lower bound past it.
 */
module Chunked {

  import opened Wrappers
  import opened Arith
  import opened Partitions

  /** A half-open range `lower ..< upper` of base indices. */
  datatype IndexRange = IndexRange(lower: int, upper: int)

  function Clamp(x: int, lo: int, hi: int): int { Max(lo, Min(x, hi)) }

  class ChunkedCollection<T> {

    /** Every element the view can draw from; only those inside `target` are grouped. */
    var base: seq<T>
    /** How many elements make a full slice; only the final slice may hold fewer. */
    const span: int
    /** The half-open range of base indices still to be grouped. */
    var target: IndexRange

    ghost predicate Valid()
      reads this
    {
      span > 0 && 0 <= target.lower <= target.upper <= |base|
    }

    constructor (base: seq<T>, span: int, targetStartIndex: int, targetEndIndex: int)
      requires span > 0
      requires 0 <= targetStartIndex <= targetEndIndex <= |base|
      ensures Valid()
      ensures this.base == base && this.span == span
      ensures target == IndexRange(targetStartIndex, targetEndIndex)
    {
      this.base := base;
      this.span := span;
      this.target := IndexRange(targetStartIndex, targetEndIndex);
    }

    /** The view over all of `base`. */
    constructor Whole(base: seq<T>, span: int)
      requires span > 0
      ensures Valid()
      ensures this.base == base && this.span == span
      ensures target == IndexRange(0, |base|)
      ensures Groups() == Partition(base, span)
    {
      this.base := base;
      this.span := span;
      this.target := IndexRange(0, |base|);
      assert base[0..|base|] == base;
    }

    /** `base[target]`: the elements the slices concatenate back to. */
    function WrappedElements(): seq<T>
      reads this
      requires Valid()
    {
      base[target.lower..target.upper]
    }

    /** The slices the view vends, in order. */
    ghost function Groups(): seq<seq<T>>
      reads this
      requires Valid()
    {
      Partition(WrappedElements(), span)
    }

    /** The base index where slice `k` starts; `Boundary(|Groups()|)` is the end index. */
    ghost function Boundary(k: int): int
      reads this
      requires Valid() && 0 <= k <= |Groups()|
    {
      Min(target.lower + k * span, target.upper)
    }

    function StartIndex(): int
      reads this
    {
      target.lower
    }

    function EndIndex(): int
      reads this
    {
      target.upper
    }

    /** The distance in chunks: the base distance divided by `span`, a partial chunk counting as one. */
    function Distance(start: int, end: int): int
      reads this
      requires Valid()
    {
      QuotientRoundedOut(end - start, span)
    }

    /** The number of slices, as the distance from the start index to the end index. */
    function Count(): (r: int)
      reads this
      requires Valid()
      ensures r == |Groups()|
      ensures 0 <= r <= target.upper - target.lower
    {
      PartitionCount(WrappedElements(), span);
      Distance(StartIndex(), EndIndex())
    }

    /**
     * The body of `index(_:offsetBy:)` for a given straggler count: from the
     * end index, a backward move first steps back over the straggler slice;
     * every other move is by `n * span` base indices, clamped at the target
     * bound in the direction of travel.
     */
    function Offset(i: int, n: int, stragglerCount: int): (r: int)
      reads this
      requires Valid() && target.lower <= i <= target.upper
      requires 0 <= stragglerCount <= target.upper - target.lower
      ensures target.lower <= r <= target.upper
      ensures n >= 0 ==> r == Min(i + n * span, target.upper)
      ensures n < 0 && i != target.upper ==> r == Max(i + n * span, target.lower)
      decreases if i == target.upper then 1 else 0
    {
      if i == EndIndex() && n < 0 && stragglerCount != 0 then
        var p := i - stragglerCount;
        Offset(p, n + 1, stragglerCount)
      else
        var limit := if n >= 0 then target.upper else target.lower;
        MulSign(n, span);
        OffsetOrLimit(i, n * span, limit)
    }

    /**
     * `index(_:offsetBy:)` as written: the straggler count is the remainder of
     * the collection's `count` (its number of slices) by `span`.
     */
    function Index(i: int, n: int): (r: int)
      reads this
      requires Valid() && target.lower <= i <= target.upper
      ensures target.lower <= r <= target.upper
      ensures n >= 0 ==> r == Min(i + n * span, target.upper)
    {
      var c := Count();
      RemainderBounds(c, span);
      Offset(i, n, Remainder(c, span))
    }

    /**
     * `index(_:offsetBy:)` with the straggler count taken as the remainder of
     * the number of targeted elements by `span`, the length of the short last slice.
     */
    function IndexCorrected(i: int, n: int): (r: int)
      reads this
      requires Valid() && target.lower <= i <= target.upper
      ensures target.lower <= r <= target.upper
      ensures n >= 0 ==> r == Min(i + n * span, target.upper)
    {
      var len := target.upper - target.lower;
      RemainderBounds(len, span);
      Offset(i, n, Remainder(len, span))
    }

    /** `index(after:)`: one chunk forward, clamped at the end index. */
    function IndexAfter(i: int): (r: int)
      reads this
      requires Valid() && target.lower <= i <= target.upper
      ensures r == Min(i + span, target.upper)
      ensures i < target.upper ==> i < r
    {
      Index(i, 1)
    }

    /** `underestimatedCount` of a view over any collection: 0 when the target is empty, else 1. */
    function UnderestimatedCount(): (r: int)
      reads this
      requires Valid()
      ensures 0 <= r <= |Groups()|
      ensures r == 0 <==> Groups() == []
    {
      LastGroupLength(WrappedElements(), span);
      if target.lower == target.upper then 0 else 1
    }

    /** `underestimatedCount` of a view over a random-access collection: exactly the number of slices. */
    function UnderestimatedCountRandomAccess(): (r: int)
      reads this
      requires Valid()
      ensures r == |Groups()|
    {
      PartitionCount(WrappedElements(), span);
      QuotientRoundedOut(target.upper - target.lower, span)
    }

    /**
     * `next()`: nothing once the target is empty; otherwise the first slice,
     * after which the target's lower bound moves to that slice's end.
     */
    method Next() returns (group: Option<seq<T>>)
      requires Valid()
      modifies this`target
      ensures Valid()
      ensures base == old(base) && target.upper == old(target.upper)
      ensures group.None? <==> old(target.lower == target.upper)
      ensures group.None? ==> target == old(target) && Groups() == []
      ensures group.Some? ==> target.lower == Min(old(target.lower) + span, target.upper)
      ensures group.Some? ==> group.value == base[old(target.lower)..target.lower]
      ensures group.Some? ==> [group.value] + Groups() == old(Groups())
    {
      if target.lower == target.upper {
        return None;
      }
      ghost var w := WrappedElements();
      var nextIndex := IndexAfter(StartIndex());
      group := Some(base[StartIndex()..nextIndex]);
      target := IndexRange(nextIndex, target.upper);
      PartitionFront(w, span);
      assert w[..Min(span, |w|)] == group.value;
      assert w[Min(span, |w|)..] == WrappedElements();
    }

    /** `self[bounds]`: a view of the same base and span whose target is `bounds`. */
    method Slice(lower: int, upper: int) returns (view: ChunkedCollection<T>)
      requires Valid() && 0 <= lower <= upper <= |base|
      ensures fresh(view) && view.Valid()
      ensures view.base == base && view.span == span
      ensures view.target == IndexRange(lower, upper)
    {
      view := new ChunkedCollection(base, span, lower, upper);
    }

    /**
     * `self[position]`: the first slice of the view from `position` to the end
     * index, that is `base[position ..< min(position + span, endIndex)]`; at a
     * chunk boundary it is the slice the view vends there.
     */
    method At(position: int) returns (group: seq<T>)
      requires Valid() && 0 <= position < target.upper
      ensures group == base[position .. Min(position + span, target.upper)]
      ensures target.lower <= position && (position - target.lower) % span == 0 ==>
                (position - target.lower) / span < |Groups()| &&
                group == Groups()[(position - target.lower) / span]
    {
      var rest := Slice(position, EndIndex());
      var first := rest.Next();
      group := first.value;
      if target.lower <= position && (position - target.lower) % span == 0 {
        GroupAtBoundary(this, position);
      }
    }
  }

  /** The sign of a product with a positive factor is the sign of the other factor. */
  lemma MulSign(n: int, span: int)
    requires span > 0
    ensures n >= 0 ==> n * span >= 0
    ensures n < 0 ==> n * span < 0
  {
  }

  /** Swift's remainder of a non-negative dividend is non-negative and at most the dividend. */
  lemma RemainderBounds(a: int, b: int)
    requires a >= 0 && b > 0
    ensures 0 <= Remainder(a, b) <= a && Remainder(a, b) < b
  {
    TruncatedDivision(a, b);
  }

  lemma SliceOfSlice<T>(s: seq<T>, lo: int, hi: int, a: int, b: int)
    requires 0 <= lo <= hi <= |s| && 0 <= a <= b <= hi - lo
    ensures s[lo..hi][a..b] == s[lo + a .. lo + b]
  {
    var w := s[lo..hi];
    assert |w[a..b]| == |s[lo + a .. lo + b]|;
    forall j | 0 <= j < b - a
      ensures w[a..b][j] == s[lo + a .. lo + b][j]
    {
      assert w[a..b][j] == w[a + j] == s[lo + a + j];
    }
  }

  /** The slice at a chunk-aligned position is the group with that position's chunk number. */
  lemma GroupAtBoundary<T>(c: ChunkedCollection<T>, position: int)
    requires c.Valid() && c.target.lower <= position < c.target.upper
    requires (position - c.target.lower) % c.span == 0
    ensures (position - c.target.lower) / c.span < |c.Groups()|
    ensures c.Groups()[(position - c.target.lower) / c.span] ==
            c.base[position .. Min(position + c.span, c.target.upper)]
  {
    var k := (position - c.target.lower) / c.span;
    ExactQuotient(position - c.target.lower, c.span);
    PartitionCountBounds(c.WrappedElements(), c.span);
    MulStrictMono(k, |c.Groups()|, c.span);
    GroupAt(c, k, k * c.span);
  }

  /** Group `k` of the view is the base slice starting `k * span` after the target's start. */
  lemma GroupAt<T>(c: ChunkedCollection<T>, k: int, offset: int)
    requires c.Valid() && 0 <= k < |c.Groups()| && offset == k * c.span
    ensures 0 <= offset < c.target.upper - c.target.lower
    ensures c.Groups()[k] == c.base[c.target.lower + offset .. Min(c.target.lower + offset + c.span, c.target.upper)]
  {
    var w := c.WrappedElements();
    PartitionAt(w, c.span, k);
    SliceOfSlice(c.base, c.target.lower, c.target.upper, offset, Min(offset + c.span, |w|));
  }

  /** A multiple of `span` is its quotient by `span` times `span`. */
  lemma ExactQuotient(x: int, span: int)
    requires x >= 0 && span > 0 && x % span == 0
    ensures x / span >= 0 && x / span * span == x
  {
  }

  /** Slice `k` starts `k * span` after the target's start, inside the target; the last boundary is the end index. */
  lemma BoundaryFacts<T>(c: ChunkedCollection<T>, k: int)
    requires c.Valid() && 0 <= k <= |c.Groups()|
    ensures k < |c.Groups()| ==> c.Boundary(k) == c.target.lower + k * c.span < c.target.upper
    ensures k == |c.Groups()| ==> c.Boundary(k) == c.target.upper
  {
    PartitionCountBounds(c.WrappedElements(), c.span);
    if k < |c.Groups()| {
      MulLe(k, |c.Groups()| - 1, c.span);
    }
  }

  /**
   * The element count of the target split by `span`: the slice count is the
   * quotient, plus one when there is a short last slice of `remainder` elements.
   */
  lemma CountDecomposition<T>(c: ChunkedCollection<T>)
    requires c.Valid()
    ensures var len, r := c.target.upper - c.target.lower, Remainder(c.target.upper - c.target.lower, c.span);
      0 <= r < c.span &&
      (r == 0 ==> len == |c.Groups()| * c.span) &&
      (r != 0 ==> len == (|c.Groups()| - 1) * c.span + r)
  {
    PartitionCount(c.WrappedElements(), c.span);
    LengthFromCount(c.target.upper - c.target.lower, c.span);
  }

  /** A non-negative length is its group count times `span`, less the gap a short last group leaves. */
  lemma LengthFromCount(len: int, span: int)
    requires len >= 0 && span > 0
    ensures var r, count := Remainder(len, span), QuotientRoundedOut(len, span);
      0 <= r < span &&
      (r == 0 ==> len == count * span) &&
      (r != 0 ==> len == (count - 1) * span + r)
  {
    TruncatedDivision(len, span);
    var q, r := Quotient(len, span), Remainder(len, span);
    assert len == span * q + r;
    if r == 0 {
      assert QuotientRoundedOut(len, span) == q;
    } else {
      assert QuotientRoundedOut(len, span) - 1 == q;
    }
  }

  /**
   * On chunk boundaries the corrected `index(_:offsetBy:)` moves by exactly `n`
   * slices, clamped at the first and the last boundary.
   */
  lemma IndexCorrectedOnGrid<T>(c: ChunkedCollection<T>, k: int, n: int)
    requires c.Valid() && 0 <= k <= |c.Groups()|
    ensures c.IndexCorrected(c.Boundary(k), n) == c.Boundary(Clamp(k + n, 0, |c.Groups()|))
  {
    if n >= 0 {
      ForwardOnGrid(c, k, n);
    } else if k < |c.Groups()| {
      BackwardOnGrid(c, k, n);
    } else {
      BackwardFromEnd(c, n);
    }
  }

  /** A forward move from boundary `k` lands on boundary `min(k + n, count)`. */
  lemma ForwardOnGrid<T>(c: ChunkedCollection<T>, k: int, n: int)
    requires c.Valid() && 0 <= k <= |c.Groups()| && n >= 0
    ensures c.IndexCorrected(c.Boundary(k), n) == c.Boundary(Clamp(k + n, 0, |c.Groups()|))
  {
    assert Clamp(k + n, 0, |c.Groups()|) == Min(k + n, |c.Groups()|);
    var span, count := c.span, |c.Groups()|;
    BoundaryFacts(c, k);
    BoundaryFacts(c, Min(k + n, count));
    PartitionCountBounds(c.WrappedElements(), span);
    if k == count {
      MulSign(n, span);
    } else {
      Distrib(k, n, span);
      if k + n >= count {
        MulLe(count, k + n, span);
      }
    }
  }

  /** A backward move from a boundary before the end lands on boundary `max(k + n, 0)`. */
  lemma BackwardOnGrid<T>(c: ChunkedCollection<T>, k: int, n: int)
    requires c.Valid() && 0 <= k < |c.Groups()| && n <= 0
    ensures c.Boundary(k) < c.target.upper
    ensures Max(c.Boundary(k) + n * c.span, c.target.lower) == c.Boundary(Max(k + n, 0))
    ensures c.IndexCorrected(c.Boundary(k), n) == c.Boundary(Clamp(k + n, 0, |c.Groups()|))
  {
    assert Clamp(k + n, 0, |c.Groups()|) == Max(k + n, 0);
    var span := c.span;
    BoundaryFacts(c, k);
    BoundaryFacts(c, Max(k + n, 0));
    Distrib(k, n, span);
    if k + n < 0 {
      MulSign(k + n, span);
    }
  }

  /** With the corrected index, a backward move from the end index lands on boundary `max(count + n, 0)`. */
  lemma BackwardFromEnd<T>(c: ChunkedCollection<T>, n: int)
    requires c.Valid() && n < 0
    ensures c.IndexCorrected(c.Boundary(|c.Groups()|), n) == c.Boundary(Clamp(|c.Groups()| + n, 0, |c.Groups()|))
  {
    assert Clamp(|c.Groups()| + n, 0, |c.Groups()|) == Max(|c.Groups()| + n, 0);
    CountDecomposition(c);
    BoundaryFacts(c, |c.Groups()|);
    if Remainder(c.target.upper - c.target.lower, c.span) == 0 {
      BackwardFromEndExact(c, n);
    } else {
      BackwardFromEndStraggler(c, n);
    }
  }

  /** With no short last slice, a backward move from the end is a plain move of `n` slices. */
  lemma BackwardFromEndExact<T>(c: ChunkedCollection<T>, n: int)
    requires c.Valid() && n < 0
    requires c.target.upper - c.target.lower == |c.Groups()| * c.span
    requires Remainder(c.target.upper - c.target.lower, c.span) == 0
    ensures c.IndexCorrected(c.target.upper, n) == c.Boundary(Max(|c.Groups()| + n, 0))
  {
    var count := |c.Groups()|;
    BoundaryFacts(c, Max(count + n, 0));
    Distrib(count, n, c.span);
    if count + n < 0 {
      MulSign(count + n, c.span);
    }
  }

  /** With a short last slice of `r` elements, a backward move from the end first steps back `r` indices. */
  lemma BackwardFromEndStraggler<T>(c: ChunkedCollection<T>, n: int)
    requires c.Valid() && n < 0
    requires var r := Remainder(c.target.upper - c.target.lower, c.span);
      0 < r < c.span && c.target.upper - c.target.lower == (|c.Groups()| - 1) * c.span + r
    ensures c.IndexCorrected(c.target.upper, n) == c.Boundary(Max(|c.Groups()| + n, 0))
  {
    var hi, count := c.target.upper, |c.Groups()|;
    var r := Remainder(hi - c.target.lower, c.span);
    PartitionCountBounds(c.WrappedElements(), c.span);
    BoundaryFacts(c, count - 1);
    assert hi - r == c.Boundary(count - 1);
    assert c.IndexCorrected(hi, n) == c.Offset(hi - r, n + 1, r);
    if n + 1 < 0 {
      BackwardOnGrid(c, count - 1, n + 1);
    }
  }

  /**
   * `index(_:offsetBy:)` as written agrees with the corrected one except possibly
   * when moving backward from the end index while the two straggler counts differ.
   */
  lemma IndexAgreement<T>(c: ChunkedCollection<T>, i: int, n: int)
    requires c.Valid() && c.target.lower <= i <= c.target.upper
    requires n >= 0 || i != c.target.upper ||
             Remainder(c.Count(), c.span) == Remainder(c.target.upper - c.target.lower, c.span)
    ensures c.Index(i, n) == c.IndexCorrected(i, n)
  {
  }

  /**
   * `index(_:offsetBy:)` as written moves by exactly `n` slices between chunk
   * boundaries, clamped at both ends, provided the slice count and the element
   * count leave the same remainder by `span`.
   */
  lemma IndexOnGrid<T>(c: ChunkedCollection<T>, k: int, n: int)
    requires c.Valid() && 0 <= k <= |c.Groups()|
    requires Remainder(c.Count(), c.span) == Remainder(c.target.upper - c.target.lower, c.span)
    ensures c.Index(c.Boundary(k), n) == c.Boundary(Clamp(k + n, 0, |c.Groups()|))
  {
    BoundaryFacts(c, k);
    IndexAgreement(c, c.Boundary(k), n);
    IndexCorrectedOnGrid(c, k, n);
  }

  /**
   * 7 elements in slices of 3: there are 3 slices, `3 % 3 == 0`, so stepping
   * back one slice from the end index goes back 3 elements, to index 4, and
   * not to index 6 where the last slice `[7]` starts.
   */
  lemma StragglerCounterexample(c: ChunkedCollection<int>)
    requires c.Valid() && c.base == [1, 2, 3, 4, 5, 6, 7] && c.span == 3 && c.target == IndexRange(0, 7)
    ensures c.Count() == 3 && c.Boundary(2) == 6
    ensures c.Index(c.EndIndex(), -1) == 4
    ensures c.IndexCorrected(c.EndIndex(), -1) == 6
  {
    assert c.Count() == 3;
    TruncatedDivision(3, 3);
    TruncatedDivision(7, 3);
    assert Remainder(7, 3) == 1;
  }

  /** Moving `n` slices from a boundary and `n` slices back returns to it when the move stays in bounds. */
  lemma IndexRoundTrip<T>(c: ChunkedCollection<T>, k: int, n: int)
    requires c.Valid() && 0 <= k <= |c.Groups()| && 0 <= k + n <= |c.Groups()|
    ensures c.IndexCorrected(c.IndexCorrected(c.Boundary(k), n), -n) == c.Boundary(k)
  {
    IndexCorrectedOnGrid(c, k, n);
    IndexCorrectedOnGrid(c, k + n, -n);
  }

  /** The chunk distance is zero from an index to itself and changes sign when the ends swap. */
  lemma DistanceAntisymmetric<T>(c: ChunkedCollection<T>, a: int, b: int)
    requires c.Valid()
    ensures c.Distance(a, a) == 0
    ensures c.Distance(b, a) == -c.Distance(a, b)
  {
    QuotientRoundedOutOdd(b - a, c.span);
  }

  /** Between chunk boundaries `j` and `k` the chunk distance is `k - j`. */
  lemma DistanceOnGrid<T>(c: ChunkedCollection<T>, j: int, k: int)
    requires c.Valid() && 0 <= j <= |c.Groups()| && 0 <= k <= |c.Groups()|
    ensures c.Distance(c.Boundary(j), c.Boundary(k)) == k - j
  {
    if j <= k {
      ForwardDistanceOnGrid(c, j, k);
    } else {
      ForwardDistanceOnGrid(c, k, j);
      DistanceAntisymmetric(c, c.Boundary(k), c.Boundary(j));
    }
  }

  lemma ForwardDistanceOnGrid<T>(c: ChunkedCollection<T>, j: int, k: int)
    requires c.Valid() && 0 <= j <= k <= |c.Groups()|
    ensures c.Distance(c.Boundary(j), c.Boundary(k)) == k - j
  {
    var lo, hi, span, count := c.target.lower, c.target.upper, c.span, |c.Groups()|;
    BoundaryFacts(c, j);
    BoundaryFacts(c, k);
    PartitionCountBounds(c.WrappedElements(), span);
    if j < k {
      var d := c.Boundary(k) - c.Boundary(j);
      assert d == (if k < count then k * span else hi - lo) - j * span;
      CountBetweenBoundaries(hi - lo, span, count, j, k, d);
    }
  }

  /** The arithmetic of `ForwardDistanceOnGrid`, with `len` elements cut into `count` slices. */
  lemma CountBetweenBoundaries(len: int, span: int, count: int, j: int, k: int, d: int)
    requires span > 0 && (count - 1) * span < len <= count * span
    requires 0 <= j < k <= count
    requires d == (if k < count then k * span else len) - j * span
    ensures QuotientRoundedOut(d, span) == k - j
  {
    if k < count {
      Distrib(k - j, j, span);
      Distrib(k - j - 1, 1, span);
    } else {
      Distrib(count - 1 - j, j, span);
      Distrib(count - j, j, span);
    }
    QuotientRoundedOutUnique(d, span, k - j);
  }

  /** The chunk distance undoes the corrected `index(_:offsetBy:)` on chunk boundaries. */
  lemma DistanceOfIndex<T>(c: ChunkedCollection<T>, k: int, n: int)
    requires c.Valid() && 0 <= k <= |c.Groups()| && 0 <= k + n <= |c.Groups()|
    ensures c.Distance(c.Boundary(k), c.IndexCorrected(c.Boundary(k), n)) == n
  {
    IndexCorrectedOnGrid(c, k, n);
    DistanceOnGrid(c, k, k + n);
  }

  /** The start index is the first boundary, the end index the last, and moving past the end stays there. */
  lemma ViewEndpoints<T>(c: ChunkedCollection<T>)
    requires c.Valid()
    ensures c.StartIndex() == c.Boundary(0)
    ensures c.EndIndex() == c.Boundary(c.Count())
    ensures c.IndexAfter(c.EndIndex()) == c.EndIndex()
    ensures c.Distance(c.StartIndex(), c.EndIndex()) == |c.Groups()|
  {
    BoundaryFacts(c, c.Count());
  }

  /** The vended slices, concatenated in order, are the targeted elements. */
  lemma GroupsReconstructWrappedElements<T>(c: ChunkedCollection<T>)
    requires c.Valid()
    ensures Flatten(c.Groups()) == c.WrappedElements()
    ensures forall k | 0 <= k < |c.Groups()| - 1 :: |c.Groups()[k]| == c.span
  {
    PartitionFlattens(c.WrappedElements(), c.span);
  }

  /**
   * Five elements in slices of two: slices `[1, 2]`, `[3, 4]`, `[5]`; one step
   * back from the end index reaches 4, where `[5]` starts, and three steps back
   * reach the start index.
   */
  lemma FiveBySpanTwo(c: ChunkedCollection<int>)
    requires c.Valid() && c.base == [1, 2, 3, 4, 5] && c.span == 2 && c.target == IndexRange(0, 5)
    ensures c.Groups() == [[1, 2], [3, 4], [5]]
    ensures c.Count() == 3 && c.Distance(0, 4) == 2
    ensures c.Index(c.EndIndex(), -1) == 4 && c.Index(c.EndIndex(), -3) == c.StartIndex()
    ensures c.Index(c.StartIndex(), 3) == c.EndIndex() && c.IndexAfter(4) == c.EndIndex()
  {
    var w := c.WrappedElements();
    assert w == [1, 2, 3, 4, 5];
    assert w[..2] == [1, 2] && w[2..] == [3, 4, 5];
    assert w[2..][..2] == [3, 4] && w[2..][2..] == [5];
    assert [5][..1] == [5] && [5][1..] == [];
    assert Partition([5], 2) == [[5]];
    assert Partition([3, 4, 5], 2) == [[3, 4], [5]];
    assert c.Groups() == [[1, 2], [3, 4], [5]];
    TruncatedDivision(3, 2);
    TruncatedDivision(4, 2);
    assert Remainder(3, 2) == 1;
  }

}
