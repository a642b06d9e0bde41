/**
 * The partition every adapter of the library agrees on: a finite sequence of
 * elements cut, in order, into groups of `span` elements, the last group
 * holding whatever is left over.  This is the reference the iterators, the
 * chunked view and the eager drains are proved against.
 */
module Partitions {

  import opened Arith

  /** The concatenation, in order, of a sequence of groups. */
  function Flatten<T>(groups: seq<seq<T>>): seq<T>
  {
    if groups == [] then [] else groups[0] + Flatten(groups[1..])
  }

  /** The groups of `s`, in order: `span` elements each, except a shorter non-empty last group. */
  function Partition<T>(s: seq<T>, span: int): (groups: seq<seq<T>>)
    requires span > 0
    ensures forall k | 0 <= k < |groups| :: 0 < |groups[k]| <= span
    ensures forall k | 0 <= k < |groups| - 1 :: |groups[k]| == span
    decreases |s|
  {
    if |s| == 0 then []
    else
      var n := Min(span, |s|);
      assert s[..n] + s[n..] == s;
      [s[..n]] + Partition(s[n..], span)
  }

  /** The groups concatenate, in order, back to `s`: nothing is lost, duplicated or reordered. */
  lemma {:induction false} PartitionFlattens<T>(s: seq<T>, span: int)
    requires span > 0
    ensures Flatten(Partition(s, span)) == s
    decreases |s|
  {
    if |s| > 0 {
      var n := Min(span, |s|);
      var groups := Partition(s, span);
      PartitionFlattens(s[n..], span);
      assert groups[1..] == Partition(s[n..], span);
      assert s[..n] + s[n..] == s;
    }
  }

  /** There are `ceil(|s| / span)` groups: `(count - 1) * span < |s| <= count * span`. */
  lemma {:induction false} PartitionCountBounds<T>(s: seq<T>, span: int)
    requires span > 0
    ensures (|Partition(s, span)| - 1) * span < |s| <= |Partition(s, span)| * span
    decreases |s|
  {
    if |s| > 0 {
      var n := Min(span, |s|);
      var c := |Partition(s[n..], span)|;
      PartitionCountBounds(s[n..], span);
      Distrib(c, 1, span);
      Distrib(c - 1, 1, span);
    }
  }

  /** The number of groups is the Swift formula `q + r.signum()` applied to the element count. */
  lemma PartitionCount<T>(s: seq<T>, span: int)
    requires span > 0
    ensures |Partition(s, span)| == QuotientRoundedOut(|s|, span)
  {
    PartitionCountBounds(s, span);
    QuotientRoundedOutUnique(|s|, span, |Partition(s, span)|);
  }

  /** Group `k` is the slice `s[k * span ..< min(k * span + span, |s|)]`. */
  lemma PartitionAt<T>(s: seq<T>, span: int, k: int)
    requires span > 0 && 0 <= k < |Partition(s, span)|
    ensures 0 <= k * span < |s|
    ensures Partition(s, span)[k] == s[k * span .. Min(k * span + span, |s|)]
  {
    GroupStartAt(s, span, k);
    GroupStartIsProduct(k, span);
  }

  /** The offset of group `k`, `span` past the offset of group `k - 1`. */
  function GroupStart(k: nat, span: int): int
  {
    if k == 0 then 0 else GroupStart(k - 1, span) + span
  }

  lemma {:induction false} GroupStartIsProduct(k: nat, span: int)
    ensures GroupStart(k, span) == k * span
  {
    if k > 0 {
      GroupStartIsProduct(k - 1, span);
      MulPredecessor(k, span);
    }
  }

  lemma {:induction false} GroupStartAt<T>(s: seq<T>, span: int, k: nat)
    requires span > 0 && k < |Partition(s, span)|
    ensures 0 <= GroupStart(k, span) < |s|
    ensures Partition(s, span)[k] == s[GroupStart(k, span) .. Min(GroupStart(k, span) + span, |s|)]
    decreases |s|
  {
    if k > 0 {
      PartitionShift(s, span, k);
      GroupStartAt(s[span..], span, k - 1);
      ShiftedGroup(s, span, k, GroupStart(k - 1, span), GroupStart(k, span));
    }
  }

  /** Past the first group, group `k` of `s` is group `k - 1` of what follows the first group. */
  lemma PartitionShift<T>(s: seq<T>, span: int, k: int)
    requires span > 0 && 0 < k < |Partition(s, span)|
    ensures |s| > span && k - 1 < |Partition(s[span..], span)|
    ensures Partition(s, span)[k] == Partition(s[span..], span)[k - 1]
  {
    var n := Min(span, |s|);
    assert Partition(s, span) == [s[..n]] + Partition(s[n..], span);
  }

  /** The inductive step of `PartitionAt`, with `a` and `b` standing for `(k - 1) * span` and `k * span`. */
  lemma ShiftedGroup<T>(s: seq<T>, span: int, k: int, a: int, b: int)
    requires span > 0 && |s| > span && b == a + span && 0 <= a < |s[span..]|
    requires 0 < k < |Partition(s, span)| && k - 1 < |Partition(s[span..], span)|
    requires Partition(s, span)[k] == Partition(s[span..], span)[k - 1]
    requires Partition(s[span..], span)[k - 1] == s[span..][a .. Min(a + span, |s[span..]|)]
    ensures 0 <= b < |s| && Partition(s, span)[k] == s[b .. Min(b + span, |s|)]
  {
    ShiftedSlice(s, span, a, b);
  }

  /** The slice at offset `a` of the suffix after `span` is the slice at offset `a + span` of `s`. */
  lemma ShiftedSlice<T>(s: seq<T>, span: int, a: int, b: int)
    requires span > 0 && |s| > span && b == a + span && 0 <= a < |s[span..]|
    ensures s[span..][a .. Min(a + span, |s[span..]|)] == s[b .. Min(b + span, |s|)]
  {
    SliceOfSuffix(s, span, a, Min(a + span, |s| - span));
  }

  /** A slice of a suffix is a slice of the whole sequence, shifted. */
  lemma SliceOfSuffix<T>(s: seq<T>, d: int, i: int, j: int)
    requires 0 <= d <= |s| && 0 <= i <= j <= |s| - d
    ensures s[d..][i..j] == s[d + i .. d + j]
  {
  }

  /** The last group holds `((|s| - 1) mod span) + 1` elements; an empty `s` has no groups. */
  lemma LastGroupLength<T>(s: seq<T>, span: int)
    requires span > 0
    ensures Partition(s, span) == [] <==> s == []
    ensures s != [] ==> |Partition(s, span)[|Partition(s, span)| - 1]| == (|s| - 1) % span + 1
  {
    var groups := Partition(s, span);
    if s != [] {
      var c := |groups|;
      PartitionCountBounds(s, span);
      PartitionAt(s, span, c - 1);
      assert c * span == (c - 1) * span + span;
      var r := |s| - (c - 1) * span - 1;
      assert |s| - 1 == (c - 1) * span + r && 0 <= r < span;
      ModOfDecomposition(|s| - 1, span, c - 1, r);
    }
  }

  /** Dafny's `%` of `q * span + r` is `r` when `0 <= r < span`. */
  lemma ModOfDecomposition(n: int, span: int, q: int, r: int)
    requires span > 0 && 0 <= r < span && n == q * span + r
    ensures n % span == r
  {
    var q', r' := n / span, n % span;
    assert n == q' * span + r';
    if q' < q {
      MulLe(q' + 1, q, span);
      Distrib(q', 1, span);
      assert false;
    }
    if q' > q {
      MulLe(q + 1, q', span);
      Distrib(q, 1, span);
      assert false;
    }
  }

  /** When `span` divides the element count, every group is exactly `span` long. */
  lemma ExactMultipleHasNoShortGroup<T>(s: seq<T>, span: int)
    requires span > 0 && |s| % span == 0
    ensures forall g | g in Partition(s, span) :: |g| == span
  {
    var groups := Partition(s, span);
    LastGroupLength(s, span);
    if s != [] {
      ModOfPredecessor(|s|, span);
    }
    forall g | g in groups
      ensures |g| == span
    {
      var i :| 0 <= i < |groups| && groups[i] == g;
    }
  }

  /** One less than a positive multiple of `span` leaves the remainder `span - 1`. */
  lemma ModOfPredecessor(n: int, span: int)
    requires span > 0 && n > 0 && n % span == 0
    ensures (n - 1) % span == span - 1
  {
    var q := n / span;
    assert n == q * span;
    Distrib(q - 1, 1, span);
    ModOfDecomposition(n - 1, span, q - 1, span - 1);
  }

  /** The first group and the groups after it, as the iterators hand them out. */
  lemma PartitionFront<T>(s: seq<T>, span: int)
    requires span > 0 && s != []
    ensures Partition(s, span) == [s[..Min(span, |s|)]] + Partition(s[Min(span, |s|)..], span)
  {
  }

  /** Moving the head of the pending groups to the vended ones keeps their concatenation. */
  lemma MovedToDone<T>(done: seq<seq<T>>, g: seq<T>, rest: seq<seq<T>>, pending: seq<seq<T>>)
    requires [g] + rest == pending
    ensures (done + [g]) + rest == done + pending
  {
  }

}
