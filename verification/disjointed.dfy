/**
 * The disjoint-partition adapter: an iterator that steps a start index through
 * a collection `span` indices at a time and vends the slice it steps over, a
 * restartable sequence that makes such iterators, and `disjoint(eachSpanning:)`,
 * which drains one into an array of slices.
 */
module Disjointed {

  import opened Wrappers
  import opened Arith
  import opened Partitions

  class DisjointedCollectionIterator<T> {

    /** The elements cut into slices. */
    var base: seq<T>
    /** How many elements make a full slice; only the final slice may hold fewer. */
    const span: int
    /** Where the slice the next call returns begins; `|base|` once all are vended. */
    var start: int

    ghost predicate Valid()
      reads this
    {
      span > 0 && 0 <= start <= |base|
    }

    /** The slices still to be vended, in order. */
    ghost function Remaining(): seq<seq<T>>
      reads this
      requires Valid()
    {
      Partition(base[start..], span)
    }

    constructor (base: seq<T>, span: int)
      requires span > 0
      ensures Valid()
      ensures this.base == base && this.span == span && start == 0
      ensures Remaining() == Partition(base, span)
    {
      this.base := base;
      this.span := span;
      start := 0;
      assert base[0..] == base;
    }

    /**
     * `next()`: nothing once `start` has reached the end index; otherwise the
     * slice from `start` to `min(start + span, endIndex)`, after which `start`
     * moves to that bound.
     */
    method Next() returns (group: Option<seq<T>>)
      requires Valid()
      modifies this`start
      ensures Valid()
      ensures old(start) <= start
      ensures group.None? <==> old(start) == |base|
      ensures group.None? ==> start == old(start) && Remaining() == []
      ensures group.Some? ==> start == Min(old(start) + span, |base|)
      ensures group.Some? ==> group.value == base[old(start)..start]
      ensures group.Some? ==> 0 < |group.value| <= span && (|group.value| < span ==> Remaining() == [])
      ensures group.Some? ==> [group.value] + Remaining() == old(Remaining())
    {
      if !(start < |base|) {
        return None;
      }
      ghost var rest := base[start..];
      var nextIndex := OffsetOrLimit(start, span, |base|);
      group := Some(base[start..nextIndex]);
      start := nextIndex;
      PartitionFront(rest, span);
      assert rest[..Min(span, |rest|)] == group.value;
      assert rest[Min(span, |rest|)..] == base[start..];
    }
  }

  /**
   * `disjoint(eachSpanning:)`: every slice an iterator over `base` vends, in
   * order; they concatenate to `base` and number `ceil(|base| / span)`.
   */
  method Disjoint<T>(base: seq<T>, span: int) returns (groups: seq<seq<T>>)
    requires span > 0
    ensures groups == Partition(base, span)
    ensures Flatten(groups) == base
    ensures |groups| == QuotientRoundedOut(|base|, span)
  {
    var it := new DisjointedCollectionIterator(base, span);
    groups := [];
    while true
      invariant fresh(it) && it.Valid()
      invariant it.base == base && it.span == span
      invariant groups + it.Remaining() == Partition(base, span)
      decreases |base| - it.start
    {
      ghost var before := it.Remaining();
      var group := it.Next();
      if group.None? {
        assert groups + [] == groups;
        break;
      }
      MovedToDone(groups, group.value, it.Remaining(), before);
      groups := groups + [group.value];
    }
    PartitionCount(base, span);
    PartitionFlattens(base, span);
  }

  /** A restartable sequence of the slices of `base`. */
  datatype DisjointedCollectionSequence<T> = DisjointedCollectionSequence(base: seq<T>, span: int)
  {
    ghost predicate Valid()
    {
      span > 0
    }

    /** `makeIterator()`: a fresh iterator at the start of `base`, so every traversal vends every slice. */
    method MakeIterator() returns (it: DisjointedCollectionIterator<T>)
      requires Valid()
      ensures fresh(it) && it.Valid()
      ensures it.base == base && it.span == span && it.start == 0
      ensures it.Remaining() == Partition(base, span)
    {
      it := new DisjointedCollectionIterator(base, span);
    }

    /** `underestimatedCount` over any collection: 0 for an empty base, else 1, never above the slice count. */
    function UnderestimatedCount(): (r: int)
      requires Valid()
      ensures 0 <= r <= |Partition(base, span)|
      ensures r == 0 <==> base == []
    {
      LastGroupLength(base, span);
      if |base| == 0 then 0 else 1
    }

    /** `underestimatedCount` over a random-access collection: exactly the slice count. */
    function UnderestimatedCountRandomAccess(): (r: int)
      requires Valid()
      ensures r == |Partition(base, span)|
    {
      PartitionCount(base, span);
      QuotientRoundedOut(|base|, span)
    }
  }

  /** `1...8` in slices of 3 gives slices of 3, 3 and 2 elements. */
  lemma OneThroughEightBySpanThree()
    ensures Partition([1, 2, 3, 4, 5, 6, 7, 8], 3) == [[1, 2, 3], [4, 5, 6], [7, 8]]
  {
    var s := [1, 2, 3, 4, 5, 6, 7, 8];
    assert s[..3] == [1, 2, 3] && s[3..] == [4, 5, 6, 7, 8];
    assert s[3..][..3] == [4, 5, 6] && s[3..][3..] == [7, 8];
    assert [7, 8][..2] == [7, 8] && [7, 8][2..] == [];
    assert Partition([7, 8], 3) == [[7, 8]];
    assert Partition([4, 5, 6, 7, 8], 3) == [[4, 5, 6], [7, 8]];
  }

}
