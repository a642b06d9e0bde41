/**
 * The clustering adapter: an iterator that pulls up to `span` elements at a
 * time from a wrapped iterator into a fresh array, a restartable sequence that
 * makes such iterators, and `clustered(eachSpanning:)`, which drains one into
 * an array of arrays.  The wrapped iterator is one over a finite sequence.
 */
module Clustering {

  import opened Wrappers
  import opened Arith
  import opened Partitions

  /** An iterator over the elements of a finite sequence, as `makeIterator()` of an array gives. */
  class SequenceIterator<T> {

    const items: seq<T>
    var position: int

    ghost predicate Valid()
      reads this
    {
      0 <= position <= |items|
    }

    /** The elements still to be pulled, in order. */
    ghost function Remaining(): seq<T>
      reads this
      requires Valid()
    {
      items[position..]
    }

    constructor (items: seq<T>)
      ensures Valid() && this.items == items && position == 0 && Remaining() == items
    {
      this.items := items;
      position := 0;
    }

    /** A copy of `other`'s state: iterators are values, so storing one copies it. */
    constructor Copy(other: SequenceIterator<T>)
      requires other.Valid()
      ensures Valid() && items == other.items && position == other.position
    {
      items := other.items;
      position := other.position;
    }

    /** `next()`: the next element, or nothing once every element has been pulled. */
    method Next() returns (element: Option<T>)
      requires Valid()
      modifies this`position
      ensures Valid()
      ensures element.None? <==> old(Remaining()) == []
      ensures element.None? ==> position == old(position)
      ensures element.Some? ==> position == old(position) + 1 && element.value == items[old(position)]
    {
      if position == |items| {
        return None;
      }
      element := Some(items[position]);
      position := position + 1;
    }
  }

  class ClusteringIterator<T> {

    /** The source the arrays are pulled from; this iterator owns its own copy. */
    const elements: SequenceIterator<T>
    /** How many pulls fill an array; only the final array may hold fewer. */
    const span: int

    ghost predicate Valid()
      reads this, elements
    {
      span > 0 && elements.Valid()
    }

    /** The arrays still to be vended, in order. */
    ghost function Remaining(): seq<seq<T>>
      reads this, elements
      requires Valid()
    {
      Partition(elements.Remaining(), span)
    }

    constructor (base: SequenceIterator<T>, span: int)
      requires span > 0 && base.Valid()
      ensures Valid() && fresh(elements) && this.span == span
      ensures elements.items == base.items && elements.position == base.position
    {
      elements := new SequenceIterator.Copy(base);
      this.span := span;
    }

    /**
     * `next()`: pulls elements from the wrapped iterator, in order, until
     * `span` have been pulled or a pull yields nothing, and vends them; when
     * the first pull yields nothing it vends nothing, never an empty array.
     */
    method Next() returns (group: Option<seq<T>>)
      requires Valid()
      modifies elements`position
      ensures Valid()
      ensures old(elements.position) <= elements.position <= old(elements.position) + span
      ensures group.None? <==> old(elements.Remaining()) == []
      ensures group.None? ==> elements.position == old(elements.position) && Remaining() == []
      ensures group.Some? ==> group.value == elements.items[old(elements.position)..elements.position]
      ensures group.Some? ==> 0 < |group.value| <= span
      ensures group.Some? && |group.value| < span ==> elements.Remaining() == []
      ensures group.Some? ==> [group.value] + Remaining() == old(Remaining())
    {
      ghost var first := elements.position;
      ghost var rest := elements.Remaining();
      var result: seq<T> := [];
      for i := 0 to span
        invariant elements.Valid()
        invariant first <= elements.position && result == elements.items[first..elements.position]
        invariant |result| == i
      {
        var latest := elements.Next();
        if latest.None? {
          break;
        }
        result := result + [latest.value];
      }
      if result == [] {
        return None;
      }
      group := Some(result);
      assert |result| == Min(span, |rest|);
      PartitionFront(rest, span);
      assert rest[..|result|] == result;
      assert rest[|result|..] == elements.Remaining();
    }
  }

  /**
   * `clustered(eachSpanning:)`: every array a clustering iterator over `base`
   * vends, in order; they concatenate to `base`, and all but the last hold
   * exactly `span` elements.
   */
  method Clustered<T>(base: seq<T>, span: int) returns (groups: seq<seq<T>>)
    requires span > 0
    ensures groups == Partition(base, span)
    ensures Flatten(groups) == base
    ensures forall k | 0 <= k < |groups| - 1 :: |groups[k]| == span
  {
    var source := new SequenceIterator(base);
    var it := new ClusteringIterator(source, span);
    groups := [];
    while true
      invariant fresh(it) && fresh(it.elements) && it.Valid()
      invariant it.span == span && it.elements.items == base
      invariant groups + it.Remaining() == Partition(base, span)
      decreases |base| - it.elements.position
    {
      ghost var before := it.Remaining();
      var group := it.Next();
      if group.None? {
        assert groups + [] == groups;
        break;
      }
      MovedToDone(groups, group.value, it.Remaining(), before);
      groups := groups + [group.value];
    }
    PartitionFlattens(base, span);
  }

  /** A restartable sequence of the `span`-element arrays of `base`. */
  datatype ClusteringSequence<T> = ClusteringSequence(base: seq<T>, span: int)
  {
    ghost predicate Valid()
    {
      span > 0
    }

    /** `makeIterator()`: a clustering iterator around a fresh iterator of `base`, so every traversal vends every array. */
    method MakeIterator() returns (it: ClusteringIterator<T>)
      requires Valid()
      ensures fresh(it) && fresh(it.elements) && it.Valid() && it.span == span
      ensures it.elements.items == base && it.elements.position == 0
      ensures it.Remaining() == Partition(base, span)
    {
      var source := new SequenceIterator(base);
      it := new ClusteringIterator(source, span);
    }

    /**
     * `underestimatedCount` over any sequence, from the base's own
     * underestimate: the number of arrays that many elements make, which never
     * exceeds the number of arrays vended.
     */
    function UnderestimatedCount(baseUnderestimate: int): (r: int)
      requires Valid() && 0 <= baseUnderestimate <= |base|
      ensures 0 <= r <= |Partition(base, span)|
      ensures (r - 1) * span < baseUnderestimate <= r * span
      ensures baseUnderestimate == |base| ==> r == |Partition(base, span)|
    {
      PartitionCount(base, span);
      QuotientRoundedOutMono(baseUnderestimate, |base|, span);
      QuotientRoundedOut(baseUnderestimate, span)
    }

    /** `underestimatedCount` over a random-access collection: exactly the number of arrays. */
    function UnderestimatedCountRandomAccess(): (r: int)
      requires Valid()
      ensures r == |Partition(base, span)|
      ensures r == 0 <==> base == []
    {
      PartitionCount(base, span);
      QuotientRoundedOut(|base|, span)
    }
  }

  /** More elements never make fewer groups. */
  lemma QuotientRoundedOutMono(a: int, b: int, span: int)
    requires span > 0 && 0 <= a <= b
    ensures QuotientRoundedOut(a, span) <= QuotientRoundedOut(b, span)
  {
    var ca, cb := QuotientRoundedOut(a, span), QuotientRoundedOut(b, span);
    MulStrictMono(ca - 1, cb, span);
  }

  /** `1...5` in arrays of 2 gives `[[1, 2], [3, 4], [5]]`; `1...20` in arrays of 5 gives four arrays of 5. */
  lemma ClusteringScenarios()
    ensures Partition([1, 2, 3, 4, 5], 2) == [[1, 2], [3, 4], [5]]
    ensures var groups := Partition(seq(20, i => i + 1), 5);
      |groups| == 4 && forall g | g in groups :: |g| == 5
  {
    var s := [1, 2, 3, 4, 5];
    assert s[..2] == [1, 2] && s[2..] == [3, 4, 5];
    assert s[2..][..2] == [3, 4] && s[2..][2..] == [5];
    assert [5][..1] == [5] && [5][1..] == [];
    assert Partition([5], 2) == [[5]];
    assert Partition([3, 4, 5], 2) == [[3, 4], [5]];
    var t := seq(20, i => i + 1);
    ExactMultipleHasNoShortGroup(t, 5);
    PartitionCount(t, 5);
    TruncatedDivision(20, 5);
  }

}
