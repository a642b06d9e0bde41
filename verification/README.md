# SectionedSequences in Dafny

A model of the SectionedSequences library, which cuts an ordered sequence of elements into fixed-size groups of `span` elements, the last group possibly shorter. The library has three adapters.

- `ChunkedCollection` is a lazy collection whose elements are the span-sized slices of `base[target]`. Its indices are base indices, so moving an index by one chunk moves it by `span` base indices, clamped at the target's bounds. It also works as its own iterator.
- `DisjointedCollectionIterator` / `DisjointedCollectionSequence` / `disjoint(eachSpanning:)` step a start index through a collection `span` indices at a time. They vend the slices they step over, either lazily or drained into an array.
- `ClusteringIterator` / `ClusteringSequence` / `clustered(eachSpanning:)` pull up to `span` elements at a time from a wrapped iterator into a fresh array. They never vend an empty array.

The modules follow the library's files:

- `arith.dfy` (`Arith`): the Swift integer operations the adapters use. These are `quotientAndRemainder(dividingBy:)`, which truncates toward zero, `signum()`, the recurring `q + r.signum()` group count, and `index(_:offsetBy:limitedBy:) ?? limit` on integer indices.
- `partitions.dfy` (`Partitions`): `Partition(s, span)`, the reference cut into groups, with its properties. Every adapter is proved against it.
- `chunked.dfy` (`Chunked`): `ChunkedCollection` as a class. Its field `target` is reassigned by `Next`. Its index arithmetic and counts are functions that read the object. Its two subscripts are methods: `Slice` allocates a new view, and `At` allocates a view from the position to the end and calls `Next` on it, as the Swift subscript does.
- `disjointed.dfy` (`Disjointed`): the iterator as a class whose `start` field `Next` advances. `Disjoint` drains a fresh iterator in a loop. The sequence is a datatype whose `MakeIterator` allocates a fresh iterator.
- `clustering.dfy` (`Clustering`): the wrapped iterator is `SequenceIterator`, an iterator over a finite sequence with a cursor. `ClusteringIterator.Next` runs the source's `for 0..<span` pull loop. `Clustered` drains a fresh clustering iterator. The sequence is a datatype.
- `wrappers.dfy` (`Wrappers`): the `Option` type that `next()` returns.

Bases are `seq<T>`, with indices `0 ..< |base|` plus the past-the-end index `|base|`. The `precondition` traps become `requires` clauses, and a class's `Valid()` carries them forward. The initializers of the two sequence structs are the datatype constructors. Their `span > 0` precondition is the `Valid()` each of their members requires.

Some members of `ChunkedCollection` have no row of their own, because the lemmas about them carry their meaning:
- `WrappedElements` (`wrappedElements`) is covered by `Chunked.GroupsReconstructWrappedElements`.
- `StartIndex` and `EndIndex` (`startIndex`, `endIndex`) are covered by `Chunked.ViewEndpoints`.
- `Distance` (`distance(from:to:)`) is covered by `Chunked.DistanceAntisymmetric`, `Chunked.DistanceOnGrid` and `Chunked.DistanceOfIndex`.

## Model

| member | source | states |
|---|---|---|
| `Arith.QuotientRoundedOut` | Sources/SectionedSequences/ChunkedCollection.swift:119-120 | `q + r.signum()` of a truncated division: for `n >= 0` it is the ceiling `c` with `(c - 1) * span < n <= c * span`, and it is 0 exactly when `n` is 0 |
| `Arith.TruncatedDivision` | Sources/SectionedSequences/ChunkedCollection.swift:151 | Swift's quotient and remainder: `a == b * q + r`, the remainder takes the sign of the dividend, and both are odd in the dividend |
| `Arith.QuotientRoundedOutOdd` | Sources/SectionedSequences/ChunkedCollection.swift:151-152 | the group count of a negated distance is the negated group count |
| `Arith.OffsetOrLimit` | Sources/SectionedSequences/ChunkedCollection.swift:164 | `index(i, offsetBy: k, limitedBy: limit) ?? limit` is `min(i + k, limit)` going forward and `max(i + k, limit)` going backward |
| `Partitions.Partition` | Sources/SectionedSequences/ChunkedCollection.swift:22-23 | each group holds 1 to `span` elements, and every group but the last holds exactly `span` |
| `Partitions.PartitionFlattens` | Sources/SectionedSequences/ChunkedCollection.swift:28 | the groups concatenate, in order, back to the input: nothing is lost, duplicated or reordered |
| `Partitions.PartitionCountBounds` | Sources/SectionedSequences/ChunkedCollection.swift:36 | there are `ceil(len / span)` groups |
| `Partitions.PartitionCount` | Sources/SectionedSequences/ChunkedCollection.swift:118-121 | the number of groups equals the source's `q + r.signum()` formula applied to the element count |
| `Partitions.PartitionAt` | Sources/SectionedSequences/ChunkedCollection.swift:45 | group `k` is `s[k * span ..< min(k * span + span, len)]` |
| `Partitions.LastGroupLength` | Sources/SectionedSequences/DisjointedCollectionSequence.swift:56-60 | an empty input has no groups; otherwise the last group holds `((len - 1) mod span) + 1` elements |
| `Partitions.ExactMultipleHasNoShortGroup` | Sources/SectionedSequences/ClusteringIterator.swift:52-61 | when `span` divides the length, every group holds exactly `span` elements |
| `Chunked.ChunkedCollection.constructor` | Sources/SectionedSequences/ChunkedCollection.swift:47-56 | requires `span > 0` and `0 <= targetStart <= targetEnd <= |base|`; stores base, span and `target == targetStart ..< targetEnd` |
| `Chunked.ChunkedCollection.Whole` | Sources/SectionedSequences/ChunkedCollection.swift:73-75 | targets the whole base, so the view's slices are `Partition(base, span)` |
| `Chunked.ChunkedCollection.Count` | Sources/SectionedSequences/ChunkedCollection.swift:150-153 | `count`, which is the distance from start to end, is the number of slices the view vends, and at most the element count |
| `Chunked.ChunkedCollection.Offset` | Sources/SectionedSequences/ChunkedCollection.swift:155-165 | `index(_:offsetBy:)` for a given straggler count: the result stays inside the target; forward it is `min(i + n * span, upper)`; backward from any index but the end it is `max(i + n * span, lower)` |
| `Chunked.ChunkedCollection.Index` | Sources/SectionedSequences/ChunkedCollection.swift:155-165 | `index(_:offsetBy:)` as written, with straggler `count % span`: it stays inside the target, and forward it is `min(i + n * span, upper)` |
| `Chunked.ChunkedCollection.IndexCorrected` | Sources/SectionedSequences/ChunkedCollection.swift:155-165 | the same, with the straggler taken as the element count modulo `span` (see Findings) |
| `Chunked.ChunkedCollection.IndexAfter` | Sources/SectionedSequences/ChunkedCollection.swift:146-148 | `index(after: i) == min(i + span, endIndex)`, so it moves forward strictly before the end and stays at the end index |
| `Chunked.ChunkedCollection.UnderestimatedCount` | Sources/SectionedSequences/ChunkedCollection.swift:110-112 | 0 when the target is empty and 1 otherwise, which is never above the slice count |
| `Chunked.ChunkedCollection.UnderestimatedCountRandomAccess` | Sources/SectionedSequences/ChunkedCollection.swift:118-121 | exactly the number of slices |
| `Chunked.ChunkedCollection.Next` | Sources/SectionedSequences/ChunkedCollection.swift:94-100 | nil exactly when the target is empty. Otherwise it returns `base[lo ..< min(lo + span, hi)]` and moves `target.lowerBound` there, leaving base, span and the upper bound alone. The returned slice is the first pending slice, and the pending slices lose exactly it |
| `Chunked.ChunkedCollection.Slice` | Sources/SectionedSequences/ChunkedCollection.swift:142-144 | `self[bounds]` is a new view with the same base and span and `target == bounds`, so `self[startIndex ..< endIndex]` has every observable property of `self` |
| `Chunked.ChunkedCollection.At` | Sources/SectionedSequences/ChunkedCollection.swift:137-140 | `self[position]` is `base[position ..< min(position + span, endIndex)]`; at a chunk-aligned position it is the slice with that chunk number |
| `Chunked.GroupAt` | Sources/SectionedSequences/ChunkedCollection.swift:45 | slice `k` of the view is `base[start + k * span ..< min(start + k * span + span, end)]` |
| `Chunked.GroupAtBoundary` | Sources/SectionedSequences/ChunkedCollection.swift:45 | a position at a multiple of `span` from the target start names slice `(position - start) / span` |
| `Chunked.CountDecomposition` | Sources/SectionedSequences/ChunkedCollection.swift:119 | the target length is `count * span` when the remainder is 0, and `(count - 1) * span + remainder` otherwise |
| `Chunked.IndexCorrectedOnGrid` | Sources/SectionedSequences/ChunkedCollection.swift:155-165 | from chunk boundary `k`, the corrected index moved by `n` is boundary `clamp(k + n, 0, count)`, including the step back from the end over a short slice |
| `Chunked.ForwardOnGrid` | Sources/SectionedSequences/ChunkedCollection.swift:163-164 | a forward move from boundary `k` lands on boundary `min(k + n, count)` |
| `Chunked.BackwardOnGrid` | Sources/SectionedSequences/ChunkedCollection.swift:163-164 | a backward move from a boundary before the end lands on boundary `max(k + n, 0)` |
| `Chunked.BackwardFromEnd` | Sources/SectionedSequences/ChunkedCollection.swift:156-162 | for the corrected index (`IndexCorrected`), not the code as written: a backward move from the end index first steps back over the straggler slice and lands on boundary `max(count + n, 0)`. For the code as written it fails: with 7 elements and span 3, `index(7, -1) == 4`, not boundary 2 at 6 (see Findings) |
| `Chunked.IndexAgreement` | Sources/SectionedSequences/ChunkedCollection.swift:156-157 | the written and the corrected index agree on every move except possibly a backward one from the end when `count % span` differs from the element count modulo `span` |
| `Chunked.IndexOnGrid` | Sources/SectionedSequences/ChunkedCollection.swift:155-165 | assume the slice count and the element count leave the same remainder by `span`. Then the index as written moves exactly `n` slices between boundaries, clamped at both ends |
| `Chunked.StragglerCounterexample` | Sources/SectionedSequences/ChunkedCollection.swift:157 | with 7 elements and span 3 there are 3 slices, and the last starts at 6. The index as written steps back from the end to 4; the corrected one steps back to 6 |
| `Chunked.IndexRoundTrip` | Sources/SectionedSequences/ChunkedCollection.swift:155-165 | for the corrected index (`IndexCorrected`), not the code as written: `IndexCorrected(IndexCorrected(b, n), -n) == b` for every boundary `b` and every `n` that stays within bounds. For the code as written it fails: with 7 elements and span 3, `index(6, 1) == 7` but `index(7, -1) == 4` (see Findings) |
| `Chunked.DistanceAntisymmetric` | Sources/SectionedSequences/ChunkedCollection.swift:150-153 | `distance(a, a) == 0` and `distance(b, a) == -distance(a, b)` |
| `Chunked.DistanceOnGrid` | Sources/SectionedSequences/ChunkedCollection.swift:150-153 | the distance between boundaries `j` and `k` is `k - j` |
| `Chunked.ForwardDistanceOnGrid` | Sources/SectionedSequences/ChunkedCollection.swift:151-152 | the distance from boundary `j` forward to boundary `k` is `k - j` |
| `Chunked.CountBetweenBoundaries` | Sources/SectionedSequences/ChunkedCollection.swift:151-152 | the rounded-out quotient of the base distance between two boundaries is the number of slices between them |
| `Chunked.DistanceOfIndex` | Sources/SectionedSequences/ChunkedCollection.swift:150-165 | for the corrected index (`IndexCorrected`), not the code as written: `distance(b, IndexCorrected(b, n)) == n` for every boundary `b` and every in-bounds `n`, so distance undoes offsetting |
| `Chunked.ViewEndpoints` | Sources/SectionedSequences/ChunkedCollection.swift:129-135 | the start index is boundary 0 and the end index is boundary `count`; `index(after: endIndex) == endIndex`; `distance(startIndex, endIndex)` is the slice count |
| `Chunked.GroupsReconstructWrappedElements` | Sources/SectionedSequences/ChunkedCollection.swift:84-86 | the vended slices concatenate to `wrappedElements`, and all but the last hold `span` elements |
| `Chunked.FiveBySpanTwo` | Tests/SectionedSequencesTests/ChunkedCollectionTests.swift:104-205 | for `[1, 2, 3, 4, 5]` with span 2 the slices are `[1, 2]`, `[3, 4]`, `[5]`, the count is 3, and the distance from the first slice to the last is 2. `index(end, -1) == 4` and `index(end, -3) == start` |
| `Disjointed.DisjointedCollectionIterator.constructor` | Sources/SectionedSequences/DisjointedCollectionSequence.swift:41-47 | requires `span > 0`, stores base and span, and starts at index 0, so the pending slices are `Partition(base, span)` |
| `Disjointed.DisjointedCollectionIterator.Next` | Sources/SectionedSequences/DisjointedCollectionSequence.swift:55-61 | nil exactly when `start == endIndex`, and then nothing changes, so exhaustion is sticky. Otherwise it returns `base[start ..< min(start + span, end)]` and moves `start` there, so `start` only grows. The slice holds 1 to `span` elements, and a short one is the last |
| `Disjointed.Disjoint` | Sources/SectionedSequences/DisjointedCollectionSequence.swift:78-80 | draining the iterator gives `Partition(base, span)`: the slices concatenate to `base` in order, and there are `ceil(len / span)` of them |
| `Disjointed.DisjointedCollectionSequence.MakeIterator` | Sources/SectionedSequences/DisjointedCollectionSequence.swift:120-122 | a fresh iterator at index 0 over the same base and span, so every traversal vends every slice |
| `Disjointed.DisjointedCollectionSequence.UnderestimatedCount` | Sources/SectionedSequences/DisjointedCollectionSequence.swift:128-130 | 0 for an empty base and 1 otherwise, which is never above the slice count |
| `Disjointed.DisjointedCollectionSequence.UnderestimatedCountRandomAccess` | Sources/SectionedSequences/DisjointedCollectionSequence.swift:136-139 | exactly the slice count |
| `Disjointed.OneThroughEightBySpanThree` | Tests/SectionedSequencesTests/DisjointedCollectionSequenceTests.swift:54-61 | `1...8` with span 3 gives `[1, 2, 3]`, `[4, 5, 6]`, `[7, 8]` |
| `Clustering.ClusteringIterator.constructor` | Sources/SectionedSequences/ClusteringIterator.swift:36-41 | requires `span > 0`; `elements` is a copy of the given iterator's state, and span is stored |
| `Clustering.ClusteringIterator.Next` | Sources/SectionedSequences/ClusteringIterator.swift:49-61 | it pulls at most `span` elements, in order, and returns them. It returns nil exactly when the first pull yields nothing, and never an empty array. A short array means the source ran dry. The array is the first pending group, and the pending groups lose exactly it |
| `Clustering.Clustered` | Sources/SectionedSequences/ClusteringSequence.swift:81-83 | draining the iterator gives `Partition(base, span)`: the arrays concatenate to `base`, and all but the last hold `span` elements |
| `Clustering.ClusteringSequence.MakeIterator` | Sources/SectionedSequences/ClusteringSequence.swift:123-125 | it wraps a fresh iterator of `base` at its start, so every traversal vends all of `Partition(base, span)` |
| `Clustering.ClusteringSequence.UnderestimatedCount` | Sources/SectionedSequences/ClusteringSequence.swift:131-134 | the ceiling of the base's own underestimate divided by `span`. It never exceeds the number of arrays vended, and it is exact when the base's estimate is exact |
| `Clustering.ClusteringSequence.UnderestimatedCountRandomAccess` | Sources/SectionedSequences/ClusteringSequence.swift:140-143 | exactly the number of arrays; 0 only for an empty base |
| `Clustering.QuotientRoundedOutMono` | Sources/SectionedSequences/ClusteringSequence.swift:131-134 | a smaller element estimate never gives more groups |
| `Clustering.ClusteringScenarios` | Tests/SectionedSequencesTests/ClusteringIteratorTests.swift:44-64 | `1...5` with span 2 gives `[[1, 2], [3, 4], [5]]`; `1...20` with span 5 gives four arrays of 5 |

## Left out

- Swift's protocol conformances (`IteratorProtocol`, `Sequence`, `Collection`, `LazySequenceProtocol`, `LazyCollectionProtocol`) are left out. So are the one-line `lazy.chunked`, `lazy.disjoint` and `lazy.clustered` factories, which only call an initializer that is modelled.
- Generic `Index`, `IndexDistance` and `numericCast` are left out. So are bases that are not random-access, such as `Dictionary`, whose order depends on hashing. Every base is a `seq<T>` with integer indices.
- The wrapped iterator of a clustering iterator is always an iterator over a finite sequence (`SequenceIterator`). Iterators over infinite or one-pass sources are not modelled.
- Slices are `seq` values. The view-versus-copy distinction of `SubSequence` is not captured, and neither is `reserveCapacity`, which only hints at an allocation.
- Swift structs are values. The iterators and the chunked view are modelled as objects. The constructors copy what they store, for example `ClusteringIterator` copies the wrapped iterator's state. Aliasing between two Dafny references to one object has no Swift counterpart.
- `ClusteringIterator` is declared twice, in Sources/SectionedSequences/ClusteringIterator.swift:16-63 (field `elements`) and Sources/SectionedSequences/ClusteringSequence.swift:18-64 (field `base`), with the same `next()`. It is modelled once, with the field `elements`. The redeclaration conflict itself is not modelled.
- `Chunked.ChunkedCollection.Index`: the "steps back onto the short last slice" property is proved only when `count % span` equals the element count modulo `span` (`Chunked.IndexOnGrid`). In general it is false; see Findings.
- `Disjointed.DisjointedCollectionSequence` and `Clustering.ClusteringSequence` can be built with `span <= 0`, whereas the Swift initializers trap (Sources/SectionedSequences/DisjointedCollectionSequence.swift:108, Sources/SectionedSequences/ClusteringSequence.swift:111). Every member of such a value requires `Valid()` (`span > 0`), so the trap itself is not modelled; only a value that the Swift init would accept can be used.
- Integers are unbounded. The overflow traps of Swift's `Int` arithmetic in `n * span` and `start + span` are not modelled.
- The precondition checks that trap at run time are `requires` clauses. Runtime failure is not modelled.

## Findings

| source | as written | input that shows it | evidently intended | confidence | as-written member | corrected member |
|---|---|---|---|---|---|---|
| Sources/SectionedSequences/ChunkedCollection.swift:157 | the straggler count is `count % span`, and `count` is the number of slices (the chunk distance from start to end) | 7 elements, span 3: 3 slices and `3 % 3 == 0`, so `index(endIndex, offsetBy: -1)` is 4. `self[4]` would then be `[5, 6, 7]`, which is not a slice | the straggler is the element count modulo `span` (here 1), so one step back lands on 6, where the last slice `[7]` starts | not executed; shown by proof | `Chunked.ChunkedCollection.Index` (counterexample `Chunked.StragglerCounterexample`) | `Chunked.ChunkedCollection.IndexCorrected` (proved by `Chunked.IndexCorrectedOnGrid`, `Chunked.IndexRoundTrip`, `Chunked.DistanceOfIndex`) |
