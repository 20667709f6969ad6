# Lazy combinatorial iterators of itertools, modelled in Dafny

This project models the combinatorial iterator adaptors of the Rust
`itertools` crate. Each one is a small state machine over an index
tuple, and most of them draw their items lazily from a buffer over the
source iterator:

- `CombinationsBase` enumerates the strictly increasing `k`-tuples of
  buffer positions in lexicographic order.
- `CombinationsWithReplacementBase` enumerates the non-decreasing
  `k`-tuples, that is, multisets of positions.
- `PowersetBase` enumerates every subset, shortest first. It works by
  driving one `CombinationsBase` and bumping its size with `reset`.
- `MultiProductBase` computes the n-ary cartesian product. Its lanes
  are advanced like an odometer by `iterate_last`.
- `AccumulateFrom` is a prefix scan: it yields `init`, then each
  successive folded value.
- The `VecItems` strategies (`CollectToVec` and `MapSlice`) turn the
  selected window of items into the value that is yielded.

The model's sources are finite sequences. A buffer or iterator is the
source plus a count of items already drawn. A lane's "clone for replay"
is the same sequence read again from position 0.

Each generator's `next` is proved against a pure specification:
- the successor function on index tuples, in `Combinations`,
  `CombinationsWithReplacement` and `Powerset`;
- the odometer increment on digit vectors, and the nested-loop product
  it indexes, in `Odometer` and `MultiProduct`;
- the left fold and the scan, in `Accumulate`.

The lemmas about these specifications state what the enumeration
promises:
- each step moves to the immediate successor in the order;
- the first output is the least element, and `None` comes exactly after
  the greatest;
- from these per-call facts a reader can infer that no element is
  skipped or repeated; no lemma states that over the whole output;
- reading the buffer lazily is invisible;
- `count` and `last` relate to the tuples `next` still yields.

Modules:

| file | module | models |
|---|---|---|
| `wrappers.dfy` | `Wrappers` | `Option` |
| `index_tuples.dfy` | `IndexTuples` | ascending and constant index tuples, lexicographic order |
| `lazy_buffer.dfy` | `LazyBuffers` | the lazy buffer, modelled from its call sites |
| `vec_items.dfy` | `VecItems` | `CollectToVec`, `MapSlice` |
| `combinations.dfy` | `Combinations` | `src/combinations.rs` |
| `combinations_with_replacement.dfy` | `CombinationsWithReplacement` | `src/combinations_with_replacement.rs` |
| `powerset.dfy` | `Powerset` | `src/powerset.rs` |
| `odometer.dfy` | `Odometer` | mixed-radix ranks, the odometer step, the nested-loop product |
| `multi_product.dfy` | `MultiProduct` | `src/adaptors/multi_product.rs` |
| `accumulate.dfy` | `Accumulate` | `src/accumulate.rs` |

Where the code does something one might not expect, the model follows the code:
- `combinations_with_replacement` with `k = 0` yields exactly one empty
  tuple, then `None`. The `indices.is_empty() ||` test lets the first
  call through to the yield (`src/combinations_with_replacement.rs:90-97`).
- `multi_cartesian_product` over no lanes at all yields nothing.
  Arithmetically, though, the product of no lengths is 1.
- `multi_cartesian_product` is not fused. After the last tuple every
  lane is idle, so the next call starts over from the first tuple
  (`NextSpec`, `AllIdle` case).

## Model

| member | source | states |
|---|---|---|
| `LazyBuffers.LazyBuffer.constructor` | src/combinations.rs:43 | a new buffer over a source has pulled nothing |
| `LazyBuffers.LazyBuffer.Prefill` | src/combinations.rs:44 | `prefill(k)` pulls until `k` items are buffered or the source is used up; a buffer already holding `k` is unchanged |
| `LazyBuffers.LazyBuffer.GetNext` | src/combinations.rs:125-127 | `get_next` pulls exactly one item and reports true iff the source still had one |
| `LazyBuffers.LazyBuffer.Get` | src/combinations.rs:147 | the indexed read below `len` is the buffered item at that position |
| `VecItems.Pick` | src/combinations.rs:146-147 | the window holds, at each position, the buffered item the index selects, in index order |
| `VecItems.PickPrefix` | src/combinations.rs:146-147 | reading a window through the buffered prefix reads the source itself |
| `VecItems.CollectToVec` | src/vec_items.rs:20-25 | `CollectToVec::new_item` returns the window's items, same length, same order |
| `VecItems.MapSlice.WithCapacity` | src/vec_items.rs:14-17 | `with_capacity` keeps `func` and starts with an empty scratch vector |
| `VecItems.MapSlice.NewItem` | src/vec_items.rs:33-40 | requires an empty scratch vector; `func` sees exactly the window; the result is `func`'s value; the scratch vector is empty again |
| `IndexTuples.Ascending` | src/combinations.rs:48 | `(0..k).collect()` shape: length `len`, element `i` is `start + i` |
| `IndexTuples.Repeat` | src/combinations_with_replacement.rs:51 | `vec![0; k]` shape: length `len`, every element `v` |
| `IndexTuples.LexLessIrreflexive` | src/combinations.rs:112-148 | the lexicographic order used for the enumerations is strict |
| `IndexTuples.LexLessTransitive` | src/combinations.rs:112-148 | the lexicographic order is transitive |
| `IndexTuples.LexTotal` | src/combinations.rs:112-148 | any two tuples of one length are equal or ordered |
| `IndexTuples.FirstDifference` | src/combinations.rs:112-148 | distinct tuples of one length have a first differing position |
| `IndexTuples.PointwiseLexLe` | src/combinations.rs:138-142 | a tuple agreeing up to `s` and pointwise no larger after is lexicographically no larger |
| `Combinations.Pivot` | src/combinations.rs:129-136 | the right-to-left scan finds the rightmost position below its maximum `i + n - k`, every position to its right being at its maximum; `None` when all are |
| `Combinations.Raise` | src/combinations.rs:138-142 | the raised tuple keeps the length |
| `Combinations.Successor` | src/combinations.rs:121-142 | the index update of a non-first `next`: `Raise` at the pivot, `None` without one; its meaning is proved by `SuccessorIsCombination`, `SuccessorIsNext` and `SuccessorNoneIsLast` |
| `Combinations.Spread` | src/combinations.rs:129 | indices of a combination grow by at least one per position |
| `Combinations.Bounded` | src/combinations.rs:129 | index `p` of a combination is at most `p + n - k`, so `i + n - k` never underflows |
| `Combinations.CombinationFits` | src/combinations.rs:113-117 | a `k`-combination over `n` items exists only when `k <= n` |
| `Combinations.FirstIsCombination` | src/combinations.rs:113-117 | the first tuple `[0..k)` is a combination iff `k <= n`, which is when the first `next` yields |
| `Combinations.FirstIsLeast` | src/combinations.rs:48 | the first tuple is the least `k`-combination |
| `Combinations.SuccessorIsCombination` | src/combinations.rs:121-142 | the successor is again a combination (strictly increasing, below `n`) and lexicographically larger |
| `Combinations.SuccessorIsNext` | src/combinations.rs:121-142 | no combination lies strictly between a combination and its successor, and one exists whenever a larger combination does |
| `Combinations.SuccessorNoneIsLast` | src/combinations.rs:129-136 | the scan finds no pivot exactly at the last combination `[n-k..n)` |
| `Combinations.LazySuccessor` | src/combinations.rs:124-127 | after the conditional pull, the successor over the buffer is the successor over the whole source |
| `Combinations.CombinationsBase.constructor` | src/combinations.rs:40-52 | `indices` is `[0..k)`, `first` is set, the pool is prefilled to `min(k, len)` |
| `Combinations.CombinationsBase.K` | src/combinations.rs:72 | `k()` is the length of the index tuple |
| `Combinations.CombinationsBase.N` | src/combinations.rs:77 | `n()` is the number of buffered items |
| `Combinations.CombinationsBase.Window` | src/combinations.rs:146-147 | the window `next` hands to the manager: one item per index, each read through the pool's indexed read |
| `Combinations.CombinationsBase.Reset` | src/combinations.rs:87-103 | `first` is set, `k() == k` and `indices == [0..k)`; the pool is prefilled to `k` only when `k` does not shrink |
| `Combinations.CombinationsBase.Refill` | src/combinations.rs:124-127 | at most one item is pulled, and only when the last index sits on the last buffered position; afterwards the successor over the buffer is the one over the source |
| `Combinations.CombinationsBase.FindPivot` | src/combinations.rs:122-136 | the `while` scan returns `Pivot` of the indices |
| `Combinations.CombinationsBase.RaiseFrom` | src/combinations.rs:138-142 | the pivot is incremented and every index to its right follows it consecutively |
| `Combinations.CombinationsBase.Advance` | src/combinations.rs:121-142 | a non-first step moves the indices to the successor over the whole source, or finds none with the source used up |
| `Combinations.CombinationsBase.Next` | src/combinations.rs:112-155 | `None` exactly when exhausted, and then ever after (fused); the first call yields `[0..k)` iff `k <= n`, with `k = 0` yielding one empty tuple; later calls yield the successor's window; at most one item is pulled |
| `Combinations.CombinationsBase.NextMap` | src/combinations.rs:112-148 | `next` of `combinations_map`: the same transition as `Next` (first call, successor step, fusing, at most one pull), with the mapping function seeing the selected window and the scratch vector empty again |
| `CombinationsWithReplacement.RaisePoint` | src/combinations_with_replacement.rs:105-111 | the reverse scan finds the rightmost index `< len - 1`, all to its right being on the last position; `None` when all are |
| `CombinationsWithReplacement.Successor` | src/combinations_with_replacement.rs:104-126 | the index update of a non-first `next`: fill from the raise point with its index plus one, `None` without one; its meaning is proved by `SuccessorIsMulticombination`, `SuccessorIsNext` and `SuccessorNoneIsLast` |
| `CombinationsWithReplacement.FirstIsMulticombination` | src/combinations_with_replacement.rs:88-97 | the all-zero tuple is a multiset over `n` items iff `k == 0` or `n >= 1` |
| `CombinationsWithReplacement.FirstIsLeast` | src/combinations_with_replacement.rs:51 | the all-zero tuple is the least `k`-multiset |
| `CombinationsWithReplacement.SuccessorIsMulticombination` | src/combinations_with_replacement.rs:104-123 | the successor is non-decreasing, below `n`, and lexicographically larger |
| `CombinationsWithReplacement.SuccessorIsNext` | src/combinations_with_replacement.rs:104-123 | no multiset lies strictly between a multiset and its successor, and one exists whenever a larger multiset does |
| `CombinationsWithReplacement.SuccessorNoneIsLast` | src/combinations_with_replacement.rs:113-126 | no successor exactly when every index is on the last position |
| `CombinationsWithReplacement.LazySuccessor` | src/combinations_with_replacement.rs:100-102 | after the pull, the successor over the buffer is the successor over the whole source |
| `CombinationsWithReplacement.CombinationsWithReplacementBase.constructor` | src/combinations_with_replacement.rs:46-60 | `k` zeros, nothing pulled, `first` set |
| `CombinationsWithReplacement.CombinationsWithReplacementBase.K` | src/combinations_with_replacement.rs:118 | the length of the index tuple, `self.indices.len()` |
| `CombinationsWithReplacement.CombinationsWithReplacementBase.Window` | src/combinations_with_replacement.rs:121-122 | the window `next` hands to the manager: one item per index, each read through the pool's indexed read |
| `CombinationsWithReplacement.CombinationsWithReplacementBase.FindIncrement` | src/combinations_with_replacement.rs:105-111 | the reverse `for` loop returns the raise point and its index plus one |
| `CombinationsWithReplacement.CombinationsWithReplacementBase.FillFrom` | src/combinations_with_replacement.rs:118-120 | the suffix from `from` is overwritten with `value`, the prefix kept |
| `CombinationsWithReplacement.CombinationsWithReplacementBase.Advance` | src/combinations_with_replacement.rs:100-126 | a non-first step pulls one item if any is left and moves to the successor over the whole source, or finds none |
| `CombinationsWithReplacement.CombinationsWithReplacementBase.Next` | src/combinations_with_replacement.rs:86-135 | `None` exactly when exhausted, and then ever after; with `k = 0` one empty tuple without pulling; with `k > 0` the first call yields iff the source is non-empty; later calls yield the successor's window |
| `CombinationsWithReplacement.CombinationsWithReplacementBase.NextMap` | src/combinations_with_replacement.rs:86-127 | `next` of `combinations_with_replacement_map`: the same transition as `Next`, with the mapping function seeing the selected window and the scratch vector empty again |
| `Powerset.SaturatingInc` | src/powerset.rs:72 | `saturating_add(1)` at `usize::MAX` stays there, below it adds one |
| `Powerset.NextSubset` | src/powerset.rs:70-85 | the subset after `t`: the next combination of the same size, else the first one size larger, else `None`; its meaning is proved by `NextSubsetIsNext` and `NextSubsetNoneIsLast` |
| `Powerset.EmptyIsLeast` | src/powerset.rs:71-73 | the empty subset, yielded first, precedes every subset |
| `Powerset.NextSubsetIsNext` | src/powerset.rs:70-85 | the next subset is a subset above the current one with none strictly between (shorter first, lexicographic within a size) |
| `Powerset.NextSubsetNoneIsLast` | src/powerset.rs:74-84 | the enumeration ends exactly after the full set |
| `Powerset.PowersetBase.constructor` | src/powerset.rs:41-49 | wraps `combinations(src, 0)` with `pos == 0`, nothing yielded |
| `Powerset.PowersetBase.Next` | src/powerset.rs:70-85 | the first call yields the empty subset; later calls yield the next subset's window, resetting the inner combinations to `k + 1` when a size is used up; `None` exactly when finished and then ever after; `pos` grows by one (saturating) per yield only |
| `Powerset.PowersetBase.NextMap` | src/powerset.rs:70-85 | `next` of `powerset_map`: the same transition as `Next` (empty subset first, then `NextSubset`, `None` exactly when finished, `pos` saturating), with the mapping function seeing the subset's window |
| `Odometer.Increment` | src/adaptors/multi_product.rs:111-125 | the odometer step keeps the digit count |
| `Odometer.ProdPositive` | src/adaptors/multi_product.rs:117-122 | the product of the lane lengths is positive iff no lane is empty |
| `Odometer.RankBelowProd` | src/adaptors/multi_product.rs:95-134 | a digit vector in range ranks below the number of tuples |
| `Odometer.ZerosRankZero` | src/adaptors/multi_product.rs:95-134 | the all-zero vector is the first, of rank 0 |
| `Odometer.IncrementNoCarry` | src/adaptors/multi_product.rs:111-116 | when the last lane steps without running dry the rank grows by one |
| `Odometer.IncrementCarry` | src/adaptors/multi_product.rs:117-125 | when the last lane runs dry, the carry moves left and the rank grows by one unless this was the last vector |
| `Odometer.IncrementRank` | src/adaptors/multi_product.rs:95-134 | the step succeeds iff a next rank exists, and then lands in range at rank plus one |
| `Odometer.Lens` | src/adaptors/multi_product.rs:203-205 | the radices are the lane lengths |
| `Odometer.Extend` | src/adaptors/multi_product.rs:95-134 | the inner loop yields `|ts| * |xs|` tuples |
| `Odometer.TupleAt` | src/adaptors/multi_product.rs:189-191 | the tuple picks item `d[i]` of lane `i` |
| `Odometer.ExtendAt` | src/adaptors/multi_product.rs:95-134 | inner-loop tuple `a * |xs| + b` is outer tuple `a` extended by item `b` |
| `Odometer.ProductSize` | src/adaptors/multi_product.rs:202-205 | the nested-loop product holds the product of the lane lengths |
| `Odometer.ProductAt` | src/adaptors/multi_product.rs:95-134 | the nested-loop tuple at `Rank(d)` is the tuple `d` picks: odometer order is nested-loop order |
| `Odometer.ProductAtLast` | src/adaptors/multi_product.rs:95-134 | the inductive step of `ProductAt`, extending by the innermost lane |
| `MultiProduct.Lane.Iterate` | src/adaptors/multi_product.rs:160-162 | `iterate` draws the next remaining item into `cur`, or `None` when the iterator is used up |
| `MultiProduct.Lane.Reset` | src/adaptors/multi_product.rs:165-167 | `reset` restarts the iterator from the copy and keeps `cur` |
| `MultiProduct.Lane.InProgress` | src/adaptors/multi_product.rs:171-173 | a lane is in progress iff `cur` holds an item |
| `MultiProduct.Lane.RemainingCount` | src/adaptors/multi_product.rs:212 | `iter.count()` is how many items the iterator still holds |
| `MultiProduct.Lane.RemainingLast` | src/adaptors/multi_product.rs:244 | `iter.last()` is `Some` iff the iterator holds an item, and then the sequence's last item |
| `MultiProduct.NewLane` | src/adaptors/multi_product.rs:151-157 | `new`: nothing drawn, the whole sequence remaining |
| `MultiProduct.LaneAt` | src/adaptors/multi_product.rs:160-162 | a lane that has drawn item `k` holds it and has `k + 1` items used |
| `MultiProduct.IterateLast` | src/adaptors/multi_product.rs:95-134 | `iterate_last` keeps the number of lanes and each lane's sequence |
| `MultiProduct.IterateLastMut` | src/adaptors/multi_product.rs:95-134 | the recursive walk over the mutable slice computes `IterateLast` |
| `MultiProduct.InProgressOf` | src/adaptors/multi_product.rs:138-144 | the product is in progress iff there is a lane and the rightmost one is in progress |
| `MultiProduct.Origs` | src/adaptors/multi_product.rs:77 | the lanes' replay copies |
| `MultiProduct.Digits` | src/adaptors/multi_product.rs:75-76 | each lane's current item index |
| `MultiProduct.LanesAt` | src/adaptors/multi_product.rs:71-78 | lanes standing at a digit vector |
| `MultiProduct.Drained` | src/adaptors/multi_product.rs:111-125 | the lanes after the last tuple: idle, every iterator used up |
| `MultiProduct.Current` | src/adaptors/multi_product.rs:189-191 | the yielded tuple has one item per lane, lane `i`'s `cur` |
| `MultiProduct.BusyLanesAtDigits` | src/adaptors/multi_product.rs:71-78 | busy lanes are the lanes at their digits, which are in range |
| `MultiProduct.LanesAtSnoc` | src/adaptors/multi_product.rs:101 | `split_last_mut` on lanes at a digit vector |
| `MultiProduct.DrainedSnoc` | src/adaptors/multi_product.rs:101 | `split_last_mut` on drained lanes |
| `MultiProduct.PrefixShapes` | src/adaptors/multi_product.rs:101 | digits, copies and lengths of the rest are those of the whole, minus the last |
| `MultiProduct.CarryStep` | src/adaptors/multi_product.rs:111-125 | with every lane busy, `iterate_last` is the odometer increment of the digits, and drains every lane past the last vector |
| `MultiProduct.CarryNoWrap` | src/adaptors/multi_product.rs:111-116 | the rightmost lane steps to its next item |
| `MultiProduct.CarryWrap` | src/adaptors/multi_product.rs:117-125 | the rightmost lane runs dry: the rest advance, then it restarts |
| `MultiProduct.FirstEmpty` | src/adaptors/multi_product.rs:120-122 | the first lane from `p` with an empty sequence, every lane before it non-empty |
| `MultiProduct.RestartStep` | src/adaptors/multi_product.rs:101-133 | on first touch the idle lanes restart from the left up to the first empty one, and the call succeeds iff there is none |
| `MultiProduct.FirstIdle` | src/adaptors/multi_product.rs:138-144 | the first lane from `q` holding no item |
| `MultiProduct.StartIsMid` | src/adaptors/multi_product.rs:102-109 | the start state is decided by the rightmost lane's `in_progress` |
| `MultiProduct.LanesAtValid` | src/adaptors/multi_product.rs:71-78 | lanes at an in-range digit vector are busy, valid and at those digits |
| `MultiProduct.DrainedValid` | src/adaptors/multi_product.rs:111-125 | drained lanes are idle and valid |
| `MultiProduct.NextFromBusy` | src/adaptors/multi_product.rs:183-195 | mid-iteration, `next` succeeds iff a next rank exists and moves to it; otherwise every lane is drained |
| `MultiProduct.StoppedAtEmpty` | src/adaptors/multi_product.rs:117-125 | a busy prefix stopped by an idle empty lane is a reachable state |
| `MultiProduct.NextFromIdle` | src/adaptors/multi_product.rs:101-133 | with every lane idle, `next` restarts all lanes at digits 0, succeeding iff there is a lane and none is empty; on failure the product is not in progress |
| `MultiProduct.RestartedLanes` | src/adaptors/multi_product.rs:117-122 | the lanes left by a restart are valid, at digits 0 when none was empty, and not in progress otherwise |
| `MultiProduct.NextFromBlocked` | src/adaptors/multi_product.rs:117-125 | stopped at an empty lane, `next` fails again, stays reachable and not in progress |
| `MultiProduct.EmptyLaneNeverYields` | src/adaptors/multi_product.rs:117-122 | if some lane's sequence is empty, no call of `next` yields |
| `MultiProduct.Fresh` | src/adaptors/multi_product.rs:43-53 | `multi_cartesian_product` makes one fresh lane per sequence |
| `MultiProduct.FreshValid` | src/adaptors/multi_product.rs:43-53 | fresh lanes are idle and reachable |
| `MultiProduct.NextYieldsProduct` | src/adaptors/multi_product.rs:189-191 | the tuple yielded is the nested-loop product's tuple at the lanes' rank |
| `MultiProduct.MixedPlusRank` | src/adaptors/multi_product.rs:208-215 | the mid-iteration fold `acc * len(orig) + len(remaining)` plus the rank plus one is the product size |
| `MultiProduct.CountBusy` | src/adaptors/multi_product.rs:197-216 | mid-iteration, `count` is the number of tuples after the current one |
| `MultiProduct.RemainingProductFresh` | src/adaptors/multi_product.rs:202-205 | on fresh lanes the product fold is the product of the lane lengths |
| `MultiProduct.CountFresh` | src/adaptors/multi_product.rs:197-205 | before the first `next`, `count` is the size of the whole product |
| `MultiProduct.RemainingProductZero` | src/adaptors/multi_product.rs:203-205 | one used-up iterator makes the product fold 0 |
| `MultiProduct.BusyNonEmpty` | src/adaptors/multi_product.rs:138-144 | mid-iteration no lane's sequence is empty |
| `MultiProduct.CountEmptyLane` | src/adaptors/multi_product.rs:197-216 | with an empty lane `count` is 0, as many as `next` yields |
| `MultiProduct.RemainingProduct` | src/adaptors/multi_product.rs:202-205 | the fold `acc * iter.count()` from 1, used when not in progress; `RemainingProductFresh` and `RemainingProductZero` give its value |
| `MultiProduct.RemainingMixed` | src/adaptors/multi_product.rs:208-215 | the fold `acc * len(orig) + len(remaining)` from 0, used mid-iteration; `MixedPlusRank` gives its value |
| `MultiProduct.CountOf` | src/adaptors/multi_product.rs:197-216 | `count`: 0 with no lanes, the product fold when not in progress, the mixed fold otherwise; `CountBusy`, `CountFresh`, `CountEmptyLane` and `CountStep` give its meaning |
| `MultiProduct.CountStep` | src/adaptors/multi_product.rs:183-216 | before the first `next` and mid-iteration, `next` succeeds iff `count` is positive, and each success lowers `count` by one: `count` is the number of tuples still to come |
| `MultiProduct.LastsWhileSome` | src/adaptors/multi_product.rs:243-246 | `while_some` collects the lanes' last items up to the first used-up iterator |
| `MultiProduct.LastAsWritten` | src/adaptors/multi_product.rs:240-253 | `last` as written: `Some` iff every remaining iterator holds an item, with each sequence's last item |
| `MultiProduct.LastAsWrittenMissesRemaining` | src/adaptors/multi_product.rs:240-253 | over `[[1, 2], [3, 4]]` after two tuples, `count` is 2 and `next` still yields, yet `last` as written is `None` |
| `MultiProduct.LastAsWrittenOfNoLanes` | src/adaptors/multi_product.rs:240-253 | with no lanes, `next` yields nothing and `count` is 0, yet `last` as written is `Some([])` |
| `MultiProduct.LastRemaining` | src/adaptors/multi_product.rs:240-253 | `last` as intended returns, if anything, each sequence's last item |
| `MultiProduct.LastTuple` | src/adaptors/multi_product.rs:243-246 | every sequence's last item |
| `MultiProduct.RankOfLast` | src/adaptors/multi_product.rs:95-134 | the vector of last digits ranks last |
| `MultiProduct.LastOfProduct` | src/adaptors/multi_product.rs:240-253 | the nested-loop product's last tuple picks every sequence's last item |
| `MultiProduct.LastRemainingBusy` | src/adaptors/multi_product.rs:240-253 | mid-iteration, `last` as intended is `Some` iff a tuple remains, and then is the product's last tuple |
| `MultiProduct.LastRemainingFresh` | src/adaptors/multi_product.rs:240-253 | before the first `next`, `last` as intended is the product's last tuple, if the product has one |
| `MultiProduct.LastRemainingAgreesWithNext` | src/adaptors/multi_product.rs:240-253 | before the first `next` and mid-iteration, with no lanes too, `last` as intended is `Some` iff `next` would still yield |
| `MultiProduct.NextSpec` | src/adaptors/multi_product.rs:95-144 | from every reachable state `next` keeps the state reachable; a yielded tuple is the product's tuple at the new rank; mid-iteration the rank grows by one until the last tuple, then the lanes drain; from idle lanes the first tuple follows; after a failure it is not in progress |
| `MultiProduct.MultiProductBase.constructor` | src/adaptors/multi_product.rs:43-53 | a fresh lane per sequence, a reachable state |
| `MultiProduct.MultiProductBase.InProgress` | src/adaptors/multi_product.rs:138-144 | `in_progress` of the whole product, on the current lanes |
| `MultiProduct.MultiProductBase.Next` | src/adaptors/multi_product.rs:183-195 | `iters` becomes `iterate_last`'s lanes; `Some` iff it succeeds, holding each lane's item, the product's tuple at the new rank; mid-iteration the rank grows by one until the last tuple; from idle lanes rank 0; after `None` not in progress |
| `MultiProduct.MultiProductBase.NextMap` | src/adaptors/multi_product.rs:183-195 | `multi_cartesian_product_map`: the mapping function sees the current tuple, and the scratch vector is empty again |
| `MultiProduct.MultiProductBase.Count` | src/adaptors/multi_product.rs:197-216 | `count` on the current lanes, `CountOf`, whose meaning `CountStep` proves |
| `MultiProduct.MultiProductBase.Last` | src/adaptors/multi_product.rs:240-253 | `last` as intended on the current lanes, `LastRemaining`; the code as written is `LastAsWritten` (see Findings) |
| `Accumulate.AccumulateFrom.constructor` | src/accumulate.rs:5-19 | `accum` holds `init`, nothing pulled |
| `Accumulate.AccumulateFrom.Next` | src/accumulate.rs:43-52 | yields the previous state and folds the next item in; at the end of the source yields the final state and empties `accum`; then `None` ever after; value `j` is the fold of the first `j` items, `n + 1` values in all |
| `Accumulate.AccumulateFrom.SizeHint` | src/accumulate.rs:54-59 | `(0, Some(0))` when finished, otherwise the remaining source plus one, which is how many values are still to come |
| `Accumulate.FoldLeftSnoc` | src/accumulate.rs:47 | folding one more item applies `func` to the previous fold |
| `Accumulate.Scan` | src/accumulate.rs:43-52 | the values the adaptor yields over `n` items: `n + 1` of them, value `j` being the left fold of `func` over the first `j` items |
| `Accumulate.FoldLeft` | src/accumulate.rs:43-52 | the state after `j` items: `init` folded with `func` over them, left to right; `AccumulateFrom.Next` and `Scan` are stated against it |

## Left out

- `src/lazy_buffer.rs` is not part of this model. `LazyBuffer` is modelled from its call sites: a finite source, the prefix length, `prefill`, `get_next`, `len` and the indexed read.
- Infinite and unbounded sources: every source is a finite sequence, and a lane's clone is the same sequence re-read from position 0.
- `size_hint` of `MultiProductBase` (`src/adaptors/multi_product.rs:218-238`) and of `PowersetBase` (`src/powerset.rs:87-101`): they depend on the crate's `size_hint` arithmetic helpers, which are not part of this model.
- `src()` (`src/combinations.rs:81`): it only feeds powerset's `size_hint`.
- `Debug` and `Clone` implementations, and the formatting macros.
- `tests/specializations.rs`: a forwarding wrapper with no logic.
- Generic dispatch through `VecItems` and `FnMut`: the mapping and folding functions are pure Dafny functions. A closure's own mutable state is not modelled.
- `usize` overflow in `count`'s `*` and `+` folds: counts are unbounded `nat`. Only powerset's `pos`, which saturates explicitly in the code, is bounded by `usize::MAX`.
- `Combinations.CombinationsBase.Next`: the total C(n, k) of yielded combinations is not proved, nor is any lemma stated over the whole output trace. What is proved is per call: the first yield is the least combination (`FirstIsLeast`), each later one is the immediate successor (`SuccessorIsNext`), and `None` comes exactly after the last one (`SuccessorNoneIsLast`). That every combination therefore comes out exactly once, in order, is the reader's inference from these.
- `CombinationsWithReplacement.CombinationsWithReplacementBase.Next`: likewise for the total C(n + k - 1, k) of multisets; the per-call facts are `FirstIsLeast`, `SuccessorIsNext` and `SuccessorNoneIsLast`, and "each multiset exactly once" is an inference from them.
- `Powerset.PowersetBase.Next`: likewise for the total 2^n of subsets; the per-call facts are `EmptyIsLeast`, `NextSubsetIsNext` and `NextSubsetNoneIsLast`, and "each subset exactly once" is an inference from them.
- `Combinations.CombinationsBase.NextMap`, `CombinationsWithReplacement.CombinationsWithReplacementBase.NextMap`, `Powerset.PowersetBase.NextMap`, `MultiProduct.MultiProductBase.NextMap`: the `MapSlice` manager is passed to each call instead of being a field of the generator, so nothing ties successive calls to the same manager, and a closure's state carried between calls is not modelled.
- `MultiProduct.IterateLastMut`: the `&mut` slice is passed in by value and handed back, instead of being updated through a reference. The one caller stores the result back into `iters`, so no aliasing is modelled.
- `MultiProduct.Lane.Iterate`, `MultiProduct.Lane.Reset`: they are functions on a lane value, since the lanes live by value in the `iters` sequence.
- `MultiProduct.CountStep`: it covers the fresh and mid-iteration states. After the last tuple, `count` reports 0 while the non-fused adaptor would start over; `CountEmptyLane` covers lanes stopped at an empty sequence.
- `MultiProduct.MultiProductBase.Last` uses the corrected `LastRemaining`. The code as written is `LastAsWritten`; see Findings.
- `Accumulate.AccumulateFrom.SizeHint`: the underlying iterator's `size_hint` is taken to be exact, because the source is a finite sequence of known length.

## Findings

| source | as written | input that shows it | evidently intended | confidence | as-written member | corrected member |
|---|---|---|---|---|---|---|
| src/adaptors/multi_product.rs:240-253 | mid-iteration `last` takes each lane's remaining `iter.last()` and answers `None` when the rightmost lane's iterator is used up | lanes `[[1, 2], [3, 4]]` after `next` yielded `[1, 3]` and `[1, 4]`: `count` is 2 and `next` still yields `[2, 3]`, `[2, 4]`, but `last` is `None` | the last tuple still to be yielded, here `[2, 4]` | not executed | `MultiProduct.LastAsWrittenMissesRemaining` | `MultiProduct.LastRemainingBusy` |
| src/adaptors/multi_product.rs:240-253 | with no lanes `lasts` is empty, its length equals the lane count, and `last` answers `Some([])` | zero lanes: `next` yields nothing and `count` is 0 | `None`, as `next` yields nothing | not executed | `MultiProduct.LastAsWrittenOfNoLanes` | `MultiProduct.LastRemainingAgreesWithNext` |
