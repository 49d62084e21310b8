# Verified models of the CPC sketch, the frequent-items sketch and two smaller cores

This project models, in Dafny, the algorithms of the sketches library on which its guarantees rest,
and proves those guarantees for all inputs.

* **CPC sketch.** A sketch denotes a K x 64 bit matrix, that is, a set of coupons. It stores that set
  as a sparse table, then as a window of 8 columns and a table of surprises, then as a window that
  slides, left of which table membership means a zero. The models of update, promotion and slide, of
  the union and of the compressor are all proved against that one set. Every state carries the ghost
  field `coupons` (or `content`), and `BuildBitMatrix` computes it.
* **Compressor.** A parser and printer pair over an LSB-first bit stream: length-limited prefix codes,
  unary and Golomb codes, and the padding that makes the lookahead safe. Compressing a sketch of any
  flavor and uncompressing the result gives back its window and its table items.
* **Linear probing.** Two hash tables, one that deletes by re-inserting the cluster and one that deletes
  by shifting it back, are proved to be a finite set and a finite map. `Probing` is their common
  theory: an always-empty slot cuts the cyclic table into a line.
* **Frequent items.** The purge subtracts a median in place during a reverse scan. Bounds on every item's
  weight and a potential function hold through all updates and merges.
* **Streaming XXHash64** is independent of chunking and gives the published values, and the **sorted view** of quantiles sketches has
  ranks and quantiles that are adjoint.

## How the models are built

Objects that the C++ code updates in place are classes with the same fields, whose methods are proved
against a specification in terms of a ghost field. Machine words are natural numbers with the bit
operations `Bitwise`, `Shl` and `Shr`; the width of a word is stated where it matters. A `std::vector`
that a class owns is a field of type `seq`; buffers that are written through a pointer are arrays.
The three parallel arrays of the purge map are one array of slots. `std::nth_element` and `std::sort` stand
for any sort; here the first is `Sorting.IntrospectiveInsertionSort`, the second an insertion sort.

An exception that the code cannot throw is an assertion at that place. The exceptions that can be
thrown are results: `None`, `Thrown`, or `ok == false` for the drift limit of the purge map. `Undefined` is the result of
a compression that would write past its memory.

Four findings of the proofs:

* The compressor multiplies 32-bit numbers, and fails on two kinds of sliding sketches with many rows. `Compress` and
  `CompressAndUncompress` state that there are no others.
  - From lg_k = 17 on the products of `determine_pseudo_phase` can wrap around. A sketch whose count then falls among
    the phases of smaller sketches, and whose table is not empty, is refused with "unexpected pseudo phase for sliding
    flavor" (`Refused`). `RefuseSketch` builds such a sketch for every lg_k from 17 on (for lg_k = 21 it has 8589935
    coupons, about 4.1 per row), and `SlidingPhase` excludes it up to lg_k = 16.
  - A table of 2^32 / 12 items or more makes `12 * num_pairs` wrap around, so `table_data` can be too short for the code
    that is written to it (`Overfull`). Fewer items are always safe, in particular all tables up to lg_k = 22
    (`OverrunByCount`, `SmallTablesFit`). `OverrunMemory` builds such a sketch for every lg_k from 23 on.
* `merge` of the frequent-items sketch takes another sketch for empty if its map is empty. After a purge
  that is possible although it has seen weight. `AllItemsLost` is a case for every maximum size up to 2^10,
  `Merge` states exactly when weight is lost, and `EmptyMapWithWeight` that this is when the offset is positive.
  `Build` says beforehand when nothing is lost: if every sketch that is merged in has few keys (`SafeJoins`), so that
  it has never purged. `TreeBounds` tells a caller how to notice: the total weight is then less than the weight put in.
* The error that `get_epsilon` documents is guaranteed exactly if the maximum size is at most 2^10 slots and no
  sketch of a smaller maximum size, with entries in its map, has been merged in. `ErrorWithinEpsilon` and `TreeBounds`
  prove it for every such sketch. For every larger size `ExceedEpsilon` builds a stream that breaks it, because
  1024 sampled values may be heavier than the rest, and for all sizes up to 2^10 `MergeExceedsEpsilon` builds a
  merge from a smaller sketch that breaks it. What a sketch does guarantee is the epsilon of the smallest
  size that was merged in, and from 2^11 slots on total weight / 512.
* A table of surprises must not grow beyond the coupon universe, or `lookup` would shift by a negative amount, and not
  beyond 2^30 slots, or `1 << lg_size` would overflow (`OutgrowsUniverse`). That leaves room for 48 surprises per row,
  for 24 if lg_k is 25 and for 12 if it is 26. `Absorbable` is exactly what one step asks for (`StepExactly`), and
  `Collectable` exactly what all orders of a set of coupons ask for (`CollectableExactly`). Fewer than 203/8 K coupons
  (107/8 K, 59/8 K) always have room, and that many may not (`BoundIsTight`). Runs and unions ask for the room of their
  own steps (`CollectAll`, `InternalUpdate`). Unions of sketches whose sizes differ by a factor of at most 256 always
  have it (`RoomWithin8`), and at a factor of 512 an empty union may not (`NoRoomAt9`).

## Files

| file | content |
|---|---|
| `Words.dfy` | powers of two, bits, shifts |
| `Probing.dfy`, `Strides.dfy` | probe paths, and walks by an odd stride |
| `U32Table.dfy`, `Sorting.dfy`, `PairLists.dfy` | the coupon table, its sorts, and sorted pair lists |
| `CpcSketch.dfy`, `CpcRuns.dfy` | the sketch, and whole runs of it |
| `CpcUtil.dfy` | population counts and logarithms |
| `Folding.dfy`, `CpcUnion.dfy` | downsampling, and the union |
| `BitStreams.dfy`, `BitCodes.dfy`, `UnaryTable.dfy`, `CpcCompressor.dfy` | the compressor |
| `CompressorLimits.dfy` | sketches on which it fails |
| `PurgeMap.dfy`, `FrequentItems.dfy` | the frequent-items sketch |
| `MergeTrees.dfy` | all trees of its updates and merges |
| `LargeMaps.dfy`, `EmptiedMaps.dfy` | streams and merges that break what it documents |
| `XxHash64.dfy`, `SortedView.dfy` | the two smaller cores |
| `XxHashVectors.dfy` | published values of XXH64 |

`dafny verify dfyconfig.toml` checks all of them.

## Model

| member | source | states |
|---|---|---|
| `U32Tables.U32Table.constructor` | src/datasketches/cpc/include/u32_table_impl.hpp:39-48 | an empty table is the empty set, and one that lookups can work with if lg_size is at most num_valid_bits |
| `U32Tables.HomeIsShifted` | src/datasketches/cpc/include/u32_table_impl.hpp:127-131 | the first probe for an item is at its high bits: item >> (num_valid_bits - lg_size) |
| `U32Tables.U32Table.Lookup` | src/datasketches/cpc/include/u32_table_impl.hpp:127-137 | ends at the item or at the empty slot that closes its probe path; terminates because an empty slot exists |
| `U32Tables.ProbeFinds` | src/datasketches/cpc/include/u32_table_impl.hpp:127-137 | in a table without holes on probe paths, the probe for an item finds it exactly if it is in the set |
| `U32Tables.InsertKeeps` | src/datasketches/cpc/include/u32_table_impl.hpp:72-82 | storing an absent item where its probe ended keeps the table a table of the set plus that item |
| `U32Tables.U32Table.MaybeInsert` | src/datasketches/cpc/include/u32_table_impl.hpp:72-82 | adds the item to the set, reports whether it was new, and survives the growth that it triggers exactly if the table would then be more than 3/4 full |
| `U32Tables.U32Table.OutgrowsUniverse` | src/datasketches/cpc/include/u32_table_impl.hpp:72-82 | an insertion makes the table larger than lookups can work with, which is the universe of items and at most 2^30 slots, exactly if the item is new and more than 3/4 of that would be in the table |
| `U32Tables.ProductsFit` | src/datasketches/cpc/include/u32_table_impl.hpp:76-78 | up to that size no product in the tests for growth and shrinking wraps around |
| `U32Tables.U32Table.MaybeDelete` | src/datasketches/cpc/include/u32_table_impl.hpp:85-109 | takes the item out of the set, reports whether it was there, and survives the shrinking that it triggers exactly if more than four slots are then less than a quarter full |
| `U32Tables.StepReinserting` | src/datasketches/cpc/include/u32_table_impl.hpp:94-103 | one step of re-inserting the cluster behind a freed slot restores the path of that item without breaking another |
| `U32Tables.EndReinserting` | src/datasketches/cpc/include/u32_table_impl.hpp:94-103 | when the cluster ends, every item can be reached again |
| `U32Tables.U32Table.ReinsertCluster` | src/datasketches/cpc/include/u32_table_impl.hpp:94-103 | re-inserting up to the next empty slot makes the slots a table of the remaining set |
| `U32Tables.U32Table.Rebuild` | src/datasketches/cpc/include/u32_table_impl.hpp:149-162 | a table of any other size that has more slots than items holds the same set |
| `U32Tables.U32Table.MakeFromPairs` | src/datasketches/cpc/include/u32_table_impl.hpp:113-124 | distinct pairs become a table of exactly those pairs, in the smallest size that they fill by at most 3/4 |
| `Sorting.IntrospectiveInsertionSort` | src/datasketches/cpc/include/u32_table_impl.hpp:227-245 | sorts in place a rearrangement of the input, also when it gives up and hands over to the shell sort |
| `Sorting.KnuthShellSort3` | src/datasketches/cpc/include/u32_table_impl.hpp:248-262 | sorts in place; the last gap is always 1 |
| `PairLists.UnwrappingGetItems` | src/datasketches/cpc/include/u32_table_impl.hpp:171-194 | returns every item of the table exactly once, in the order of the slots, except that those before the first empty slot that have the top bit come last, in reverse order |
| `PairLists.Merge` | src/datasketches/cpc/include/u32_table_impl.hpp:198-217 | writes the merge of two parts of arrays and nothing else, even if an input lies in the array of the output, ahead of it by at least the length of the other input; "merging error" cannot be thrown |
| `PairLists.MergeNext` | src/datasketches/cpc/include/u32_table_impl.hpp:206-215 | no unread input is overwritten, because the output trails it by the unread length of the other input |
| `PairLists.MergedIncreases` | src/datasketches/cpc/include/u32_table_impl.hpp:198-217 | merging two increasing lists without common elements gives an increasing list |
| `PairLists.MergedKeeps` | src/datasketches/cpc/include/u32_table_impl.hpp:198-217 | a merge has exactly the elements of its inputs |
| `CpcRuns.RowColFromTwoHashes` | src/datasketches/cpc/include/cpc_sketch_impl.hpp:175-186 | every pair of hash halves gives a coupon below 64K other than the table's empty marker |
| `CpcRuns.CouponOfHash` | src/datasketches/cpc/include/cpc_sketch_impl.hpp:175-186 | the row is the low lg_k bits of the first hash; the column says where the highest one of the second is, and is 63 if that is the lowest bit or there is none; the marker itself, possible for lg_k = 26 only, moves to the row below |
| `CpcSketches.OffsetRange` | src/datasketches/cpc/include/cpc_sketch_impl.hpp:798-803 | window offset w is the one with 19/8 + w <= C/K < 27/8 + w, and 0 below that range |
| `CpcSketches.TableIsSurprising` | src/datasketches/cpc/include/cpc_sketch_impl.hpp:806-837 | the table of a windowed sketch is determined by the coupons: zeros left of the window, ones right of it |
| `CpcSketches.AddEarly` | src/datasketches/cpc/include/cpc_sketch_impl.hpp:235-236 | left of the window a coupon is new exactly if it is in the table, and deleting it records it |
| `CpcSketches.AddInWindow` | src/datasketches/cpc/include/cpc_sketch_impl.hpp:237-245 | inside the window a coupon is new exactly if OR-ing its bit changes the byte, which records it |
| `CpcSketches.AddLate` | src/datasketches/cpc/include/cpc_sketch_impl.hpp:246-249 | right of the window a coupon is new exactly if it is not in the table, and inserting it records it |
| `CpcSketches.UninterestingIsOld` | src/datasketches/cpc/include/cpc_sketch_impl.hpp:198 | a coupon in a column below first_interesting_column has always been collected before |
| `CpcSketches.SplitTable` | src/datasketches/cpc/include/cpc_sketch_impl.hpp:281-305 | moving columns 0 to 7 to a window and the rest to a new table keeps the coupons |
| `CpcSketches.RowSurprises` | src/datasketches/cpc/include/cpc_sketch_impl.hpp:325-344 | a matrix row with its window cleared and its early zone flipped names the surprises of that row |
| `CpcSketches.ScanRows` | src/datasketches/cpc/include/cpc_sketch_impl.hpp:325-344 | splitting a bit matrix at any offset yields its window bytes and exactly its surprises |
| `CpcSketches.SlideCounts` | src/datasketches/cpc/include/cpc_sketch_impl.hpp:309-312 | at the count that makes a slide due, one step is enough and right, and stays below offset 57 for C < 475K/8 |
| `CpcSketches.SparseCounts` | src/datasketches/cpc/include/cpc_sketch_impl.hpp:276-279 | a sparse sketch that has just left C < 3K/32 stands at 3K/32, or lg_k is 4 |
| `CpcSketches.Rewindowed` | src/datasketches/cpc/include/cpc_sketch_impl.hpp:329-349 | window and surprises taken from the matrix describe the same coupons; first_interesting_column is the first column of a surprise, or the window offset if there is none before it |
| `CpcSketches.CpcSketch.BuildBitMatrix` | src/datasketches/cpc/include/cpc_sketch_impl.hpp:806-837 | bit col of row r is set exactly if the coupon (r, col) has been collected |
| `CpcSketches.CpcSketch.RowColUpdate` | src/datasketches/cpc/include/cpc_sketch_impl.hpp:196-205 | collects exactly the given coupon, in every flavor and through promotion and slides; first_interesting_column changes only with the window |
| `CpcSketches.CpcSketch.UpdateSparse` | src/datasketches/cpc/include/cpc_sketch_impl.hpp:208-219 | collects the coupon in the table and promotes when C reaches 3K/32 |
| `CpcSketches.CpcSketch.PromoteSparseToWindowed` | src/datasketches/cpc/include/cpc_sketch_impl.hpp:276-306 | changes the representation, not the coupons; its exceptions cannot be thrown |
| `CpcSketches.CpcSketch.UpdateCell` | src/datasketches/cpc/include/cpc_sketch_impl.hpp:232-249 | finds out in all three zones whether the coupon is new, and records it |
| `CpcSketches.CpcSketch.UpdateWindowed` | src/datasketches/cpc/include/cpc_sketch_impl.hpp:223-262 | collects the coupon and slides the window at most once; its exceptions cannot be thrown |
| `CpcSketches.CpcSketch.MoveWindow` | src/datasketches/cpc/include/cpc_sketch_impl.hpp:309-350 | changes the representation, not the coupons; window_offset is then the correct one, and first_interesting_column the first column of a surprise, if it is left of the window |
| `CpcRuns.CollectAll` | src/datasketches/cpc/include/cpc_sketch_impl.hpp:196-263 | after any run whose every step has room, the sketch stands for exactly the coupons fed so far and num_coupons is their number |
| `CpcRuns.StepExactly` | src/datasketches/cpc/include/cpc_sketch_impl.hpp:208-262 | a new coupon has room exactly if inserting it does not outgrow the table, and the slide that it may cause neither runs out of columns nor outgrows the table |
| `CpcRuns.StateFollowsCount` | src/datasketches/cpc/include/cpc_sketch_impl.hpp:785-803 | in every valid state the count alone fixes window_offset and whether there is a window; the flavors change at 1, 3/32 K, K/2 and 27/8 K coupons |
| `CpcRuns.CollectableExactly` | src/datasketches/cpc/include/cpc_sketch_impl.hpp:196-263 | coupons are collectable exactly if every run of them has room at every step |
| `CpcRuns.SmallSetsAreCollectable` | src/datasketches/cpc/include/cpc_sketch_impl.hpp:208-262 | fewer than 203/8 K coupons (107/8 K for lg_k = 25, 59/8 K for 26) can be collected in every order: the table never overfills |
| `CpcRuns.BoundPerRow` | src/datasketches/cpc/include/cpc_sketch_impl.hpp:798-803 | those numbers: they are where the window slides to the offset that overfills the largest table |
| `CpcRuns.BoundIsTight` | src/datasketches/cpc/include/cpc_sketch_impl.hpp:208-262 | for every lg_k there are that many coupons of which any one, coming last, overfills the table, although the others can come in every order |
| `CpcRuns.LateRunsFail` | src/datasketches/cpc/include/cpc_sketch_impl.hpp:208-262 | so no run of these coupons has room |
| `CpcRuns.LeftToRight` | src/datasketches/cpc/include/cpc_sketch_impl.hpp:208-262 | coupons that fill the columns from the left, next to at most K others anywhere, have room up to the last count below 475/8 K |
| `CpcRuns.LateFirstHasRoom` | src/datasketches/cpc/include/cpc_sketch_impl.hpp:208-262 | so does the stream of coupon 63 and then all columns from the left |
| `Words.ShlIsMul` | src/datasketches/cpc/include/u32_table_impl.hpp:128-130 | the shift to the left is a product with a power of two |
| `Words.ShrIsDiv` | src/datasketches/cpc/include/u32_table_impl.hpp:130 | the shift to the right is a quotient by a power of two |
| `Probing.NextIsMasked` | src/datasketches/cpc/include/u32_table_impl.hpp:132-135 | the next slot is probe + 1 modulo the size of the table |
| `Strides.StepIsMasked` | src/datasketches/cpc/include/cpc_union_impl.hpp:263-268 | the next slot of the walk is j + stride modulo the size of the table |
| `BitStreams.LowBitsIsMasked` | src/datasketches/cpc/include/cpc_compressor_impl.hpp:532-543 | the low n bits are bitbuf & (2^n - 1) |
| `Folding.FoldTwice` | src/datasketches/cpc/include/cpc_union_impl.hpp:258-271 | downsampling in two steps is downsampling in one |
| `Folding.FoldUnion` | src/datasketches/cpc/include/cpc_union_impl.hpp:302-309 | downsampling commutes with union |
| `Folding.HalvingKeepsHalf` | src/datasketches/cpc/include/cpc_union_impl.hpp:196-204 | halving the rows keeps at least half of the coupons |
| `Folding.FoldStaysDense` | src/datasketches/cpc/include/cpc_union_impl.hpp:196-204 | a set with 32C >= 3K keeps that after any downsampling |
| `Folding.MatrixCellsSize` | src/datasketches/cpc/include/cpc_union_impl.hpp:197-198 | the population count of the rows is the number of coupons |
| `Strides.OrbitInjective` | src/datasketches/cpc/include/cpc_union_impl.hpp:263-268 | an odd stride over a power-of-two table meets no slot twice in one round |
| `Strides.AllVisited` | src/datasketches/cpc/include/cpc_union_impl.hpp:263-268 | n steps of an odd stride visit all n slots |
| `CpcUnions.GoldenStride` | src/datasketches/cpc/include/cpc_union_impl.hpp:260-265 | the stride is the odd number next to the number of slots times the golden ratio, and in range, so its exceptions cannot be thrown |
| `CpcUnions.WalkFeedsAll` | src/datasketches/cpc/include/cpc_union_impl.hpp:255-274 | the walk meets every item of the table, downsampled, and nothing else |
| `CpcUnions.WalkTableUpdatingSketch` | src/datasketches/cpc/include/cpc_union_impl.hpp:255-274 | feeds every coupon of the table, downsampled, to the accumulator, if the coupons find room in the order of the walk |
| `CpcUnions.CpcUnion.OrTableIntoMatrix` | src/datasketches/cpc/include/cpc_union_impl.hpp:277-289 | adds the downsampled coupons of a table to the matrix |
| `CpcUnions.CpcUnion.OrWindowIntoMatrix` | src/datasketches/cpc/include/cpc_union_impl.hpp:292-299 | adds the downsampled coupons of a window to the matrix |
| `CpcUnions.CpcUnion.OrMatrixIntoMatrix` | src/datasketches/cpc/include/cpc_union_impl.hpp:302-309 | adds the downsampled coupons of a matrix to the matrix |
| `CpcUnions.CpcUnion.ReduceK` | src/datasketches/cpc/include/cpc_union_impl.hpp:312-346 | downsamples the union, whichever representation it is in, and switches to a matrix when that is no longer sparse |
| `CpcUnions.CpcUnion.InternalUpdate` | src/datasketches/cpc/include/cpc_union_impl.hpp:104-171 | in every case the union then holds its own and the sketch's coupons, downsampled to the smaller size; an empty sketch changes nothing |
| `CpcUnions.CpcUnion.JoinSparse` | src/datasketches/cpc/include/cpc_union_impl.hpp:119-139 | case A: the accumulator takes in the sparse sketch, or becomes a matrix |
| `CpcUnions.CpcUnion.JoinDense` | src/datasketches/cpc/include/cpc_union_impl.hpp:149-170 | cases C and D: the dense sketch is OR-ed into the matrix |
| `CpcUnions.CpcUnion.GetResultFromBitMatrix` | src/datasketches/cpc/include/cpc_union_impl.hpp:196-243 | returns a valid sketch of exactly the union's coupons, with the right first_interesting_column and a table that starts at K/16 slots; "wrong flavor" cannot be thrown |
| `CpcUnions.CpcUnion.GetResult` | src/datasketches/cpc/include/cpc_union_impl.hpp:174-193 | returns a valid sketch of exactly the union's coupons |
| `CpcUnions.UpdateNext` | src/datasketches/cpc/include/cpc_union_impl.hpp:93-171 | after any sequence of updates, one more for which there is room leaves the join of all inputs |
| `CpcUnions.UpdateAll` | src/datasketches/cpc/include/cpc_union_impl.hpp:93-171 | any sequence of updates that has room wherever the coupons stand in the tables leaves the join of all inputs |
| `CpcUnions.JoinAllIsFold` | src/datasketches/cpc/include/cpc_union_impl.hpp:104-171 | the join has the least lg_k of the start and all non-empty inputs, and is the OR of all inputs downsampled to it |
| `CpcUnions.OrderDoesNotMatter` | src/datasketches/cpc/include/cpc_union_impl.hpp:104-171 | two sequences with the same inputs, in whatever order, have the same join |
| `CpcUnions.RoomWithin8` | src/datasketches/cpc/include/cpc_union_impl.hpp:119-139 | unions of sketches whose sizes differ by a factor of at most 256 always find room |
| `CpcUnions.NoRoomAt9` | src/datasketches/cpc/include/cpc_union_impl.hpp:119-139 | a factor of 512 can be too much: for every lg_k of a union up to 17, a sparse sketch that overfills it when it is empty, whatever its slots |
| `CpcUtil.FloorLog2OfLong` | src/datasketches/cpc/include/cpc_util.hpp:34-44 | p with 2^p <= x < 2^(p+1), none for 0 |
| `CpcUtil.ClearLowest` | src/datasketches/cpc/include/cpc_util.hpp:56-63 | w & (w - 1) is smaller than w and has one bit less |
| `CpcUtil.WegnerCountBitsSetInMatrix` | src/datasketches/cpc/include/cpc_util.hpp:50-67 | counts the bits of all words |
| `CpcUtil.WarrenCounts` | src/datasketches/cpc/include/cpc_util.hpp:72-80 | the bit tricks count the bits of every 64-bit word |
| `CpcUtil.CsaSums` | src/datasketches/cpc/include/cpc_util.hpp:92-98 | the carry-save adder keeps the number of bits |
| `CpcUtil.AddEight` | src/datasketches/cpc/include/cpc_util.hpp:106-118 | eight words go into ones, twos, fours and eights without loss |
| `CpcUtil.CountBitsSetInMatrix` | src/datasketches/cpc/include/cpc_util.hpp:100-126 | counts the bits of all words whenever the length is a positive multiple of 8, and rejects other lengths |
| `BitStreams.PutBits` | src/datasketches/cpc/include/cpc_compressor_impl.hpp:467-473 | appends n bits to what has been written, flushing a word when there is one |
| `BitStreams.MaybeFill` | src/datasketches/cpc/include/cpc_compressor_impl.hpp:475-480 | fetches a word if too few bits are buffered, never past the end while that many bits are still to come |
| `BitStreams.TakeBits` | src/datasketches/cpc/include/cpc_compressor_impl.hpp:532-543 | the low bits of the buffer are the next bits of the stream |
| `BitCodes.WriteUnary` | src/datasketches/cpc/include/cpc_compressor_impl.hpp:704-730 | appends value zeros and a one |
| `BitCodes.ReadUnary` | src/datasketches/cpc/include/cpc_compressor_impl.hpp:677-701 | reads back the value and leaves what follows, with 8-bit lookahead that 7 further bits make safe |
| `BitCodes.MakeDecodingTable` | src/datasketches/cpc/include/cpc_compressor_impl.hpp:78-93 | for any prefix code with lengths 1 to 12, every 12-bit extension of a codeword maps to its length and symbol |
| `BitCodes.ValidateDecodingTable` | src/datasketches/cpc/include/cpc_compressor_impl.hpp:96-109 | accepts exactly the tables whose entries all name a codeword that the index begins with |
| `BitCodes.ValidTable` | src/datasketches/cpc/include/cpc_compressor_impl.hpp:96-109 | the decoding table of a complete prefix code passes the validation |
| `BitCodes.LowLevelCompressBytes` | src/datasketches/cpc/include/cpc_compressor_impl.hpp:485-514 | writes exactly the codewords of the bytes and 11 bits of padding |
| `BitCodes.LowLevelUncompressBytes` | src/datasketches/cpc/include/cpc_compressor_impl.hpp:517-546 | inverts the byte compressor on every byte array, within the words that it reported |
| `BitCodes.LowLevelCompressPairs` | src/datasketches/cpc/include/cpc_compressor_impl.hpp:568-626 | writes exactly the Golomb code of the pairs and max(0, 10 - B) bits of padding |
| `BitCodes.LowLevelUncompressPairs` | src/datasketches/cpc/include/cpc_compressor_impl.hpp:629-675 | inverts the pair compressor on every increasing list and every B up to 26, within the words that it reported |
| `BitCodes.EncodedPairsLength` | src/datasketches/cpc/include/cpc_compressor_impl.hpp:421-430 | the unary parts telescope: n pairs take at most (13 + B) n + floor(K / 2^B) bits |
| `BitCodes.SufficientPairBuf` | src/datasketches/cpc/include/cpc_compressor_impl.hpp:421-430 | without wrapping around, the length allotted for the pairs is always enough |
| `BitCodes.SafePairBuf` | src/datasketches/cpc/include/cpc_compressor_impl.hpp:421-430 | as long as neither product of the length wraps around, the buffer of compress_surprising_values is never overrun |
| `BitCodes.EncodedPairsAtLeast` | src/datasketches/cpc/include/cpc_compressor_impl.hpp:568-626 | n pairs take at least (2 + B) n bits |
| `BitCodes.AlwaysOverrun` | src/datasketches/cpc/include/cpc_compressor_impl.hpp:421-430 | every list whose length n exceeds (12 n modulo 2^32) + floor(K / 2^B) + 31 overruns the buffer |
| `BitCodes.SafeWindowBuf` | src/datasketches/cpc/include/cpc_compressor_impl.hpp:439-442 | the buffer of compress_sliding_window is never overrun |
| `UnaryTable.UnaryIsPrefixCode` | src/datasketches/cpc/include/compression_data.hpp:5862-5934 | no codeword of the 65-symbol table is the beginning of another, and all have 1 to 12 bits |
| `UnaryTable.UnaryIsComplete` | src/datasketches/cpc/include/compression_data.hpp:5862-5934 | every 12-bit string begins with a codeword of the 65-symbol table |
| `CpcCompressors.GolombChooseNumberOfBaseBits` | src/datasketches/cpc/include/cpc_compressor_impl.hpp:755-761 | the base-2 logarithm of the mean row distance, at most 26; none for numbers below 1; the 64-bit difference may wrap around |
| `CpcCompressors.PhaseByCount` | src/datasketches/cpc/include/cpc_compressor_impl.hpp:445-465 | without wrapping around: the six mid-range phases and where they end in C/K, phase 6 up to 2375/1000, and from there on a phase that cycles with C / (K/16) |
| `CpcCompressors.CountsFit` | src/datasketches/cpc/include/cpc_compressor_impl.hpp:445-465 | up to lg_k = 16 nothing wraps around |
| `CpcCompressors.SlidingPhase` | src/datasketches/cpc/include/cpc_compressor_impl.hpp:445-465 | so up to lg_k = 16 a sliding sketch gets its true phase, which is below 16 |
| `CompressorLimits.WrongPhase` | src/datasketches/cpc/include/cpc_compressor_impl.hpp:445-465 | for every lg_k from 17 on, a count of a sliding sketch whose 32-bit products wrap around gets pseudo-phase 20 |
| `CompressorLimits.WrappedPhases` | src/datasketches/cpc/include/cpc_compressor_impl.hpp:445-465 | for each of its tests, a count for which the product that wraps around decides it the other way |
| `CompressorLimits.SomeStream` | src/datasketches/cpc/include/cpc_compressor_impl.hpp:445-465 | for every lg_k from 17 on there is a stream of that many coupons, one of them in the last column, that has room |
| `CompressorLimits.EveryStream` | src/datasketches/cpc/include/cpc_sketch_impl.hpp:208-262 | from lg_k = 18 on, every stream of that many coupons has room |
| `CompressorLimits.RefuseSketch` | src/datasketches/cpc/include/cpc_compressor_impl.hpp:302-310 | for every lg_k from 17 on, any stream of that many coupons that has room, one of them in the last column, makes a sketch that the compressor refuses |
| `CompressorLimits.BlockSize` | src/datasketches/cpc/include/cpc_compressor_impl.hpp:425-426 | how many coupons fill a block of whole columns, and how many surprises they are |
| `CompressorLimits.BlockCounts` | src/datasketches/cpc/include/cpc_compressor_impl.hpp:425-426 | for every lg_k from 23 on, the block can be collected in every order, is not refused, and has more surprises than 12 num_pairs modulo 2^32 allots bits for |
| `CompressorLimits.SomeBlock` | src/datasketches/cpc/include/cpc_sketch_impl.hpp:208-262 | there are streams of the coupons of the block |
| `CompressorLimits.OverrunMemory` | src/datasketches/cpc/include/cpc_compressor_impl.hpp:369-383 | for every lg_k from 23 on, any stream of the coupons of the block makes a sketch whose compression writes past table_data |
| `CpcCompressors.MakeInversePermutation` | src/datasketches/cpc/include/cpc_compressor_impl.hpp:63-72 | inverts every permutation; "inverse permutation error" cannot be thrown |
| `PairLists.TrickyGetPairsFromWindow` | src/datasketches/cpc/include/cpc_compressor_impl.hpp:735-750 | lists the coupons of a window in increasing order behind the empty space |
| `CpcCompressors.SplitPairs` | src/datasketches/cpc/include/cpc_compressor_impl.hpp:246-257 | separates the pairs of the window's columns from the true pairs, which move down in place |
| `CpcCompressors.SplitAll` | src/datasketches/cpc/include/cpc_compressor_impl.hpp:246-257 | splitting the list of a hybrid sketch gives back its window and its table items |
| `CpcCompressors.RaisedLowered` | src/datasketches/cpc/include/cpc_compressor_impl.hpp:261-299 | adding 8 undoes subtracting 8 on the pairs of a pinned table, and no exception can be thrown |
| `CpcCompressors.RestoredPermuted` | src/datasketches/cpc/include/cpc_compressor_impl.hpp:302-366 | undoing the permutation and the rotation gives back every pair outside the window, at any offset up to 56 |
| `CpcCompressors.CompressSurprisingValues` | src/datasketches/cpc/include/cpc_compressor_impl.hpp:369-383 | encodes every increasing list of coupons, exactly if its code fits into the length allotted with 32-bit products |
| `CpcCompressors.OverrunByCount` | src/datasketches/cpc/include/cpc_compressor_impl.hpp:421-430 | what the number n of pairs tells: the code fits if 12 n < 2^32, and never if n exceeds K and (12 n modulo 2^32) + K + 31 |
| `CpcCompressors.SmallTablesFit` | src/datasketches/cpc/include/cpc_compressor_impl.hpp:421-430 | up to lg_k = 22 no table has 2^32 / 12 items |
| `CpcCompressors.UncompressSurprisingValues` | src/datasketches/cpc/include/cpc_compressor_impl.hpp:386-394 | gives back the list that was encoded |
| `CpcCompressors.CompressSlidingWindow` | src/datasketches/cpc/include/cpc_compressor_impl.hpp:397-408 | encodes the window bytes in the code of its pseudo-phase |
| `CpcCompressors.UncompressSlidingWindow` | src/datasketches/cpc/include/cpc_compressor_impl.hpp:411-418 | gives back the window that was encoded |
| `CpcCompressors.CpcCompressor.constructor` | src/datasketches/cpc/include/cpc_compressor_impl.hpp:53-130 | all decoding tables and inverse permutations are right; no validation error can be thrown |
| `CpcCompressors.Storable` | src/datasketches/cpc/include/cpc_compressor_impl.hpp:144-168 | every valid sketch meets what its flavor's compressor relies on |
| `CpcCompressors.CpcCompressor.CompressHybridFlavor` | src/datasketches/cpc/include/cpc_compressor_impl.hpp:213-231 | encodes the increasing list of all coupons, window and table merged, as many as num_coupons |
| `CpcCompressors.CpcCompressor.CompressPinnedFlavor` | src/datasketches/cpc/include/cpc_compressor_impl.hpp:261-279 | encodes the window, and the table with columns lowered by 8 |
| `CpcCompressors.CpcCompressor.CompressSlidingFlavor` | src/datasketches/cpc/include/cpc_compressor_impl.hpp:302-334 | encodes the window, and the table with columns rotated and permuted; throws exactly if the table is not empty and the pseudo-phase is above 15; otherwise overruns table_data exactly if the code of the table does not fit, which takes 2^32 / 12 items |
| `CpcCompressors.CpcCompressor.Compress` | src/datasketches/cpc/include/cpc_compressor_impl.hpp:144-168 | encodes any valid sketch, except sliding sketches that are refused for their pseudo-phase or whose table is too large for the 32-bit products |
| `CpcCompressors.CpcCompressor.UncompressHybridFlavor` | src/datasketches/cpc/include/cpc_compressor_impl.hpp:234-258 | gives back window and table items of a hybrid sketch |
| `CpcCompressors.CpcCompressor.UncompressPinnedFlavor` | src/datasketches/cpc/include/cpc_compressor_impl.hpp:282-299 | gives back window and table items of a pinned sketch |
| `CpcCompressors.CpcCompressor.UncompressSlidingFlavor` | src/datasketches/cpc/include/cpc_compressor_impl.hpp:337-366 | gives back window and table items of a sliding sketch |
| `CpcCompressors.CpcCompressor.Uncompress` | src/datasketches/cpc/include/cpc_compressor_impl.hpp:171-191 | gives back window and table items of a sketch of any flavor |
| `CpcCompressors.CompressAndUncompress` | src/datasketches/cpc/include/cpc_sketch_impl.hpp:408-413 | a sketch of any flavor comes back with the same coupons, window, offset and table items, in a table of the least size, except in these two cases; the second takes lg_k from 23 on and 2^32 / 12 items |
| `PurgeMaps.ProbeFinds` | src/datasketches/fi/include/reverse_purge_hash_map_impl.hpp:165-173 | in a map without holes on probe paths, the probe for a key finds it exactly if it is in the map |
| `PurgeMaps.HomeIsMasked` | src/datasketches/fi/include/reverse_purge_hash_map_impl.hpp:279-281 | the first probe for a key is at the low bits of its hash |
| `PurgeMaps.ReversePurgeHashMap.GetValue` | src/datasketches/fi/include/reverse_purge_hash_map_impl.hpp:165-173 | the key's value, or 0 |
| `PurgeMaps.PathLength` | src/datasketches/fi/include/reverse_purge_hash_map_impl.hpp:279-302 | no probe is longer than the number of entries |
| `PurgeMaps.ReversePurgeHashMap.InternalAdjustOrInsert` | src/datasketches/fi/include/reverse_purge_hash_map_impl.hpp:279-302 | adds the value to the key's; the drift limit is reached exactly if the probe path of the key takes 1023 steps, so not unless 1023 slots in a row are held |
| `PurgeMaps.FewEntries` | src/datasketches/fi/include/reverse_purge_hash_map.hpp:70-71 | fewer than 1023 entries cannot reach the drift limit, in particular no map of up to 2^10 slots can |
| `PurgeMaps.MoveProbe` | src/datasketches/fi/include/reverse_purge_hash_map_impl.hpp:258-268 | moving an entry back into the hole keeps its state right and leaves the hole where it was |
| `PurgeMaps.PassProbe` | src/datasketches/fi/include/reverse_purge_hash_map_impl.hpp:258-271 | an entry whose drift is too small to move does not depend on the hole |
| `PurgeMaps.EndShifting` | src/datasketches/fi/include/reverse_purge_hash_map_impl.hpp:258-276 | when the cluster ends, states are displacements plus 1 again and no probe path has a hole |
| `PurgeMaps.ReversePurgeHashMap.HashDelete` | src/datasketches/fi/include/reverse_purge_hash_map_impl.hpp:250-276 | removes exactly one key, and touches no slot before it as seen from any other free slot; the drift limit is reached exactly if the probe gets 1024 slots ahead of the hole |
| `PurgeMaps.ReversePurgeHashMap.SubtractAndKeepPositiveOnly` | src/datasketches/fi/include/reverse_purge_hash_map_impl.hpp:219-247 | every value goes down by the amount and exactly the keys that stay positive survive |
| `PurgeMaps.SampleMedian` | src/datasketches/fi/include/reverse_purge_hash_map_impl.hpp:347-360 | at least half of the sample, rounded up, is on either side of the median, counted in keys of the map |
| `PurgeMaps.ReversePurgeHashMap.Purge` | src/datasketches/fi/include/reverse_purge_hash_map_impl.hpp:347-364 | subtracts a median of min(1024, num_active) values |
| `PurgeMaps.PurgeShrinks` | src/datasketches/fi/include/reverse_purge_hash_map_impl.hpp:305-318 | a purge of a full map deletes at least floor(s/2) + 1 entries for sample size s |
| `PurgeMaps.ReducedSum` | src/datasketches/fi/include/reverse_purge_hash_map_impl.hpp:219-247 | subtracting an amount takes it off at least as often as there are values of at least that amount |
| `PurgeMaps.ReversePurgeHashMap.Resize` | src/datasketches/fi/include/reverse_purge_hash_map_impl.hpp:321-344 | a map of twice the size holds the same entries |
| `PurgeMaps.ReversePurgeHashMap.ResizeOrPurgeIfNeeded` | src/datasketches/fi/include/reverse_purge_hash_map_impl.hpp:305-318 | grows without loss, or purges; "purge did not reduce" cannot be thrown |
| `PurgeMaps.ReversePurgeHashMap.AdjustOrInsert` | src/datasketches/fi/include/reverse_purge_hash_map_impl.hpp:154-162 | the exact new contents and offset, whether the map stays, grows or purges |
| `PurgeMaps.IteratorStride` | src/datasketches/fi/include/reverse_purge_hash_map.hpp:125-126 | the stride is the odd number next to the number of slots times the golden ratio |
| `PurgeMaps.MoreToVisit` | src/datasketches/fi/include/reverse_purge_hash_map.hpp:103-112 | as long as keys are missing, the walk has not visited all slots |
| `PurgeMaps.ReversePurgeHashMap.Advance` | src/datasketches/fi/include/reverse_purge_hash_map.hpp:103-112 | comes to a key that has not been visited, until all have been |
| `PurgeMaps.EverythingDone` | src/datasketches/fi/include/reverse_purge_hash_map.hpp:103-114 | when the count reaches num_active, all keys have been visited |
| `FrequentItems.BoundsReduced` | src/datasketches/fi/include/frequent_items_sketch_impl.hpp:52-57 | what a purge takes off every value, it adds to the offset, so the bounds stay right |
| `FrequentItems.BoundsCombined` | src/datasketches/fi/include/frequent_items_sketch_impl.hpp:68-76 | the bounds of a merged sketch hold for both streams together |
| `FrequentItems.AccountedSettled` | src/datasketches/fi/include/frequent_items_sketch_impl.hpp:52-57 | (sum of values) + offset * ceil(s/2) never exceeds the total weight, purge or not |
| `FrequentItems.AccountedMerged` | src/datasketches/fi/include/frequent_items_sketch_impl.hpp:68-76 | merging keeps that, for the sample size of the smaller of the two maximum sizes |
| `FrequentItems.MaximumError` | src/datasketches/fi/include/frequent_items_sketch_impl.hpp:123-130 | that gives maximum error <= epsilon * total weight for sizes up to 2^10, and total weight / 512 for larger maps |
| `FrequentItems.ErrorWithinEpsilon` | src/datasketches/fi/include/frequent_items_sketch_impl.hpp:123-130 | every sketch built by updates and merges is within epsilon of the least lg_max among the maps merged into it, so within its own if lg_max <= 10 and none of them was smaller |
| `LargeMaps.HeavyMiddle` | src/datasketches/fi/include/reverse_purge_hash_map_impl.hpp:347-360 | a sample of 512 light and 512 heavy values has a heavy middle |
| `LargeMaps.LayoutRuns` | src/datasketches/fi/include/reverse_purge_hash_map.hpp:70-71 | the drift limit is far away when every fourth slot but one is free |
| `LargeMaps.ExceedEpsilon` | src/datasketches/fi/include/frequent_items_sketch_impl.hpp:123-130 | for every lg_max > 10 there are hash values and a given stream of items of weights 1 and 100 whose maximum error exceeds epsilon * total weight |
| `FrequentItems.FrequentItemsSketch.Make` | src/datasketches/fi/include/frequent_items_sketch_impl.hpp:36-49 | refuses a starting size above the maximum size, and clips both at 8 slots |
| `FrequentItems.FrequentItemsSketch.Update` | src/datasketches/fi/include/frequent_items_sketch_impl.hpp:52-57 | adds the weight to the item's true weight; bounds and potential stay right |
| `FrequentItems.FrequentItemsSketch.Merge` | src/datasketches/fi/include/frequent_items_sketch_impl.hpp:68-76 | bounds then hold for both streams, and nothing is purged if all keys fit; weight is lost exactly if the other map is empty and its total weight is not 0 |
| `MergeTrees.Build` | src/datasketches/fi/include/frequent_items_sketch_impl.hpp:52-76 | any tree of updates and merges yields a sketch of a part of its stream; an exception takes a starting size above the maximum, or a map of more than 2^10 slots; weight is lost exactly if some merge takes an empty map with an offset, never if every merge takes a sketch with few keys, and a tree of few keys is kept exactly |
| `MergeTrees.TreeBounds` | src/datasketches/fi/include/frequent_items_sketch_impl.hpp:97-130 | for every tree: the total weight is that of the whole stream exactly if no merge has lost anything, and then all bounds hold for the whole stream; lower bounds, and the error within epsilon of the least lg_max, hold in any case |
| `MergeTrees.NothingLost` | src/datasketches/fi/include/frequent_items_sketch_impl.hpp:68-76 | the sketch is one of the whole stream exactly if nothing has been lost, and always if every merge takes a sketch with few keys |
| `FrequentItems.EmptyMapWithWeight` | src/datasketches/fi/include/frequent_items_sketch_impl.hpp:90-92 | a sketch with an empty map has seen weight exactly if its offset is positive |
| `EmptiedMaps.LoadsPurged` | src/datasketches/fi/include/reverse_purge_hash_map_impl.hpp:347-364 | a full map of light and heavy items, heavy ones in the majority, is purged to nothing |
| `EmptiedMaps.PurgedToNothing` | src/datasketches/fi/include/reverse_purge_hash_map_impl.hpp:305-318 | for every lg_max up to 10, a stream of one item more than the map may hold leaves an empty map with offset 100 |
| `EmptiedMaps.AllItemsLost` | src/datasketches/fi/include/frequent_items_sketch_impl.hpp:68-76 | merging that sketch into any other with offset 0 changes nothing: the upper bound of each of its items is then below its weight |
| `EmptiedMaps.OneEntry` | src/datasketches/fi/include/frequent_items_sketch_impl.hpp:52-57 | one update more leaves that sketch with one entry and offset 100 |
| `EmptiedMaps.MergeExceedsEpsilon` | src/datasketches/fi/include/frequent_items_sketch_impl.hpp:68-76 | for every lg_max up to 10 and every larger one, that sketch of the first merged into an empty sketch of the second gives an error above the epsilon of the second times the total weight |
| `FrequentItems.FrequentItemsSketch.GetLowerBound` | src/datasketches/fi/include/frequent_items_sketch_impl.hpp:113-115 | the stored value, or 0; the true weight is at least that and exceeds it by at most the offset |
| `FrequentItems.FrequentItemsSketch.GetUpperBound` | src/datasketches/fi/include/frequent_items_sketch_impl.hpp:118-120 | the stored value plus the offset; the true weight is at most that and at most the offset below it |
| `FrequentItems.FrequentItemsSketch.GetEstimate` | src/datasketches/fi/include/frequent_items_sketch_impl.hpp:105-110 | the upper bound of a tracked item, 0 for any other; within the offset of the true weight in either case |
| `FrequentItems.FrequentItemsSketch.GetFrequentItems` | src/datasketches/fi/include/frequent_items_sketch_impl.hpp:149-161 | in descending order, once each, the tracked items whose upper bound (no false negatives) or stored value (no false positives) exceeds the threshold, with the answers of the three queries; none heavier is missing from the first at a threshold of at least the offset, and all are heavier than the threshold less the offset; all in the second are heavier, and none heavier by more than the offset is missing |
| `FrequentItems.FrequentItemsSketch.GetFrequentItemsByError` | src/datasketches/fi/include/frequent_items_sketch_impl.hpp:143-146 | with the offset for threshold: the first list has every item heavier than the offset, and every tracked one; the second exactly those tracked with more than the offset |
| `FrequentItems.ReportedItems` | src/datasketches/fi/include/frequent_items_sketch_impl.hpp:152-157 | which items are listed and what their rows say, without the filter of the code |
| `XxHash64.AbsorbCat` | src/datasketches/common/include/xxhash64.h:43-92 | only the state and the remainder of what came before matter to the bytes that follow |
| `XxHash64.XXHash64.Add` | src/datasketches/common/include/xxhash64.h:43-92 | state and buffer are then those of the whole input at once |
| `XxHash64.XXHash64.FillBuffer` | src/datasketches/common/include/xxhash64.h:66-75 | completing a buffered block processes exactly the bytes that it began with |
| `XxHash64.XXHash64.Hash` | src/datasketches/common/include/xxhash64.h:96-150 | the hash of the whole input, as a function of that input alone |
| `XxHash64.HashChunks` | src/datasketches/common/include/xxhash64.h:43-150 | however a byte string is cut into chunks, its hash is the same |
| `XxHash64.ShortInputs` | src/datasketches/common/include/xxhash64.h:115-119 | below 32 bytes the third lane is still the seed |
| `XxHashVectors.EmptyInput` | src/datasketches/common/include/xxhash64.h:115-149 | the hash of nothing with seed 0 is 0xEF46DB3751D8E999 |
| `XxHashVectors.OneLetter` | src/datasketches/common/include/xxhash64.h:137-149 | the hash of "a" is 0xD24EC4F1A98C6E5B |
| `XxHashVectors.Spammish` | src/datasketches/common/include/xxhash64.h:96-149 | the hash of "Nobody inspects the spammish repetition", a block, a piece of 4 bytes and single bytes, is 0xFBCEA83C8A378BF1 |
| `XxHashVectors.LazyDog` | src/datasketches/common/include/xxhash64.h:96-149 | the hash of "The quick brown fox jumps over the lazy dog", a block, a piece of 8 bytes and single bytes, is 0x0B242D361FDA71BC |
| `XxHashVectors.StartOf` | src/datasketches/common/include/xxhash64.h:31-34 | for every seed the lanes start at their fixed distances from it |
| `XxHashVectors.RotateLeftIs` | src/datasketches/common/include/xxhash64.h:182-185 | a rotation of a 64-bit word in plain arithmetic |
| `SortedViews.MergedSorts` | src/datasketches/common/include/quantiles_sorted_view_impl.hpp:40-54 | merging sorted entries leaves them sorted under any strict weak order |
| `SortedViews.QuantilesSortedView.Add` | src/datasketches/common/include/quantiles_sorted_view_impl.hpp:40-54 | keeps all entries in order and adds the given ones |
| `SortedViews.QuantilesSortedView.ConvertToCumulative` | src/datasketches/common/include/quantiles_sorted_view_impl.hpp:57-62 | every weight then includes those of all entries before it |
| `SortedViews.QuantilesSortedView.GetRank` | src/datasketches/common/include/quantiles_sorted_view_impl.hpp:65-74 | the share of the weight up to, or strictly below, the item; none for an empty view |
| `SortedViews.QuantilesSortedView.GetQuantile` | src/datasketches/common/include/quantiles_sorted_view_impl.hpp:77-85 | inclusive: the least retained item whose inclusive rank reaches r; exclusive: the greatest whose exclusive rank does not exceed r |
| `SortedViews.Adjoint` | src/datasketches/common/include/quantiles_sorted_view_impl.hpp:65-85 | an item's inclusive rank reaches r exactly if it is no less than the inclusive quantile of r, and dually for exclusive ranks |

## Left out

- CpcSketches.CpcSketch.RowColUpdate: asks for `Absorbable` sets of coupons, because beyond them the code has undefined behaviour (a table that outgrows the coupon universe) or throws (an offset above 56).
- CpcRuns.CollectAll: asks that each step has room, as `RowColUpdate` does.
- U32Tables.U32Table.Rebuild: a new size above num_valid_bits, for which the slot of an item is an undefined shift, and one above 2^30, which `1 << lg_size` cannot stand for.
- U32Tables.U32Table.MaybeInsert: the case of `OutgrowsUniverse`, behind which the shift in lookup, or that of the size, is undefined.
- Sorting.IntrospectiveInsertionSort: when it hands over to the shell sort, and Sorting.KnuthShellSort3: its gaps other than the last; they decide the speed, not the result.
- PairLists.Merge: an output that overtakes an input in its own array.
- CpcUnions.CpcUnion.InternalUpdate: asks for room at each step of the walk into a sparse accumulator, which is the order of the source's slots.
- CpcUnions.UpdateAll: asks for room whatever the slots are, because the slots of later states are not known before the run; `UpdateNext` asks for that of the actual walk. Sizes within a factor of 256 always have room.
- CpcUnions.CpcUnion.GetResult: asks, of a bit matrix, for a count below 475/8 K and for a table that does not outgrow the universe.
- CpcUnions.CpcUnion.GetResultFromBitMatrix: asks for the same.
- CompressorLimits.WrongPhase: names one count for each lg_k; the counts that wrap around are many more.
- CpcUtil.FloorLog2OfLong: arguments above 2^63, for which the loop of the code does not end.
- CpcUtil.CountBitsSetInMatrix: an empty array, for which the unsigned loop bound of the code wraps around.
- XxHash64.XXHash64.Add: chunks so long that the sum of two 64-bit lengths would wrap around.
- XxHash64.Word: 64-bit reads are little-endian, which the code assumes too.
- FrequentItems.FrequentItemsSketch.Merge: merging a sketch with itself, which changes the map during the iteration.
- FrequentItems.FrequentItemsSketch.Update: weights are natural numbers; signed and floating-point weights, their check for negative ones, and the wrap-around of 64-bit sums are not modelled.
- PurgeMaps.ReversePurgeHashMap.AdjustOrInsert: when the drift limit of 1024 is reached, which takes 1023 held slots in a row, nothing is said about the state behind the exception.
- SortedViews.QuantilesSortedView.GetQuantile: ranks and weights are exact; the rounding of `double` products is not modelled.
- CpcCompressors.CpcCompressor.constructor: the 22 byte codes and the 16 column permutations are arbitrary complete prefix codes and permutations; that the concrete tables are such is what `validate_decoding_table` checks at start-up.
- CpcCompressors.CpcCompressor.Compress: when the code does not fit into `table_data`, nothing is said about what the writes past its end do.
- BitCodes.SufficientPairBuf: with products as mathematical integers; `SafePairBuf` and `AlwaysOverrun` are about the 32-bit ones.
- HIP and ICON estimates, kxp, confidence bounds: floating-point statistics.
- Seeds and seed hashes, MurmurHash3, `std::hash` and `fmix64`: hashes are arbitrary functions.
- Serialization of preambles and fields, string forms, allocators, copy and move operations, the R bindings: plumbing around these cores.
- `first_interesting_column` travels in the preamble; the compressor does not touch it.
- `get_CDF` and `get_PMF` of the sorted view, `get_apriori_error`: one-line uses of what is modelled.
- HLL, theta, tuple, KLL, REQ, t-digest, VarOpt, EBPPS, Bloom filter, Count-Min and density sketches are not part of this model.
