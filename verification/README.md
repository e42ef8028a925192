# Strided N-dimensional arrays: a Dafny model

This project models the shape and indexing calculus of a C++ header-only
library for multi-dimensional arrays (`array`, `array_ref`, `shape`, `dim`),
together with the algorithms and the owning array built on top of it.

- A **dimension** `dim<>(min, extent, stride)` is a range of integer
  coordinates `[min, min + extent)` and the distance in memory between
  consecutive coordinates. A **shape** is a sequence of dimensions.
  `shape(i)` maps a multi-index to a flat offset, the sum of
  `i_k * stride_k`.
- Strides may be left unknown. `resolve()` picks each unknown stride as the
  smallest candidate (1, or the reach `|stride| * extent` of an already known
  dimension) whose footprint does not overlap a known dimension.
  `make_compact` is `resolve()` after forgetting every stride that the
  dimension's type does not fix.
- `flat_min`, `flat_max` and `flat_extent` bound the offsets in use.
  `is_compact()` holds when every slot of the flat extent is used, and
  `is_one_to_one()` when no slot is used twice.
- `for_all_indices` and `for_each_index` visit the domain, in natural order
  (dimension 0 fastest) or in a loop order given by a permutation.
- An **array_ref** is a view: a memory (a partial map from addresses to
  values, or null), a base address and a shape. Slicing, cropping and
  `reinterpret` produce new views of the same memory.
- The **algorithms** `fill`, `generate`, `copy`, `move` and `equal` act on
  views. `copy`/`move` fail with an out-of-range error unless the
  destination's domain lies inside the source's.
- An **array** owns its storage: one slot per offset of the flat extent,
  addressed by `offset - flat_min`. Constructors, assignment, `clear` and
  destruction are modelled together with a tally of element lifetime events
  (default/copy/move constructions, copy/move assignments, destructions).

Modules, in dependency order: `Wrappers` (Option/Result and the error
codes), `Dims`, `Shapes`, `Domains` (natural-order enumeration),
`Perms` (permutations), `Transforms` (transpose, reorder, rank conversion),
`Resolution` (stride resolution and `make_compact`), `Layout` (compactness
and one-to-one-ness), `Iteration` (`for_each_index` with a loop order),
`Views` (`array_ref`), `Algorithms` and `Arrays`.

The library's header is not part of this model; its behaviour is pinned by
the library's test files, which every row below cites. Where the tests
leave a choice open, the model fixes one reading:

- The offset of an index is the sum of `i_k * stride_k`; it does not first
  subtract each dimension's min. No test decides between the two readings:
  every offset the tests compare directly has all mins 0
  (test/shape.cpp:60-76), where both readings agree, and the storage slot
  `s(i) - flat_min` of test/shape.cpp:488-490 is the same under both,
  because subtracting the mins shifts every offset and `flat_min` by the
  same amount.
- `resolve()` visits unknown dimensions in dimension order:
  test/shape.cpp:78-81 expects strides 3 and 30, which visiting the
  smallest extent first would not produce.
- A reach below 1 (a dimension of extent 0) counts as 1, so the candidate
  0 never wins; this is what test/shape.cpp:120-135 needs for its extent-0
  dimension.
- Cropping keeps the coordinates and the base address, so a cropped view
  reads the same element at the same index (test/array_ref.cpp:184-194).

## Model

| member | source | states |
|---|---|---|
| Dims.Clamp | test/shape.cpp:218-224 | the clamped coordinate lies in a non-empty dimension, equals the input when the input is already valid, and is no farther from the input than any valid coordinate |
| Dims.ClampExample | test/shape.cpp:218-224 | clamping to `dim<>(5, 10)` gives `max(min(i, 14), 5)` for every integer i |
| Dims.IntervalInRange | test/shape.cpp:344-356 | a non-empty interval is in range of a dimension exactly when its first and its last coordinate are both valid coordinates of the dimension |
| Dims.PointInterval | test/shape.cpp:344-356 | a one-element interval is in range exactly when its coordinate is |
| Dims.IntervalInRangeIffContained | test/shape.cpp:344-356 | checking the two ends of a non-empty interval is the same as checking every coordinate in it |
| Dims.InRangeExample | test/shape.cpp:344-356 | for `dim<>(2, 5)`, coordinates 2..6 are in range, its own interval is in range, and the intervals (1, 2) and (8, 2) are not |
| Dims.ContributionBounds | test/shape.cpp:60-76 | a valid coordinate's contribution to the offset lies between the dimension's smallest and largest contributions, whatever the stride's sign |
| Shapes.Offset | test/shape.cpp:24-76 | definition only, no contract: the offset of an index is the sum of coordinate times stride; OneDimExample, TwoDimExamples, OffsetBounds and FlatMinAttained state what the tests check of it |
| Shapes.Size | test/shape.cpp:24-76 | definition only, no contract: the product of the extents, 1 for rank 0; SizePositive and ScalarShape state its properties |
| Shapes.FlatMin | test/shape.cpp:60-76 | definition only, no contract: the sum of each dimension's least contribution `x * stride`; OffsetBounds and FlatMinAttained show it is the least in-domain offset |
| Shapes.FlatMax | test/shape.cpp:60-76 | definition only, no contract: the sum of each dimension's greatest contribution; OffsetBounds and FlatMaxAttained show it is the greatest in-domain offset |
| Shapes.FlatExtent | test/shape.cpp:24-76 | a shape needs no buffer slots exactly when it has no elements |
| Shapes.SizePositive | test/array_ref.cpp:76-81 | a shape has elements exactly when every extent is positive |
| Shapes.ScalarShape | test/shape.cpp:24-29 | the rank-0 shape has size 1, flat extent 1, and maps its only index to offset 0 |
| Shapes.OneDimExample | test/shape.cpp:31-47 | in a 1-D shape, coordinate x maps to `x * stride`, so stride 1 is the identity |
| Shapes.TwoDimExamples | test/shape.cpp:49-76 | (j, i) maps to `10i + j` with row stride 10 and to `-10i + j` with row stride -10; the latter has size 50, flat extent 50, flat_min -40 and flat_max 9 |
| Shapes.BroadcastExample | test/shape.cpp:207-216 | a dimension of stride 0 never moves the offset, whatever its coordinate |
| Shapes.FlatBoundsOrdered | test/shape.cpp:60-76 | a non-empty shape has flat_min <= flat_max |
| Shapes.OffsetBounds | test/shape.cpp:60-76 | every in-domain index maps into [flat_min, flat_max] |
| Shapes.FlatMinAttained | test/shape.cpp:64-75 | flat_min is the offset of an in-domain index, so it is the least offset |
| Shapes.FlatMaxAttained | test/shape.cpp:64-76 | flat_max is the offset of an in-domain index, so it is the greatest offset |
| Shapes.IntervalsInRange | test/shape.cpp:358-392 | when the shape range check holds, the two ends of every non-empty interval are valid coordinates of its dimension; conversely, non-empty intervals whose ends are all valid pass the check |
| Shapes.PointIntervalsInRange | test/shape.cpp:358-392 | a shape contains an index exactly when it contains the one-element intervals at its coordinates |
| Shapes.ShapeInRangeExample | test/shape.cpp:373-392 | for the (2, 5) x (-3, 6) shape, (j, i) is in range iff 2 <= j < 7 and -3 <= i < 3, its own ranges are in range, and (1, 1) or (-4, 1) in either position are not |
| Domains.Indices | test/shape.cpp:226-270 | the natural-order enumeration has exactly size() entries; VisitsDomainExactlyOnce states that they are the domain, each once |
| Domains.IndicesAt | test/shape.cpp:226-270 | the p-th index visited in natural order is in the domain and has mixed-radix rank p |
| Domains.RankIndices | test/shape.cpp:226-270 | every in-domain index is visited, at the position given by its rank |
| Domains.RankInjective | test/shape.cpp:226-270 | two in-domain indices with the same rank are equal |
| Domains.VisitsDomainExactlyOnce | test/shape.cpp:226-270 | natural-order iteration visits only in-domain indices, never the same one twice, and every one of them |
| Domains.ScalarVisitedOnce | test/shape.cpp:226-234 | the rank-0 shape is visited exactly once, with the empty index |
| Perms.Inverse | test/shape.cpp:420-430 | the inverse permutation maps each dimension back to its position |
| Perms.PickInverse | test/shape.cpp:420-430 | rearranging by a permutation and then by its inverse, in either order, gives back the original sequence |
| Perms.SumPick | test/shape.cpp:272-283 | rearranging offset terms does not change their sum |
| Perms.ProductPick | test/shape.cpp:420-430 | rearranging extents does not change their product, the size |
| Transforms.Transpose | test/shape.cpp:420-430 | the transposed shape has the same rank as the input |
| Transforms.TransposeSize | test/shape.cpp:420-430 | transposing keeps the number of indices |
| Transforms.TransposeRoundTrip | test/shape.cpp:420-430 | transposing by the inverse permutation restores the shape |
| Transforms.IndexRoundTrip | test/shape.cpp:420-430 | permuting an index and un-permuting it are inverse operations |
| Transforms.OffsetTranspose | test/shape.cpp:420-430 | the transposed shape maps the permuted index to the same offset as the original |
| Transforms.DomainTranspose | test/shape.cpp:420-430 | the permuted index is in the transposed domain exactly when the index is in the original |
| Transforms.TransposeExample | test/shape.cpp:420-430 | `transpose<1, 2, 0>` of extents (3, 5, 8) has extents (5, 8, 3), and `reorder<2, 0>` of that has extents (3, 5) |
| Transforms.Reorder | test/shape.cpp:427-429 | dimension k of the result is dimension sel[k] of the input, so the rank may shrink |
| Transforms.ConvertShape | test/shape.cpp:394-418 | conversion fails with a shape mismatch exactly when the shape is incompatible with the target type; on success the original dimensions are kept, added dimensions have min 0 and extent 1, and every dimension fits its type |
| Transforms.AppendUnitDims | test/shape.cpp:415-417 | appending min-0, extent-1 dimensions with coordinate 0 changes neither domain membership nor the offset |
| Transforms.WidenOffset | test/shape.cpp:415-417 | the widened shape contains the index padded with zeros iff the original contains the index, at the same offset |
| Transforms.WidenedDomain | test/shape.cpp:415-417 | every index of the widened domain is an original index padded with zeros |
| Transforms.ConversionExamples | test/shape.cpp:400-417 | the dense (10, 5) shape is compatible with a dense 2-D type, the stride-2 shape is not, and converting to rank 3 adds a dimension with min 0 and extent 1 |
| Resolution.FindStride | test/shape.cpp:177-205 | the chosen stride is a candidate, at least 1, does not overlap any known dimension, and is the least candidate that does not |
| Resolution.Resolve | test/shape.cpp:84-118 | resolution keeps every min and extent and every known stride, and leaves no stride unknown |
| Resolution.ResolveIffStepwise | test/shape.cpp:177-205 | a resolved shape is the result of `resolve()` exactly when each unknown stride was chosen by the rule, given the dimensions before it |
| Resolution.ResolvedAvoids | test/shape.cpp:177-205 | each resolved stride does not overlap any dimension resolved before it or any dimension whose stride was known |
| Resolution.ResolveIdempotent | test/shape.cpp:84-118 | resolving an already resolved shape changes nothing |
| Resolution.DenseShapeResolve | test/shape.cpp:89-118 | the dense (10, 5) shape resolves to strides (1, 10) and the dense (10, 5, 20) shape to (1, 10, 50) |
| Resolution.AutoStridesNegative | test/shape.cpp:78-81 | extents (10, 5) followed by a known stride -1 of extent 3 resolve to strides 3 and 30 |
| Resolution.AutoStridesDense | test/shape.cpp:177-179 | one unknown dimension resolves to stride 1, and extents (5, 10) resolve to (1, 5) |
| Resolution.AutoStridesInterleaved | test/shape.cpp:186-193 | with known strides (20, 1) and (15, 1) the first dimension gets 3; with (14, 1) it gets 56 |
| Resolution.PackedResolve | test/shape.cpp:120-161 | when the known strides are those of packing the dimensions in some order, `resolve()` fills in exactly the packed strides |
| Resolution.AllUnknownResolve | test/shape.cpp:120-135 | with every stride unknown, each dimension gets the product of the earlier extents (extent 0 counting as 1), or 1 when its extent is below 2 |
| Resolution.AllUnknownExample | test/shape.cpp:120-135 | for extents 0, 1, ..., n - 1 each resolved stride is the product of the earlier extents, with 0 counting as 1 |
| Resolution.OneKnownPacks | test/shape.cpp:143-161 | with one stride known to be 1 and the rest unknown, resolution packs the known dimension first and the rest in order |
| Resolution.ReorderedResolve | test/shape.cpp:272-283 | extents (3, 5, 8) with the last stride known to be 1 resolve to strides (8, 24, 1) |
| Resolution.MakeCompact | test/shape.cpp:470-482 | `make_compact` keeps every min and extent and every stride its type fixes |
| Resolution.MakeCompactPacks | test/shape.cpp:470-482 | when no stride is fixed, `make_compact` packs the dimensions in order |
| Resolution.MakeCompactIdempotent | test/shape.cpp:470-482 | making a compact shape compact again changes nothing |
| Resolution.MakeCompactExamples | test/shape.cpp:470-482 | (3, 5, 2) becomes (3, 5, 1); (3, 5, 8), (1, 4, 1) becomes (3, 5, 1), (1, 4, 5); with the inner dimension dense it becomes (3, 5, 4), (1, 4, 1) |
| Layout.InOffsets | test/shape.cpp:484-498 | an address occurs in the visited offsets exactly when some in-domain index maps to it |
| Layout.IsCompact | test/shape.cpp:484-498 | the brute-force `is_compact()` (every slot of the flat extent counted at least once) holds exactly when every slot is the offset of some in-domain index |
| Layout.CountsCover | test/shape.cpp:484-498 | a count of at least one in every slot of the flat extent is the same as every slot being reached by an in-domain index |
| Layout.IsOneToOne | test/shape.cpp:484-498 | the brute-force `is_one_to_one()` (every slot of the flat extent counted at most once) holds exactly when no two different in-domain indices share an offset |
| Layout.CountsInjective | test/shape.cpp:484-498 | a count of at most one in every slot of the flat extent is the same as no two different in-domain indices sharing an offset |
| Layout.SharedOffset | test/shape.cpp:484-498 | two different indices at one offset make that slot counted twice, inside the flat extent |
| Layout.SlotHitTwice | test/shape.cpp:484-498 | a slot counted twice is the offset of two different in-domain indices |
| Layout.DenseOffset | test/shape.cpp:236-270 | in a dense shape, an index's offset is the offset of the mins plus its natural-order rank |
| Layout.DenseLayout | test/shape.cpp:236-270 | a dense shape is compact and one-to-one |
| Layout.TransposeSlots | test/shape.cpp:420-430 | transposing keeps the flat extent and, for a non-empty shape, flat_min |
| Layout.TransposedIndex | test/shape.cpp:420-430 | every index of a transposed domain comes from an index of the original domain with the same offset |
| Layout.TransposeLayout | test/shape.cpp:420-430 | transposing preserves both compactness and one-to-one-ness, in both directions |
| Layout.HistogramDecides | test/shape.cpp:484-498 | a per-slot hit count decides `is_compact()` (all counts >= 1) and `is_one_to_one()` (all counts <= 1) |
| Layout.CountAddresses | test/shape.cpp:484-498 | the counting loop over every visited offset returns, for each slot, how many indices hit it, and so decides both properties |
| Layout.PackingLayout | test/shape.cpp:500-507 | a shape whose strides pack the dimensions in some order resolves to a compact, one-to-one shape |
| Layout.AllUnknownLayout | test/shape.cpp:120-135 | with every stride unknown, the resolved shape is dense, compact and one-to-one |
| Layout.OneDenseStride | test/shape.cpp:143-161 | with one stride known to be 1, the resolved shape keeps that stride and is compact and one-to-one |
| Layout.OneDenseStrideFamily | test/shape.cpp:143-161 | for extents 1..n with any single stride known to be 1, the resolved shape has size n!, keeps that stride, and is compact and one-to-one |
| Layout.FactorialSize | test/shape.cpp:137-140 | a shape with extents 1..n has size n! |
| Layout.MakeCompactLayout | test/shape.cpp:470-482 | with no stride fixed, `make_compact` yields a compact, one-to-one shape |
| Iteration.VisitAtReaches | test/shape.cpp:285-342 | every in-domain index is visited at some step of a `for_each_index` loop |
| Iteration.VisitAtDistinct | test/shape.cpp:285-342 | two different steps of a `for_each_index` loop visit different indices |
| Iteration.ForEachIndex | test/shape.cpp:285-342 | `for_each_index` hands the callback exactly size() indices, each of them in the domain |
| Iteration.ForEachVisitsOnce | test/shape.cpp:285-342 | `for_each_index` with any loop order visits only in-domain indices, never twice, and all of them |
| Iteration.ForEachNatural | test/shape.cpp:295-329 | the identity loop order visits the indices in natural order |
| Iteration.DenseIteration | test/shape.cpp:318-342 | when the loop order makes the shape dense, the p-th visited index has offset `offset(mins) + p` |
| Iteration.ScalarIteration | test/shape.cpp:285-293 | the rank-0 shape is visited exactly once |
| Iteration.DenseLoopExamples | test/shape.cpp:259-283 | the dense (3, 5, 8) shape visits offsets 0..119 in order, and the shape with strides (8, 24, 1) does so with loop order (2, 0, 1) |
| Views.At | test/array_ref.cpp:22-41 | definition only, no contract: reads the view's memory at `base + offset(i)`; SliceAt, CropAt, ReinterpretAt and DenseRefExample state what the tests check of it |
| Views.SetShape | test/array_ref.cpp:76-81 | a new shape and base keep the memory; a null view stays empty, and a non-null one is empty exactly when some extent is 0 |
| Views.InsertRemove | test/array_ref.cpp:162-182 | removing a coordinate just inserted gives back the index |
| Views.Slice | test/array_ref.cpp:162-182 | slicing dimension k drops dimension k and keeps all other dimensions unchanged |
| Views.SliceAddress | test/array_ref.cpp:162-182 | the slice maps an index to the address of the full index with the sliced coordinate re-inserted, and it is in the slice's domain iff the full index is |
| Views.SliceAt | test/array_ref.cpp:162-182 | a slice reads the element of the full view at the re-inserted index |
| Views.Crop | test/array_ref.cpp:174-194 | cropping fails out of range exactly when an interval is not inside its dimension; on success it keeps memory, base and strides and takes the intervals as the new ranges |
| Views.CropAt | test/array_ref.cpp:184-194 | a crop reads the same element as the original view at the same index |
| Views.CropFull | test/array_ref.cpp:190-194 | cropping to the view's own ranges gives back the view |
| Views.CropKeepsPattern | test/array_ref.cpp:184-194 | a pattern that holds on a view holds on every crop of it |
| Views.Reinterpret | test/array_ref.cpp:43-60 | the reinterpreted view keeps the base and the shape, and is null exactly when the original is |
| Views.ReinterpretAt | test/array_ref.cpp:43-60 | a reinterpreted view reads the converted value of the original element |
| Views.ReinterpretRoundTrip | test/array_ref.cpp:43-60 | reinterpreting with a conversion and then with its inverse restores the view |
| Views.DenseRefExample | test/array_ref.cpp:22-41 | a dense 1-D view of 0..99 reads x at x, and the dense (20, 5) view reads `20y + x` at (x, y) |
| Views.EvensExample | test/array_ref.cpp:62-74 | the stride-2 view of 0..99 reads 2i at i |
| Views.NullViewExample | test/array_ref.cpp:76-81 | a null view is empty, and stays empty after `set_shape` |
| Views.CropSliceExamples | test/array_ref.cpp:158-195 | the slices and crops of the (8, 9) array have the expected dimensions: slicing drops a dimension, cropping keeps strides and takes the requested ranges |
| Algorithms.Store | test/array.cpp:118-143 | writing a value per index keeps base, shape, and whether the memory is null |
| Algorithms.StoreAt | test/array.cpp:17-116 | through a one-to-one shape, each index reads back the value written for it |
| Algorithms.StoreElsewhere | test/array.cpp:135-142 | addresses that no index maps to keep their old contents |
| Algorithms.StoreKeys | test/array.cpp:118-143 | after a write, an address holds a value iff it did before or some index maps to it |
| Algorithms.Fill | test/algorithm.cpp:20-29 | `fill` keeps the view's base and shape and leaves a null view null; FillAt states the values |
| Algorithms.FillAt | test/algorithm.cpp:20-29 | after `fill`, every in-domain index reads the fill value |
| Algorithms.FillElsewhere | test/array.cpp:135-142 | `fill` leaves addresses outside the domain untouched |
| Algorithms.Generate | test/algorithm.cpp:20-29 | `generate` keeps the view's base and shape and leaves a null view null; GenerateAt states the values |
| Algorithms.GenerateAt | test/algorithm.cpp:20-29 | after `generate`, each in-domain index of a one-to-one view reads the generator's value for that index |
| Algorithms.CopyInRangeIff | test/algorithm.cpp:42-64 | the range check of `copy` (each destination range inside the source dimension) holds exactly when every destination index is a source index |
| Algorithms.Copy | test/algorithm.cpp:42-64 | `copy` fails out of range exactly when the destination is non-empty and some destination range leaves the source; on success it keeps the destination's base and shape |
| Algorithms.CopyAt | test/algorithm.cpp:42-64 | after a successful copy, each destination index reads the source's element at the same index |
| Algorithms.Equal | test/algorithm.cpp:20-29 | `equal` holds exactly when the domains agree and every index reads the same value in both |
| Algorithms.EqualReflexive | test/algorithm.cpp:20-29 | every view equals itself |
| Algorithms.CopyThenEqual | test/algorithm.cpp:56-59 | after a successful copy, the source cropped to the destination's ranges equals the destination |
| Algorithms.FillThenUnequal | test/algorithm.cpp:24-28 | a view filled with 0 is not equal to a view holding a non-zero element |
| Algorithms.Drain | test/algorithm.cpp:66-89 | the moved-from source keeps its base and shape |
| Algorithms.DrainAt | test/algorithm.cpp:66-89 | after a move, each source element inside the destination holds the moved-from form of its old value |
| Algorithms.Move | test/algorithm.cpp:66-89 | `move` fails exactly when `copy` would, with the same error; on success the destination is what `copy` gives and the source keeps its base and shape |
| Algorithms.MoveKeepsValues | test/algorithm.cpp:80-84 | for types whose moved-from value is unchanged, `move` leaves the source as it was |
| Algorithms.CroppedDstInRange | test/algorithm.cpp:47-53 | a destination cropped by crop_min, crop_max in {-1, 0, 1} is in range exactly when neither is negative |
| Algorithms.CopyCropCases | test/algorithm.cpp:42-89 | exactly 4 of the 9 crop combinations pass the range check |
| Arrays.Empty | test/array.cpp:224-233 | a default-constructed array of any rank is empty and valid, and destroying it destroys nothing |
| Arrays.Construct | test/array.cpp:17-50 | default construction gives an array of the requested shape with storage, and counts one default construction per element |
| Arrays.FillConstruct | test/array.cpp:52-81 | fill construction gives an array of the requested shape and counts one copy construction per element |
| Arrays.ConstructAt | test/array.cpp:17-81 | both constructors give a valid array in which every in-domain index reads the initial value |
| Arrays.ConstructOnlyDomain | test/array.cpp:118-143 | construction touches exactly the slots that in-domain indices map to |
| Arrays.Destroy | test/array.cpp:186-252 | destroying an array counts one destruction per live element and changes no other counter |
| Arrays.Clear | test/array.cpp:47-49 | `clear()` leaves a valid, empty array of the same rank, with no live element, and counts the destructions of the old elements |
| Arrays.ClearIdempotent | test/array.cpp:47-49 | clearing a cleared array changes nothing |
| Arrays.CopyConstruct | test/array.cpp:204-212 | the copy has the source's shape and counts one copy construction per live element |
| Arrays.CopyConstructEqual | test/algorithm.cpp:20-27 | a copy-constructed array is valid and equal to its source |
| Arrays.MoveConstruct | test/array.cpp:214-222 | the new array takes the source as it is, the source becomes empty, and nothing is counted |
| Arrays.CopyAssign | test/array.cpp:224-233 | `dst = src` gives `dst` the source's shape, and storage exactly when the source has storage; assigning into an array without storage counts one copy construction per source element and destroys nothing |
| Arrays.MoveAssign | test/array.cpp:235-244 | move assignment takes the source as it is, empties the source, and counts only the destructions of the old contents |
| Arrays.Assign | test/array.cpp:83-116 | `assign(shape, value)` gives the requested shape with storage; an array that had no storage, or another shape, destroys its live elements and copy-constructs one element per index of the new shape |
| Arrays.AssignAt | test/array.cpp:83-116 | after `assign(shape, value)`, every in-domain index reads the value |
| Arrays.AssignInPlace | test/array.cpp:118-133 | assigning with an unchanged shape is `fill` on the array's own storage |
| Arrays.AssignElsewhere | test/array.cpp:135-142 | assigning with an unchanged shape leaves slots that no index maps to as they were |
| Arrays.SparseSlot | test/array.cpp:118-142 | after filling the flat extent with w and assigning v != w, a slot still holds w exactly when no index maps to it |
| Arrays.SparseAssignUntouched | test/array.cpp:135-142 | for a one-to-one shape, the number of slots still holding w is flat_extent - size |
| Arrays.OccupiedSlots | test/array.cpp:135-142 | a one-to-one shape hits exactly size slots of its flat extent |
| Arrays.SparseLayout | test/array.cpp:118-120 | the (-2, 5, 2) x (4, 10, 20) shape has size 50, flat_min 76 and flat extent 189, and is one-to-one |
| Arrays.SparseArrayExample | test/array.cpp:118-143 | on that shape, 139 slots are left untouched |
| Arrays.DefaultInitLifetime | test/array.cpp:186-193 | default construction followed by destruction counts size default constructions and size destructions |
| Arrays.CopyInitLifetime | test/array.cpp:195-202 | fill construction from a temporary counts size copy constructions and size + 1 destructions |
| Arrays.CopyLifetime | test/array.cpp:204-212 | copy construction counts size copies, and destroying both arrays counts 2 * size destructions |
| Arrays.MoveLifetime | test/array.cpp:214-222 | move construction counts no construction, and destroying both arrays counts size destructions |
| Arrays.CopyAssignLifetime | test/array.cpp:224-233 | copy assignment into an empty array counts size copies, and destroying both counts 2 * size destructions |
| Arrays.MoveAssignLifetime | test/array.cpp:235-244 | move assignment into an empty array counts no copy, and destroying both counts size destructions |
| Arrays.MoveAssignTally | test/array.cpp:235-244 | after a move assignment and destruction of both arrays, the only change is one destruction per live element of the two original arrays |
| Arrays.ClearLifetime | test/array.cpp:246-252 | construction followed by `clear()` counts size default constructions and size destructions |
| Arrays.MakeDenseCopy | test/array_ref.cpp:62-74 | `make_dense_copy` has the view's domain, holds storage, and counts one copy per element |
| Arrays.MakeDenseCopyAt | test/array_ref.cpp:62-74 | the dense copy is compact, one-to-one and valid, and reads the view's element at every index |
| Arrays.EvensCopyExample | test/array_ref.cpp:62-74 | the dense copy of the stride-2 view of 0..99 reads 2i at i |

## Left out

- `dynamic_optimize_shape` (test/shape.cpp:432-468): it rewrites a shape into an equivalent one with fewer dimensions. Its heuristics live in the header, which is not part of this model.
- Compile-time dimension types and the implicit conversions between reference types (test/array_ref.cpp:83-144). These are C++ overload resolution with no run-time behaviour. `DimType` keeps only the fixed min, extent and stride that `is_compatible` and `convert_shape` check.
- Allocators, raw pointers and `data()`. Memory is a map from addresses to values. An array's storage is a map from `offset - flat_min` to values.
- `reinterpret` between types of different sizes, and the bit-level float/int conversion of test/array_ref.cpp:43-60. The conversion is a parameter `f`. The model only states that the reinterpreted view reads `f` of the original element.
- The algebraic implementation of `is_compact()` and `is_one_to_one()`. The header is not part of this model, so both are defined by the brute-force slot counts that test/shape.cpp:484-498 compares them against.
- The disabled test vectors at test/shape.cpp:182-184 and test/shape.cpp:505-506. They are commented out in the source, and the model makes no claim about them.
- `rand`, used by `generate`: the generator is an arbitrary function from indices to values.
- Exceptions. The out-of-range and shape-mismatch exceptions are `Failure(OutOfRange)` and `Failure(ShapeMismatch)` results.
- examples/linear_algebra/matrix.cpp is not part of this model.
- Aliasing between views and in-place mutation through shared memory. The algorithms return new views, and callers see the result only through the returned value.
- Arrays.MoveConstruct: it counts no move constructions, because the model hands the whole buffer over; an element-wise move is not modelled.
- Arrays.Empty: a default-constructed or cleared array has extents 0 and null storage. The exact mins and strides the header picks are not visible in the tests.
- Shapes.FlatExtent: it is 0 for a shape with no elements. The header's value there is not visible in the tests.
- Algorithms.Copy: copying into an empty destination succeeds and changes nothing, whatever the source.
- Arrays.DefaultInitLifetime: this and the other lifetime lemmas are stated for every shape, not only the sparse shape of test/array.cpp:183-184.
- Shapes.Offset: it sums `i_k * stride_k` without first subtracting each dimension's min. The other reading shifts every offset and `flat_min` by the same constant, so no test decides between them (every directly compared offset has mins 0, and storage is addressed by `s(i) - flat_min`). Offsets of views with non-zero mins follow this choice.
- Algorithms.Equal: arrays whose domains differ compare unequal (false). The header may instead fail with a shape mismatch when the extents differ. test/algorithm.cpp:20-29 compares only arrays of the same shape, so no test decides.
- Arrays.CopyAssign: when both arrays hold storage and have the same shape, the model counts one copy assignment per element and no construction or destruction. No test pins this tally; test/array.cpp:224-233 assigns only into an array without storage.
- Arrays.Assign: when the array holds storage and the shape is unchanged, the model counts one copy assignment per element and no construction or destruction. No test pins this tally; test/array.cpp:83-116 and 118-143 check only the values. Storage is reused only when the new shape equals the old one, which is what test/array.cpp:118-143 needs; a header that also reuses storage for other same-sized shapes is not modelled.
- Integer width: `index_t` is an unbounded integer, so offset overflow is not modelled.
