# Physical-region registry and integer helpers of a finite-element mesh library

This project is a Dafny model of two parts of the mesh layer of sparselizard.

- **The physical-region registry** (`src/mesh/physicalregions.cpp`). A physical region is a named group of disjoint regions. The registry keeps two parallel vectors: the region numbers and the regions. It looks regions up and creates them lazily on lookup (`get`). It answers queries by number, by index and by element dimension. It removes regions and can hand the removal mask on to the disjoint-region structure. It builds new regions by union (concatenation), intersection (left to right) and exclusion (an order-preserving filter). Each new region is registered under the number one above the current maximum.
- **The integer helpers of `myalgorithm`** (`src/mesh/myalgorithm.h`). These are: stable index sort of integers, `splitvector` by a boolean selection, `intersect`, `concatenate`, `duplicate`, `getequallyspaced`, `getplurals`, `inttobinary`/`binarytoint`, `factorial`, `identifyrelations`, `chainrenumbering` and `invertrenumbering`.

The model is functional. A registry is a value `Registry(numbers, regions)`. Each operation is a pure function that returns the new registry together with its result. A region is the record `PhysicalRegion(dim, disjregs, nelems)`, so `getdisjointregions(-1)`, `getelementdimension()` and `countelements()` are field reads. When a region is given a disjoint-region list, its element dimension and element count come from the externally owned disjoint-region structure. That structure is a parameter of type `DisjointRegions`.

The constructors call `errorundefined`, which aborts on an unregistered number. In the model they return `Undefined(id)` instead, carrying the first unregistered number. No registry is produced in that case, so nothing has been changed. The problem dimension that `createunionofall` reads from the global mesh is a parameter.

`createunion` concatenates the input lists and keeps repetitions. In the model, which stores a region's disjoint-region list exactly as given, such a list may therefore repeat entries, and every operation keeps them, exclusion included.

The model follows the declarations and comments of `myalgorithm.h`, not the bodies in `myalgorithm.cpp`. Each helper is given a body that meets its header comment, and the contracts state what the comment promises:

- `intersect` keeps the entries of the first list that occur in the second, in the first list's order. Only membership is claimed about it: no contract or lemma states the order or the repetitions of its result.
- `inttobinary` writes the most significant bit first.
- `identifyrelations` is the Lehmer code. The lemmas about it claim exactly what the comment promises: the range [0, n! - 1], and one distinct number for each combination of order relations. The code is defined for any numbers, and only the uniqueness direction needs them pairwise distinct, as the source demands.
- `factorial` is the product 1 * 2 * ... * n.

## Model

| member | source | states |
|---|---|---|
| `PhysicalRegions.GetIndex` | src/mesh/physicalregions.cpp:181-189 | -1 exactly when the number is not registered; otherwise a position holding the number (so `getnumber` of it gives the number back), with no earlier position holding it |
| `PhysicalRegions.GetNumber` | src/mesh/physicalregions.cpp:176-179 | the number at a position is registered, and in a registry without repeated numbers `getindex` of it gives the position back |
| `PhysicalRegions.Get` | src/mesh/physicalregions.cpp:109-124 | a registered number returns its region and leaves both vectors unchanged. An absent number appends exactly one empty region under it at the end, and returns that region. Numbers stay pairwise distinct |
| `PhysicalRegions.GetAtIndex` | src/mesh/physicalregions.cpp:109-129 | when no number is registered twice, the region at a position is what `get` returns for that position's number, and `get` then changes nothing |
| `PhysicalRegions.GetMaxPhysicalRegionNumber` | src/mesh/physicalregions.cpp:104-107 | for a non-empty registry: a registered number that is at least every registered number |
| `PhysicalRegions.Count` | src/mesh/physicalregions.cpp:131-145 | `count(-1)` is the registry size; any other `count(d)` is at most the registry size |
| `PhysicalRegions.CountDimMarks` | src/mesh/physicalregions.cpp:136-144 | `count(d)` for d other than -1 is the number of positions whose region has element dimension d |
| `PhysicalRegions.GetAllNumbers` | src/mesh/physicalregions.cpp:156-174 | has length `count(d)`; is the whole number vector for -1; is a subsequence of the number vector (registry order); holds exactly the numbers whose region has dimension d |
| `PhysicalRegions.SumElementsSplit` | src/mesh/physicalregions.cpp:147-154 | the element count of a list of regions is the count of the regions a selection keeps plus the count of those it drops |
| `PhysicalRegions.TagRemoved` | src/mesh/physicalregions.cpp:193-201 | the mask has the pre-removal length. A flag is set exactly where a listed number is first found. Unregistered numbers set nothing |
| `PhysicalRegions.RemoveKeptMembers` | src/mesh/physicalregions.cpp:203-215 | compaction keeps exactly the numbers that are not listed |
| `PhysicalRegions.RemoveKept` | src/mesh/physicalregions.cpp:203-215 | compaction keeps a valid registry, and keeps all of it when no listed number is registered |
| `PhysicalRegions.Remove` | src/mesh/physicalregions.cpp:191-219 | the kept (number, region) entries are a subsequence of the old ones (original order, pairs intact). They hold exactly the numbers not listed, and the registry stays valid. Absent numbers are ignored. With propagation the mask is handed on, one flag per old position, set exactly at the removed ones. The kept element count plus that of the removed regions is the old element count |
| `PhysicalRegions.RemovedRegions` | src/mesh/physicalregions.cpp:193-215 | the regions removal drops are exactly the regions registered under a listed number |
| `PhysicalRegions.ErrorUndefined` | src/mesh/physicalregions.cpp:221-231 | no error exactly when every listed number is registered; otherwise the error names the first listed number that is not registered |
| `PhysicalRegions.Register` | src/mesh/physicalregions.cpp:22-25 | the new number is the old maximum plus one and was not registered. The registry grows by exactly that one entry at the end, holding the given list, and stays valid |
| `PhysicalRegions.UnionList` | src/mesh/physicalregions.cpp:14-21 | the union list's length is the sum of the listed regions' list lengths (repetitions kept), and it holds exactly their disjoint regions |
| `PhysicalRegions.CreateUnion` | src/mesh/physicalregions.cpp:10-28 | fails exactly when an undefined number is listed, naming the first listed number that is not registered (as `errorundefined` does), and then registers nothing. Otherwise it registers one new region (number max + 1) holding the union list of the listed regions |
| `PhysicalRegions.UnionAppendsEach` | src/mesh/physicalregions.cpp:14-21 | adding one more listed region appends its disjoint regions to the union of the ones before it, as each turn of the accumulating loop does |
| `PhysicalRegions.UnionOfJoined` | src/mesh/physicalregions.cpp:14-21 | the union list over `ids1 + ids2` is the union list over `ids1` followed by the one over `ids2` |
| `PhysicalRegions.IntersectAll` | src/mesh/physicalregions.cpp:34-44 | no inputs give the empty list; one input gives that input's list; otherwise an entry is in the result exactly when it is in every input |
| `PhysicalRegions.CreateIntersection` | src/mesh/physicalregions.cpp:30-51 | fails exactly when an undefined number is listed, naming the first listed number that is not registered (as `errorundefined` does). Otherwise it registers one new region (number max + 1). With one input its list is that input's list. Otherwise it holds exactly the disjoint regions common to all inputs |
| `PhysicalRegions.Exclude` | src/mesh/physicalregions.cpp:63-78 | the result is a subsequence of the first list (order kept) holding exactly its entries absent from the second |
| `PhysicalRegions.ExcludeCovered` | src/mesh/physicalregions.cpp:63-78 | excluding a list from one containing all its entries, itself in particular, leaves nothing |
| `PhysicalRegions.ExclusionIsSplit` | src/mesh/physicalregions.cpp:63-78 | exclusion is exactly the false half of splitting a list by membership in another; the true half holds exactly the common entries; the halves' lengths add up to the list's |
| `PhysicalRegions.CreateExclusion` | src/mesh/physicalregions.cpp:53-86 | fails exactly when either number is undefined, naming `input` first. Otherwise it registers one new region (number max + 1). Its list is the exclusion of `toexclude`'s list from `input`'s: the order-kept subsequence of `input`'s list without `toexclude`'s entries, every copy of a kept entry included. It is empty when both are the same region |
| `PhysicalRegions.CreateUnionOfAll` | src/mesh/physicalregions.cpp:88-102 | never fails on a non-empty registry. It registers one new region (number max + 1) whose list is the union list of the regions whose dimension is the problem dimension, taken in registry order (so order, repetitions and length are those of `createunion` on them), and holds exactly their disjoint regions |
| `PhysicalRegions.ClearAsWritten` | src/mesh/physicalregions.cpp:233-237 | `clear` as written: every count, every number query and the element count answer as before the call |
| `PhysicalRegions.ClearAsWrittenKeepsRegions` | src/mesh/physicalregions.cpp:233-237 | on a registry with one region, `clear` as written still counts one region, while the intended `clear` counts none |
| `PhysicalRegions.Clear` | src/mesh/physicalregions.cpp:233-237 | the intended `clear`: a valid registry with no regions, no numbers of any dimension and no elements |
| `MyAlgorithm.StableSort` | src/mesh/myalgorithm.h:40-41 | the reordering vector is a permutation of [0, n). The keys it visits are ascending. Equal keys keep their original relative order |
| `MyAlgorithm.SplitVector` | src/mesh/myalgorithm.h:78-79 | the halves' lengths add up to the input's length, and `trues` has one entry per true flag |
| `MyAlgorithm.SplitThenMerge` | src/mesh/myalgorithm.h:78-79 | merging the halves along `select` rebuilds the input, so the split loses, duplicates and reorders nothing |
| `MyAlgorithm.SplitMergeRoundTrip` | src/mesh/myalgorithm.h:78-79 | splitting a merge along the same selection gives the halves back |
| `MyAlgorithm.SplitMembers` | src/mesh/myalgorithm.h:78-79 | `falses`/`trues` hold exactly the entries at positions where `select` is false/true |
| `MyAlgorithm.SplitSubsequences` | src/mesh/myalgorithm.h:78-79 | each half keeps the input's order (is a subsequence of it) |
| `MyAlgorithm.Intersect` | src/mesh/myalgorithm.h:56 | holds exactly the values in both lists, and is no longer than the first |
| `MyAlgorithm.Concatenate` | src/mesh/myalgorithm.h:140-141 | a single part is returned unchanged; the length is the sum of the part lengths; it holds exactly the parts' entries. With `ConcatenateAppend` this fixes the result as the parts in order, one after the other |
| `MyAlgorithm.ConcatenateAppend` | src/mesh/myalgorithm.h:140-141 | concatenating joined lists of parts is concatenating each and joining; with the single-part case of `Concatenate` it fixes the in-order concatenation |
| `MyAlgorithm.Duplicate` | src/mesh/myalgorithm.h:99-100 | n copies: length n times the input's, entry k equal to input entry k mod the input length |
| `MyAlgorithm.GetEquallySpaced` | src/mesh/myalgorithm.h:96-97 | `amount` numbers; entry i is `start + i * space` |
| `MyAlgorithm.IntToBinary` | src/mesh/myalgorithm.h:105-106 | the bit vector has `numbits` entries |
| `MyAlgorithm.BinaryToInt` | src/mesh/myalgorithm.h:105-107 | the value of an n-bit vector is below 2^n |
| `MyAlgorithm.BinaryRoundTrip` | src/mesh/myalgorithm.h:105-107 | `binarytoint(inttobinary(n, x)) == x` for 0 <= x < 2^n |
| `MyAlgorithm.BitsRoundTrip` | src/mesh/myalgorithm.h:105-107 | `inttobinary(|b|, binarytoint(b)) == b` for every bit vector |
| `MyAlgorithm.FactorialRecurrence` | src/mesh/myalgorithm.h:113-114 | `factorial(0) == 1`, `factorial(n) == n * factorial(n - 1)` for n >= 1, and every factorial is positive |
| `MyAlgorithm.IdentifyRelationsRange` | src/mesh/myalgorithm.h:109-111 | the identifier lies in [0, n! - 1] |
| `MyAlgorithm.SameRelationsSameId` | src/mesh/myalgorithm.h:109-110 | numbers with the same order relations get the same identifier |
| `MyAlgorithm.SameIdSameRelations` | src/mesh/myalgorithm.h:109-110 | for pairwise distinct numbers, equal identifiers imply the same order relations, so each combination of relations has its own identifier |
| `MyAlgorithm.ChainPermutations` | src/mesh/myalgorithm.h:125-126 | chaining two permutations gives a permutation |
| `MyAlgorithm.InvertRenumbering` | src/mesh/myalgorithm.h:128-129 | for a permutation the result is a permutation, and chaining it with the input in either order gives the identity |

## Findings

| source | as written | input that shows it | evidently intended | confidence | as-written member | corrected member |
|---|---|---|---|---|---|---|
| src/mesh/physicalregions.cpp:233-237 | `clear` declares two local vectors with the members' names and assigns nothing to the members, so the registry is unchanged | a registry with one region: after `clear`, `count(-1)` is still 1 | both vectors emptied | high (not executed) | `PhysicalRegions.ClearAsWrittenKeepsRegions` | `PhysicalRegions.Clear` |

## Left out

- The floating-point routines of `myalgorithm` are not modelled: `stablecoordinatesort`, the double `stablesort` overloads, `removeduplicatedcoordinates`, `slicecoordinates`, `findinterval`, `getcoordbounds`, `normblocks`, `assignedgenumbers`, `getroot` and `getreferencecoordinates`. They rest on tolerance-based floating-point comparison and Newton iteration, and on `polynomials`/`coordinategroup`, which are not part of this model.
- `tuple3sort`, `toaddressdata`, `reorder` and `separate` mix integer and floating-point data and state no ordering contract.
- The floating-point `splitvector(tosplit, blocklen)` overload is not modelled; its comment does not say whether blocks are contiguous or interleaved.
- `getreordering` is not modelled. Its comment does not say what it yields for a renumbering that merges entries.
- `csrtoijk` works on raw C arrays of unknown length. `osclean`, `getfileextension` and `getfilename` are string utilities outside this core.
- `src/shapefunction/lagrange/lagrangetriangle.h` and `src/gausspoint/gppyramid.h` are declarations of polynomial shape functions and quadrature tables; they are not part of this model.
- The `physicalregion` and `disjointregions` classes are not part of this model. A region's stored disjoint-region list is taken to be exactly the list it was given. Its element dimension and element count come from the `DisjointRegions` parameter.
- `mydisjointregions->removephysicalregions` is an external callback. `Remove` returns the mask it would receive instead.
- The `std::cout` diagnostic and `abort()` of `errorundefined` are not modelled as I/O. They become the `Undefined(id)` result.
- The global `universe::mymesh->getmeshdimension()` is not modelled. `CreateUnionOfAll` takes the problem dimension as a parameter.
- The constructor's back-reference to the disjoint-region structure is not modelled. The model keeps no heap state.
- PhysicalRegions.CreateUnion and PhysicalRegions.CreateIntersection require a non-empty registry when no number is listed, and PhysicalRegions.CreateUnionOfAll requires a non-empty registry. In those cases the source dereferences `std::max_element` of an empty range, which is undefined behaviour.
- PhysicalRegions.Register does not model 32-bit overflow of `max + 1` when the maximum number is the largest `int`.
- MyAlgorithm.StableSort is an insertion sort. Its result is fully determined by the stable order, but the O(n log n) running time of the library sort is not modelled.
- MyAlgorithm.StableSort takes `tosort` as a value. The header passes it by non-const reference and does not say whether the sort may change it; the model does not change it.
- PhysicalRegions.SumElementsSplit adds element counts as unbounded naturals. `countelements` sums into a 32-bit `int`, whose overflow for very large meshes is not modelled.
- MyAlgorithm.IdentifyRelationsRange works on unbounded naturals. `identifyrelations` returns a 32-bit `int`, which cannot hold n! - 1 for n >= 13; that overflow is not modelled.
- MyAlgorithm.FactorialRecurrence works on unbounded integers. The 32-bit `int` result overflows above n = 12, and that is not modelled.
- MyAlgorithm.BinaryRoundTrip and MyAlgorithm.BinaryToInt use unbounded naturals. Overflow of the 32-bit `int` for vectors of more than 31 bits is not modelled. Negative `num` for `inttobinary` is not modelled either; its comment does not say how a negative number is written.
- MyAlgorithm.GetEquallySpaced and MyAlgorithm.Duplicate take natural counts. Their comments say nothing about negative counts. Integer overflow of `start + i * space` is not modelled.
- MyAlgorithm.Duplicate is generic in the entry type. The source's `duplicate` copies `double` entries, and copying does not depend on the entry type.
- MyAlgorithm.Intersect claims membership only. The header declares `intersect` without a comment, so the order and repetitions of its result are not claimed.
- `clear` is modelled twice: as written, where it changes nothing, and as intended (see Findings).
