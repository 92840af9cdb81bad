/** The physical-region registry of a mesh. A registry holds two parallel
    vectors: the physical region numbers and, at the same positions, the
    physical regions they name. Each physical region groups an ordered list
    of disjoint regions. The registry creates regions lazily on lookup,
    answers queries by number, index and element dimension, removes
    regions, and builds new regions by union, intersection and exclusion,
    each registered under the number one above the current maximum. */
module PhysicalRegions {
  import opened MyAlgorithm

  /** A physical region: the element dimension it reports, its disjoint
      regions (all element types) and how many elements it counts. */
  datatype PhysicalRegion = PhysicalRegion(dim: int, disjregs: seq<int>, nelems: nat)

  /** What the externally owned disjoint-region structure tells a physical
      region about a list of its disjoint regions: the element dimension
      and the element count the region then reports. */
  datatype DisjointRegions = DisjointRegions(dimension: seq<int> -> int, elements: seq<int> -> nat)

  /** The physical region that holds exactly the given disjoint regions. */
  function Region(ext: DisjointRegions, disjregs: seq<int>): PhysicalRegion
  {
    PhysicalRegion(ext.dimension(disjregs), disjregs, ext.elements(disjregs))
  }

  /** The registry: `numbers[i]` is the number of the region `regions[i]`. */
  datatype Registry = Registry(numbers: seq<int>, regions: seq<PhysicalRegion>)

  /** The registry's invariant: parallel vectors and no number twice. */
  predicate Valid(reg: Registry)
  {
    |reg.numbers| == |reg.regions| && Distinct(reg.numbers)
  }

  datatype Option<T> = None | Some(value: T)

  /** A region registered by a constructor: the grown registry and the
      number of the new region. */
  datatype Created = Created(registry: Registry, id: int)

  /** The outcome of a constructor: the created region, or the first
      referenced number that is not registered (`errorundefined` aborts there,
      before touching the registry). */
  datatype Result = Ok(created: Created) | Undefined(id: int)

  // ---------------------------------------------------------------------
  // Lookup
  // ---------------------------------------------------------------------

  /** `getindex(physicalregionnumber)`: the first position holding the
      number, or -1 when it is not registered. */
  function GetIndex(numbers: seq<int>, id: int): (i: int)
    ensures -1 <= i < |numbers|
    ensures i == -1 <==> id !in numbers
    ensures i >= 0 ==> numbers[i] == id && forall j :: 0 <= j < i ==> numbers[j] != id
  {
    if |numbers| == 0 then -1
    else if numbers[0] == id then 0
    else
      var k := GetIndex(numbers[1..], id);
      if k == -1 then -1 else k + 1
  }

  /** `getnumber(physicalregionindex)`: the number at a position. In a
      valid registry looking that number up gives the position back. */
  function GetNumber(reg: Registry, index: int): (n: int)
    requires 0 <= index < |reg.numbers|
    ensures n in reg.numbers
    ensures Distinct(reg.numbers) ==> GetIndex(reg.numbers, n) == index
  {
    reg.numbers[index]
  }

  /** `get(physicalregionnumber)`: the region registered under the number;
      when there is none, an empty region is appended under that number
      first. */
  function Get(reg: Registry, id: int, ext: DisjointRegions): (r: (Registry, PhysicalRegion))
    requires |reg.numbers| == |reg.regions|
    ensures |r.0.numbers| == |r.0.regions|
    ensures id in reg.numbers ==> r.0 == reg
    ensures id !in reg.numbers ==>
      && r.0.numbers == reg.numbers + [id]
      && r.0.regions == reg.regions + [Region(ext, [])]
    ensures id in r.0.numbers
    ensures r.1 == r.0.regions[GetIndex(r.0.numbers, id)]
    ensures Distinct(reg.numbers) ==> Distinct(r.0.numbers)
  {
    var i := GetIndex(reg.numbers, id);
    if i != -1 then (reg, reg.regions[i])
    else
      var grown := Registry(reg.numbers + [id], reg.regions + [Region(ext, [])]);
      assert GetIndex(grown.numbers, id) == |reg.numbers|;
      (grown, Region(ext, []))
  }

  /** `getatindex(physicalregionindex)`: the region at a position. In a
      registry without repeated numbers it is what `get` returns for the
      number at that position, and `get` then changes nothing. */
  function GetAtIndex(reg: Registry, index: int): (g: PhysicalRegion)
    requires |reg.numbers| == |reg.regions| && 0 <= index < |reg.regions|
    ensures Distinct(reg.numbers) ==> forall ext :: Get(reg, reg.numbers[index], ext) == (reg, g)
  {
    reg.regions[index]
  }

  /** The disjoint regions (all element types) of a registered number. */
  function DisjointRegionsOf(reg: Registry, id: int): seq<int>
    requires |reg.numbers| == |reg.regions| && id in reg.numbers
  {
    reg.regions[GetIndex(reg.numbers, id)].disjregs
  }

  /** The disjoint-region lists of several registered numbers, in order. */
  function ListsOf(reg: Registry, ids: seq<int>): (lists: seq<seq<int>>)
    requires |reg.numbers| == |reg.regions|
    requires forall i :: 0 <= i < |ids| ==> ids[i] in reg.numbers
    ensures |lists| == |ids|
    ensures forall i :: 0 <= i < |ids| ==> lists[i] == DisjointRegionsOf(reg, ids[i])
  {
    seq(|ids|, i requires 0 <= i < |ids| => DisjointRegionsOf(reg, ids[i]))
  }

  /** `getmaxphysicalregionnumber`: the largest registered number. The
      registry must not be empty. */
  function GetMaxPhysicalRegionNumber(reg: Registry): (m: int)
    requires |reg.numbers| > 0
    ensures m in reg.numbers
    ensures forall x :: x in reg.numbers ==> x <= m
  {
    Max(reg.numbers)
  }

  function Max(s: seq<int>): (m: int)
    requires |s| > 0
    ensures m in s
    ensures forall x :: x in s ==> x <= m
  {
    if |s| == 1 then s[0]
    else
      var rest := Max(s[1..]);
      assert forall x :: x in s ==> x == s[0] || x in s[1..];
      if s[0] > rest then s[0] else rest
  }

  // ---------------------------------------------------------------------
  // Counting and listing by element dimension
  // ---------------------------------------------------------------------

  /** Entry `i` is true when region `i` has element dimension `dim`. */
  function DimMarks(regions: seq<PhysicalRegion>, dim: int): (m: seq<bool>)
    ensures |m| == |regions|
    ensures forall i :: 0 <= i < |regions| ==> (m[i] <==> regions[i].dim == dim)
  {
    seq(|regions|, i requires 0 <= i < |regions| => regions[i].dim == dim)
  }

  /** How many regions have element dimension `dim`. */
  function CountDim(regions: seq<PhysicalRegion>, dim: int): (n: nat)
    ensures n <= |regions|
  {
    if |regions| == 0 then 0
    else (if regions[0].dim == dim then 1 else 0) + CountDim(regions[1..], dim)
  }

  /** `count(dim)`: the number of regions, all of them for -1. */
  function Count(reg: Registry, dim: int): (c: nat)
    ensures dim == -1 ==> c == |reg.numbers|
    ensures c <= |reg.regions| || dim == -1
  {
    if dim == -1 then |reg.numbers| else CountDim(reg.regions, dim)
  }

  lemma {:induction false} CountDimMarks(regions: seq<PhysicalRegion>, dim: int)
    ensures CountDim(regions, dim) == CountTrue(DimMarks(regions, dim))
  {
    if |regions| > 0 {
      CountDimMarks(regions[1..], dim);
      assert DimMarks(regions, dim)[1..] == DimMarks(regions[1..], dim);
    }
  }

  /** The numbers of the regions of element dimension `dim`, in registry order. */
  function NumbersOfDimension(reg: Registry, dim: int): (out: seq<int>)
    requires |reg.numbers| == |reg.regions|
    ensures forall k :: 0 <= k < |out| ==> out[k] in reg.numbers
  {
    var out := SplitVector(reg.numbers, DimMarks(reg.regions, dim)).1;
    SplitMembers(reg.numbers, DimMarks(reg.regions, dim));
    assert forall k :: 0 <= k < |out| ==> out[k] in reg.numbers by {
      forall k | 0 <= k < |out| ensures out[k] in reg.numbers {
        assert out[k] in out;
      }
    }
    out
  }

  /** `getallnumbers(dim)`: the numbers of the regions of element dimension
      `dim` (all of them for -1), in registry order; there are `count(dim)`
      of them. */
  function GetAllNumbers(reg: Registry, dim: int): (out: seq<int>)
    requires |reg.numbers| == |reg.regions|
    ensures |out| == Count(reg, dim)
    ensures dim == -1 ==> out == reg.numbers
    ensures IsSubsequence(out, reg.numbers)
    ensures forall x :: x in out <==>
      exists i :: 0 <= i < |reg.numbers| && reg.numbers[i] == x && (dim == -1 || reg.regions[i].dim == dim)
  {
    if dim == -1 then
      SubsequenceRefl(reg.numbers);
      reg.numbers
    else
      CountDimMarks(reg.regions, dim);
      SplitSubsequences(reg.numbers, DimMarks(reg.regions, dim));
      SplitMembers(reg.numbers, DimMarks(reg.regions, dim));
      NumbersOfDimension(reg, dim)
  }

  /** Total element count of a list of regions. */
  function SumElements(regions: seq<PhysicalRegion>): nat
  {
    if |regions| == 0 then 0 else regions[0].nelems + SumElements(regions[1..])
  }

  /** `countelements`: the total number of elements over all regions. */
  function CountElements(reg: Registry): nat
  {
    SumElements(reg.regions)
  }

  /** Splitting regions splits their element count. */
  lemma {:induction false} SumElementsSplit(regions: seq<PhysicalRegion>, select: seq<bool>)
    requires |select| == |regions|
    ensures SumElements(regions) ==
      SumElements(SplitVector(regions, select).0) + SumElements(SplitVector(regions, select).1)
  {
    if |regions| > 0 {
      SumElementsSplit(regions[1..], select[1..]);
    }
  }

  // ---------------------------------------------------------------------
  // Removal
  // ---------------------------------------------------------------------

  /** The removal mask: entry `i` is set when some number of `toremove` is
      found at position `i` by `getindex`. Numbers that are not registered
      set nothing. */
  function TagRemoved(numbers: seq<int>, toremove: seq<int>): (m: seq<bool>)
    ensures |m| == |numbers|
    ensures forall i :: 0 <= i < |numbers| ==>
      (m[i] <==> numbers[i] in toremove && GetIndex(numbers, numbers[i]) == i)
  {
    if |toremove| == 0 then seq(|numbers|, _ => false)
    else
      var last := toremove[|toremove| - 1];
      var m := TagRemoved(numbers, toremove[..|toremove| - 1]);
      assert forall x :: x in toremove <==> x in toremove[..|toremove| - 1] || x == last by {
        assert toremove == toremove[..|toremove| - 1] + [last];
      }
      var k := GetIndex(numbers, last);
      if k != -1 then m[k := true] else m
  }

  /** The registry's entries as (number, region) pairs. */
  function Entries(reg: Registry): seq<(int, PhysicalRegion)>
    requires |reg.numbers| == |reg.regions|
  {
    Zip(reg.numbers, reg.regions)
  }

  /** `remove(toremove, ispartofdisjregstructure)`: drops the regions whose
      numbers are listed, keeping the others in order with their numbers.
      When asked to propagate, it also hands on the mask, one flag per
      position before removal, set exactly at the removed positions. */
  function Remove(reg: Registry, toremove: seq<int>, propagate: bool): (r: (Registry, Option<seq<bool>>))
    requires Valid(reg)
    ensures Valid(r.0)
    ensures forall x :: x in r.0.numbers <==> x in reg.numbers && x !in toremove
    ensures IsSubsequence(Entries(r.0), Entries(reg))
    ensures (forall x :: x in toremove ==> x !in reg.numbers) ==> r.0 == reg
    ensures propagate <==> r.1.Some?
    ensures r.1.Some? ==>
      && |r.1.value| == |reg.numbers|
      && forall i :: 0 <= i < |reg.numbers| ==> (r.1.value[i] <==> reg.numbers[i] in toremove)
    ensures CountElements(r.0) + SumElements(RemovedRegions(reg, toremove)) == CountElements(reg)
  {
    var mask := TagRemoved(reg.numbers, toremove);
    var kept := Registry(SplitVector(reg.numbers, mask).0, SplitVector(reg.regions, mask).0);
    RemoveMask(reg, toremove);
    RemoveKeptMembers(reg, toremove);
    RemoveKept(reg, toremove);
    SplitZip(reg.numbers, reg.regions, mask);
    SplitSubsequences(Entries(reg), mask);
    SumElementsSplit(reg.regions, mask);
    (kept, if propagate then Some(mask) else None)
  }

  /** The regions that removal drops, in registry order. */
  function RemovedRegions(reg: Registry, toremove: seq<int>): (removed: seq<PhysicalRegion>)
    requires Valid(reg)
    ensures forall i :: 0 <= i < |reg.numbers| && reg.numbers[i] in toremove ==> reg.regions[i] in removed
    ensures forall g :: g in removed ==>
      exists i :: 0 <= i < |reg.numbers| && reg.numbers[i] in toremove && reg.regions[i] == g
  {
    var mask := TagRemoved(reg.numbers, toremove);
    RemoveMask(reg, toremove);
    SplitMembers(reg.regions, mask);
    SplitVector(reg.regions, mask).1
  }

  /** In a valid registry the removal mask flags exactly the listed numbers. */
  lemma RemoveMask(reg: Registry, toremove: seq<int>)
    requires Valid(reg)
    ensures forall i :: 0 <= i < |reg.numbers| ==>
      (TagRemoved(reg.numbers, toremove)[i] <==> reg.numbers[i] in toremove)
  {
  }

  /** What removal keeps holds exactly the numbers not listed. */
  lemma RemoveKeptMembers(reg: Registry, toremove: seq<int>)
    requires Valid(reg)
    ensures forall x :: x in SplitVector(reg.numbers, TagRemoved(reg.numbers, toremove)).0 <==>
      x in reg.numbers && x !in toremove
  {
    var mask := TagRemoved(reg.numbers, toremove);
    RemoveMask(reg, toremove);
    SplitMembers(reg.numbers, mask);
  }

  /** What removal keeps is a valid registry, and the whole registry when
      none of the listed numbers is registered. */
  lemma RemoveKept(reg: Registry, toremove: seq<int>)
    requires Valid(reg)
    ensures var mask := TagRemoved(reg.numbers, toremove);
      var kept := Registry(SplitVector(reg.numbers, mask).0, SplitVector(reg.regions, mask).0);
      && Valid(kept)
      && ((forall x :: x in toremove ==> x !in reg.numbers) ==> kept == reg)
  {
    var mask := TagRemoved(reg.numbers, toremove);
    SplitKeepsDistinct(reg.numbers, mask);
    NothingSplitOff(reg.numbers, mask);
    NothingSplitOff(reg.regions, mask);
  }

  lemma {:induction false} SplitKeepsDistinct(vec: seq<int>, select: seq<bool>)
    requires |select| == |vec| && Distinct(vec)
    ensures Distinct(SplitVector(vec, select).0)
  {
    if |vec| > 0 {
      SplitKeepsDistinct(vec[1..], select[1..]);
      SplitMembers(vec[1..], select[1..]);
      var falses := SplitVector(vec[1..], select[1..]).0;
      if !select[0] {
        assert vec[0] !in falses;
        var r := [vec[0]] + falses;
        forall i, j | 0 <= i < j < |r| ensures r[i] != r[j] {
          if i == 0 {
            assert r[j] == falses[j - 1];
            assert falses[j - 1] in falses;
          } else {
            assert r[i] == falses[i - 1] && r[j] == falses[j - 1];
          }
        }
      }
    }
  }

  lemma {:induction false} NothingSplitOff<T>(vec: seq<T>, select: seq<bool>)
    requires |select| == |vec|
    ensures (forall i :: 0 <= i < |select| ==> !select[i]) ==> SplitVector(vec, select).0 == vec
  {
    if |vec| > 0 {
      NothingSplitOff(vec[1..], select[1..]);
    }
  }

  /** `clear` as written: it declares two local vectors named like the
      registry's vectors, so the registry itself is left as it was and
      every query answers as before. */
  function ClearAsWritten(reg: Registry): (r: Registry)
    requires |reg.numbers| == |reg.regions|
    ensures |r.numbers| == |r.regions|
    ensures forall d :: Count(r, d) == Count(reg, d)
    ensures forall d :: GetAllNumbers(r, d) == GetAllNumbers(reg, d)
    ensures CountElements(r) == CountElements(reg)
  {
    reg
  }

  /** On a registry with one region, `clear` as written still reports that
      region, where the intended `clear` reports none. */
  lemma ClearAsWrittenKeepsRegions()
    ensures var reg := Registry([1], [PhysicalRegion(2, [0], 1)]);
      && Count(ClearAsWritten(reg), -1) == 1
      && Count(Clear(reg), -1) == 0
  {
  }

  /** `clear` as its name intends: a registry without regions. */
  function Clear(reg: Registry): (r: Registry)
    ensures Valid(r)
    ensures Count(r, -1) == 0
    ensures forall d :: GetAllNumbers(r, d) == []
    ensures CountElements(r) == 0
  {
    Registry([], [])
  }

  // ---------------------------------------------------------------------
  // Constructors
  // ---------------------------------------------------------------------

  /** `errorundefined(physregs)`: the first listed number that is not
      registered, if any. */
  function ErrorUndefined(reg: Registry, ids: seq<int>): (e: Option<int>)
    ensures e == None <==> forall i :: 0 <= i < |ids| ==> ids[i] in reg.numbers
    ensures e.Some? ==>
      && e.value !in reg.numbers
      && exists k :: 0 <= k < |ids| && ids[k] == e.value
           && forall j :: 0 <= j < k ==> ids[j] in reg.numbers
  {
    if |ids| == 0 then None
    else if GetIndex(reg.numbers, ids[0]) == -1 then Some(ids[0])
    else
      var e := ErrorUndefined(reg, ids[1..]);
      if e.Some? then
        var k :| 0 <= k < |ids[1..]| && ids[1..][k] == e.value
                 && forall j :: 0 <= j < k ==> ids[1..][j] in reg.numbers;
        assert ids[k + 1] == e.value;
        assert forall j :: 0 <= j < k + 1 ==> ids[j] in reg.numbers by {
          forall j | 0 <= j < k + 1 ensures ids[j] in reg.numbers {
            if j > 0 { assert ids[j] == ids[1..][j - 1]; }
          }
        }
        e
      else
        assert forall i :: 1 <= i < |ids| ==> ids[i] == ids[1..][i - 1];
        e
  }

  /** The region a constructor registered, as the last entry of the registry. */
  function Last(c: Created): PhysicalRegion
    requires |c.registry.regions| > 0
  {
    c.registry.regions[|c.registry.regions| - 1]
  }

  /** `c` is `reg` with one region appended under the number one above the
      largest registered before (so above every one of them), the earlier
      entries untouched and the registry still valid. */
  predicate Extends(reg: Registry, c: Created, ext: DisjointRegions)
  {
    && Valid(c.registry)
    && |reg.numbers| > 0
    && c.id == GetMaxPhysicalRegionNumber(reg) + 1
    && (forall x :: x in reg.numbers ==> x < c.id)
    && c.registry.numbers == reg.numbers + [c.id]
    && |c.registry.regions| == |reg.regions| + 1
    && c.registry.regions[..|reg.regions|] == reg.regions
    && Last(c) == Region(ext, Last(c).disjregs)
  }

  /** Registers a region holding `disjregs` under the number one above the
      current maximum: `get` appends it empty, then its disjoint regions are
      set. The new number was not registered and the registry stays valid. */
  function Register(reg: Registry, disjregs: seq<int>, ext: DisjointRegions): (c: Created)
    requires Valid(reg) && |reg.numbers| > 0
    ensures Extends(reg, c, ext)
    ensures Last(c).disjregs == disjregs
  {
    var id := GetMaxPhysicalRegionNumber(reg) + 1;
    var (grown, _) := Get(reg, id, ext);
    var last := |grown.regions| - 1;
    var c := Created(Registry(grown.numbers, grown.regions[last := Region(ext, disjregs)]), id);
    assert c.registry.regions[..|reg.regions|] == reg.regions;
    c
  }

  /** The disjoint regions of the listed regions, one list after the other,
      repetitions kept. */
  function UnionList(reg: Registry, ids: seq<int>): (union: seq<int>)
    requires |reg.numbers| == |reg.regions|
    requires forall i :: 0 <= i < |ids| ==> ids[i] in reg.numbers
    ensures |union| == TotalLength(ListsOf(reg, ids))
    ensures forall x :: x in union <==> exists i :: 0 <= i < |ids| && x in DisjointRegionsOf(reg, ids[i])
  {
    Concatenate(ListsOf(reg, ids))
  }

  /** `createunion(input)`: a new region holding the disjoint regions of
      every listed region one list after the other, repetitions kept. */
  function CreateUnion(reg: Registry, ids: seq<int>, ext: DisjointRegions): (r: Result)
    requires Valid(reg)
    requires |ids| > 0 || |reg.numbers| > 0
    ensures r.Undefined? <==> exists i :: 0 <= i < |ids| && ids[i] !in reg.numbers
    ensures r.Undefined? ==> r.id in ids && r.id !in reg.numbers
    ensures r.Undefined? ==> ErrorUndefined(reg, ids) == Some(r.id)
    ensures r.Ok? ==> Extends(reg, r.created, ext)
    ensures r.Ok? ==> Last(r.created).disjregs == UnionList(reg, ids)
  {
    match ErrorUndefined(reg, ids)
    case Some(bad) => Undefined(bad)
    case None => Ok(Register(reg, UnionList(reg, ids), ext))
  }

  /** Each further listed region appends its disjoint regions to the union
      of the ones before it, as the accumulating loop of `createunion` does. */
  lemma UnionAppendsEach(reg: Registry, ids: seq<int>, b: int)
    requires |reg.numbers| == |reg.regions|
    requires forall i :: 0 <= i < |ids| ==> ids[i] in reg.numbers
    requires b in reg.numbers
    ensures forall i :: 0 <= i < |ids + [b]| ==> (ids + [b])[i] in reg.numbers
    ensures UnionList(reg, ids + [b]) == UnionList(reg, ids) + DisjointRegionsOf(reg, b)
  {
    UnionOfJoined(reg, ids, [b]);
  }

  /** The union over a joined list of numbers is the union over the first
      part followed by the union over the second. */
  lemma UnionOfJoined(reg: Registry, ids1: seq<int>, ids2: seq<int>)
    requires |reg.numbers| == |reg.regions|
    requires forall i :: 0 <= i < |ids1| ==> ids1[i] in reg.numbers
    requires forall i :: 0 <= i < |ids2| ==> ids2[i] in reg.numbers
    ensures forall i :: 0 <= i < |ids1 + ids2| ==> (ids1 + ids2)[i] in reg.numbers
    ensures UnionList(reg, ids1 + ids2) == UnionList(reg, ids1) + UnionList(reg, ids2)
  {
    var ids := ids1 + ids2;
    forall i | 0 <= i < |ids| ensures ids[i] in reg.numbers {
      if i >= |ids1| { assert ids[i] == ids2[i - |ids1|]; }
    }
    assert ListsOf(reg, ids) == ListsOf(reg, ids1) + ListsOf(reg, ids2);
    ConcatenateAppend(ListsOf(reg, ids1), ListsOf(reg, ids2));
  }

  /** The left-to-right intersection of lists: the first list, then
      intersected with each following list in turn. */
  function IntersectAll(lists: seq<seq<int>>): (r: seq<int>)
    ensures |lists| == 0 ==> r == []
    ensures |lists| == 1 ==> r == lists[0]
    ensures |lists| > 0 ==> forall x :: x in r <==> forall i :: 0 <= i < |lists| ==> x in lists[i]
  {
    if |lists| == 0 then []
    else if |lists| == 1 then lists[0]
    else
      var init := lists[..|lists| - 1];
      var r := Intersect(IntersectAll(init), lists[|lists| - 1]);
      assert forall i :: 0 <= i < |lists| - 1 ==> lists[i] == init[i];
      r
  }

  /** `createintersection(input)`: a new region holding the disjoint regions
      common to every listed region; one listed region is copied as is. */
  function CreateIntersection(reg: Registry, ids: seq<int>, ext: DisjointRegions): (r: Result)
    requires Valid(reg)
    requires |ids| > 0 || |reg.numbers| > 0
    ensures r.Undefined? <==> exists i :: 0 <= i < |ids| && ids[i] !in reg.numbers
    ensures r.Undefined? ==> r.id in ids && r.id !in reg.numbers
    ensures r.Undefined? ==> ErrorUndefined(reg, ids) == Some(r.id)
    ensures r.Ok? ==> Extends(reg, r.created, ext)
    ensures r.Ok? ==>
      var common := Last(r.created).disjregs;
      && (|ids| == 0 ==> common == [])
      && (|ids| == 1 ==> common == DisjointRegionsOf(reg, ids[0]))
      && (|ids| > 0 ==> forall x :: x in common <==>
            forall i :: 0 <= i < |ids| ==> x in DisjointRegionsOf(reg, ids[i]))
  {
    match ErrorUndefined(reg, ids)
    case Some(bad) => Undefined(bad)
    case None =>
      var c := Register(reg, IntersectAll(ListsOf(reg, ids)), ext);
      Ok(c)
  }

  /** The entries of `a` that do not occur in `b`, in the order of `a`. */
  function Exclude(a: seq<int>, b: seq<int>): (r: seq<int>)
    ensures forall x :: x in r <==> x in a && x !in b
    ensures IsSubsequence(r, a)
  {
    if |a| == 0 then []
    else if a[0] in b then
      Exclude(a[1..], b)
    else
      var r := Exclude(a[1..], b);
      assert ([a[0]] + r)[1..] == r;
      [a[0]] + r
  }

  /** Excluding a list from one that holds all its entries leaves nothing;
      in particular a list excluded from itself. */
  lemma {:induction false} ExcludeCovered(a: seq<int>, b: seq<int>)
    requires forall i :: 0 <= i < |a| ==> a[i] in b
    ensures Exclude(a, b) == []
  {
    if |a| > 0 {
      ExcludeCovered(a[1..], b);
    }
  }

  /** Exclusion is the false half of splitting a list by membership in the
      other; the true half holds exactly the common entries, and the two
      halves together are as long as the list. */
  lemma ExclusionIsSplit(a: seq<int>, b: seq<int>)
    ensures SplitVector(a, Marks(a, b)).0 == Exclude(a, b)
    ensures forall x :: x in SplitVector(a, Marks(a, b)).1 <==> x in a && x in b
    ensures |Exclude(a, b)| + |SplitVector(a, Marks(a, b)).1| == |a|
  {
    SplitByMembership(a, b, Marks(a, b));
    SplitMembers(a, Marks(a, b));
  }

  lemma {:induction false} SplitByMembership(a: seq<int>, b: seq<int>, select: seq<bool>)
    requires |select| == |a|
    requires forall i :: 0 <= i < |a| ==> (select[i] <==> a[i] in b)
    ensures SplitVector(a, select).0 == Exclude(a, b)
  {
    if |a| > 0 {
      SplitByMembership(a[1..], b, select[1..]);
    }
  }

  /** `createexclusion(input, toexclude)`: a new region holding the disjoint
      regions of `input` that are not disjoint regions of `toexclude`, in
      their order. `input` is checked first. */
  function CreateExclusion(reg: Registry, input: int, toexclude: int, ext: DisjointRegions): (r: Result)
    requires Valid(reg)
    ensures r.Undefined? <==> input !in reg.numbers || toexclude !in reg.numbers
    ensures r.Undefined? ==> r.id == (if input !in reg.numbers then input else toexclude)
    ensures r.Ok? ==> Extends(reg, r.created, ext)
    ensures r.Ok? ==>
      var kept := Last(r.created).disjregs;
      && kept == Exclude(DisjointRegionsOf(reg, input), DisjointRegionsOf(reg, toexclude))
      && IsSubsequence(kept, DisjointRegionsOf(reg, input))
      && (forall x :: x in kept <==> x in DisjointRegionsOf(reg, input) && x !in DisjointRegionsOf(reg, toexclude))
      && (input == toexclude ==> kept == [])
  {
    match ErrorUndefined(reg, [input, toexclude])
    case Some(bad) => Undefined(bad)
    case None =>
      assert [input, toexclude][1] == toexclude;
      var kept := Exclude(DisjointRegionsOf(reg, input), DisjointRegionsOf(reg, toexclude));
      ExcludeCovered(DisjointRegionsOf(reg, input), DisjointRegionsOf(reg, input));
      var c := Register(reg, kept, ext);
      Ok(c)
  }

  /** `createunionofall`: the union of every region whose element dimension
      is the problem dimension, taken in registry order. It never meets an
      undefined number. */
  function CreateUnionOfAll(reg: Registry, problemdimension: int, ext: DisjointRegions): (c: Created)
    requires Valid(reg) && |reg.numbers| > 0
    ensures Extends(reg, c, ext)
    ensures Last(c).disjregs == UnionList(reg, NumbersOfDimension(reg, problemdimension))
    ensures problemdimension != -1 ==> Last(c).disjregs == UnionList(reg, GetAllNumbers(reg, problemdimension))
    ensures forall x :: x in Last(c).disjregs <==>
      exists i :: 0 <= i < |reg.regions| && reg.regions[i].dim == problemdimension && x in reg.regions[i].disjregs
  {
    var tounite := NumbersOfDimension(reg, problemdimension);
    SplitMembers(reg.numbers, DimMarks(reg.regions, problemdimension));
    assert forall i :: 0 <= i < |reg.numbers| && DimMarks(reg.regions, problemdimension)[i] ==> reg.numbers[i] in tounite;
    var r := CreateUnion(reg, tounite, ext);
    assert r.Ok?;
    UnionOfAllMembers(reg, problemdimension, tounite, Last(r.created).disjregs);
    r.created
  }

  lemma UnionOfAllMembers(reg: Registry, dim: int, tounite: seq<int>, union: seq<int>)
    requires Valid(reg)
    requires forall k :: 0 <= k < |tounite| ==> tounite[k] in reg.numbers
    requires forall x :: x in tounite <==>
      exists i :: 0 <= i < |reg.numbers| && DimMarks(reg.regions, dim)[i] && reg.numbers[i] == x
    requires forall i :: 0 <= i < |reg.numbers| && DimMarks(reg.regions, dim)[i] ==> reg.numbers[i] in tounite
    requires forall x :: x in union <==> exists k :: 0 <= k < |tounite| && x in DisjointRegionsOf(reg, tounite[k])
    ensures forall x :: x in union <==>
      exists i :: 0 <= i < |reg.regions| && reg.regions[i].dim == dim && x in reg.regions[i].disjregs
  {
    forall x | x in union
      ensures exists i :: 0 <= i < |reg.regions| && reg.regions[i].dim == dim && x in reg.regions[i].disjregs
    {
      var k :| 0 <= k < |tounite| && x in DisjointRegionsOf(reg, tounite[k]);
      assert tounite[k] in tounite;
      var i :| 0 <= i < |reg.numbers| && DimMarks(reg.regions, dim)[i] && reg.numbers[i] == tounite[k];
      assert GetIndex(reg.numbers, tounite[k]) == i;
    }
    forall x, i | 0 <= i < |reg.regions| && reg.regions[i].dim == dim && x in reg.regions[i].disjregs
      ensures x in union
    {
      assert DimMarks(reg.regions, dim)[i];
      assert reg.numbers[i] in tounite;
      var k :| 0 <= k < |tounite| && tounite[k] == reg.numbers[i];
      assert GetIndex(reg.numbers, tounite[k]) == i;
    }
  }
}
