/** The integer-valued helpers of the `myalgorithm` namespace of the mesh
    library: stable index sorting, splitting and concatenating vectors,
    binary encodings, factorials, relation identifiers and renumberings.
    Where the header comments on a helper, its contract states that
    comment; the module also holds the definitions its proofs use. */
module MyAlgorithm {

  // ---------------------------------------------------------------------
  // Stable sorting of integer keys
  // ---------------------------------------------------------------------

  /** Index `i` comes before index `j` when its key is smaller, or when the
      keys are equal and `i` was first: the order a stable sort produces. */
  predicate Precedes(key: seq<int>, i: int, j: int)
    requires 0 <= i < |key| && 0 <= j < |key|
  {
    key[i] < key[j] || (key[i] == key[j] && i < j)
  }

  /** `r` holds indices of `key`, listed in strictly increasing `Precedes` order. */
  predicate SortedBy(key: seq<int>, r: seq<int>)
  {
    && (forall k :: 0 <= k < |r| ==> 0 <= r[k] < |key|)
    && (forall k, l :: 0 <= k < l < |r| ==> Precedes(key, r[k], r[l]))
  }

  /** `p` is a permutation of [0, |p|): in range, without repetition, and
      every position occurs. */
  predicate IsPermutation(p: seq<int>)
  {
    && (forall i :: 0 <= i < |p| ==> 0 <= p[i] < |p|)
    && (forall i, j :: 0 <= i < j < |p| ==> p[i] != p[j])
    && (forall v :: 0 <= v < |p| ==> v in p)
  }

  /** Inserts index `i` into the sorted index list `r` at its stable place. */
  function Insert(key: seq<int>, r: seq<int>, i: int): (s: seq<int>)
    requires 0 <= i < |key| && SortedBy(key, r) && i !in r
    ensures |s| == |r| + 1
    ensures forall x :: x in s <==> x in r || x == i
    ensures SortedBy(key, s)
    ensures s[0] == i || (|r| > 0 && s[0] == r[0])
  {
    if |r| == 0 || Precedes(key, i, r[0]) then [i] + r
    else
      var rest := Insert(key, r[1..], i);
      assert forall x :: x in rest ==> Precedes(key, r[0], x) by {
        forall x | x in rest ensures Precedes(key, r[0], x) {
          if x != i {
            var l :| 0 <= l < |r[1..]| && r[1..][l] == x;
            assert r[l + 1] == x;
          }
        }
      }
      [r[0]] + rest
  }

  /** The integer `stablesort`: the reordering vector `r` such that
      `tosort[r[0]], tosort[r[1]], ...` is ascending, with equal values
      left in their original relative order. The model takes `tosort` as a
      value, so it has no way to change it. */
  method StableSort(tosort: seq<int>) returns (r: seq<int>)
    ensures |r| == |tosort|
    ensures IsPermutation(r)
    ensures forall k, l :: 0 <= k < l < |r| ==> tosort[r[k]] <= tosort[r[l]]
    ensures forall k, l :: 0 <= k < l < |r| && tosort[r[k]] == tosort[r[l]] ==> r[k] < r[l]
  {
    r := [];
    var i := 0;
    while i < |tosort|
      invariant 0 <= i <= |tosort|
      invariant |r| == i
      invariant SortedBy(tosort, r)
      invariant forall x :: x in r <==> 0 <= x < i
    {
      r := Insert(tosort, r, i);
      i := i + 1;
    }
    assert forall k, l :: 0 <= k < l < |r| ==> Precedes(tosort, r[k], r[l]);
  }

  // ---------------------------------------------------------------------
  // Splitting, intersecting, concatenating and duplicating vectors
  // ---------------------------------------------------------------------

  /** Number of `true` entries in `select`. */
  function CountTrue(select: seq<bool>): (n: nat)
    ensures n <= |select|
  {
    if |select| == 0 then 0 else (if select[0] then 1 else 0) + CountTrue(select[1..])
  }

  /** Interleaves `falses` and `trues` back into one vector, taking the next
      entry of `trues` where `select` is true and of `falses` elsewhere. */
  function Merge<T>(select: seq<bool>, falses: seq<T>, trues: seq<T>): (r: seq<T>)
    requires |trues| == CountTrue(select)
    requires |falses| + |trues| == |select|
    ensures |r| == |select|
  {
    if |select| == 0 then []
    else if select[0] then [trues[0]] + Merge(select[1..], falses, trues[1..])
    else [falses[0]] + Merge(select[1..], falses[1..], trues)
  }

  /** `splitvector(vec, select, falses, trues)`: the entries of `vec` where
      `select` is false go to `falses` and the others to `trues`, each half
      keeping the original order. */
  function SplitVector<T>(vec: seq<T>, select: seq<bool>): (r: (seq<T>, seq<T>))
    requires |select| == |vec|
    ensures |r.1| == CountTrue(select)
    ensures |r.0| + |r.1| == |vec|
  {
    (Keep(vec, select, false), Keep(vec, select, true))
  }

  /** The entries of `vec` at the positions where `select` is `b`, in order. */
  function Keep<T>(vec: seq<T>, select: seq<bool>, b: bool): (r: seq<T>)
    requires |select| == |vec|
    ensures b ==> |r| == CountTrue(select)
    ensures !b ==> |r| + CountTrue(select) == |vec|
  {
    if |vec| == 0 then []
    else if select[0] == b then [vec[0]] + Keep(vec[1..], select[1..], b)
    else Keep(vec[1..], select[1..], b)
  }

  /** Merging the halves of a split along `select` gives the vector back, so
      the split loses, duplicates and reorders nothing. */
  lemma {:induction false} SplitThenMerge<T>(vec: seq<T>, select: seq<bool>)
    requires |select| == |vec|
    ensures Merge(select, SplitVector(vec, select).0, SplitVector(vec, select).1) == vec
  {
    if |vec| > 0 {
      SplitThenMerge(vec[1..], select[1..]);
      var (falses, trues) := SplitVector(vec[1..], select[1..]);
      if select[0] {
        assert ([vec[0]] + trues)[1..] == trues;
      } else {
        assert ([vec[0]] + falses)[1..] == falses;
      }
      assert vec == [vec[0]] + vec[1..];
    }
  }

  /** Splitting a merged vector along the same selection gives back the halves. */
  lemma {:induction false} SplitMergeRoundTrip<T>(select: seq<bool>, falses: seq<T>, trues: seq<T>)
    requires |trues| == CountTrue(select)
    requires |falses| + |trues| == |select|
    ensures SplitVector(Merge(select, falses, trues), select) == (falses, trues)
  {
    if |select| > 0 {
      var m := Merge(select, falses, trues);
      if select[0] {
        SplitMergeRoundTrip(select[1..], falses, trues[1..]);
        assert m[1..] == Merge(select[1..], falses, trues[1..]);
        assert trues == [trues[0]] + trues[1..];
      } else {
        SplitMergeRoundTrip(select[1..], falses[1..], trues);
        assert m[1..] == Merge(select[1..], falses[1..], trues);
        assert falses == [falses[0]] + falses[1..];
      }
    }
  }

  /** `sub` can be obtained from `s` by deleting entries, the rest keeping
      their order. */
  predicate IsSubsequence<T(==)>(sub: seq<T>, s: seq<T>)
    decreases |s|
  {
    if |sub| == 0 then true
    else if |s| == 0 then false
    else (sub[0] == s[0] && IsSubsequence(sub[1..], s[1..])) || IsSubsequence(sub, s[1..])
  }

  /** Every sequence is a subsequence of itself. */
  lemma {:induction false} SubsequenceRefl<T>(s: seq<T>)
    ensures IsSubsequence(s, s)
  {
    if |s| > 0 {
      SubsequenceRefl(s[1..]);
    }
  }

  /** Both halves of a split are subsequences of the split vector. */
  lemma {:induction false} SplitSubsequences<T>(vec: seq<T>, select: seq<bool>)
    requires |select| == |vec|
    ensures IsSubsequence(SplitVector(vec, select).0, vec)
    ensures IsSubsequence(SplitVector(vec, select).1, vec)
  {
    if |vec| > 0 {
      SplitSubsequences(vec[1..], select[1..]);
      var (falses, trues) := SplitVector(vec[1..], select[1..]);
      if select[0] {
        assert ([vec[0]] + trues)[1..] == trues;
      } else {
        assert ([vec[0]] + falses)[1..] == falses;
      }
    }
  }

  /** The entries of each half are exactly the entries at the positions
      that selected it. */
  lemma {:induction false} SplitMembers<T>(vec: seq<T>, select: seq<bool>)
    requires |select| == |vec|
    ensures forall x :: x in SplitVector(vec, select).1 <==>
      exists i :: 0 <= i < |vec| && select[i] && vec[i] == x
    ensures forall x :: x in SplitVector(vec, select).0 <==>
      exists i :: 0 <= i < |vec| && !select[i] && vec[i] == x
  {
    if |vec| > 0 {
      SplitMembers(vec[1..], select[1..]);
      forall i | 1 <= i < |vec| ensures vec[1..][i - 1] == vec[i] && select[1..][i - 1] == select[i] {
      }
    }
  }

  /** Pairs up two vectors of the same length entry by entry. */
  function Zip<A, B>(a: seq<A>, b: seq<B>): (z: seq<(A, B)>)
    requires |a| == |b|
    ensures |z| == |a|
    ensures forall i :: 0 <= i < |a| ==> z[i] == (a[i], b[i])
  {
    seq(|a|, i requires 0 <= i < |a| => (a[i], b[i]))
  }

  /** Splitting two parallel vectors along one selection keeps them parallel. */
  lemma {:induction false} SplitZip<A, B>(a: seq<A>, b: seq<B>, select: seq<bool>)
    requires |a| == |b| == |select|
    ensures SplitVector(Zip(a, b), select).0 == Zip(SplitVector(a, select).0, SplitVector(b, select).0)
    ensures SplitVector(Zip(a, b), select).1 == Zip(SplitVector(a, select).1, SplitVector(b, select).1)
  {
    if |a| > 0 {
      SplitZip(a[1..], b[1..], select[1..]);
      assert Zip(a, b)[1..] == Zip(a[1..], b[1..]);
    }
  }

  /** Membership marks: entry `i` is true when `a[i]` occurs in `b`. */
  function Marks(a: seq<int>, b: seq<int>): (m: seq<bool>)
    ensures |m| == |a|
    ensures forall i :: 0 <= i < |a| ==> (m[i] <==> a[i] in b)
  {
    seq(|a|, i requires 0 <= i < |a| => a[i] in b)
  }

  /** `intersect(a, b)`: the entries of `a` that also occur in `b`, in the
      order of `a`. */
  function Intersect(a: seq<int>, b: seq<int>): (r: seq<int>)
    ensures forall x :: x in r <==> x in a && x in b
    ensures |r| <= |a|
  {
    if |a| == 0 then []
    else (if a[0] in b then [a[0]] else []) + Intersect(a[1..], b)
  }

  /** Sum of the lengths of the parts. */
  function TotalLength(parts: seq<seq<int>>): nat
  {
    if |parts| == 0 then 0 else |parts[0]| + TotalLength(parts[1..])
  }

  /** `concatenate(tocat)`: the parts one after the other. Its length is the
      sum of the part lengths and it holds exactly the parts' entries; a
      single part is returned as it is, which with `ConcatenateAppend` fixes
      the result as `tocat[0] + ... + tocat[n-1]`. */
  function Concatenate(tocat: seq<seq<int>>): (r: seq<int>)
    ensures |tocat| == 1 ==> r == tocat[0]
    ensures |r| == TotalLength(tocat)
    ensures forall x :: x in r <==> exists i :: 0 <= i < |tocat| && x in tocat[i]
  {
    if |tocat| == 0 then []
    else
      var rest := Concatenate(tocat[1..]);
      assert forall x :: (exists i :: 0 <= i < |tocat| && x in tocat[i]) ==> x in tocat[0] || x in rest by {
        forall x | exists i :: 0 <= i < |tocat| && x in tocat[i]
          ensures x in tocat[0] || x in rest
        {
          var i :| 0 <= i < |tocat| && x in tocat[i];
          if i > 0 { assert x in tocat[1..][i - 1]; }
        }
      }
      tocat[0] + rest
  }

  /** Concatenation distributes over joining the lists of parts. */
  lemma {:induction false} ConcatenateAppend(a: seq<seq<int>>, b: seq<seq<int>>)
    ensures Concatenate(a + b) == Concatenate(a) + Concatenate(b)
  {
    if |a| > 0 {
      assert (a + b)[1..] == a[1..] + b;
      ConcatenateAppend(a[1..], b);
    } else {
      assert a + b == b;
    }
  }

  /** `duplicate(invec, n)`: `n` copies of `invec` one after the other, so
      entry `k` is entry `k mod |invec|` of the input. */
  function Duplicate<T>(invec: seq<T>, n: nat): (r: seq<T>)
    ensures |r| == n * |invec|
    ensures forall k :: 0 <= k < |r| ==> r[k] == invec[k % |invec|]
  {
    if n == 0 then []
    else
      var rest := Duplicate(invec, n - 1);
      PrependCopy(invec, rest, n - 1);
      invec + rest
  }

  /** One more copy in front of `c` copies gives `c + 1` copies. */
  lemma PrependCopy<T>(invec: seq<T>, rest: seq<T>, c: nat)
    requires |rest| == c * |invec|
    requires forall k :: 0 <= k < |rest| ==> rest[k] == invec[k % |invec|]
    ensures |invec + rest| == (c + 1) * |invec|
    ensures forall k :: 0 <= k < |invec + rest| ==> (invec + rest)[k] == invec[k % |invec|]
  {
    var m := |invec|;
    assert (c + 1) * m == m + c * m;
    forall k | 0 <= k < |invec + rest| ensures (invec + rest)[k] == invec[k % m] {
      if k < m {
        ModUnique(k, 0, k, m);
      } else {
        ModShift(k - m, m);
      }
    }
  }

  lemma ModShift(j: int, m: int)
    requires j >= 0 && m > 0
    ensures (j + m) % m == j % m
  {
    var q, r := j / m, j % m;
    assert j + m == (q + 1) * m + r;
    ModUnique(j + m, q + 1, r, m);
  }

  /** A remainder is determined by any quotient-remainder decomposition. */
  lemma ModUnique(x: int, q: int, r: int, m: int)
    requires m > 0 && 0 <= r < m && x == q * m + r
    ensures x % m == r
  {
    var q2, r2 := x / m, x % m;
    assert (q - q2) * m == r2 - r;
    if q > q2 {
      MulLe(1, q - q2, m);
    } else if q < q2 {
      MulLe(1, q2 - q, m);
    }
  }

  // ---------------------------------------------------------------------
  // Equally spaced numbers, plurals
  // ---------------------------------------------------------------------

  /** `getequallyspaced(start, space, amount)`: `amount` numbers starting at
      `start`, each `space` above the previous one. */
  method GetEquallySpaced(start: int, space: int, amount: nat) returns (r: seq<int>)
    ensures |r| == amount
    ensures forall i :: 0 <= i < amount ==> r[i] == start + i * space
  {
    r := [];
    var next := start;
    while |r| < amount
      invariant |r| <= amount
      invariant next == start + |r| * space
      invariant forall i :: 0 <= i < |r| ==> r[i] == start + i * space
    {
      r := r + [next];
      next := next + space;
    }
  }

  /** `getplurals(count)`: "s" for a count above one, the empty string otherwise. */
  function GetPlurals(count: int): (s: string)
    ensures s == "s" <==> count > 1
    ensures s == "" <==> count <= 1
  {
    if count > 1 then "s" else ""
  }

  // ---------------------------------------------------------------------
  // Binary encoding
  // ---------------------------------------------------------------------

  function Pow2(n: nat): (p: nat)
    ensures p >= 1
  {
    if n == 0 then 1 else 2 * Pow2(n - 1)
  }

  /** `inttobinary(numbits, num)`: the `numbits` lowest bits of `num`, most
      significant first. */
  function IntToBinary(numbits: nat, num: nat): (bits: seq<bool>)
    ensures |bits| == numbits
  {
    if numbits == 0 then [] else IntToBinary(numbits - 1, num / 2) + [num % 2 == 1]
  }

  /** `binarytoint(num)`: the number whose bits, most significant first, are `num`. */
  function BinaryToInt(bits: seq<bool>): (n: nat)
    ensures n < Pow2(|bits|)
  {
    if |bits| == 0 then 0
    else 2 * BinaryToInt(bits[..|bits| - 1]) + (if bits[|bits| - 1] then 1 else 0)
  }

  /** Encoding a number that fits in `numbits` bits and decoding it gives it back. */
  lemma {:induction false} BinaryRoundTrip(numbits: nat, num: nat)
    requires num < Pow2(numbits)
    ensures BinaryToInt(IntToBinary(numbits, num)) == num
  {
    if numbits > 0 {
      var bits := IntToBinary(numbits, num);
      assert bits[..|bits| - 1] == IntToBinary(numbits - 1, num / 2);
      BinaryRoundTrip(numbits - 1, num / 2);
    }
  }

  /** Decoding a bit vector and encoding it with as many bits gives it back. */
  lemma {:induction false} BitsRoundTrip(bits: seq<bool>)
    ensures IntToBinary(|bits|, BinaryToInt(bits)) == bits
  {
    if |bits| > 0 {
      var init := bits[..|bits| - 1];
      var n := BinaryToInt(bits);
      assert n / 2 == BinaryToInt(init);
      assert (n % 2 == 1) == bits[|bits| - 1];
      BitsRoundTrip(init);
      assert bits == init + [bits[|bits| - 1]];
    }
  }

  // ---------------------------------------------------------------------
  // Factorial and relation identifiers
  // ---------------------------------------------------------------------

  /** lo * (lo + 1) * ... * hi, multiplied from the bottom up. */
  function Product(lo: nat, hi: nat): (p: nat)
    decreases hi + 1 - lo
  {
    if lo > hi then 1 else lo * Product(lo + 1, hi)
  }

  /** `factorial(n)` for n >= 0: the product 1 * 2 * ... * n. */
  function Factorial(n: nat): nat
  {
    Product(1, n)
  }

  lemma {:induction false} ProductTop(lo: nat, hi: nat)
    requires 1 <= lo <= hi
    ensures Product(lo, hi) == Product(lo, hi - 1) * hi
    decreases hi - lo
  {
    if lo < hi {
      ProductTop(lo + 1, hi);
      var a, b := Product(lo + 1, hi - 1), Product(lo + 1, hi);
      assert b == a * hi;
      calc {
        Product(lo, hi);
        lo * b;
        lo * (a * hi);
        { MulAssoc(lo, a, hi); }
        (lo * a) * hi;
        Product(lo, hi - 1) * hi;
      }
    }
  }

  lemma MulAssoc(x: int, y: int, z: int)
    ensures x * (y * z) == (x * y) * z
  {
  }

  lemma {:induction false} ProductPositive(lo: nat, hi: nat)
    requires lo >= 1
    ensures Product(lo, hi) >= 1
    decreases hi + 1 - lo
  {
    if lo <= hi {
      ProductPositive(lo + 1, hi);
    }
  }

  /** The factorial of zero is one and each factorial is its argument times
      the one before. */
  lemma FactorialRecurrence(n: nat)
    ensures Factorial(0) == 1
    ensures n >= 1 ==> Factorial(n) == n * Factorial(n - 1)
    ensures Factorial(n) >= 1
  {
    if n >= 1 {
      ProductTop(1, n);
    }
    ProductPositive(1, n);
  }

  predicate Distinct(s: seq<int>)
  {
    forall i, j :: 0 <= i < j < |s| ==> s[i] != s[j]
  }

  /** How many entries of `s` are below `x`. */
  function CountBelow(s: seq<int>, x: int): (n: nat)
    ensures n <= |s|
  {
    if |s| == 0 then 0 else (if s[0] < x then 1 else 0) + CountBelow(s[1..], x)
  }

  /** `identifyrelations(numbers)`: a number identifying the order relations
      between the numbers. Each position contributes how many later numbers
      are below it, weighted by the factorial of the count of later
      positions (the Lehmer code). The comment of `identifyrelations` asks for
      pairwise distinct numbers; this definition accepts any. */
  function IdentifyRelations(numbers: seq<int>): nat
  {
    if |numbers| == 0 then 0
    else
      Weight(CountBelow(numbers[1..], numbers[0]), Factorial(|numbers| - 1))
      + IdentifyRelations(numbers[1..])
  }

  /** `c * f` as repeated addition, so that unfolding the identifier does
      not bring in nonlinear arithmetic. */
  function Weight(c: nat, f: nat): nat
  {
    if c == 0 then 0 else f + Weight(c - 1, f)
  }

  lemma {:induction false} WeightIsProduct(c: nat, f: nat)
    ensures Weight(c, f) == c * f
  {
    if c > 0 {
      WeightIsProduct(c - 1, f);
    }
  }

  /** The identifier ranges from 0 to |numbers|! - 1. */
  lemma {:induction false} IdentifyRelationsRange(numbers: seq<int>)
    ensures IdentifyRelations(numbers) <= Factorial(|numbers|) - 1
  {
    FactorialRecurrence(|numbers|);
    if |numbers| > 0 {
      var n := |numbers|;
      var c := CountBelow(numbers[1..], numbers[0]);
      var f := Factorial(n - 1);
      IdentifyRelationsRange(numbers[1..]);
      WeightIsProduct(c, f);
      LehmerStep(c, n, f, IdentifyRelations(numbers[1..]));
    }
  }

  lemma LehmerStep(c: nat, n: nat, f: nat, rest: nat)
    requires 1 <= n && c <= n - 1 && rest <= f - 1
    ensures c * f + rest <= n * f - 1
  {
    MulLe(c, n - 1, f);
    assert (n - 1) * f + f == n * f;
  }

  lemma MulLe(a: int, b: int, c: nat)
    requires a <= b
    ensures a * c <= b * c
  {
  }

  /** `a` and `b` have the same length and the same order relations
      between every two positions. */
  predicate SameRelations(a: seq<int>, b: seq<int>)
  {
    && |a| == |b|
    && forall i, j :: 0 <= i < |a| && 0 <= j < |a| ==> (a[i] < a[j] <==> b[i] < b[j])
  }

  lemma {:induction false} CountBelowSame(s: seq<int>, x: int, t: seq<int>, y: int)
    requires |s| == |t|
    requires forall k :: 0 <= k < |s| ==> (s[k] < x <==> t[k] < y)
    ensures CountBelow(s, x) == CountBelow(t, y)
  {
    if |s| > 0 {
      CountBelowSame(s[1..], x, t[1..], y);
    }
  }

  /** When every entry of `t` below `y` sits where `s` has an entry below
      `x`, `t` has at most as many entries below `y`; fewer when some
      position counts for `s` only. */
  lemma {:induction false} CountBelowMono(s: seq<int>, x: int, t: seq<int>, y: int)
    requires |s| == |t|
    requires forall k :: 0 <= k < |s| ==> t[k] < y ==> s[k] < x
    ensures CountBelow(t, y) <= CountBelow(s, x)
    ensures (exists j :: 0 <= j < |s| && s[j] < x && !(t[j] < y)) ==> CountBelow(t, y) < CountBelow(s, x)
  {
    if |s| > 0 {
      CountBelowMono(s[1..], x, t[1..], y);
      if exists j :: 0 <= j < |s| && s[j] < x && !(t[j] < y) {
        var j :| 0 <= j < |s| && s[j] < x && !(t[j] < y);
        if j > 0 {
          assert s[1..][j - 1] < x && !(t[1..][j - 1] < y);
        }
      }
    }
  }

  /** Between sequences with the same relations, the same count of entries
      below `x` and below `y` means the same entries are below them. */
  lemma BelowAgrees(s: seq<int>, x: int, t: seq<int>, y: int, j: int)
    requires SameRelations(s, t) && x !in s && y !in t
    requires CountBelow(s, x) == CountBelow(t, y)
    requires 0 <= j < |s|
    ensures s[j] < x <==> t[j] < y
  {
    if s[j] < x && !(t[j] < y) {
      assert t[j] != y;
      CountBelowMono(s, x, t, y);
    } else if t[j] < y && !(s[j] < x) {
      assert s[j] != x;
      CountBelowMono(t, y, s, x);
    }
  }

  /** A mixed-radix digit and remainder are determined by the number. */
  lemma MixedRadixUnique(c1: nat, r1: nat, c2: nat, r2: nat, f: nat)
    requires r1 < f && r2 < f
    requires c1 * f + r1 == c2 * f + r2
    ensures c1 == c2 && r1 == r2
  {
    if c1 > c2 {
      MulLe(1, c1 - c2, f);
    } else if c2 > c1 {
      MulLe(1, c2 - c1, f);
    }
  }

  /** The identifier depends only on the order relations between the numbers. */
  lemma {:induction false} SameRelationsSameId(a: seq<int>, b: seq<int>)
    requires SameRelations(a, b)
    ensures IdentifyRelations(a) == IdentifyRelations(b)
  {
    if |a| > 0 {
      assert SameRelations(a[1..], b[1..]) by {
        forall i, j | 0 <= i < |a| - 1 && 0 <= j < |a| - 1
          ensures a[1..][i] < a[1..][j] <==> b[1..][i] < b[1..][j]
        {
          assert a[1..][i] == a[i + 1] && a[1..][j] == a[j + 1];
          assert b[1..][i] == b[i + 1] && b[1..][j] == b[j + 1];
        }
      }
      SameRelationsSameId(a[1..], b[1..]);
      forall k | 0 <= k < |a| - 1 ensures a[1..][k] < a[0] <==> b[1..][k] < b[0] {
        assert a[1..][k] == a[k + 1] && b[1..][k] == b[k + 1];
      }
      CountBelowSame(a[1..], a[0], b[1..], b[0]);
    }
  }

  /** Numbers with different order relations get different identifiers:
      equal identifiers mean equal relations. */
  lemma {:induction false} SameIdSameRelations(a: seq<int>, b: seq<int>)
    requires Distinct(a) && Distinct(b) && |a| == |b|
    requires IdentifyRelations(a) == IdentifyRelations(b)
    ensures SameRelations(a, b)
  {
    if |a| > 0 {
      var n := |a|;
      var f := Factorial(n - 1);
      var sa, sb := a[1..], b[1..];
      IdentifyRelationsRange(sa);
      IdentifyRelationsRange(sb);
      WeightIsProduct(CountBelow(sa, a[0]), f);
      WeightIsProduct(CountBelow(sb, b[0]), f);
      MixedRadixUnique(CountBelow(sa, a[0]), IdentifyRelations(sa), CountBelow(sb, b[0]), IdentifyRelations(sb), f);
      SameIdSameRelations(sa, sb);
      assert a[0] !in sa && b[0] !in sb;
      forall i, j | 0 <= i < n && 0 <= j < n ensures a[i] < a[j] <==> b[i] < b[j] {
        if i > 0 && j > 0 {
          assert sa[i - 1] < sa[j - 1] <==> sb[i - 1] < sb[j - 1];
        } else if i == 0 && j > 0 {
          BelowAgrees(sa, a[0], sb, b[0], j - 1);
        } else if i > 0 && j == 0 {
          BelowAgrees(sa, a[0], sb, b[0], i - 1);
        }
      }
    }
  }

  // ---------------------------------------------------------------------
  // Renumberings
  // ---------------------------------------------------------------------

  /** The identity renumbering of [0, n). */
  function Identity(n: nat): (r: seq<int>)
    ensures |r| == n
    ensures forall i :: 0 <= i < n ==> r[i] == i
  {
    seq(n, i => i)
  }

  /** `chainrenumbering(originalrenum, newrenum)`: renumbering the result of
      `originalrenum` once more by `newrenum`, so old number `i` ends at
      `newrenum[originalrenum[i]]`. */
  function ChainRenumbering(originalrenum: seq<int>, newrenum: seq<int>): (r: seq<int>)
    requires forall i :: 0 <= i < |originalrenum| ==> 0 <= originalrenum[i] < |newrenum|
    ensures |r| == |originalrenum|
    ensures forall i :: 0 <= i < |r| ==> r[i] == newrenum[originalrenum[i]]
  {
    seq(|originalrenum|, i requires 0 <= i < |originalrenum| => newrenum[originalrenum[i]])
  }

  /** Chaining two permutations gives a permutation. */
  lemma ChainPermutations(p: seq<int>, q: seq<int>)
    requires IsPermutation(p) && IsPermutation(q) && |p| == |q|
    ensures IsPermutation(ChainRenumbering(p, q))
  {
    var c := ChainRenumbering(p, q);
    forall v | 0 <= v < |c| ensures v in c {
      assert v in q;
      var j :| 0 <= j < |q| && q[j] == v;
      assert j in p;
      var i :| 0 <= i < |p| && p[i] == j;
      assert c[i] == v;
    }
  }

  /** `invertrenumbering(renum)`: for a permutation, the renumbering that
      undoes it; chaining the two in either order gives the identity. */
  method InvertRenumbering(renum: seq<int>) returns (r: seq<int>)
    requires IsPermutation(renum)
    ensures IsPermutation(r)
    ensures |r| == |renum|
    ensures ChainRenumbering(renum, r) == Identity(|renum|)
    ensures ChainRenumbering(r, renum) == Identity(|renum|)
  {
    r := seq(|renum|, _ => 0);
    var i := 0;
    while i < |renum|
      invariant 0 <= i <= |renum|
      invariant |r| == |renum|
      invariant forall k :: 0 <= k < i ==> r[renum[k]] == k
      invariant forall j :: 0 <= j < |r| ==> 0 <= r[j] < |renum|
    {
      r := r[renum[i] := i];
      i := i + 1;
    }
    forall j | 0 <= j < |r| ensures renum[r[j]] == j {
      assert j in renum;
      var k :| 0 <= k < |renum| && renum[k] == j;
    }
    forall v | 0 <= v < |r| ensures v in r {
      assert r[renum[v]] == v;
    }
  }
}
