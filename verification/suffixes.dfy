/**
 * The suffix array of a chunk: the byte offsets `0 .. size-1` ordered by the
 * content of the suffix that starts at each offset.  Suffixes compare byte by
 * byte as unsigned values; a suffix that runs out first (a proper prefix of the
 * other) orders first.
 */
module Suffixes {

  newtype byte = x: int | 0 <= x < 256

  /** Lexicographic order on byte strings, with a proper prefix ordering first. */
  predicate LexLeq(a: seq<byte>, b: seq<byte>)
    decreases |a|
  {
    |a| == 0 || (|b| > 0 && (a[0] < b[0] || (a[0] == b[0] && LexLeq(a[1..], b[1..]))))
  }

  /** `a` is a prefix of `b`. */
  predicate IsPrefix(a: seq<byte>, b: seq<byte>)
  {
    |a| <= |b| && a == b[..|a|]
  }

  /** `a` and `b` agree before position `k` and `a` has the smaller byte at `k`. */
  predicate FirstDifferenceBelow(a: seq<byte>, b: seq<byte>, k: nat)
  {
    k < |a| && k < |b| && a[..k] == b[..k] && a[k] < b[k]
  }

  lemma {:induction false} LexLeqReflexive(a: seq<byte>)
    ensures LexLeq(a, a)
    decreases |a|
  {
    if |a| > 0 {
      LexLeqReflexive(a[1..]);
    }
  }

  lemma {:induction false} LexLeqTotal(a: seq<byte>, b: seq<byte>)
    ensures LexLeq(a, b) || LexLeq(b, a)
    decreases |a|
  {
    if |a| > 0 && |b| > 0 && a[0] == b[0] {
      LexLeqTotal(a[1..], b[1..]);
    }
  }

  lemma {:induction false} LexLeqTransitive(a: seq<byte>, b: seq<byte>, c: seq<byte>)
    requires LexLeq(a, b) && LexLeq(b, c)
    ensures LexLeq(a, c)
    decreases |a|
  {
    if |a| > 0 && a[0] == b[0] && b[0] == c[0] {
      LexLeqTransitive(a[1..], b[1..], c[1..]);
    }
  }

  lemma {:induction false} LexLeqAntisymmetric(a: seq<byte>, b: seq<byte>)
    requires LexLeq(a, b) && LexLeq(b, a)
    ensures a == b
    decreases |a|
  {
    if |a| > 0 {
      LexLeqAntisymmetric(a[1..], b[1..]);
      assert a == [a[0]] + a[1..] && b == [b[0]] + b[1..];
    }
  }

  /**
   * The recursive comparison agrees with the textbook definition: `a` orders no
   * later than `b` exactly when `a` is a prefix of `b` or the first differing byte
   * of `a` is the smaller one.
   */
  lemma {:induction false} LexLeqIsPrefixOrFirstDifference(a: seq<byte>, b: seq<byte>)
    ensures LexLeq(a, b) <==> IsPrefix(a, b) || exists k: nat :: FirstDifferenceBelow(a, b, k)
    decreases |a|
  {
    if |a| == 0 {
      assert IsPrefix(a, b);
    } else if |b| == 0 {
      assert !IsPrefix(a, b);
      assert forall k: nat :: !FirstDifferenceBelow(a, b, k);
    } else if a[0] < b[0] {
      assert FirstDifferenceBelow(a, b, 0);
    } else if a[0] > b[0] {
      assert !IsPrefix(a, b);
    } else {
      var a', b' := a[1..], b[1..];
      LexLeqIsPrefixOrFirstDifference(a', b');
      assert IsPrefix(a, b) <==> IsPrefix(a', b') by {
        if IsPrefix(a', b') {
          assert a == [a[0]] + a' && b[..|a|] == [b[0]] + b'[..|a'|];
        }
        if IsPrefix(a, b) {
          assert a' == a[1..] && b'[..|a'|] == b[..|a|][1..];
        }
      }
      if exists k: nat :: FirstDifferenceBelow(a', b', k) {
        var k: nat :| FirstDifferenceBelow(a', b', k);
        assert a[..k + 1] == [a[0]] + a'[..k] && b[..k + 1] == [b[0]] + b'[..k];
        assert FirstDifferenceBelow(a, b, k + 1);
      }
      if exists k: nat :: FirstDifferenceBelow(a, b, k) {
        var k: nat :| FirstDifferenceBelow(a, b, k);
        assert k > 0;
        assert a'[..k - 1] == a[..k][1..] && b'[..k - 1] == b[..k][1..];
        assert FirstDifferenceBelow(a', b', k - 1);
      }
    }
  }

  /** The suffix of `data` starting at offset `i` orders no later than the one at `j`. */
  predicate SuffixLeq(data: seq<byte>, i: nat, j: nat)
    requires i <= |data| && j <= |data|
  {
    LexLeq(data[i..], data[j..])
  }

  /** Distinct offsets start distinct suffixes, so suffix order is antisymmetric on offsets. */
  lemma SuffixLeqAntisymmetric(data: seq<byte>, i: nat, j: nat)
    requires i <= |data| && j <= |data|
    requires SuffixLeq(data, i, j) && SuffixLeq(data, j, i)
    ensures i == j
  {
    LexLeqAntisymmetric(data[i..], data[j..]);
    assert |data[i..]| == |data[j..]|;
  }

  /** The offsets `0 .. n-1` in increasing order, as the build step first lays them out. */
  function Iota(n: nat): (s: seq<nat>)
  {
    seq(n, i requires 0 <= i < n => i)
  }

  predicate ValidOffsets(data: seq<byte>, sa: seq<nat>)
  {
    forall k :: 0 <= k < |sa| ==> sa[k] < |data|
  }

  /** Each offset's suffix orders no later than the next offset's. */
  predicate AdjacentSorted(data: seq<byte>, sa: seq<nat>)
    requires ValidOffsets(data, sa)
  {
    forall k :: 0 < k < |sa| ==> SuffixLeq(data, sa[k - 1], sa[k])
  }

  /** Every earlier offset's suffix orders no later than every later offset's. */
  predicate SortedBySuffix(data: seq<byte>, sa: seq<nat>)
    requires ValidOffsets(data, sa)
  {
    forall i, j :: 0 <= i < j < |sa| ==> SuffixLeq(data, sa[i], sa[j])
  }

  /** `sa` holds each of `0 .. n-1` exactly once. */
  predicate IsPermutation(sa: seq<nat>, n: nat)
  {
    multiset(sa) == multiset(Iota(n))
  }

  /** A suffix array of `data`: a permutation of its offsets ordered by suffix. */
  predicate IsSuffixArray(data: seq<byte>, sa: seq<nat>)
  {
    IsPermutation(sa, |data|) && ValidOffsets(data, sa) && AdjacentSorted(data, sa)
  }

  /** The pairs of neighbours in `out[..hi]` are in suffix order, except the pair ending at `hole`. */
  predicate SortedExcept(data: seq<byte>, out: seq<nat>, hi: nat, hole: nat)
    requires ValidOffsets(data, out)
  {
    forall k :: 0 < k < hi && k < |out| && k != hole ==> SuffixLeq(data, out[k - 1], out[k])
  }

  /** One exchange of the inner loop: `out[j]` moves one place towards the front. */
  lemma SwapStep(data: seq<byte>, out: seq<nat>, i: nat, j: nat)
    requires ValidOffsets(data, out)
    requires 0 < j <= i < |out|
    requires SortedExcept(data, out, i + 1, j)
    requires j < i ==> SuffixLeq(data, out[j - 1], out[j + 1])
    requires !SuffixLeq(data, out[j - 1], out[j])
    ensures var out' := out[j - 1 := out[j]][j := out[j - 1]];
            && ValidOffsets(data, out')
            && SortedExcept(data, out', i + 1, j - 1)
            && (0 < j - 1 ==> SuffixLeq(data, out'[j - 2], out'[j]))
            && multiset(out') == multiset(out)
  {
    var out' := out[j - 1 := out[j]][j := out[j - 1]];
    LexLeqTotal(data[out[j - 1]..], data[out[j]..]);
    forall k | 0 < k < i + 1 && k < |out'| && k != j - 1
      ensures SuffixLeq(data, out'[k - 1], out'[k])
    {
      if k == j {
      } else if k == j + 1 {
      } else {
        assert out'[k - 1] == out[k - 1] && out'[k] == out[k];
      }
    }
    if 0 < j - 1 {
      assert out'[j - 2] == out[j - 2];
    }
  }

  /**
   * Sorts offsets by suffix.  The source uses a most-significant-digit radix sort;
   * this is an insertion sort with the same postcondition.
   */
  method SortSuffixes(data: seq<byte>, sa: seq<nat>) returns (out: seq<nat>)
    requires ValidOffsets(data, sa)
    ensures multiset(out) == multiset(sa)
    ensures ValidOffsets(data, out)
    ensures AdjacentSorted(data, out)
  {
    out := sa;
    if |out| == 0 {
      return;
    }
    var i := 1;
    while i < |out|
      invariant 1 <= i <= |out| == |sa|
      invariant multiset(out) == multiset(sa)
      invariant ValidOffsets(data, out)
      invariant SortedExcept(data, out, i, 0)
    {
      var j := i;
      while j > 0 && !SuffixLeq(data, out[j - 1], out[j])
        invariant 0 <= j <= i < |out| == |sa|
        invariant multiset(out) == multiset(sa)
        invariant ValidOffsets(data, out)
        invariant SortedExcept(data, out, i + 1, j)
        invariant 0 < j < i ==> SuffixLeq(data, out[j - 1], out[j + 1])
      {
        SwapStep(data, out, i, j);
        out := out[j - 1 := out[j]][j := out[j - 1]];
        j := j - 1;
      }
      i := i + 1;
    }
  }

  // ---------------------------------------------------------------------------

  lemma {:induction false} IotaCount(n: nat, x: nat)
    ensures multiset(Iota(n))[x] == if x < n then 1 else 0
  {
    if n > 0 {
      IotaCount(n - 1, x);
      assert Iota(n) == Iota(n - 1) + [n - 1];
    }
  }

  /** A permutation of `0 .. n-1` has length `n`, holds only offsets below `n`, and repeats none. */
  lemma PermutationFacts(sa: seq<nat>, n: nat)
    requires IsPermutation(sa, n)
    ensures |sa| == n
    ensures forall k :: 0 <= k < |sa| ==> sa[k] < n
    ensures forall i, j :: 0 <= i < j < |sa| ==> sa[i] != sa[j]
  {
    assert |multiset(sa)| == |multiset(Iota(n))|;
    forall k | 0 <= k < |sa| ensures sa[k] < n {
      assert sa[k] in multiset(sa);
      IotaCount(n, sa[k]);
    }
    forall i, j | 0 <= i < j < |sa| ensures sa[i] != sa[j] {
      if sa[i] == sa[j] {
        var x := sa[i];
        assert sa == sa[..i] + [x] + sa[i + 1..j] + [x] + sa[j + 1..];
        assert multiset(sa)[x] >= 2;
        IotaCount(n, x);
      }
    }
  }

  /** Suffix order is transitive, so sorted neighbours make the whole array sorted. */
  lemma {:induction false} AdjacentSortedIsSorted(data: seq<byte>, sa: seq<nat>)
    requires ValidOffsets(data, sa) && AdjacentSorted(data, sa)
    ensures SortedBySuffix(data, sa)
    decreases |sa|
  {
    if |sa| > 1 {
      var init := sa[..|sa| - 1];
      assert ValidOffsets(data, init);
      assert AdjacentSorted(data, init) by {
        forall k | 0 < k < |init| ensures SuffixLeq(data, init[k - 1], init[k]) {
          assert init[k - 1] == sa[k - 1] && init[k] == sa[k];
        }
      }
      AdjacentSortedIsSorted(data, init);
      var last := |sa| - 1;
      forall i, j | 0 <= i < j < |sa| ensures SuffixLeq(data, sa[i], sa[j]) {
        if j < last {
          assert init[i] == sa[i] && init[j] == sa[j];
        } else if i < last - 1 {
          assert init[i] == sa[i] && init[last - 1] == sa[last - 1];
          LexLeqTransitive(data[sa[i]..], data[sa[last - 1]..], data[sa[last]..]);
        }
      }
    } else {
      if |sa| == 1 { LexLeqReflexive(data[sa[0]..]); }
    }
  }

  lemma MultisetTail(a: seq<nat>)
    requires |a| > 0
    ensures multiset(a[1..]) == multiset(a) - multiset{a[0]}
  {
    assert a == [a[0]] + a[1..];
  }

  lemma SortedBySuffixTail(data: seq<byte>, a: seq<nat>)
    requires |a| > 0 && ValidOffsets(data, a) && SortedBySuffix(data, a)
    ensures ValidOffsets(data, a[1..]) && SortedBySuffix(data, a[1..])
  {
    forall i, j | 0 <= i < j < |a[1..]| ensures SuffixLeq(data, a[1..][i], a[1..][j]) {
      assert a[1..][i] == a[i + 1] && a[1..][j] == a[j + 1];
    }
  }

  /** In two sorted arrays of the same offsets the first offsets agree: suffix order has no ties. */
  lemma SortedSameHead(data: seq<byte>, a: seq<nat>, b: seq<nat>)
    requires |a| > 0 && |b| > 0
    requires ValidOffsets(data, a) && ValidOffsets(data, b)
    requires SortedBySuffix(data, a) && SortedBySuffix(data, b)
    requires multiset(a) == multiset(b)
    ensures a[0] == b[0]
  {
    assert a[0] in multiset(b) && b[0] in multiset(a);
    var m :| 0 <= m < |b| && b[m] == a[0];
    var k :| 0 <= k < |a| && a[k] == b[0];
    if k != 0 && m != 0 {
      assert SuffixLeq(data, a[0], a[k]);
      assert SuffixLeq(data, b[0], b[m]);
      SuffixLeqAntisymmetric(data, a[0], b[0]);
    }
  }

  /** Two sorted arrays of the same offsets are equal. */
  lemma {:induction false} SortedUnique(data: seq<byte>, a: seq<nat>, b: seq<nat>)
    requires ValidOffsets(data, a) && ValidOffsets(data, b)
    requires SortedBySuffix(data, a) && SortedBySuffix(data, b)
    requires multiset(a) == multiset(b)
    ensures a == b
    decreases |a|
  {
    assert |a| == |multiset(a)| == |multiset(b)| == |b|;
    if |a| > 0 {
      SortedSameHead(data, a, b);
      MultisetTail(a);
      MultisetTail(b);
      SortedBySuffixTail(data, a);
      SortedBySuffixTail(data, b);
      SortedUnique(data, a[1..], b[1..]);
      assert a == [a[0]] + a[1..] && b == [b[0]] + b[1..];
    }
  }

  /** A buffer has exactly one suffix array. */
  lemma SuffixArrayUnique(data: seq<byte>, a: seq<nat>, b: seq<nat>)
    requires IsSuffixArray(data, a) && IsSuffixArray(data, b)
    ensures a == b
  {
    AdjacentSortedIsSorted(data, a);
    AdjacentSortedIsSorted(data, b);
    SortedUnique(data, a, b);
  }

  /** The bytes of "abcabc". */
  function AbcAbc(): seq<byte>
  {
    [97, 98, 99, 97, 98, 99]
  }

  /** The expected suffix array of "abcabc". */
  function AbcAbcOrder(): seq<nat>
  {
    [3, 0, 4, 1, 5, 2]
  }

  lemma AbcAbcOrderIsPermutation()
    ensures IsPermutation(AbcAbcOrder(), 6)
  {
    assert Iota(6) == [0, 1, 2, 3, 4, 5];
    calc {
      multiset(AbcAbcOrder());
      multiset{3, 0, 4, 1, 5, 2};
      multiset{0, 1, 2, 3, 4, 5};
      multiset(Iota(6));
    }
  }

  lemma AbcAbcOrderIsSorted()
    ensures ValidOffsets(AbcAbc(), AbcAbcOrder()) && AdjacentSorted(AbcAbc(), AbcAbcOrder())
  {
    var data := AbcAbc();
    var sa := AbcAbcOrder();
    assert data[3..] == [97, 98, 99] && data[0..] == [97, 98, 99, 97, 98, 99];
    assert data[4..] == [98, 99] && data[1..] == [98, 99, 97, 98, 99];
    assert data[5..] == [99] && data[2..] == [99, 97, 98, 99];
    assert LexLeq([99], [99, 97, 98, 99]);
    assert LexLeq([98, 99], [98, 99, 97, 98, 99]);
    assert LexLeq([97, 98, 99], [97, 98, 99, 97, 98, 99]);
    assert LexLeq([97, 98, 99, 97, 98, 99], [98, 99]);
    assert LexLeq([98, 99, 97, 98, 99], [99]);
    forall k | 0 < k < |sa| ensures SuffixLeq(data, sa[k - 1], sa[k]) {
    }
  }

  /** The suffix array of "abcabc" is `[3, 0, 4, 1, 5, 2]`: abc < abcabc < bc < bcabc < c < cabc. */
  lemma AbcAbcSuffixArray(sa: seq<nat>)
    requires IsSuffixArray(AbcAbc(), sa)
    ensures sa == AbcAbcOrder()
  {
    AbcAbcOrderIsPermutation();
    AbcAbcOrderIsSorted();
    SuffixArrayUnique(AbcAbc(), sa, AbcAbcOrder());
  }
}
