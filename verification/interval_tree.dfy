/**
 * The balanced, right-bound-augmented binary search tree built over a chunk's
 * compressed range list.  A node refers to its range by position in the list
 * (the source stores a pointer into the list) and records `rightLimit`, the
 * largest right bound in its subtree.
 */
module IntervalTree {
  import opened Ranges

  datatype Tree = Nil | Node(left: Tree, mid: nat, right: Tree, rightLimit: int)

  /** The list positions held by a tree, in symmetric (in-order) order. */
  function InOrder(t: Tree): seq<nat>
  {
    match t
    case Nil => []
    case Node(a, m, b, _) => InOrder(a) + [m] + InOrder(b)
  }

  /** The positions `lo, lo + 1, ..., hi - 1`. */
  function Positions(lo: nat, hi: nat): (s: seq<nat>)
    requires lo <= hi
    decreases hi - lo
  {
    if lo == hi then [] else [lo] + Positions(lo + 1, hi)
  }

  /** Every position held by the tree is a valid index into a list of length `n`. */
  predicate InBounds(t: Tree, n: nat)
  {
    match t
    case Nil => true
    case Node(a, m, b, _) => m < n && InBounds(a, n) && InBounds(b, n)
  }

  /**
   * The augmentation invariant, node by node: a node's `rightLimit` is the larger
   * of its own range's right bound and its children's `rightLimit` (an absent
   * child contributes nothing).
   */
  predicate Augmented(t: Tree, files: seq<ChunkFile>)
    requires InBounds(t, |files|)
  {
    match t
    case Nil => true
    case Node(a, m, b, rl) =>
      var own := files[m].right;
      var withLeft := if a.Node? then Max(own, a.rightLimit) else own;
      && rl == (if b.Node? then Max(withLeft, b.rightLimit) else withLeft)
      && Augmented(a, files) && Augmented(b, files)
  }

  /** The midpoint `(lo + hi) / 2` of a non-empty slice: it splits the slice into a left part as long as the right part or one longer. */
  function Mid(lo: nat, hi: nat): (m: nat)
    requires lo < hi
    ensures lo <= m < hi
    ensures hi - m - 1 <= m - lo <= hi - m
  {
    (lo + hi) / 2
  }

  /**
   * Builds the tree over positions `[lo, hi)` of a range list: the midpoint is the
   * node, the halves before and after it are the subtrees, and the node's limit
   * starts at its own right bound and is raised by each child's limit that exceeds it.
   */
  function Build(files: seq<ChunkFile>, lo: nat, hi: nat): (t: Tree)
    requires lo <= hi <= |files|
    ensures t.Nil? <==> lo == hi
    decreases hi - lo
  {
    if hi == lo then Nil
    else
      var mid := Mid(lo, hi);
      var a := Build(files, lo, mid);
      var b := Build(files, mid + 1, hi);
      var rl0 := files[mid].right;
      var rl1 := if a.Node? && a.rightLimit > rl0 then a.rightLimit else rl0;
      var rl := if b.Node? && b.rightLimit > rl1 then b.rightLimit else rl1;
      Node(a, mid, b, rl)
  }

  /**
   * Binary-search-tree order over whole subtrees: every range in the left subtree
   * orders strictly before the node's range and every range in the right subtree
   * strictly after it.
   */
  predicate Bst(t: Tree, files: seq<ChunkFile>)
    requires InBounds(t, |files|)
  {
    match t
    case Nil => true
    case Node(a, m, b, _) =>
      && (forall i :: i in InOrder(a) ==> i < |files| && Less(files[i], files[m]))
      && (forall i :: i in InOrder(b) ==> i < |files| && Less(files[m], files[i]))
      && Bst(a, files) && Bst(b, files)
  }

  /** The local ordering checks made at each node: each child's range against the node's. */
  predicate ChildOrderOk(t: Tree, files: seq<ChunkFile>)
    requires InBounds(t, |files|)
  {
    match t
    case Nil => true
    case Node(a, m, b, _) =>
      && (a.Node? ==> a.mid < |files| && Less(files[a.mid], files[m]))
      && (b.Node? ==> b.mid < |files| && Less(files[m], files[b.mid]))
      && ChildOrderOk(a, files) && ChildOrderOk(b, files)
  }

  function Height(t: Tree): nat
  {
    match t
    case Nil => 0
    case Node(a, _, b, _) => 1 + (if Height(a) < Height(b) then Height(b) else Height(a))
  }

  function Pow2(k: nat): (p: nat)
    ensures p >= 1
  {
    if k == 0 then 1 else 2 * Pow2(k - 1)
  }

  // ---------------------------------------------------------------------------

  /**
   * The node-local invariant makes `rightLimit` the true maximum right bound over
   * the subtree: no range in it ends later, and some range ends exactly there.
   */
  lemma {:induction false} AugmentedIsTrueMax(t: Tree, files: seq<ChunkFile>)
    requires InBounds(t, |files|) && Augmented(t, files) && t.Node?
    ensures forall i :: i in InOrder(t) ==> i < |files| && files[i].right <= t.rightLimit
    ensures exists i :: i in InOrder(t) && i < |files| && files[i].right == t.rightLimit
  {
    InOrderInBounds(t, |files|);
    var a, m, b := t.left, t.mid, t.right;
    assert InOrder(t) == InOrder(a) + [m] + InOrder(b);
    if a.Node? { AugmentedIsTrueMax(a, files); }
    if b.Node? { AugmentedIsTrueMax(b, files); }
    var own := files[m].right;
    var withLeft := if a.Node? then Max(own, a.rightLimit) else own;
    if b.Node? && withLeft < b.rightLimit {
      var i :| i in InOrder(b) && i < |files| && files[i].right == b.rightLimit;
      assert i in InOrder(t);
    } else if a.Node? && own < a.rightLimit {
      var i :| i in InOrder(a) && i < |files| && files[i].right == a.rightLimit;
      assert i in InOrder(t);
    } else {
      assert m in InOrder(t);
    }
  }

  lemma {:induction false} InOrderInBounds(t: Tree, n: nat)
    requires InBounds(t, n)
    ensures forall i :: i in InOrder(t) ==> i < n
  {
    if t.Node? {
      InOrderInBounds(t.left, n);
      InOrderInBounds(t.right, n);
    }
  }

  /** The tree over `[lo, hi)` records in its root the largest right bound of that slice. */
  lemma BuildRightLimitIsMax(files: seq<ChunkFile>, lo: nat, hi: nat)
    requires lo < hi <= |files|
    ensures forall j :: lo <= j < hi ==> files[j].right <= Build(files, lo, hi).rightLimit
    ensures exists j :: lo <= j < hi && files[j].right == Build(files, lo, hi).rightLimit
  {
    var t := Build(files, lo, hi);
    BuildInOrder(files, lo, hi);
    BuildInBounds(files, lo, hi);
    BuildAugmented(files, lo, hi);
    AugmentedIsTrueMax(t, files);
    PositionsMembers(lo, hi);
    var i :| i in InOrder(t) && i < |files| && files[i].right == t.rightLimit;
  }

  lemma {:induction false} PositionsMembers(lo: nat, hi: nat)
    requires lo <= hi
    ensures forall i :: i in Positions(lo, hi) <==> lo <= i < hi
    decreases hi - lo
  {
    if lo < hi {
      PositionsMembers(lo + 1, hi);
    }
  }

  /** `Positions(lo, hi)` has `hi - lo` elements, the `k`-th being `lo + k`. */
  lemma {:induction false} PositionsIndex(lo: nat, hi: nat)
    requires lo <= hi
    ensures |Positions(lo, hi)| == hi - lo
    ensures forall k :: 0 <= k < hi - lo ==> Positions(lo, hi)[k] == lo + k
    decreases hi - lo
  {
    if lo < hi {
      PositionsIndex(lo + 1, hi);
    }
  }

  /** The root of the tree over a non-empty slice sits at the midpoint, between the trees over the two halves. */
  lemma BuildNode(files: seq<ChunkFile>, lo: nat, hi: nat)
    requires lo < hi <= |files|
    ensures var t := Build(files, lo, hi);
            && t.Node?
            && t.mid == Mid(lo, hi)
            && t.left == Build(files, lo, Mid(lo, hi))
            && t.right == Build(files, Mid(lo, hi) + 1, hi)
  {
  }

  lemma {:induction false} PositionsSplit(lo: nat, m: nat, hi: nat)
    requires lo <= m < hi
    ensures Positions(lo, m) + [m] + Positions(m + 1, hi) == Positions(lo, hi)
    decreases m - lo
  {
    if lo < m {
      PositionsSplit(lo + 1, m, hi);
      assert Positions(lo, m) + [m] + Positions(m + 1, hi)
          == [lo] + (Positions(lo + 1, m) + [m] + Positions(m + 1, hi));
    }
  }

  /** The tree over `[lo, hi)` holds exactly the positions `lo .. hi-1`, each once and in order. */
  lemma {:induction false} BuildInOrder(files: seq<ChunkFile>, lo: nat, hi: nat)
    requires lo <= hi <= |files|
    ensures InOrder(Build(files, lo, hi)) == Positions(lo, hi)
    decreases hi - lo
  {
    if lo < hi {
      var t := Build(files, lo, hi);
      BuildNode(files, lo, hi);
      var m := Mid(lo, hi);
      BuildInOrder(files, lo, m);
      BuildInOrder(files, m + 1, hi);
      assert InOrder(t) == InOrder(t.left) + [m] + InOrder(t.right);
      PositionsSplit(lo, m, hi);
    }
  }

  /** Every position held by the tree over `[lo, hi)` indexes the list. */
  lemma {:induction false} BuildInBounds(files: seq<ChunkFile>, lo: nat, hi: nat)
    requires lo <= hi <= |files|
    ensures InBounds(Build(files, lo, hi), |files|)
    decreases hi - lo
  {
    if lo < hi {
      BuildNode(files, lo, hi);
      var m := Mid(lo, hi);
      BuildInBounds(files, lo, m);
      BuildInBounds(files, m + 1, hi);
    }
  }

  /** Every node of the built tree keeps the augmentation invariant. */
  lemma {:induction false} BuildAugmented(files: seq<ChunkFile>, lo: nat, hi: nat)
    requires lo <= hi <= |files|
    ensures InBounds(Build(files, lo, hi), |files|)
    ensures Augmented(Build(files, lo, hi), files)
    decreases hi - lo
  {
    BuildInBounds(files, lo, hi);
    if lo < hi {
      BuildNode(files, lo, hi);
      var m := Mid(lo, hi);
      BuildAugmented(files, lo, m);
      BuildAugmented(files, m + 1, hi);
    }
  }

  /** The positions are listed in strictly increasing order. */
  predicate Increasing(s: seq<nat>)
  {
    forall i, j :: 0 <= i < j < |s| ==> s[i] < s[j]
  }

  /** A node whose in-order sequence is increasing has increasing subtrees around its own position. */
  lemma IncreasingNode(a: Tree, m: nat, b: Tree, rl: int)
    requires Increasing(InOrder(Node(a, m, b, rl)))
    ensures Increasing(InOrder(a)) && Increasing(InOrder(b))
    ensures forall i :: i in InOrder(a) ==> i < m
    ensures forall i :: i in InOrder(b) ==> m < i
  {
    var s := InOrder(Node(a, m, b, rl));
    var sa, sb := InOrder(a), InOrder(b);
    assert s == sa + [m] + sb;
    assert s[|sa|] == m;
    forall i, j | 0 <= i < j < |sa| ensures sa[i] < sa[j] {
      assert s[i] == sa[i] && s[j] == sa[j];
    }
    forall i, j | 0 <= i < j < |sb| ensures sb[i] < sb[j] {
      assert s[|sa| + 1 + i] == sb[i] && s[|sa| + 1 + j] == sb[j];
    }
    forall i | i in sa ensures i < m {
      var k :| 0 <= k < |sa| && sa[k] == i;
      assert s[k] == i;
    }
    forall i | i in sb ensures m < i {
      var k :| 0 <= k < |sb| && sb[k] == i;
      assert s[|sa| + 1 + k] == i;
    }
  }

  /** A tree whose positions are listed in increasing order, over a strictly sorted list, is a search tree. */
  lemma {:induction false} IncreasingIsBst(t: Tree, files: seq<ChunkFile>)
    requires InBounds(t, |files|) && StrictlySorted(files)
    requires Increasing(InOrder(t))
    ensures Bst(t, files)
  {
    if t.Node? {
      var a, m, b := t.left, t.mid, t.right;
      IncreasingNode(a, m, b, t.rightLimit);
      IncreasingIsBst(a, files);
      IncreasingIsBst(b, files);
      InOrderInBounds(a, |files|);
      InOrderInBounds(b, |files|);
    }
  }

  /** Built over a strictly sorted list, the tree is a binary search tree by range. */
  lemma BuildIsBst(files: seq<ChunkFile>, lo: nat, hi: nat)
    requires lo <= hi <= |files|
    requires StrictlySorted(files)
    ensures InBounds(Build(files, lo, hi), |files|)
    ensures Bst(Build(files, lo, hi), files)
  {
    BuildInOrder(files, lo, hi);
    BuildInBounds(files, lo, hi);
    PositionsIndex(lo, hi);
    IncreasingIsBst(Build(files, lo, hi), files);
  }

  /** Subtree-wide order implies the checks made between each node and its children. */
  lemma {:induction false} BstChildOrderOk(t: Tree, files: seq<ChunkFile>)
    requires InBounds(t, |files|) && Bst(t, files)
    ensures ChildOrderOk(t, files)
  {
    if t.Node? {
      BstChildOrderOk(t.left, files);
      BstChildOrderOk(t.right, files);
      if t.left.Node? { assert t.left.mid in InOrder(t.left); }
      if t.right.Node? { assert t.right.mid in InOrder(t.right); }
    }
  }

  lemma {:induction false} Pow2Monotone(a: nat, b: nat)
    requires Pow2(a) < Pow2(b)
    ensures a < b
  {
    if a >= b {
      Pow2Grows(b, a);
    }
  }

  lemma {:induction false} Pow2Grows(a: nat, b: nat)
    requires a <= b
    ensures Pow2(a) <= Pow2(b)
    decreases b - a
  {
    if a < b {
      Pow2Grows(a, b - 1);
    }
  }

  /** `h` is the least height of a binary tree holding `n > 0` nodes: `2^(h-1) <= n < 2^h`. */
  predicate LeastHeight(h: nat, n: nat)
  {
    h >= 1 && Pow2(h - 1) <= n < Pow2(h)
  }

  /** The height bound for one level: a node whose halves hold `la` and `lb <= la <= lb + 1` ranges. */
  lemma HeightStep(la: nat, lb: nat, ha: nat, hb: nat)
    requires lb <= la <= lb + 1 && la >= 1
    requires LeastHeight(ha, la)
    requires lb == 0 ==> hb == 0
    requires lb > 0 ==> LeastHeight(hb, lb)
    ensures ha >= hb && LeastHeight(1 + ha, la + lb + 1)
  {
    if lb > 0 {
      Pow2Monotone(hb - 1, ha);
    }
    assert Pow2(ha + 1) == 2 * Pow2(ha);
  }

  function Size(t: Tree): nat
  {
    match t
    case Nil => 0
    case Node(a, _, b, _) => Size(a) + 1 + Size(b)
  }

  /** At every node the left subtree holds as many ranges as the right one, or one more. */
  predicate Balanced(t: Tree)
  {
    match t
    case Nil => true
    case Node(a, _, b, _) => Size(b) <= Size(a) <= Size(b) + 1 && Balanced(a) && Balanced(b)
  }

  lemma {:induction false} SizeIsInOrderLength(t: Tree)
    ensures Size(t) == |InOrder(t)|
  {
    if t.Node? {
      SizeIsInOrderLength(t.left);
      SizeIsInOrderLength(t.right);
    }
  }

  /** A node whose subtrees are balanced and differ in size by at most one, the left being larger, is balanced. */
  lemma BalancedNode(t: Tree, la: nat, lb: nat)
    requires t.Node? && Balanced(t.left) && Balanced(t.right)
    requires Size(t.left) == la && Size(t.right) == lb && lb <= la <= lb + 1
    ensures Balanced(t) && Size(t) == la + lb + 1
  {
  }

  /** Splitting at the midpoint makes the tree balanced. */
  lemma {:induction false} BuildBalanced(files: seq<ChunkFile>, lo: nat, hi: nat)
    requires lo <= hi <= |files|
    ensures Balanced(Build(files, lo, hi))
    ensures Size(Build(files, lo, hi)) == hi - lo
    decreases hi - lo
  {
    var t := Build(files, lo, hi);
    if lo < hi {
      BuildNode(files, lo, hi);
      var m := Mid(lo, hi);
      BuildBalanced(files, lo, m);
      BuildBalanced(files, m + 1, hi);
      BalancedNode(t, m - lo, hi - m - 1);
    }
  }

  /** A balanced tree over `n > 0` ranges has the least height that can hold them. */
  lemma {:induction false} BalancedHeight(t: Tree)
    requires Balanced(t)
    ensures t.Nil? ==> Height(t) == 0
    ensures t.Node? ==> LeastHeight(Height(t), Size(t))
  {
    if t.Node? {
      BalancedHeight(t.left);
      BalancedHeight(t.right);
      if t.left.Nil? {
        assert LeastHeight(1, 1);
      } else {
        HeightStep(Size(t.left), Size(t.right), Height(t.left), Height(t.right));
      }
    }
  }

  /**
   * The tree over `n = hi - lo` ranges has the least height that can hold them:
   * `2^(h-1) <= n < 2^h`, i.e. `h = ceil(log2(n + 1))`.
   */
  lemma BuildHeight(files: seq<ChunkFile>, lo: nat, hi: nat)
    requires lo <= hi <= |files|
    ensures lo == hi ==> Height(Build(files, lo, hi)) == 0
    ensures lo < hi ==> LeastHeight(Height(Build(files, lo, hi)), hi - lo)
  {
    BuildBalanced(files, lo, hi);
    BalancedHeight(Build(files, lo, hi));
  }
}
