/**
 * Range entries of a chunk: a half-open byte interval `[left, right)` of the
 * chunk buffer together with the files whose content occupies it.  Entries are
 * ordered lexicographically by `(left, right)`; the owners take no part in the
 * order.  The module also provides the sort used on range lists and the
 * separation predicates the finish step checks.
 */
module Ranges {

  /** An opaque identifier of an indexed file (a non-owning reference in the source). */
  type FileId = nat

  datatype ChunkFile = ChunkFile(left: int, right: int, owners: seq<FileId>)

  /** The ordering key of an entry. */
  function Key(c: ChunkFile): (int, int)
  {
    (c.left, c.right)
  }

  function Max(x: int, y: int): int
  {
    if x < y then y else x
  }

  function Min(x: int, y: int): int
  {
    if x < y then x else y
  }

  /** Strict lexicographic order on `(left, right)`. */
  predicate Less(a: ChunkFile, b: ChunkFile)
  {
    a.left < b.left || (a.left == b.left && a.right < b.right)
  }

  predicate SameKey(a: ChunkFile, b: ChunkFile)
  {
    a.left == b.left && a.right == b.right
  }

  /** Sorted in the non-strict sense: no later entry orders before an earlier one. */
  predicate Sorted(s: seq<ChunkFile>)
  {
    forall i, j :: 0 <= i < j < |s| ==> !Less(s[j], s[i])
  }

  /** Sorted with no two entries sharing `(left, right)`. */
  predicate StrictlySorted(s: seq<ChunkFile>)
  {
    forall i, j :: 0 <= i < j < |s| ==> Less(s[i], s[j])
  }

  /** A well-formed interval inside the buffer's coordinates. */
  predicate WellFormed(c: ChunkFile)
  {
    0 <= c.left <= c.right
  }

  predicate AllWellFormed(s: seq<ChunkFile>)
  {
    forall i :: 0 <= i < |s| ==> WellFormed(s[i])
  }

  /** `c` covers the span `[l, r)`. */
  predicate Covers(c: ChunkFile, l: int, r: int)
  {
    c.left <= l && r <= c.right
  }

  /** Two intervals neither overlap nor touch: one ends strictly before the other starts. */
  predicate Apart(a: ChunkFile, b: ChunkFile)
  {
    a.right < b.left || b.right < a.left
  }

  /** Every two entries at different positions are apart. */
  predicate Separated(s: seq<ChunkFile>)
  {
    forall i, j :: 0 <= i < j < |s| ==> Apart(s[i], s[j])
  }

  /** Each entry starts strictly after every earlier entry ends. */
  predicate StrictGaps(s: seq<ChunkFile>)
  {
    forall i, j :: 0 <= i < j < |s| ==> s[i].right < s[j].left
  }

  /**
   * Grows `c` to cover `[l, r)`; the bounds never shrink and the owners are kept
   * (the `expand` member of the range record).
   */
  function Expand(c: ChunkFile, l: int, r: int): (e: ChunkFile)
    ensures Covers(e, l, r) && Covers(e, c.left, c.right)
    ensures e.left == c.left || e.left == l
    ensures e.right == c.right || e.right == r
    ensures e.owners == c.owners
  {
    ChunkFile(Min(c.left, l), Max(c.right, r), c.owners)
  }

  /** Inserts `x` before the first entry of `t` that does not order before it. */
  function Insert(x: ChunkFile, t: seq<ChunkFile>): (r: seq<ChunkFile>)
    ensures multiset(r) == multiset(t) + multiset{x}
    ensures |r| == |t| + 1
  {
    if |t| == 0 || !Less(t[0], x) then [x] + t
    else
      assert t == [t[0]] + t[1..];
      [t[0]] + Insert(x, t[1..])
  }

  /** `x` orders no later than any entry of `s`. */
  predicate LowerBound(x: ChunkFile, s: seq<ChunkFile>)
  {
    forall i :: 0 <= i < |s| ==> !Less(s[i], x)
  }

  /** Inserting into a sorted list keeps it sorted. */
  lemma {:induction false} InsertSorted(x: ChunkFile, t: seq<ChunkFile>)
    requires Sorted(t)
    ensures Sorted(Insert(x, t))
  {
    if |t| == 0 || !Less(t[0], x) {
      var r := [x] + t;
      forall i, j | 0 <= i < j < |r|
        ensures !Less(r[j], r[i])
      {
        if i > 0 {
          assert r[i] == t[i - 1] && r[j] == t[j - 1];
        } else {
          assert r[j] == t[j - 1];
          assert !Less(t[j - 1], t[0]);
        }
      }
    } else {
      var rest := Insert(x, t[1..]);
      InsertSorted(x, t[1..]);
      InsertLowerBound(t[0], x, t[1..]);
      var r := [t[0]] + rest;
      assert r == Insert(x, t);
      forall i, j | 0 <= i < j < |r|
        ensures !Less(r[j], r[i])
      {
        if i == 0 {
          assert r[j] == rest[j - 1];
        } else {
          assert r[i] == rest[i - 1] && r[j] == rest[j - 1];
        }
      }
    }
  }

  /** A lower bound of both `x` and `t` bounds the result of inserting `x` into `t`. */
  lemma {:induction false} InsertLowerBound(b: ChunkFile, x: ChunkFile, t: seq<ChunkFile>)
    requires Sorted([b] + t)
    requires !Less(x, b)
    ensures LowerBound(b, Insert(x, t))
  {
    var bt := [b] + t;
    assert bt[0] == b;
    if |t| == 0 || !Less(t[0], x) {
      var r := [x] + t;
      forall i | 0 <= i < |r|
        ensures !Less(r[i], b)
      {
        if i > 0 {
          assert r[i] == bt[i];
          assert !Less(bt[i], bt[0]);
        }
      }
    } else {
      var r := [b] + t[1..];
      forall i, j | 0 <= i < j < |r|
        ensures !Less(r[j], r[i])
      {
        assert r[j] == bt[j + 1];
        if i == 0 {
          assert !Less(bt[j + 1], bt[0]);
        } else {
          assert r[i] == bt[i + 1];
          assert !Less(bt[j + 1], bt[i + 1]);
        }
      }
      InsertLowerBound(b, x, t[1..]);
      var ins := Insert(x, t[1..]);
      forall i | 0 <= i < 1 + |ins|
        ensures !Less(([t[0]] + ins)[i], b)
      {
        if i == 0 {
          assert bt[1] == t[0];
          assert !Less(bt[1], bt[0]);
        } else {
          assert ([t[0]] + ins)[i] == ins[i - 1];
        }
      }
    }
  }

  /**
   * Sorts a range list by `(left, right)`.  Insertion sort; entries with equal
   * keys keep their relative order.
   */
  function SortFiles(s: seq<ChunkFile>): (r: seq<ChunkFile>)
    ensures Sorted(r)
    ensures multiset(r) == multiset(s)
    ensures |r| == |s|
  {
    if |s| == 0 then []
    else
      assert s == [s[0]] + s[1..];
      var t := SortFiles(s[1..]);
      InsertSorted(s[0], t);
      Insert(s[0], t)
  }

  /** `x` is apart from every entry of `t`. */
  predicate AllApart(x: ChunkFile, t: seq<ChunkFile>)
  {
    forall e :: e in t ==> Apart(x, e)
  }

  /** Sequences holding the same multiset hold the same elements. */
  lemma SameElements(a: seq<ChunkFile>, b: seq<ChunkFile>)
    requires multiset(a) == multiset(b)
    ensures forall e :: e in a <==> e in b
    ensures |a| == |b|
  {
    forall e
      ensures e in a <==> e in b
    {
      assert e in a <==> e in multiset(a);
      assert e in b <==> e in multiset(b);
    }
    assert |multiset(a)| == |multiset(b)|;
  }

  /** Separation of a list with a new head, stated through the head and the tail. */
  lemma SeparatedCons(x: ChunkFile, t: seq<ChunkFile>)
    ensures Separated([x] + t) <==> AllApart(x, t) && Separated(t)
  {
    var r := [x] + t;
    if Separated(r) {
      forall i, j | 0 <= i < j < |t|
        ensures Apart(t[i], t[j])
      {
        assert r[i + 1] == t[i] && r[j + 1] == t[j];
      }
      forall e | e in t
        ensures Apart(x, e)
      {
        var k :| 0 <= k < |t| && t[k] == e;
        assert r[0] == x && r[k + 1] == e;
        assert Apart(r[0], r[k + 1]);
      }
    }
    if AllApart(x, t) && Separated(t) {
      forall i, j | 0 <= i < j < |r|
        ensures Apart(r[i], r[j])
      {
        assert r[j] == t[j - 1];
        if i > 0 {
          assert r[i] == t[i - 1];
        } else {
          assert r[j] in t;
        }
      }
    }
  }

  /** Inserting `x` yields a separated list exactly when putting it in front does. */
  lemma {:induction false} SeparatedInsert(x: ChunkFile, t: seq<ChunkFile>)
    ensures Separated(Insert(x, t)) <==> AllApart(x, t) && Separated(t)
  {
    if |t| == 0 || !Less(t[0], x) {
      SeparatedCons(x, t);
    } else {
      var rest := Insert(x, t[1..]);
      SeparatedInsert(x, t[1..]);
      SeparatedCons(t[0], rest);
      SeparatedCons(t[0], t[1..]);
      SeparatedCons(x, t[1..]);
      SameElements(rest, t[1..] + [x]);
      assert t == [t[0]] + t[1..];
      assert AllApart(t[0], rest) <==> Apart(t[0], x) && AllApart(t[0], t[1..]);
      assert AllApart(x, t) <==> Apart(x, t[0]) && AllApart(x, t[1..]);
    }
  }

  /** Apartness from every element depends only on which elements a list holds. */
  lemma AllApartSameElements(x: ChunkFile, a: seq<ChunkFile>, b: seq<ChunkFile>)
    requires multiset(a) == multiset(b)
    ensures AllApart(x, a) <==> AllApart(x, b)
  {
    SameElements(a, b);
  }

  /** Sorting neither creates nor removes a pair of touching or overlapping entries. */
  lemma {:induction false} SeparatedSort(s: seq<ChunkFile>)
    ensures Separated(SortFiles(s)) <==> Separated(s)
  {
    if |s| > 0 {
      var x, r := s[0], s[1..];
      var t := SortFiles(r);
      assert SortFiles(s) == Insert(x, t);
      SeparatedSort(r);
      SeparatedInsert(x, t);
      SeparatedCons(x, r);
      AllApartSameElements(x, t, r);
      assert s == [x] + r;
    }
  }

  /** Sorting keeps every entry, so it keeps well-formedness. */
  lemma SortWellFormed(s: seq<ChunkFile>)
    ensures AllWellFormed(SortFiles(s)) <==> AllWellFormed(s)
  {
    var t := SortFiles(s);
    SameElements(t, s);
    if AllWellFormed(s) {
      forall i | 0 <= i < |t| ensures WellFormed(t[i]) {
        assert t[i] in s;
      }
    }
    if AllWellFormed(t) {
      forall i | 0 <= i < |s| ensures WellFormed(s[i]) {
        assert s[i] in t;
      }
    }
  }

  /** On a sorted list of well-formed entries, separation is the strict-gap condition. */
  lemma SortedSeparatedIsStrictGaps(s: seq<ChunkFile>)
    requires Sorted(s) && AllWellFormed(s)
    ensures Separated(s) <==> StrictGaps(s)
  {
    if Separated(s) {
      forall i, j | 0 <= i < j < |s|
        ensures s[i].right < s[j].left
      {
        assert !Less(s[j], s[i]);
        assert WellFormed(s[j]);
      }
    }
  }

  /** Sorting a list that is already sorted leaves it unchanged. */
  lemma {:induction false} SortSortedIsIdentity(s: seq<ChunkFile>)
    requires Sorted(s)
    ensures SortFiles(s) == s
  {
    if |s| > 0 {
      assert Sorted(s[1..]) by {
        forall i, j | 0 <= i < j < |s[1..]| ensures !Less(s[1..][j], s[1..][i]) {
          assert s[1..][i] == s[i + 1] && s[1..][j] == s[j + 1];
        }
      }
      SortSortedIsIdentity(s[1..]);
      assert s == [s[0]] + s[1..];
      if |s| > 1 {
        assert s[1..][0] == s[1];
        assert !Less(s[1], s[0]);
      }
    }
  }
}
