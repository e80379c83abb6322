/**
 * Deduplication of a chunk's permanent range list: after sorting, every run of
 * entries with identical `(left, right)` becomes one entry whose owners are the
 * run's first entry's owners followed by the front owner of each later entry.
 */
module Compress {
  import opened Ranges

  /** Every entry names at least one owning file. */
  predicate HasOwners(s: seq<ChunkFile>)
  {
    forall i :: 0 <= i < |s| ==> |s[i].owners| > 0
  }

  /** The front owner of each entry, in list order. */
  function Fronts(s: seq<ChunkFile>): seq<FileId>
    requires HasOwners(s)
  {
    if |s| == 0 then [] else [s[0].owners[0]] + Fronts(s[1..])
  }

  /** The keys present in a range list. */
  function KeySet(s: seq<ChunkFile>): set<(int, int)>
  {
    set i | 0 <= i < |s| :: Key(s[i])
  }

  /** The entries of `s` whose key is `k`, in list order. */
  function Group(s: seq<ChunkFile>, k: (int, int)): seq<ChunkFile>
  {
    if |s| == 0 then []
    else (if Key(s[0]) == k then [s[0]] else []) + Group(s[1..], k)
  }

  /**
   * The number of entries at the front of `rest` that share `h`'s bounds: how far
   * the inner loop of the compression walk advances past the current output entry.
   */
  function RunLen(h: ChunkFile, rest: seq<ChunkFile>): (n: nat)
    ensures n <= |rest|
  {
    if |rest| == 0 || !SameKey(rest[0], h) then 0
    else 1 + RunLen(h, rest[1..])
  }

  /** The run is maximal: its entries share `h`'s bounds and the entry after it does not. */
  lemma {:induction false} RunLenMaximal(h: ChunkFile, rest: seq<ChunkFile>)
    ensures forall j :: 0 <= j < RunLen(h, rest) ==> SameKey(rest[j], h)
    ensures RunLen(h, rest) < |rest| ==> !SameKey(rest[RunLen(h, rest)], h)
  {
    if |rest| > 0 && SameKey(rest[0], h) {
      RunLenMaximal(h, rest[1..]);
      forall j | 1 <= j < RunLen(h, rest) ensures SameKey(rest[j], h) {
        assert rest[1..][j - 1] == rest[j];
      }
      assert RunLen(h, rest) < |rest| ==> rest[1..][RunLen(h, rest) - 1] == rest[RunLen(h, rest)];
    }
  }

  /** The front owner of each entry, position by position. */
  lemma {:induction false} FrontsIndex(s: seq<ChunkFile>)
    requires HasOwners(s)
    ensures |Fronts(s)| == |s|
    ensures forall i :: 0 <= i < |s| ==> Fronts(s)[i] == s[i].owners[0]
  {
    if |s| > 0 {
      FrontsIndex(s[1..]);
      assert forall i :: 0 < i < |s| ==> s[1..][i - 1] == s[i];
    }
  }

  /** One output entry: `h` with the front owner of each duplicate appended. */
  function Absorb(h: ChunkFile, dups: seq<ChunkFile>): (e: ChunkFile)
    requires HasOwners(dups)
    ensures e.left == h.left && e.right == h.right
    ensures |e.owners| == |h.owners| + |dups|
  {
    FrontsIndex(dups);
    h.(owners := h.owners + Fronts(dups))
  }

  /** The absorbed entry lists `h`'s owners, then the front owner of each duplicate, in order. */
  lemma AbsorbOwners(h: ChunkFile, dups: seq<ChunkFile>)
    requires HasOwners(dups)
    ensures Absorb(h, dups).owners[..|h.owners|] == h.owners
    ensures forall i :: 0 <= i < |dups| ==> Absorb(h, dups).owners[|h.owners| + i] == dups[i].owners[0]
  {
    FrontsIndex(dups);
  }

  /** The compression walk over a (sorted) range list. */
  function Dedup(s: seq<ChunkFile>): (r: seq<ChunkFile>)
    requires HasOwners(s)
    ensures |r| <= |s|
    ensures |s| > 0 ==> |r| > 0 && SameKey(r[0], s[0])
    decreases |s|
  {
    if |s| == 0 then []
    else
      var n := RunLen(s[0], s[1..]);
      [Absorb(s[0], s[1..n + 1])] + Dedup(s[n + 1..])
  }

  // ---------------------------------------------------------------------------
  // Helper facts about KeySet and Group.

  lemma KeySetConcat(a: seq<ChunkFile>, b: seq<ChunkFile>)
    ensures KeySet(a + b) == KeySet(a) + KeySet(b)
  {
    var ab := a + b;
    forall k | k in KeySet(ab) ensures k in KeySet(a) + KeySet(b) {
      var i :| 0 <= i < |ab| && Key(ab[i]) == k;
      if i < |a| { assert ab[i] == a[i]; } else { assert ab[i] == b[i - |a|]; }
    }
    forall k | k in KeySet(a) + KeySet(b) ensures k in KeySet(ab) {
      if k in KeySet(a) {
        var i :| 0 <= i < |a| && Key(a[i]) == k;
        assert ab[i] == a[i];
      } else {
        var i :| 0 <= i < |b| && Key(b[i]) == k;
        assert ab[i + |a|] == b[i];
      }
    }
  }

  lemma {:induction false} GroupConcat(a: seq<ChunkFile>, b: seq<ChunkFile>, k: (int, int))
    ensures Group(a + b, k) == Group(a, k) + Group(b, k)
  {
    if |a| == 0 {
      assert a + b == b;
    } else {
      assert (a + b)[1..] == a[1..] + b;
      GroupConcat(a[1..], b, k);
    }
  }

  lemma {:induction false} GroupMembers(s: seq<ChunkFile>, k: (int, int))
    ensures forall e :: e in Group(s, k) ==> e in s && Key(e) == k
  {
    if |s| > 0 {
      GroupMembers(s[1..], k);
    }
  }

  lemma {:induction false} GroupAbsent(s: seq<ChunkFile>, k: (int, int))
    requires forall i :: 0 <= i < |s| ==> Key(s[i]) != k
    ensures Group(s, k) == []
  {
    if |s| > 0 {
      GroupAbsent(s[1..], k);
    }
  }

  lemma {:induction false} GroupAll(s: seq<ChunkFile>, k: (int, int))
    requires forall i :: 0 <= i < |s| ==> Key(s[i]) == k
    ensures Group(s, k) == s
  {
    if |s| > 0 {
      GroupAll(s[1..], k);
    }
  }

  /** In a sorted list, everything after the first run orders strictly after its head. */
  lemma SortedHeadBelowRest(s: seq<ChunkFile>)
    requires |s| > 0 && Sorted(s)
    ensures forall m :: RunLen(s[0], s[1..]) + 1 <= m < |s| ==> Less(s[0], s[m])
  {
    var n := RunLen(s[0], s[1..]);
    RunLenMaximal(s[0], s[1..]);
    if n + 1 < |s| {
      assert s[1..][n] == s[n + 1];
      assert !Less(s[n + 1], s[0]);
      forall m | n + 1 <= m < |s| ensures Less(s[0], s[m]) {
        assert !Less(s[m], s[n + 1]);
      }
    }
  }

  lemma SortedTail(s: seq<ChunkFile>, k: nat)
    requires Sorted(s) && k <= |s|
    ensures Sorted(s[k..])
  {
    forall i, j | 0 <= i < j < |s[k..]| ensures !Less(s[k..][j], s[k..][i]) {
      assert s[k..][i] == s[i + k] && s[k..][j] == s[j + k];
    }
  }

  // ---------------------------------------------------------------------------
  // Properties of the compression walk.

  /** The first run of a list consists of entries sharing the head's bounds. */
  lemma RunSharesKey(s: seq<ChunkFile>)
    requires |s| > 0
    ensures forall j :: 0 <= j < RunLen(s[0], s[1..]) + 1 ==> Key(s[j]) == Key(s[0])
  {
    var n := RunLen(s[0], s[1..]);
    RunLenMaximal(s[0], s[1..]);
    forall j | 0 <= j < n + 1 ensures Key(s[j]) == Key(s[0]) {
      if j > 0 { assert s[1..][j - 1] == s[j]; }
    }
  }

  lemma UniformKeySet(run: seq<ChunkFile>, k: (int, int))
    requires |run| > 0
    requires forall j :: 0 <= j < |run| ==> Key(run[j]) == k
    ensures KeySet(run) == {k}
  {
    assert Key(run[0]) == k;
  }

  /** One step of the compression walk: the first run becomes one entry, then the walk goes on past it. */
  lemma DedupCons(s: seq<ChunkFile>)
    requires HasOwners(s) && |s| > 0
    ensures var n := RunLen(s[0], s[1..]);
            && n + 1 <= |s|
            && HasOwners(s[1..n + 1]) && HasOwners(s[n + 1..])
            && Dedup(s) == [Absorb(s[0], s[1..n + 1])] + Dedup(s[n + 1..])
  {
    var n := RunLen(s[0], s[1..]);
    var run, rest := s[1..n + 1], s[n + 1..];
    forall i | 0 <= i < |run| ensures |run[i].owners| > 0 {
      assert run[i] == s[i + 1];
    }
    forall i | 0 <= i < |rest| ensures |rest[i].owners| > 0 {
      assert rest[i] == s[i + n + 1];
    }
  }

  /** Every entry of the compressed list still names at least one owner. */
  lemma {:induction false} DedupHasOwners(s: seq<ChunkFile>)
    requires HasOwners(s)
    ensures HasOwners(Dedup(s))
  {
    if |s| > 0 {
      DedupCons(s);
      var n := RunLen(s[0], s[1..]);
      DedupHasOwners(s[n + 1..]);
    }
  }

  /** The keys of a list are its first key and the keys past the first run. */
  lemma RunKeySet(s: seq<ChunkFile>)
    requires |s| > 0
    ensures var n := RunLen(s[0], s[1..]);
            KeySet(s) == {Key(s[0])} + KeySet(s[n + 1..])
  {
    var n := RunLen(s[0], s[1..]);
    var run, rest := s[..n + 1], s[n + 1..];
    assert s == run + rest;
    KeySetConcat(run, rest);
    RunSharesKey(s);
    UniformKeySet(run, Key(s[0]));
  }

  /** Compression keeps exactly the set of `(left, right)` bounds of its input. */
  lemma {:induction false} DedupKeepsKeys(s: seq<ChunkFile>)
    requires HasOwners(s)
    ensures KeySet(Dedup(s)) == KeySet(s)
    decreases |s|
  {
    if |s| > 0 {
      var n := RunLen(s[0], s[1..]);
      var rest := s[n + 1..];
      var head := Absorb(s[0], s[1..n + 1]);
      DedupCons(s);
      DedupKeepsKeys(rest);
      KeySetConcat([head], Dedup(rest));
      UniformKeySet([head], Key(s[0]));
      RunKeySet(s);
    }
  }

  /** A strictly sorted list stays strictly sorted under a head that orders before all of it. */
  lemma StrictlySortedCons(x: ChunkFile, d: seq<ChunkFile>)
    requires StrictlySorted(d)
    requires forall j :: 0 <= j < |d| ==> Less(x, d[j])
    ensures StrictlySorted([x] + d)
  {
    var r := [x] + d;
    forall i, j | 0 <= i < j < |r| ensures Less(r[i], r[j]) {
      assert r[j] == d[j - 1];
      if i > 0 { assert r[i] == d[i - 1]; }
    }
  }

  /** An entry ordering before every entry of `rest` orders before every entry with the same bounds. */
  lemma BelowSameKeys(x: ChunkFile, rest: seq<ChunkFile>, d: seq<ChunkFile>)
    requires forall m :: 0 <= m < |rest| ==> Less(x, rest[m])
    requires KeySet(d) == KeySet(rest)
    ensures forall j :: 0 <= j < |d| ==> Less(x, d[j])
  {
    forall j | 0 <= j < |d| ensures Less(x, d[j]) {
      assert Key(d[j]) in KeySet(rest);
      var m :| 0 <= m < |rest| && Key(rest[m]) == Key(d[j]);
    }
  }

  /** In a sorted list, everything the walk outputs past the first run orders after the head. */
  lemma HeadBelowDedupTail(s: seq<ChunkFile>, rest: seq<ChunkFile>)
    requires |s| > 0 && HasOwners(s) && Sorted(s)
    requires rest == s[RunLen(s[0], s[1..]) + 1..]
    ensures HasOwners(rest)
    ensures forall j :: 0 <= j < |Dedup(rest)| ==> Less(s[0], Dedup(rest)[j])
  {
    var n := RunLen(s[0], s[1..]);
    forall m | 0 <= m < |rest| ensures |rest[m].owners| > 0 && Less(s[0], rest[m]) {
      assert rest[m] == s[m + n + 1];
      SortedHeadBelowRest(s);
    }
    DedupKeepsKeys(rest);
    BelowSameKeys(s[0], rest, Dedup(rest));
  }

  /** Compressing a sorted list yields a strictly sorted list: no two entries share bounds. */
  lemma {:induction false} DedupStrictlySorted(s: seq<ChunkFile>)
    requires HasOwners(s) && Sorted(s)
    ensures StrictlySorted(Dedup(s))
    decreases |s|
  {
    if |s| > 0 {
      var n := RunLen(s[0], s[1..]);
      var rest := s[n + 1..];
      var head := Absorb(s[0], s[1..n + 1]);
      DedupCons(s);
      SortedTail(s, n + 1);
      DedupStrictlySorted(rest);
      HeadBelowDedupTail(s, rest);
      StrictlySortedCons(head, Dedup(rest));
    }
  }

  /**
   * `e` gathers its group in `s`: it carries the owners of the first entry of `s`
   * with its bounds, followed by the front owner of every later one.
   */
  predicate GathersGroup(s: seq<ChunkFile>, e: ChunkFile)
  {
    var g := Group(s, Key(e));
    |g| > 0 && HasOwners(g) && e.owners == g[0].owners + Fronts(g[1..])
  }

  lemma GroupHasOwners(s: seq<ChunkFile>, k: (int, int))
    requires HasOwners(s)
    ensures HasOwners(Group(s, k))
  {
    var g := Group(s, k);
    GroupMembers(s, k);
    forall j | 0 <= j < |g| ensures |g[j].owners| > 0 {
      assert g[j] in g;
      var m :| 0 <= m < |s| && s[m] == g[j];
    }
  }

  /** In a sorted list, no entry past the first run shares the first entry's bounds. */
  lemma PastRunAbsent(s: seq<ChunkFile>, rest: seq<ChunkFile>)
    requires |s| > 0 && Sorted(s)
    requires rest == s[RunLen(s[0], s[1..]) + 1..]
    ensures Group(rest, Key(s[0])) == []
  {
    var n := RunLen(s[0], s[1..]);
    forall j | 0 <= j < |rest| ensures Key(rest[j]) != Key(s[0]) {
      assert rest[j] == s[j + n + 1];
      SortedHeadBelowRest(s);
    }
    GroupAbsent(rest, Key(s[0]));
  }

  /** In a sorted list, the entries sharing the first entry's bounds are exactly the first run. */
  lemma FirstRunIsGroup(s: seq<ChunkFile>)
    requires |s| > 0 && Sorted(s)
    ensures Group(s, Key(s[0])) == s[..RunLen(s[0], s[1..]) + 1]
  {
    var n := RunLen(s[0], s[1..]);
    var run, rest := s[..n + 1], s[n + 1..];
    var k := Key(s[0]);
    assert s == run + rest;
    GroupConcat(run, rest, k);
    RunSharesKey(s);
    GroupAll(run, k);
    PastRunAbsent(s, rest);
    assert run + [] == run;
  }

  /** Absorbing a whole group into its first entry gathers that group. */
  lemma AbsorbGathers(s: seq<ChunkFile>, run: seq<ChunkFile>)
    requires |run| > 0 && HasOwners(run)
    requires Group(s, Key(run[0])) == run
    ensures GathersGroup(s, Absorb(run[0], run[1..]))
  {
  }

  /** The first output entry gathers the first run, which is its whole group. */
  lemma HeadGathersGroup(s: seq<ChunkFile>)
    requires |s| > 0 && HasOwners(s) && Sorted(s)
    ensures GathersGroup(s, Dedup(s)[0])
  {
    var n := RunLen(s[0], s[1..]);
    var run := s[..n + 1];
    DedupCons(s);
    assert run[0] == s[0] && run[1..] == s[1..n + 1];
    FirstRunIsGroup(s);
    GroupHasOwners(s, Key(s[0]));
    AbsorbGathers(s, run);
  }

  /** Bounds other than the first entry's have the same group in the whole list as past the first run. */
  lemma GroupPastRun(s: seq<ChunkFile>, k: (int, int))
    requires |s| > 0 && k != Key(s[0])
    ensures Group(s, k) == Group(s[RunLen(s[0], s[1..]) + 1..], k)
  {
    var n := RunLen(s[0], s[1..]);
    var run, rest := s[..n + 1], s[n + 1..];
    assert s == run + rest;
    GroupConcat(run, rest, k);
    RunSharesKey(s);
    GroupAbsent(run, k);
  }

  /** In a sorted list, bounds that occur past the first run differ from the first entry's. */
  lemma TailKeyDiffers(s: seq<ChunkFile>, k: (int, int))
    requires |s| > 0 && Sorted(s)
    requires Group(s[RunLen(s[0], s[1..]) + 1..], k) != []
    ensures k != Key(s[0])
  {
    var n := RunLen(s[0], s[1..]);
    var rest := s[n + 1..];
    var gr := Group(rest, k);
    GroupMembers(rest, k);
    assert gr[0] in rest;
    var m :| 0 <= m < |rest| && rest[m] == gr[0];
    assert rest[m] == s[m + n + 1];
    SortedHeadBelowRest(s);
    assert Less(s[0], s[m + n + 1]);
  }

  /** Whether an entry gathers its group depends only on that group. */
  lemma GathersSameGroup(s: seq<ChunkFile>, t: seq<ChunkFile>, e: ChunkFile)
    requires Group(s, Key(e)) == Group(t, Key(e))
    requires GathersGroup(t, e)
    ensures GathersGroup(s, e)
  {
  }

  /** An entry gathering its group in the tail past the first run gathers it in the whole list. */
  lemma TailGathersGroup(s: seq<ChunkFile>, e: ChunkFile)
    requires |s| > 0 && Sorted(s)
    requires GathersGroup(s[RunLen(s[0], s[1..]) + 1..], e)
    ensures GathersGroup(s, e)
  {
    var rest := s[RunLen(s[0], s[1..]) + 1..];
    TailKeyDiffers(s, Key(e));
    GroupPastRun(s, Key(e));
    GathersSameGroup(s, rest, e);
  }

  /** Every output entry of the compression walk gathers its group of the input. */
  lemma {:induction false} DedupOwners(s: seq<ChunkFile>)
    requires HasOwners(s) && Sorted(s)
    ensures forall i :: 0 <= i < |Dedup(s)| ==> GathersGroup(s, Dedup(s)[i])
    decreases |s|
  {
    if |s| > 0 {
      var n := RunLen(s[0], s[1..]);
      var rest := s[n + 1..];
      var d := Dedup(rest);
      assert Dedup(s) == [Absorb(s[0], s[1..n + 1])] + d;
      SortedTail(s, n + 1);
      DedupOwners(rest);
      HeadGathersGroup(s);
      forall i | 0 <= i < |Dedup(s)| ensures GathersGroup(s, Dedup(s)[i]) {
        if i > 0 {
          assert Dedup(s)[i] == d[i - 1];
          TailGathersGroup(s, d[i - 1]);
        }
      }
    }
  }

  /** When every entry has exactly one owner, each output entry lists its whole group's owners. */
  lemma DedupSingleOwners(s: seq<ChunkFile>)
    requires HasOwners(s) && Sorted(s)
    requires forall i :: 0 <= i < |s| ==> |s[i].owners| == 1
    ensures forall i :: 0 <= i < |Dedup(s)| ==>
              var g := Group(s, Key(Dedup(s)[i]));
              HasOwners(g) && Dedup(s)[i].owners == Fronts(g)
  {
    DedupOwners(s);
    forall i | 0 <= i < |Dedup(s)|
      ensures var g := Group(s, Key(Dedup(s)[i]));
              HasOwners(g) && Dedup(s)[i].owners == Fronts(g)
    {
      var g := Group(s, Key(Dedup(s)[i]));
      GroupMembers(s, Key(Dedup(s)[i]));
      assert g[0] in s;
      assert g[0].owners == [g[0].owners[0]];
      assert Fronts(g) == [g[0].owners[0]] + Fronts(g[1..]);
    }
  }

  /** A list that is already strictly sorted passes through compression unchanged. */
  lemma {:induction false} DedupIdempotent(s: seq<ChunkFile>)
    requires HasOwners(s) && StrictlySorted(s)
    ensures Dedup(s) == s
    decreases |s|
  {
    if |s| > 0 {
      if |s| > 1 {
        assert s[1..][0] == s[1];
        assert Less(s[0], s[1]);
      }
      assert RunLen(s[0], s[1..]) == 0;
      assert Fronts(s[1..1]) == [];
      assert s[0].(owners := s[0].owners + []) == s[0];
      assert StrictlySorted(s[1..]) by {
        forall i, j | 0 <= i < j < |s[1..]| ensures Less(s[1..][i], s[1..][j]) {
          assert s[1..][i] == s[i + 1] && s[1..][j] == s[j + 1];
        }
      }
      DedupIdempotent(s[1..]);
      assert s == [s[0]] + s[1..];
    }
  }

  /** Insertion places `x` ahead of every entry sharing its bounds and keeps the rest in order. */
  lemma {:induction false} GroupInsert(x: ChunkFile, t: seq<ChunkFile>, k: (int, int))
    ensures Group(Insert(x, t), k) == Group([x] + t, k)
  {
    if |t| > 0 && Less(t[0], x) {
      GroupInsert(x, t[1..], k);
      assert ([t[0]] + Insert(x, t[1..]))[1..] == Insert(x, t[1..]);
      assert ([x] + t)[1..] == t;
      assert ([x] + t[1..])[1..] == t[1..];
      assert ([t[0]] + Insert(x, t[1..]))[0] == t[0];
    }
  }

  /** The sort is stable: the entries sharing given bounds keep their relative order. */
  lemma {:induction false} GroupSortFiles(s: seq<ChunkFile>, k: (int, int))
    ensures Group(SortFiles(s), k) == Group(s, k)
  {
    if |s| > 0 {
      GroupSortFiles(s[1..], k);
      GroupInsert(s[0], SortFiles(s[1..]), k);
      assert ([s[0]] + SortFiles(s[1..]))[1..] == SortFiles(s[1..]);
    }
  }
}
