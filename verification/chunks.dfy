/**
 * A chunk of the code-search index and the operations that build its search
 * structures: recording the byte spans of the file being ingested, committing
 * them to the chunk's range list, building the suffix array, and compressing
 * the range list into a balanced interval tree.
 *
 * The process-wide count of range entries ever created is passed in and
 * returned explicitly; the merge threshold and the indexing flag are parameters.
 */
module Chunks {
  import opened Wrappers
  import opened Ranges
  import opened Suffixes
  import opened Compress
  import opened IntervalTree

  /** Which fatal consistency check fired. */
  datatype ChunkError =
    | Overlap     // two committed ranges of one file touch or overlap
    | Unsorted    // the range list reaching the tree build is not sorted
    | Misordered  // a tree node's child does not order strictly on its side

  datatype Chunk = Chunk(
    data: seq<byte>,            // the filled part of the buffer; its length is the chunk's size
    suffixes: seq<nat>,         // the suffix array
    files: seq<ChunkFile>,      // the permanent range list
    curFile: seq<ChunkFile>,    // the working ranges of the file being ingested
    root: Tree)                 // the interval tree

  /** The distance between the span `[l, r)` and `c`, measured as the gap between the intervals. */
  function Gap(c: ChunkFile, l: int, r: int): int
  {
    Max(0, Max(c.left - r, l - c.right))
  }

  /**
   * The distance used to pick the working range a span joins: 0 when the span
   * overlaps or touches the range, otherwise the gap to the nearer side.
   */
  function Dist(c: ChunkFile, l: int, r: int): (d: int)
    ensures d >= 0
    ensures d == 0 || r < c.left || l > c.right
    ensures l <= r && c.left <= c.right ==> d == Gap(c, l, r)
    ensures l <= r && c.left <= c.right ==> (d == 0 <==> l <= c.right && c.left <= r)
  {
    if l <= c.left then Max(0, c.left - r)
    else if r >= c.right then Max(0, l - c.right)
    else 0
  }

  /**
   * The working range nearest to `[l, r)`: the first one, in list order, whose
   * distance is minimal; none when the list is empty.
   */
  function Nearest(cur: seq<ChunkFile>, l: int, r: int): (k: Option<nat>)
    ensures k.None? <==> |cur| == 0
    ensures k.Some? ==> k.value < |cur|
    ensures k.Some? ==> forall j :: 0 <= j < |cur| ==> Dist(cur[k.value], l, r) <= Dist(cur[j], l, r)
    ensures k.Some? ==> forall j :: 0 <= j < k.value ==> Dist(cur[k.value], l, r) < Dist(cur[j], l, r)
  {
    if |cur| == 0 then None
    else
      var last := |cur| - 1;
      var p := Nearest(cur[..last], l, r);
      assert forall j :: 0 <= j < last ==> cur[..last][j] == cur[j];
      if p.None? || Dist(cur[last], l, r) < Dist(cur[p.value], l, r) then Some(last) else p
  }

  /**
   * Records that the file `sf` occupies `[l, r)`: the nearest working range grows
   * to cover the span if it lies closer than `maxGap`; otherwise a new range owned
   * by `sf` alone is appended and the entry counter goes up by one.
   */
  function AddChunkFile(c: Chunk, created: nat, maxGap: int, sf: FileId, l: int, r: int): (res: (Chunk, nat))
    requires 0 <= l <= r <= |c.data|
    ensures res.0 == c.(curFile := res.0.curFile)
    ensures var cur, cur', k := c.curFile, res.0.curFile, Nearest(c.curFile, l, r);
            if k.Some? && Dist(cur[k.value], l, r) < maxGap then
              && |cur'| == |cur|
              && res.1 == created
              && cur'[k.value] == ChunkFile(Min(cur[k.value].left, l), Max(cur[k.value].right, r), cur[k.value].owners)
              && (forall j :: 0 <= j < |cur| && j != k.value ==> cur'[j] == cur[j])
            else
              && cur' == cur + [ChunkFile(l, r, [sf])]
              && res.1 == created + 1
    ensures res.1 - created == |res.0.curFile| - |c.curFile|
    ensures |res.0.curFile| >= |c.curFile|
  {
    var k := Nearest(c.curFile, l, r);
    if k.Some? && Dist(c.curFile[k.value], l, r) < maxGap then
      (c.(curFile := c.curFile[k.value := Expand(c.curFile[k.value], l, r)]), created)
    else
      (c.(curFile := c.curFile + [ChunkFile(l, r, [sf])]), created + 1)
  }

  /**
   * Recording a span only ever grows the working list: every old range is still
   * covered, at its position and with its owners, some range covers the new span,
   * and well-formedness is kept.
   */
  lemma AddChunkFileGrows(c: Chunk, created: nat, maxGap: int, sf: FileId, l: int, r: int)
    requires 0 <= l <= r <= |c.data|
    ensures var cur, cur' := c.curFile, AddChunkFile(c, created, maxGap, sf, l, r).0.curFile;
            && (forall j :: 0 <= j < |cur| ==>
                  Covers(cur'[j], cur[j].left, cur[j].right) && cur'[j].owners == cur[j].owners)
            && (exists j :: 0 <= j < |cur'| && Covers(cur'[j], l, r))
            && (AllWellFormed(cur) ==> AllWellFormed(cur'))
  {
    var cur, cur' := c.curFile, AddChunkFile(c, created, maxGap, sf, l, r).0.curFile;
    var k := Nearest(cur, l, r);
    if k.Some? && Dist(cur[k.value], l, r) < maxGap {
      assert cur' == cur[k.value := Expand(cur[k.value], l, r)];
      assert Covers(cur'[k.value], l, r);
    } else {
      assert cur' == cur + [ChunkFile(l, r, [sf])];
      assert Covers(cur'[|cur|], l, r);
      assert forall j :: 0 <= j < |cur| ==> cur'[j] == cur[j];
    }
  }

  /**
   * The check made while committing a file's sorted ranges: scanning left to right
   * with the largest right bound seen so far (starting from `right`), every range
   * must start strictly after it.
   */
  function GapCheck(s: seq<ChunkFile>, right: int): (ok: bool)
    ensures ok <==> (forall i :: 0 <= i < |s| ==> right < s[i].left) && StrictGaps(s)
  {
    if |s| == 0 then true
    else
      var rest := GapCheck(s[1..], Max(right, s[0].right));
      assert forall i :: 0 < i < |s| ==> s[1..][i - 1] == s[i];
      right < s[0].left && rest
  }

  /**
   * Commits the working ranges of the file just ingested: sorts them, checks that
   * no two touch or overlap (a failure is a fatal defect), appends them to the
   * permanent list and empties the working list.
   */
  function FinishFile(c: Chunk): (res: Result<Chunk, ChunkError>)
    ensures AllWellFormed(c.curFile) ==> (res.Success? <==> Separated(c.curFile))
    ensures res.Failure? ==> res.error == Overlap
    ensures res.Success? ==>
              var files' := res.value.files;
              && res.value == c.(files := files', curFile := [])
              && |files'| == |c.files| + |c.curFile|
              && files'[..|c.files|] == c.files
              && multiset(files'[|c.files|..]) == multiset(c.curFile)
              && Sorted(files'[|c.files|..])
              && StrictGaps(files'[|c.files|..])
  {
    var sorted := SortFiles(c.curFile);
    SortedGapsIffSeparated(c.curFile);
    if !GapCheck(sorted, -1) then Failure(Overlap)
    else
      var files' := c.files + sorted;
      assert files'[|c.files|..] == sorted;
      assert files'[..|c.files|] == c.files;
      Success(c.(files := files', curFile := []))
  }

  /** For well-formed ranges, the strict-gap check on the sorted list is the separation of the unsorted one. */
  lemma SortedGapsIffSeparated(cur: seq<ChunkFile>)
    ensures AllWellFormed(cur) ==> (Separated(cur) <==> StrictGaps(SortFiles(cur)))
    ensures AllWellFormed(cur) ==> forall i :: 0 <= i < |cur| ==> -1 < SortFiles(cur)[i].left
  {
    SortWellFormed(cur);
    SeparatedSort(cur);
    if AllWellFormed(cur) {
      SortedSeparatedIsStrictGaps(SortFiles(cur));
    }
  }

  /**
   * Builds the suffix array when indexing is enabled: the offsets `0 .. size-1`
   * sorted by suffix.  With indexing disabled the chunk is left as it was.
   */
  method Finalize(c: Chunk, index: bool) returns (c': Chunk)
    ensures c' == c.(suffixes := c'.suffixes)
    ensures index ==> IsSuffixArray(c.data, c'.suffixes)
    ensures !index ==> c' == c
  {
    c' := c;
    if index {
      var offsets := Iota(|c.data|);
      var sorted := SortSuffixes(c.data, offsets);
      c' := c.(suffixes := sorted);
    }
  }

  /**
   * Builds the interval tree over the permanent range list, failing if the list
   * is not sorted or a node's child does not order strictly on its side.
   */
  function BuildTree(c: Chunk): (res: Result<Chunk, ChunkError>)
    ensures !Sorted(c.files) ==> res == Failure(Unsorted)
    ensures StrictlySorted(c.files) ==> res.Success?
    ensures res.Success? ==>
              var t := res.value.root;
              && res.value == c.(root := t)
              && InBounds(t, |c.files|)
              && InOrder(t) == Positions(0, |c.files|)
              && Augmented(t, c.files)
              && ChildOrderOk(t, c.files)
  {
    if !Sorted(c.files) then Failure(Unsorted)
    else
      var t := Build(c.files, 0, |c.files|);
      BuildInOrder(c.files, 0, |c.files|);
      BuildAugmented(c.files, 0, |c.files|);
      StrictlySortedPassesChecks(c.files);
      if !ChildOrderOk(t, c.files) then Failure(Misordered)
      else Success(c.(root := t))
  }

  /** Over a strictly sorted list, the per-node ordering checks of the tree build all pass. */
  lemma StrictlySortedPassesChecks(files: seq<ChunkFile>)
    ensures InBounds(Build(files, 0, |files|), |files|)
    ensures StrictlySorted(files) ==> ChildOrderOk(Build(files, 0, |files|), files)
  {
    BuildInBounds(files, 0, |files|);
    if StrictlySorted(files) {
      BuildIsBst(files, 0, |files|);
      BstChildOrderOk(Build(files, 0, |files|), files);
    }
  }

  /**
   * Compresses the permanent range list (sort, then merge each run of identical
   * bounds into one entry) and builds the interval tree over the result.
   */
  function FinalizeFiles(c: Chunk): (res: Result<Chunk, ChunkError>)
    requires HasOwners(c.files)
    ensures res.Success?
    ensures var files' := res.value.files;
            && res.value == c.(files := files', root := res.value.root)
            && StrictlySorted(files')
            && |files'| <= |c.files|
            && KeySet(files') == KeySet(c.files)
            && (forall i :: 0 <= i < |files'| ==> GathersGroup(c.files, files'[i]))
            && InOrder(res.value.root) == Positions(0, |files'|)
            && InBounds(res.value.root, |files'|)
            && Augmented(res.value.root, files')
            && Bst(res.value.root, files')
  {
    var sorted := SortFiles(c.files);
    CompressFacts(c.files);
    var files' := Dedup(sorted);
    BuildIsBst(files', 0, |files'|);
    BuildTree(c.(files := files'))
  }

  /** Sorting keeps every entry, so every entry still names an owner. */
  lemma SortKeepsOwners(s: seq<ChunkFile>)
    requires HasOwners(s)
    ensures HasOwners(SortFiles(s))
  {
    var sorted := SortFiles(s);
    SameElements(sorted, s);
    forall i | 0 <= i < |sorted| ensures |sorted[i].owners| > 0 {
      assert sorted[i] in s;
    }
  }

  /** Sorting keeps every entry, so it keeps the set of bounds. */
  lemma SortKeepsKeys(s: seq<ChunkFile>)
    ensures KeySet(SortFiles(s)) == KeySet(s)
  {
    var sorted := SortFiles(s);
    SameElements(sorted, s);
    forall k | k in KeySet(sorted) ensures k in KeySet(s) {
      var i :| 0 <= i < |sorted| && Key(sorted[i]) == k;
      assert sorted[i] in s;
    }
    forall k | k in KeySet(s) ensures k in KeySet(sorted) {
      var i :| 0 <= i < |s| && Key(s[i]) == k;
      assert s[i] in sorted;
    }
  }

  /** What compressing (sorting, then merging runs of identical bounds) guarantees. */
  lemma CompressFacts(s: seq<ChunkFile>)
    requires HasOwners(s)
    ensures HasOwners(SortFiles(s))
    ensures var files' := Dedup(SortFiles(s));
            && StrictlySorted(files')
            && KeySet(files') == KeySet(s)
            && (forall i :: 0 <= i < |files'| ==> GathersGroup(s, files'[i]))
  {
    var sorted := SortFiles(s);
    SortKeepsOwners(s);
    var files' := Dedup(sorted);
    DedupStrictlySorted(sorted);
    DedupKeepsKeys(sorted);
    SortKeepsKeys(s);
    DedupOwners(sorted);
    forall i | 0 <= i < |files'| ensures GathersGroup(s, files'[i]) {
      GroupSortFiles(s, Key(files'[i]));
    }
  }

  /** Compressing an already compressed chunk changes nothing: the range list comes back unchanged. */
  lemma FinalizeFilesIdempotent(c: Chunk)
    requires HasOwners(c.files)
    ensures HasOwners(FinalizeFiles(c).value.files)
    ensures var once := FinalizeFiles(c).value;
            FinalizeFiles(once).value.files == once.files
  {
    var once := FinalizeFiles(c).value;
    var files := once.files;
    assert HasOwners(files) by {
      forall i | 0 <= i < |files| ensures |files[i].owners| > 0 {
        assert GathersGroup(c.files, files[i]);
      }
    }
    assert Sorted(files);
    SortSortedIsIdentity(files);
    DedupIdempotent(files);
  }
}
