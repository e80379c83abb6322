/**
 * Ingesting one file into a chunk: recording the spans of all its lines, then
 * committing them.  Properties that relate several recording calls live here.
 */
module Ingest {
  import opened Wrappers
  import opened Ranges
  import opened Compress
  import opened Chunks

  /** The byte span `[l, r)` one line of a file occupies in the chunk buffer. */
  datatype Line = Line(l: int, r: int)

  /** Every line lies inside a buffer of `size` bytes. */
  predicate InBuffer(lines: seq<Line>, size: nat)
  {
    forall i :: 0 <= i < |lines| ==> 0 <= lines[i].l <= lines[i].r <= size
  }

  /** Records the lines of file `sf` one after another, threading the entry counter through. */
  function AddLines(c: Chunk, created: nat, maxGap: int, sf: FileId, lines: seq<Line>): (res: (Chunk, nat))
    requires InBuffer(lines, |c.data|)
    ensures res.0 == c.(curFile := res.0.curFile)
    decreases |lines|
  {
    if |lines| == 0 then (c, created)
    else
      var prev := AddLines(c, created, maxGap, sf, lines[..|lines| - 1]);
      var last := lines[|lines| - 1];
      AddChunkFile(prev.0, prev.1, maxGap, sf, last.l, last.r)
  }

  /** Every working range is owned by `sf` alone. */
  predicate OwnedBy(cur: seq<ChunkFile>, sf: FileId)
  {
    forall j :: 0 <= j < |cur| ==> cur[j].owners == [sf]
  }

  /** Some range of `cur` covers the line. */
  predicate Covered(cur: seq<ChunkFile>, line: Line)
  {
    exists j :: 0 <= j < |cur| && Covers(cur[j], line.l, line.r)
  }

  /** Recording one more line is one more call of the single-span step. */
  lemma AddLinesSnoc(c: Chunk, created: nat, maxGap: int, sf: FileId, lines: seq<Line>, line: Line)
    requires InBuffer(lines, |c.data|) && 0 <= line.l <= line.r <= |c.data|
    ensures InBuffer(lines + [line], |c.data|)
    ensures var prev := AddLines(c, created, maxGap, sf, lines);
            AddLines(c, created, maxGap, sf, lines + [line]) ==
            AddChunkFile(prev.0, prev.1, maxGap, sf, line.l, line.r)
  {
    var all := lines + [line];
    assert all[..|all| - 1] == lines;
    assert forall i :: 0 <= i < |lines| ==> lines[i] == all[i];
  }

  /** One recording step keeps sole ownership by `sf`. */
  lemma AddChunkFileOwned(c: Chunk, created: nat, maxGap: int, sf: FileId, l: int, r: int)
    requires 0 <= l <= r <= |c.data|
    requires OwnedBy(c.curFile, sf)
    ensures OwnedBy(AddChunkFile(c, created, maxGap, sf, l, r).0.curFile, sf)
  {
    var cur' := AddChunkFile(c, created, maxGap, sf, l, r).0.curFile;
    forall j | 0 <= j < |cur'| ensures cur'[j].owners == [sf] {
      if j >= |c.curFile| {
        assert cur' == c.curFile + [ChunkFile(l, r, [sf])];
      }
    }
  }

  /** One recording step keeps every line recorded so far covered. */
  lemma AddChunkFileKeepsCovered(c: Chunk, created: nat, maxGap: int, sf: FileId, l: int, r: int, lines: seq<Line>)
    requires 0 <= l <= r <= |c.data|
    requires forall i :: 0 <= i < |lines| ==> Covered(c.curFile, lines[i])
    ensures var cur' := AddChunkFile(c, created, maxGap, sf, l, r).0.curFile;
            (forall i :: 0 <= i < |lines| ==> Covered(cur', lines[i])) && Covered(cur', Line(l, r))
  {
    var cur, cur' := c.curFile, AddChunkFile(c, created, maxGap, sf, l, r).0.curFile;
    AddChunkFileGrows(c, created, maxGap, sf, l, r);
    forall i | 0 <= i < |lines| ensures Covered(cur', lines[i]) {
      assert Covered(cur, lines[i]);
      var j :| 0 <= j < |cur| && Covers(cur[j], lines[i].l, lines[i].r);
      assert Covers(cur'[j], cur[j].left, cur[j].right);
    }
  }

  /**
   * After recording a file's lines: every line is covered by a working range,
   * every earlier working range survives at its position (possibly grown), the
   * counter went up by exactly the number of ranges created, at most one range
   * was created per line, and well-formedness and sole ownership by `sf` are kept.
   */
  lemma {:induction false} AddLinesCovers(c: Chunk, created: nat, maxGap: int, sf: FileId, lines: seq<Line>)
    requires InBuffer(lines, |c.data|)
    ensures var res := AddLines(c, created, maxGap, sf, lines);
            var cur, cur' := c.curFile, res.0.curFile;
            && (forall i :: 0 <= i < |lines| ==> Covered(cur', lines[i]))
            && |cur| <= |cur'| <= |cur| + |lines|
            && (forall j :: 0 <= j < |cur| ==> Covers(cur'[j], cur[j].left, cur[j].right))
            && res.1 == created + (|cur'| - |cur|)
            && (AllWellFormed(cur) ==> AllWellFormed(cur'))
            && (OwnedBy(cur, sf) ==> OwnedBy(cur', sf))
    decreases |lines|
  {
    if |lines| > 0 {
      var init := lines[..|lines| - 1];
      var last := lines[|lines| - 1];
      assert lines == init + [last];
      AddLinesSnoc(c, created, maxGap, sf, init, last);
      var prev := AddLines(c, created, maxGap, sf, init);
      AddLinesCovers(c, created, maxGap, sf, init);
      var cur, mid := c.curFile, prev.0.curFile;
      var res := AddChunkFile(prev.0, prev.1, maxGap, sf, last.l, last.r);
      var cur' := res.0.curFile;
      AddChunkFileKeepsCovered(prev.0, prev.1, maxGap, sf, last.l, last.r, init);
      AddChunkFileGrows(prev.0, prev.1, maxGap, sf, last.l, last.r);
      forall i | 0 <= i < |lines| ensures Covered(cur', lines[i]) {
        if i < |lines| - 1 { assert lines[i] == init[i]; }
      }
      forall j | 0 <= j < |cur| ensures Covers(cur'[j], cur[j].left, cur[j].right) {
        assert Covers(mid[j], cur[j].left, cur[j].right);
        assert Covers(cur'[j], mid[j].left, mid[j].right);
      }
      if OwnedBy(cur, sf) {
        AddChunkFileOwned(prev.0, prev.1, maxGap, sf, last.l, last.r);
      }
    }
  }

  /**
   * Ingesting a whole file into an empty working list: when the commit succeeds,
   * the ranges appended to the permanent list are sorted, separated by strict
   * gaps, owned by the file alone, cover every line, and number exactly as many
   * as the entries the counter records as created.
   */
  lemma IngestFile(c: Chunk, created: nat, maxGap: int, sf: FileId, lines: seq<Line>)
    requires InBuffer(lines, |c.data|)
    requires c.curFile == []
    ensures var rec := AddLines(c, created, maxGap, sf, lines);
            var res := FinishFile(rec.0);
            res.Success? ==>
              var block := res.value.files[|c.files|..];
              && |res.value.files| == |c.files| + |block|
              && res.value.files[..|c.files|] == c.files
              && res.value.curFile == []
              && Sorted(block)
              && StrictGaps(block)
              && OwnedBy(block, sf)
              && (forall i :: 0 <= i < |lines| ==> Covered(block, lines[i]))
              && rec.1 == created + |block|
  {
    var rec := AddLines(c, created, maxGap, sf, lines);
    AddLinesCovers(c, created, maxGap, sf, lines);
    var res := FinishFile(rec.0);
    if res.Success? {
      RearrangedKeepsLines(res.value.files[|c.files|..], rec.0.curFile, sf, lines);
    }
  }

  /** Rearranging the working ranges keeps their number, their sole owner and the lines they cover. */
  lemma RearrangedKeepsLines(block: seq<ChunkFile>, cur: seq<ChunkFile>, sf: FileId, lines: seq<Line>)
    requires multiset(block) == multiset(cur)
    requires forall i :: 0 <= i < |lines| ==> Covered(cur, lines[i])
    requires OwnedBy(cur, sf)
    ensures |block| == |cur|
    ensures OwnedBy(block, sf)
    ensures forall i :: 0 <= i < |lines| ==> Covered(block, lines[i])
  {
    SameElements(block, cur);
    forall j | 0 <= j < |block| ensures block[j].owners == [sf] {
      assert block[j] in cur;
    }
    forall i | 0 <= i < |lines| ensures Covered(block, lines[i]) {
      var j :| 0 <= j < |cur| && Covers(cur[j], lines[i].l, lines[i].r);
      assert cur[j] in block;
      var m :| 0 <= m < |block| && block[m] == cur[j];
    }
  }

  // ---------------------------------------------------------------------------
  // Worked examples with a merge threshold of 5.

  /** The first line of a file starts a new range owned by the file. */
  lemma FirstLine(c: Chunk, created: nat, maxGap: int, sf: FileId, line: Line)
    requires c.curFile == [] && 0 <= line.l <= line.r <= |c.data|
    ensures AddLines(c, created, maxGap, sf, [line]) ==
            (c.(curFile := [ChunkFile(line.l, line.r, [sf])]), created + 1)
  {
    var one := [line];
    assert one[..0] == [];
    assert AddLines(c, created, maxGap, sf, one[..0]) == (c, created);
    assert Nearest(c.curFile, line.l, line.r) == None;
    assert c.curFile + [ChunkFile(line.l, line.r, [sf])] == [ChunkFile(line.l, line.r, [sf])];
  }

  /** Spans `[0, 4)` and `[10, 14)` lie 6 apart: they stay two ranges and two entries are created. */
  lemma ThresholdKeepsFarSpansApart(c: Chunk, created: nat, sf: FileId)
    requires c.curFile == [] && |c.data| >= 14
    ensures AddLines(c, created, 5, sf, [Line(0, 4), Line(10, 14)]) ==
            (c.(curFile := [ChunkFile(0, 4, [sf]), ChunkFile(10, 14, [sf])]), created + 2)
  {
    FirstLine(c, created, 5, sf, Line(0, 4));
    AddLinesSnoc(c, created, 5, sf, [Line(0, 4)], Line(10, 14));
    assert [Line(0, 4)] + [Line(10, 14)] == [Line(0, 4), Line(10, 14)];
    var cur := [ChunkFile(0, 4, [sf])];
    assert Nearest(cur, 10, 14) == Some(0) by {
      assert cur[..0] == [];
    }
    assert Dist(cur[0], 10, 14) == 6;
    assert cur + [ChunkFile(10, 14, [sf])] == [ChunkFile(0, 4, [sf]), ChunkFile(10, 14, [sf])];
  }

  /** Spans `[0, 4)` and `[8, 12)` lie 4 apart: they merge into the single range `[0, 12)`. */
  lemma ThresholdMergesNearSpans(c: Chunk, created: nat, sf: FileId)
    requires c.curFile == [] && |c.data| >= 12
    ensures AddLines(c, created, 5, sf, [Line(0, 4), Line(8, 12)]) ==
            (c.(curFile := [ChunkFile(0, 12, [sf])]), created + 1)
  {
    FirstLine(c, created, 5, sf, Line(0, 4));
    AddLinesSnoc(c, created, 5, sf, [Line(0, 4)], Line(8, 12));
    assert [Line(0, 4)] + [Line(8, 12)] == [Line(0, 4), Line(8, 12)];
    var c1 := c.(curFile := [ChunkFile(0, 4, [sf])]);
    assert Nearest(c1.curFile, 8, 12) == Some(0) by {
      assert c1.curFile[..0] == [];
    }
    assert Dist(c1.curFile[0], 8, 12) == 4;
    var cur' := AddChunkFile(c1, created + 1, 5, sf, 8, 12).0.curFile;
    assert |cur'| == 1 && cur'[0] == ChunkFile(0, 12, [sf]);
    assert cur' == [ChunkFile(0, 12, [sf])];
  }

  /** After `[0, 4)` and `[20, 24)`, 16 apart, a file has two working ranges. */
  lemma TwoFarLines(c: Chunk, created: nat, sf: FileId, lines: seq<Line>)
    requires c.curFile == [] && |c.data| >= 24
    requires lines == [Line(0, 4), Line(20, 24)]
    ensures InBuffer(lines, |c.data|)
    ensures AddLines(c, created, 5, sf, lines) ==
            (c.(curFile := [ChunkFile(0, 4, [sf]), ChunkFile(20, 24, [sf])]), created + 2)
  {
    FirstLine(c, created, 5, sf, lines[0]);
    AddLinesSnoc(c, created, 5, sf, [lines[0]], lines[1]);
    assert [lines[0]] + [lines[1]] == lines;
    var one := [ChunkFile(0, 4, [sf])];
    assert Nearest(one, 20, 24) == Some(0) by {
      assert one[..0] == [];
    }
    assert Dist(one[0], 20, 24) == 16;
    assert one + [ChunkFile(20, 24, [sf])] == [ChunkFile(0, 4, [sf]), ChunkFile(20, 24, [sf])];
  }

  /** The span `[4, 20)` is at distance 0 from both ranges; the first one, found first, grows to `[0, 20)`. */
  lemma BridgeJoinsFirst(c: Chunk, created: nat, sf: FileId)
    requires c.curFile == [ChunkFile(0, 4, [sf]), ChunkFile(20, 24, [sf])] && |c.data| >= 24
    ensures AddChunkFile(c, created, 5, sf, 4, 20) ==
            (c.(curFile := [ChunkFile(0, 20, [sf]), ChunkFile(20, 24, [sf])]), created)
  {
    var two := c.curFile;
    assert Nearest(two, 4, 20) == Some(0) by {
      var one := [ChunkFile(0, 4, [sf])];
      assert two[..1] == one;
      assert one[..0] == [];
      assert Nearest(one, 4, 20) == Some(0);
      assert Dist(two[0], 4, 20) == 0 && Dist(two[1], 4, 20) == 0;
    }
    var cur' := AddChunkFile(c, created, 5, sf, 4, 20).0.curFile;
    assert |cur'| == 2 && cur'[0] == ChunkFile(0, 20, [sf]) && cur'[1] == two[1];
    assert cur' == [ChunkFile(0, 20, [sf]), ChunkFile(20, 24, [sf])];
  }

  /** Ranges that touch stop the commit of a file. */
  lemma TouchingRangesFail(c: Chunk, sf: FileId)
    requires c.curFile == [ChunkFile(0, 20, [sf]), ChunkFile(20, 24, [sf])]
    ensures FinishFile(c) == Failure(Overlap)
  {
    assert AllWellFormed(c.curFile);
    assert !Apart(c.curFile[0], c.curFile[1]);
  }

  /**
   * Growing a range can make it touch another one: after `[0, 4)` and `[20, 24)`,
   * the span `[4, 20)` joins the first, and the commit then stops on the touching pair.
   */
  lemma GrowthCanTouchNeighbour(c: Chunk, created: nat, sf: FileId, lines: seq<Line>)
    requires c.curFile == [] && |c.data| >= 24
    requires lines == [Line(0, 4), Line(20, 24), Line(4, 20)]
    ensures InBuffer(lines, |c.data|)
    ensures var rec := AddLines(c, created, 5, sf, lines);
            && rec.0.curFile == [ChunkFile(0, 20, [sf]), ChunkFile(20, 24, [sf])]
            && FinishFile(rec.0) == Failure(Overlap)
  {
    GrowthTouches(c, created, sf, lines);
    TouchingRangesFail(AddLines(c, created, 5, sf, lines).0, sf);
  }

  /** The three spans of the example above leave two working ranges that touch at 20. */
  lemma GrowthTouches(c: Chunk, created: nat, sf: FileId, lines: seq<Line>)
    requires c.curFile == [] && |c.data| >= 24
    requires lines == [Line(0, 4), Line(20, 24), Line(4, 20)]
    ensures InBuffer(lines, |c.data|)
    ensures AddLines(c, created, 5, sf, lines).0.curFile == [ChunkFile(0, 20, [sf]), ChunkFile(20, 24, [sf])]
  {
    var two := lines[..2];
    TwoFarLines(c, created, sf, two);
    AddLinesSnoc(c, created, 5, sf, two, lines[2]);
    assert two + [lines[2]] == lines;
    var c2 := c.(curFile := [ChunkFile(0, 4, [sf]), ChunkFile(20, 24, [sf])]);
    BridgeJoinsFirst(c2, created + 2, sf);
  }

  /** Committing a file with the single working range `e` appends `e` to the permanent list. */
  lemma CommitSingle(c: Chunk, e: ChunkFile)
    requires c.curFile == [e] && 0 <= e.left <= e.right
    ensures FinishFile(c) == Success(c.(files := c.files + [e], curFile := []))
  {
    var cur := c.curFile;
    assert AllWellFormed(cur);
    assert Separated(cur);
    var d := FinishFile(c);
    var files' := d.value.files;
    assert files'[|c.files|..] == [e] by {
      var block := files'[|c.files|..];
      assert |block| == 1;
      assert block[0] in multiset(block);
    }
    assert files' == files'[..|c.files|] + files'[|c.files|..];
  }

  /** A strictly sorted list with a single key holds exactly one entry. */
  lemma SingleKey(files: seq<ChunkFile>, k: (int, int))
    requires StrictlySorted(files) && KeySet(files) == {k}
    ensures |files| == 1 && Key(files[0]) == k
  {
    assert k in KeySet(files);
    forall i | 0 <= i < |files| ensures Key(files[i]) == k {
      assert Key(files[i]) in KeySet(files);
    }
    assert |files| > 1 ==> Less(files[0], files[1]);
  }

  /** The entries sharing the bounds of two identical-bounds entries are both of them. */
  lemma PairGroup(s: seq<ChunkFile>, f1: FileId, f2: FileId)
    requires s == [ChunkFile(100, 150, [f1]), ChunkFile(100, 150, [f2])]
    ensures Group(s, (100, 150)) == s
    ensures KeySet(s) == {(100, 150)}
  {
    var k := (100, 150);
    assert Key(s[0]) == k && Key(s[1]) == k;
    assert s[1..][1..] == [];
    assert Group(s[1..][1..], k) == [];
    assert Group(s[1..], k) == [s[1]] + [];
    assert Group(s, k) == [s[0]] + [s[1]];
  }

  /** Two entries with bounds `[100, 150)`, owned by `f1` and then by `f2`, compress to one listing both. */
  lemma SharedBoundsCompress(c: Chunk, f1: FileId, f2: FileId)
    requires c.files == [ChunkFile(100, 150, [f1]), ChunkFile(100, 150, [f2])]
    ensures HasOwners(c.files)
    ensures FinalizeFiles(c).value.files == [ChunkFile(100, 150, [f1, f2])]
  {
    var s := c.files;
    PairGroup(s, f1, f2);
    var files' := FinalizeFiles(c).value.files;
    SingleKey(files', (100, 150));
    var e := files'[0];
    assert GathersGroup(s, e);
    assert Fronts(s[1..]) == [f2];
    assert e.owners == [f1, f2];
    assert e == ChunkFile(100, 150, [f1, f2]);
    assert files' == [e];
  }

  /**
   * Two files whose content was deduplicated onto the same bytes `[100, 150)`:
   * after both commit, compression leaves one entry listing both files.
   */
  lemma SharedRangeListsBothFiles(c: Chunk, created: nat, maxGap: int, f1: FileId, f2: FileId, line: Line)
    requires c.curFile == [] && c.files == [] && |c.data| >= 150
    requires line == Line(100, 150)
    ensures var r1 := AddLines(c, created, maxGap, f1, [line]);
            var d1 := FinishFile(r1.0);
            d1.Success? &&
            var r2 := AddLines(d1.value, r1.1, maxGap, f2, [line]);
            var d2 := FinishFile(r2.0);
            d2.Success? && HasOwners(d2.value.files) &&
            FinalizeFiles(d2.value).value.files == [ChunkFile(100, 150, [f1, f2])]
  {
    var e1, e2 := ChunkFile(100, 150, [f1]), ChunkFile(100, 150, [f2]);
    assert [e1] + [e2] == [e1, e2];
    assert [] + [e1] == [e1];
    FirstLine(c, created, maxGap, f1, line);
    var c1 := c.(curFile := [e1]);
    CommitSingle(c1, e1);
    var d1 := c.(files := [e1], curFile := []);
    FirstLine(d1, created + 1, maxGap, f2, line);
    CommitSingle(d1.(curFile := [e2]), e2);
    SharedBoundsCompress(c.(files := [e1, e2]), f1, f2);
  }
}
