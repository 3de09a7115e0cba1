/**
 The layout of data: the assembled segments of .word, .asciiz and .space lines tile memory from
 the data base on, and labels in the data segment name their starts.
 */
module DataSegments {
  import opened Words
  import opened Source
  import opened Layout
  import opened Addresses
  import opened Assembler
  import Simulation
  import Program

  /** A line as the parser makes it from the three directives; .space has no bytes of its own. */
  predicate TilingBody(body: Body) {
    body.DataBody? ==> AddressedFirst(body.di.directive) && (body.di.directive == DirSpace ==> body.di.data == [])
  }

  predicate Tiling(lines: seq<SourceLine>) { forall i :: 0 <= i < |lines| ==> TilingBody(lines[i].body) }

  function ByteCount(body: Body): nat { if body.DataBody? then |body.di.data| + body.di.space else 0 }

  function DataCount(lines: seq<SourceLine>): nat {
    if lines == [] then 0 else DataCount(lines[..|lines| - 1]) + ByteCount(lines[|lines| - 1].body)
  }

  predicate FitsData(lines: seq<SourceLine>) { DATA_START_ADDR + DataCount(lines) < MODULUS }

  lemma DataCountStep(lines: seq<SourceLine>, k: nat)
    requires k < |lines|
    ensures DataCount(lines[..k + 1]) == DataCount(lines[..k]) + ByteCount(lines[k].body)
  {
    assert lines[..k + 1][..k] == lines[..k];
  }

  lemma {:induction false} DataCountGrows(lines: seq<SourceLine>, k: nat)
    requires k <= |lines|
    ensures DataCount(lines[..k]) <= DataCount(lines)
    decreases |lines| - k
  {
    if k < |lines| {
      DataCountGrows(lines, k + 1);
      DataCountStep(lines, k);
    } else {
      assert lines[..k] == lines;
    }
  }

  lemma PlaceDataLine(g: Listing, line: SourceLine)
    ensures var h := Place(g, line);
      if line.body.DataBody? then h.data == g.data + [PlaceData(line.body.di, g.dataAddr)] &&
        h.dataAddr == DataEnd(line.body.di, g.dataAddr)
      else h.data == g.data && h.dataAddr == g.dataAddr
  {}

  /** The data address is the base plus the bytes of the lines so far. */
  lemma {:induction false} DataAddrCounts(lines: seq<SourceLine>, k: nat)
    requires FitsData(lines) && k <= |lines|
    ensures Prefix(lines, k).dataAddr == DATA_START_ADDR + DataCount(lines[..k]) < MODULUS
    decreases k
  {
    DataCountGrows(lines, k);
    if k > 0 {
      hide Bump, Prefix, DataCount;
      DataAddrCounts(lines, k - 1);
      DataCountStep(lines, k - 1);
      DataAddrStep(lines, k - 1);
      BumpExact(Prefix(lines, k - 1).dataAddr, ByteCount(lines[k - 1].body));
    }
  }

  lemma DataAddrStep(lines: seq<SourceLine>, k: nat)
    requires k < |lines|
    ensures var a, body := Prefix(lines, k).dataAddr, lines[k].body;
      Prefix(lines, k + 1).dataAddr == if body.DataBody? then Bump(a, ByteCount(body)) else a
  {
    hide Place, Bump, Prefix;
    PrefixStep(lines, k);
    PlaceDataLine(Prefix(lines, k), lines[k]);
  }

  /** Each segment starts where the one before it ends; the first at `a`, and the last ends at `e`. */
  predicate Tiled(segs: seq<Program.DataSeg>, a: int, e: int) {
    (segs == [] ==> a == e) &&
    (segs != [] ==> segs[0].adr == a && End(segs[|segs| - 1]) == e) &&
    forall i :: 0 <= i < |segs| - 1 ==> segs[i + 1].adr == End(segs[i])
  }

  function End(s: Program.DataSeg): int { s.adr + |s.data| }

  lemma TiledAppend(segs: seq<Program.DataSeg>, s: Program.DataSeg, a: int, m: int, e: int)
    requires Tiled(segs, a, m) && s.adr == m && End(s) == e
    ensures Tiled(segs + [s], a, e)
  {}

  lemma SegmentsAppend(data: seq<DataInfo>, d: DataInfo)
    ensures Segments(data + [d]) == Segments(data) + [SegmentOf(d)]
  {}

  /** The assembled segments tile memory from the data base to the data address. */
  lemma {:induction false} SegmentsTile(lines: seq<SourceLine>, k: nat)
    requires Tiling(lines) && FitsData(lines) && k <= |lines|
    ensures Tiled(Segments(Prefix(lines, k).data), DATA_START_ADDR, Prefix(lines, k).dataAddr)
    decreases k
  {
    if k > 0 {
      hide Tiled, Prefix, Segments, SegmentOf, Tiling, FitsData;
      SegmentsTile(lines, k - 1);
      SegmentAdded(lines, k - 1);
      var g, h := Prefix(lines, k - 1), Prefix(lines, k);
      if lines[k - 1].body.DataBody? {
        TiledAppend(Segments(g.data), SegmentOf(h.data[|g.data|]), DATA_START_ADDR, g.dataAddr, h.dataAddr);
      }
    }
  }

  lemma SegmentPlacedAt(body: Body, a: int)
    requires body.DataBody? && TilingBody(body) && 0 < a && a + ByteCount(body) < MODULUS
    ensures var s := SegmentOf(PlaceData(body.di, a)); s.adr == a && End(s) == a + ByteCount(body)
  {}

  /** What a line adds to the segments: none, or one from the data address before it to the one after it. */
  lemma SegmentAdded(lines: seq<SourceLine>, k: nat)
    requires Tiling(lines) && FitsData(lines) && k < |lines|
    ensures var g, h := Prefix(lines, k), Prefix(lines, k + 1);
      if lines[k].body.DataBody? then
        |h.data| == |g.data| + 1 && h.data[..|g.data|] == g.data &&
        var s := SegmentOf(h.data[|g.data|]);
        Segments(h.data) == Segments(g.data) + [s] && s.adr == g.dataAddr && End(s) == h.dataAddr
      else h.data == g.data && h.dataAddr == g.dataAddr
  {
    hide Prefix, Place, Segments, SegmentOf, PlaceData, TilingBody, DataEnd, DataCount;
    var g, line := Prefix(lines, k), lines[k];
    PrefixStep(lines, k);
    DataAddrCounts(lines, k);
    DataAddrCounts(lines, k + 1);
    DataCountStep(lines, k);
    PlaceDataLine(g, line);
    if line.body.DataBody? {
      assert TilingBody(line.body);
      SegmentPlacedAt(line.body, g.dataAddr);
      SegmentsAppend(g.data, PlaceData(line.body.di, g.dataAddr));
    }
  }

  // ---- Labels ----

  /** Where the next segment after the first `i` starts; the end of the last when there is none. */
  function NextStart(segs: seq<Program.DataSeg>, i: nat, end: int): int
    requires i <= |segs|
  {
    if i < |segs| then segs[i].adr else end
  }

  /** The data address before a line is the start of the next segment the source defines, or the end of the last one. */
  lemma {:induction false} AddrIsNextStart(lines: seq<SourceLine>, k: nat, n: nat)
    requires Tiling(lines) && FitsData(lines) && k <= n <= |lines|
    ensures |Prefix(lines, k).data| <= |Prefix(lines, n).data|
    ensures Prefix(lines, k).dataAddr ==
      NextStart(Segments(Prefix(lines, n).data), |Prefix(lines, k).data|, Prefix(lines, n).dataAddr)
    decreases n
  {
    if k < n {
      hide Prefix, SegmentOf, Tiling, FitsData;
      AddrIsNextStart(lines, k, n - 1);
      SegmentAdded(lines, n - 1);
    }
  }

  /**
   A label recorded in data mode has the address of the next segment; on a directive's own line, of that
   directive's segment.
   */
  lemma DataLabels(lines: seq<SourceLine>, k: nat)
    requires Tiling(lines) && FitsData(lines) && k < |lines| && lines[k].labelled &&
      Prefix(lines, k).mode == DataSegment
    ensures var all := Prefix(lines, |lines|); var i := |Prefix(lines, k).data|;
      i <= |all.data| && LabelAddr(lines, k) == NextStart(Segments(all.data), i, all.dataAddr) &&
      (lines[k].body.DataBody? ==>
        i < |all.data| && all.data[i] == PlaceData(lines[k].body.di, Prefix(lines, k).dataAddr))
  {
    hide Place, PlaceData, PlaceAll, Segments, TilingBody;
    AddrIsNextStart(lines, k, |lines|);
    if lines[k].body.DataBody? {
      PrefixStep(lines, k);
      PlaceDataLine(Prefix(lines, k), lines[k]);
      DataGrows(lines, k + 1, |lines|);
    }
  }

  /**
   A label on a directive's own line is the start of its segment exactly when the line is read in
   data mode: the label is recorded before the directive changes the mode. Code is below the data base.
   */
  lemma DirectiveLabels(lines: seq<SourceLine>, k: nat)
    requires Tiling(lines) && FitsData(lines) && k < |lines| && lines[k].labelled && lines[k].body.DataBody?
    requires TEXT_START_ADDR + 4 * InstrCount(lines) < DATA_START_ADDR
    ensures var segs, i := Segments(Prefix(lines, |lines|).data), |Prefix(lines, k).data|;
      i < |segs| && (LabelAddr(lines, k) == segs[i].adr <==> Prefix(lines, k).mode == DataSegment)
  {
    hide Place, PlaceData, PlaceAll, Segments, TilingBody, Bump, Prefix, InstrCount;
    AddrIsNextStart(lines, k, |lines|);
    PrefixStep(lines, k);
    PlaceDataLine(Prefix(lines, k), lines[k]);
    DataGrows(lines, k + 1, |lines|);
    DataAddrCounts(lines, k);
    TextAddrCounts(lines, k);
    Simulation.InstrCountGrows(lines, k);
    BumpExact(TEXT_START_ADDR, 4 * InstrCount(lines[..k]));
  }

  lemma {:induction false} DataGrows(lines: seq<SourceLine>, k: nat, n: nat)
    requires k <= n <= |lines|
    ensures Prefix(lines, k).data <= Prefix(lines, n).data
    decreases n
  {
    if k < n {
      hide Place, PlaceData;
      DataGrows(lines, k, n - 1);
      PrefixStep(lines, n - 1);
      PlaceDataLine(Prefix(lines, n - 1), lines[n - 1]);
    }
  }
}
