/** A small kernel with one segment each of text, read-only data and data with zeroed memory behind it. It is
    accepted, loads, and needs exactly the tables expected of it. */
module KernelSample {
  import opened Prelude
  import opened Sorting
  import opened Elf
  import opened ElfImage
  import opened ElfFile
  import opened HigherHalf
  import opened KernelTables
  import opened KernelView
  import L = LoadPlan
  import M = MappingPlan
  import T = LoadTargets
  import P = PageTablePlan
  import Q = MappingPages
  import B = PageTableBuilder

  /** Sixteen bytes of the file each, on successive pages; the data segment has two pages of memory. */
  function SampleSegment(i: nat): ProgramHeader
    requires i < 3
  {
    ProgramHeader(1, [5, 4, 6][i], 4096 + i * 4096, 0xffff_ffff_8020_0000 + i * 4096, 0x0020_0000 + i * 4096, 16,
      if i == 2 then 0x2000 else 16, 4096)
  }

  function SampleSegments(): seq<ProgramHeader> { [SampleSegment(0), SampleSegment(1), SampleSegment(2)] }

  const SAMPLE_HEADER := RawHeader(2, 1, 1, 0, 2, 62, 1, 0xffff_ffff_8020_0000, 64, 0, 64, 56, 3, 0, 0)

  /** What follows the table in the file. */
  function SampleRest(): seq<Byte> { seq(0x3010 - 232, _ => 0) }

  function SampleFile(): (b: File)
    ensures |b| == 0x3010
  {
    HeaderLength(SAMPLE_HEADER);
    FileBytes(SAMPLE_HEADER, SampleSegments(), SampleRest())
  }

  function SampleImage(): ValidatedImage {
    ValidatedImage(SampleFile(), SAMPLE_HEADER, 3, 0x0020_0000, 0x0020_4000, 0xffff_ffff_8020_0000,
      0xffff_ffff_8020_4000)
  }

  lemma PageIsPower()
    ensures IsPowerOfTwo(4096)
  {
    assert IsPowerOfTwo(2) && IsPowerOfTwo(4) && IsPowerOfTwo(8) && IsPowerOfTwo(16) && IsPowerOfTwo(32);
    assert IsPowerOfTwo(64) && IsPowerOfTwo(128) && IsPowerOfTwo(256) && IsPowerOfTwo(512) && IsPowerOfTwo(1024);
    assert IsPowerOfTwo(2048);
  }

  lemma SegmentAccepted(b: File, i: nat)
    requires |b| == 0x3010 && i < 3
    ensures LoadOk(b, SampleSegment(i)) && SegmentPolicy(SampleSegment(i))
  {
    hide IsPowerOfTwo;
    PageIsPower();
  }

  lemma SegmentsApart(i: nat, j: nat)
    requires i < j < 3
    ensures PhysicallyApart(SampleSegment(i), SampleSegment(j)) && VirtuallyApart(SampleSegment(i), SampleSegment(j))
  {
  }

  /** The sample is an accepted higher-half image. */
  lemma SampleAccepted()
    ensures HigherHalfOk(SampleImage()) && TablePresent(SampleFile(), SAMPLE_HEADER)
    ensures Segments(SampleFile(), SAMPLE_HEADER) == SampleSegments()
  {
    hide SampleFile, LoadOk, PolicyOk, AllLoadOk, AllApart, Hulls, EntryHeld, Segments, FileBytes, SampleSegments,
      Names, SampleRest;
    SampleIsFile();
    SampleLoadable();
    SampleFacts();
    FileAcceptedExactly(SAMPLE_HEADER, SampleSegments(), SampleRest());
  }

  lemma SampleLoadable()
    ensures AllLoadOk(SampleFile(), SampleSegments()) && AllApart(SampleSegments()) && PolicyOk(SampleSegments())
  {
    hide SampleFile, LoadOk, SegmentPolicy, PhysicallyApart, VirtuallyApart, SampleSegment, Has;
    var b, s := SampleFile(), SampleSegments();
    forall i | 0 <= i < 3 ensures LoadOk(b, s[i]) && SegmentPolicy(s[i]) { SegmentAccepted(b, i); }
    forall i, j | 0 <= i < j < 3 ensures PhysicallyApart(s[i], s[j]) && VirtuallyApart(s[i], s[j]) {
      SegmentsApart(i, j);
    }
    KindsPresent();
  }

  lemma KindsPresent()
    ensures var s := SampleSegments(); Has(s, IsText) && Has(s, IsRodata) && Has(s, IsData) && Has(s, HasBss)
  {
    var s := SampleSegments();
    assert IsText(s[0]) && IsRodata(s[1]) && IsData(s[2]) && HasBss(s[2]);
  }

  lemma SampleFacts()
    ensures var s := SampleSegments();
      |s| == 3 && EntryHeld(s, SAMPLE_HEADER.entry) && (forall i | 0 <= i < |s| :: s[i].kind == PT_LOAD) &&
      Hulls(s, 0x0020_0000, 0x0020_4000, 0xffff_ffff_8020_0000, 0xffff_ffff_8020_4000)
  {
    var s := SampleSegments();
    assert HoldsEntry(s[0], SAMPLE_HEADER.entry);
    assert s[0].physicalAddress == 0x0020_0000 && PhysicalEnd(s[2]) == 0x0020_4000;
    assert s[0].virtualAddress == 0xffff_ffff_8020_0000 && VirtualEnd(s[2]) == 0xffff_ffff_8020_4000;
  }

  lemma SampleIsFile()
    ensures SampleFile() == FileBytes(SAMPLE_HEADER, SampleSegments(), SampleRest())
    ensures Names(SAMPLE_HEADER, SampleSegments()) && |SampleFile()| < U64_LIMIT
  {
  }

  /** Memory with the file at the given page and zeros elsewhere. */
  function MemoryWith(file: File, at: nat, size: nat): T.Bytes
    requires at + |file| <= size
  {
    seq(at, _ => 0) + file + seq(size - at - |file|, _ => 0)
  }

  const SAMPLE_SOURCE := L.SourceAllocation(0x1000_0000, 4, 0x3010)

  lemma SampleMemory() returns (start: T.Bytes)
    ensures T.SourceInMemory(SAMPLE_SOURCE, |start|) && T.FileIn(start, SAMPLE_SOURCE) == SampleFile()
    ensures SourceFits(SampleSegments(), SAMPLE_SOURCE)
  {
    hide SampleFile;
    start := MemoryWith(SampleFile(), 0x1000_0000, 0x1000_4000);
    assert start[0x1000_0000..0x1000_3010] == SampleFile();
  }

  /** It loads: there is a plan for it and a memory that holds it. */
  lemma SampleLoads() returns (plan: HigherHalfPlan, start: T.Bytes, m: T.Bytes)
    ensures HigherHalfOk(SampleImage())
    ensures Loaded(SampleFile(), SampleSegments(), SAMPLE_SOURCE, plan, start, m)
  {
    hide *;
    SampleAccepted();
    SampleParts();
    start := SampleMemory();
    plan, m := LoadedExists(SampleImage(), SAMPLE_SOURCE, start);
  }

  lemma SampleParts()
    ensures SampleImage().bytes == SampleFile() && SampleImage().header == SAMPLE_HEADER
  {
  }

  // ---- its tables

  /** Pages of one 2 MiB block of the window need one table of each level. */
  lemma OneBlock(pages: seq<P.Page>)
    requires pages != [] && forall k | 0 <= k < |pages| :: FIRST_PAGE <= pages[k].vpn < FIRST_PAGE + 512
    ensures |P.Nodes(pages)| == 4
  {
    hide P.Prefix, P.Nodes, P.Paths;
    forall k | 0 <= k < |pages|
      ensures P.Prefix(4, pages[k].vpn) == 511 && P.Prefix(3, pages[k].vpn) == 0x3_fffe
      ensures P.Prefix(2, pages[k].vpn) == 0x7ff_fc01 {
      WindowPaths(pages[k].vpn);
      P.PrefixSteps(pages[k].vpn);
    }
    OnePath(pages, 4, 511);
    OnePath(pages, 3, 0x3_fffe);
    OnePath(pages, 2, 0x7ff_fc01);
    P.NodesCounted(pages);
  }

  lemma OnePath(pages: seq<P.Page>, level: nat, key: nat)
    requires pages != [] && forall k | 0 <= k < |pages| :: P.Prefix(level, pages[k].vpn) == key
    ensures |P.Paths(pages, level)| == 1
  {
    hide P.Prefix, P.Paths;
    P.PathsWithin(pages, level, {key});
    assert P.Prefix(level, pages[0].vpn) == key;
    B.PathMember(pages, level, key);
    assert P.Paths(pages, level) == {key};
  }

  lemma SamplePage(i: nat, j: nat)
    requires i < 3 && SegmentPolicy(SampleSegment(i)) && M.EntryOk(EntryFor(SampleSegment(i)))
    requires j < Q.PageCount(EntryFor(SampleSegment(i)))
    ensures FIRST_PAGE <= Q.PageOf(EntryFor(SampleSegment(i)), j).vpn < FIRST_PAGE + 512
  {
    hide P.Vpn, M.EntryOk, Q.LeafBits, MappingPolicy;
    Q.VpnHigh(EntryFor(SampleSegment(i)).virt.start + j * 4096);
  }

  lemma SegmentBytes(i: nat)
    requires i < 3 && SegmentPolicy(SampleSegment(i))
    ensures EntryBytes(EntryFor(SampleSegment(i))) == if i == 2 then 8192 else 4096
  {
  }

  lemma ThreeMapped(es: seq<M.PlanEntry>)
    requires |es| == 3
    ensures MappedBytes(es) == EntryBytes(es[0]) + EntryBytes(es[1]) + EntryBytes(es[2])
  {
    hide EntryBytes;
    assert es[..2][..1] == es[..1] && es[..1][..0] == [];
    assert MappedBytes(es[..1]) == EntryBytes(es[0]) && MappedBytes(es[..2]) == EntryBytes(es[0]) + EntryBytes(es[1]);
  }

  lemma SamplePages(plan: HigherHalfPlan)
    requires PlannedFrom(plan, SampleSegments(), SAMPLE_SOURCE) && M.AllOk(plan.mappings)
    ensures |Q.AllPages(plan.mappings)| == 4
  {
    hide M.AllOk, SegmentPolicy, Sort, Q.AllPages, L.PlanOk, EntryFor, EntryBytes, MappedBytes, M.FinalOk,
      SampleSegment;
    var es := EntriesFor(SampleSegments());
    PagesCounted(plan.mappings);
    SortMaps(es);
    ThreeMapped(es);
    SegmentBytes(0);
    SegmentBytes(1);
    SegmentBytes(2);
  }

  /** What its final plan needs: four tables and seven entries, so 8, 16 and 1 are room enough. */
  lemma SampleNeeds(plan: HigherHalfPlan)
    requires PlannedFrom(plan, SampleSegments(), SAMPLE_SOURCE)
    ensures M.PlanOk(plan.mappings) && P.Fits(Q.AllPages(plan.mappings), P.Capacity(8, 16, 1))
    ensures |P.Nodes(Q.AllPages(plan.mappings))| == 4 && |Q.AllPages(plan.mappings)| == 4
    ensures P.LowRoots(Q.AllPages(plan.mappings)) == {}
  {
    hide *;
    SampleGood();
    var s := SampleSegments();
    KernelNeeds(plan, s, SAMPLE_SOURCE, 0x3010);
    PlannedParts(plan, s, SAMPLE_SOURCE);
    M.EntriesAllOk(plan.mappings);
    var pages := Q.AllPages(plan.mappings);
    SamplePages(plan);
    forall k | 0 <= k < |pages| ensures FIRST_PAGE <= pages[k].vpn < FIRST_PAGE + 512 { SamplePageAt(plan, k); }
    OneBlock(pages);
    B.FitsMeans(pages, P.Capacity(8, 16, 1));
  }

  /** Whatever the builder makes of it has exactly those, and no removal. */
  lemma SampleTables(plan: HigherHalfPlan, built: B.ConstructionPlan)
    requires PlannedFrom(plan, SampleSegments(), SAMPLE_SOURCE) && BuiltFrom(built, plan)
    ensures |built.tables| == 4 && |built.entries| == 7 && built.removals == []
  {
    hide *;
    SampleNeeds(plan);
    BuiltMeans(built, plan);
    BuiltIs(built, plan);
  }

  lemma SampleGood()
    ensures SegmentsGood(SampleSegments(), 0x3010)
  {
    hide *;
    SampleAccepted();
    SampleParts();
    HigherHalfSegments(SampleImage());
  }

  lemma SamplePageAt(plan: HigherHalfPlan, k: nat)
    requires PlannedFrom(plan, SampleSegments(), SAMPLE_SOURCE) && SegmentsGood(SampleSegments(), 0x3010)
    requires M.AllOk(plan.mappings) && k < |Q.AllPages(plan.mappings)|
    ensures FIRST_PAGE <= Q.AllPages(plan.mappings)[k].vpn < FIRST_PAGE + 512
  {
    hide SegmentsGood, SegmentPolicy, Sort, Q.AllPages, M.EntryOk, EntryFor, Q.PageOf, Q.PageCount, L.PlanOk, M.FinalOk,
      SampleSegment;
    var i, j := B.PageOrigin(plan.mappings, k);
    var m := SortedMember(SampleSegments(), 0x3010, i);
    SamplePage(m, j);
  }
}
