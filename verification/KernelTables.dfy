/** The page tables of a planned kernel: what the final mapping plan needs, and that nothing but room can be missing. */
module KernelTables {
  import opened Prelude
  import opened Counting
  import opened Sorting
  import opened Elf
  import opened ElfImage
  import opened HigherHalf
  import L = LoadPlan
  import M = MappingPlan
  import P = PageTablePlan
  import Q = MappingPages
  import B = PageTableBuilder

  /** The page numbers of the bootstrap window seen through the kernel image region. */
  const FIRST_PAGE: int := 0xf_fff8_0200
  const PAGE_LIMIT: int := 0xf_fff8_4200

  /** Root, one PDPT, one PD, and a PT for each of the 32 blocks of 2 MiB of the window. */
  const MOST_TABLES: nat := 35

  // ---- where the pages are

  /** Every page of a segment's mapping lies in the window, virtually and physically. */
  lemma SegmentPage(p: ProgramHeader, j: nat)
    requires SegmentPolicy(p) && p.memorySize > 0 && M.EntryOk(EntryFor(p)) && j < Q.PageCount(EntryFor(p))
    ensures FIRST_PAGE <= Q.PageOf(EntryFor(p), j).vpn < PAGE_LIMIT && Q.PageOf(EntryFor(p), j).frame != 0
  {
    hide P.Vpn, M.EntryOk, MappingPolicy, Q.LeafBits;
    var a := EntryFor(p).virt.start + j * 4096;
    Q.VpnHigh(a);
  }

  /** The upper paths of such a page. */
  lemma WindowPaths(vpn: nat)
    requires FIRST_PAGE <= vpn < PAGE_LIMIT
    ensures P.Prefix(4, vpn) == 511 && P.Prefix(3, vpn) == 0x3_fffe && 0x7ff_fc01 <= P.Prefix(2, vpn) < 0x7ff_fc21
  {
    P.PrefixSteps(vpn);
  }

  lemma PlannedPage(s: seq<ProgramHeader>, fileLength: nat, k: nat)
    requires SegmentsGood(s, fileLength) && SizedPolicy(s) && M.AllOk(Sort(EntriesFor(s), M.VStart))
    requires k < |Q.AllPages(Sort(EntriesFor(s), M.VStart))|
    ensures var page := Q.AllPages(Sort(EntriesFor(s), M.VStart))[k];
      FIRST_PAGE <= page.vpn < PAGE_LIMIT && page.frame != 0
  {
    hide SegmentsGood, SegmentPolicy, Sort, Q.AllPages, M.EntryOk, EntryFor, Q.PageOf, Q.PageCount;
    var plan := Sort(EntriesFor(s), M.VStart);
    var i, j := B.PageOrigin(plan, k);
    var m := SortedMember(s, fileLength, i);
    SegmentPage(s[m], j);
  }

  lemma WindowTables(pages: seq<P.Page>)
    requires forall k | 0 <= k < |pages| :: FIRST_PAGE <= pages[k].vpn < PAGE_LIMIT
    ensures |P.Nodes(pages)| <= MOST_TABLES
  {
    hide P.Prefix, P.Nodes, P.Paths;
    var blocks: set<nat> := Interval(0x7ff_fc01, 0x7ff_fc21);
    forall k | 0 <= k < |pages|
      ensures P.Prefix(4, pages[k].vpn) in {511} && P.Prefix(3, pages[k].vpn) in {0x3_fffe}
      ensures P.Prefix(2, pages[k].vpn) in blocks {
      WindowPaths(pages[k].vpn);
    }
    P.NodesCounted(pages);
    P.PathsWithin(pages, 4, {511});
    P.PathsWithin(pages, 3, {0x3_fffe});
    P.PathsWithin(pages, 2, blocks);
    SubsetSize(P.Paths(pages, 4), {511});
    SubsetSize(P.Paths(pages, 3), {0x3_fffe});
    SubsetSize(P.Paths(pages, 2), blocks);
  }

  // ---- how many there are

  function EntryBytes(e: M.PlanEntry): int { if e.backing.Mapped? then M.Length(e.virt) else 0 }

  function MappedBytes(s: seq<M.PlanEntry>): int {
    if s == [] then 0 else MappedBytes(s[..|s| - 1]) + EntryBytes(s[|s| - 1])
  }

  lemma MappedSnoc(s: seq<M.PlanEntry>, e: M.PlanEntry)
    ensures MappedBytes(s + [e]) == MappedBytes(s) + EntryBytes(e)
  {
    assert (s + [e])[..|s|] == s;
  }

  lemma {:induction false} InsertMaps(s: seq<M.PlanEntry>, e: M.PlanEntry)
    ensures MappedBytes(Insert(s, e, M.VStart)) == MappedBytes(s) + EntryBytes(e)
  {
    if s == [] || M.VStart(s[|s| - 1]) <= M.VStart(e) {
      MappedSnoc(s, e);
    } else {
      InsertMaps(s[..|s| - 1], e);
      MappedSnoc(Insert(s[..|s| - 1], e, M.VStart), s[|s| - 1]);
    }
  }

  lemma {:induction false} SortMaps(s: seq<M.PlanEntry>)
    ensures MappedBytes(Sort(s, M.VStart)) == MappedBytes(s)
  {
    if s != [] {
      SortMaps(s[..|s| - 1]);
      InsertMaps(Sort(s[..|s| - 1], M.VStart), s[|s| - 1]);
    }
  }

  lemma {:induction false} PagesCounted(s: seq<M.PlanEntry>)
    requires M.AllOk(s)
    ensures |Q.AllPages(s)| * 4096 == MappedBytes(s)
  {
    hide M.ValidateMappingPolicy;
    if s != [] {
      PagesCounted(s[..|s| - 1]);
      EntryPages(s[|s| - 1]);
    }
  }

  lemma EntryPages(e: M.PlanEntry)
    requires M.EntryOk(e)
    ensures Q.PageCount(e) * 4096 == EntryBytes(e)
  {
    hide M.ValidateMappingPolicy;
  }

  lemma ItemShape(p: ProgramHeader, source: L.SourceAllocation, item: L.LoadItem)
    requires L.MakeItem(Spec(p), source.fileLength) == Ok(item)
    ensures item.pageStart == p.physicalAddress && item.pageStart + item.pageLength == RoundedUp(PhysicalEnd(p))
    ensures item.sourceOffset == p.fileOffset && item.fileSize == p.fileSize
  {
    hide L.MakeItem, L.SegmentOk;
    L.MakeItemExact(Spec(p), source.fileLength);
    L.ItemEndIs(Spec(p), source.fileLength);
  }

  /** A segment's mapping is as long as its item. */
  lemma MappedLength(p: ProgramHeader, source: L.SourceAllocation, item: L.LoadItem)
    requires SegmentPolicy(p) && p.memorySize > 0 && L.MakeItem(Spec(p), source.fileLength) == Ok(item)
    ensures EntryBytes(EntryFor(p)) == item.pageLength
  {
    hide L.MakeItem, Spec, MappingPolicy;
    ItemShape(p, source, item);
  }

  lemma {:induction false} ItemsMapped(s: seq<ProgramHeader>, source: L.SourceAllocation, items: seq<L.LoadItem>,
                                       n: nat)
    requires SizedPolicy(s) && L.ItemsFor(items, Specs(s), source) && n <= |s|
    ensures MappedBytes(EntriesFor(s)[..n]) == L.TotalBytes(items[..n])
  {
    hide SegmentPolicy, L.MakeItem, EntryFor, Spec, EntryBytes;
    if n > 0 {
      ItemsMapped(s, source, items, n - 1);
      var es := EntriesFor(s);
      assert es[..n][..n - 1] == es[..n - 1] && items[..n][..n - 1] == items[..n - 1];
      assert L.MakeItem(Specs(s)[n - 1], source.fileLength) == Ok(items[n - 1]);
      MappedLength(s[n - 1], source, items[n - 1]);
    }
  }

  /** The final plan maps exactly as many pages as the load plan allocates. */
  lemma MappedIsLoaded(plan: HigherHalfPlan, s: seq<ProgramHeader>, source: L.SourceAllocation)
    requires PlannedFrom(plan, s, source) && M.AllOk(plan.mappings)
    ensures |Q.AllPages(plan.mappings)| * 4096 == plan.load.totalPageBytes <= L.WINDOW_BYTES
  {
    hide SegmentPolicy, Sort, Q.AllPages, M.EntryOk, L.Packed, L.ItemsFor;
    var es, items := EntriesFor(s), plan.load.items;
    PagesCounted(plan.mappings);
    SortMaps(es);
    ItemsSized(plan, s, source);
    ItemsMapped(s, source, items, |s|);
    assert es[..|s|] == es && items[..|s|] == items;
    L.PackedFits(items);
  }

  lemma ItemsSized(plan: HigherHalfPlan, s: seq<ProgramHeader>, source: L.SourceAllocation)
    requires PlannedFrom(plan, s, source)
    ensures |plan.load.items| == |s|
  {
  }

  // ---- building

  /** What the tables of a planned kernel need: they pass the final check, have no null frame, at most
      `MOST_TABLES` tables, and no removal. */
  lemma KernelNeeds(plan: HigherHalfPlan, s: seq<ProgramHeader>, source: L.SourceAllocation, fileLength: nat)
    requires SegmentsGood(s, fileLength) && PlannedFrom(plan, s, source)
    ensures M.PlanOk(plan.mappings) && B.ModeOk(plan.mappings, B.Final) && B.NoZeroFrame(Q.AllPages(plan.mappings))
    ensures |P.Nodes(Q.AllPages(plan.mappings))| <= MOST_TABLES && P.LowRoots(Q.AllPages(plan.mappings)) == {}
    ensures |Q.AllPages(plan.mappings)| * 4096 == plan.load.totalPageBytes <= L.WINDOW_BYTES
  {
    hide *;
    PlannedParts(plan, s, source);
    EntriesAcceptable(s, fileLength);
    SortedIsPlan(s);
    MappingsFinal(s, fileLength);
    M.EntriesAllOk(plan.mappings);
    var pages := Q.AllPages(plan.mappings);
    forall k | 0 <= k < |pages| ensures FIRST_PAGE <= pages[k].vpn < PAGE_LIMIT && pages[k].frame != 0 {
      PlannedPage(s, fileLength, k);
    }
    NoZeroIs(pages);
    ModeFinal(plan.mappings);
    WindowTables(pages);
    B.FinalLowRoots(plan.mappings);
    MappedIsLoaded(plan, s, source);
  }

  lemma PlannedParts(plan: HigherHalfPlan, s: seq<ProgramHeader>, source: L.SourceAllocation)
    requires PlannedFrom(plan, s, source)
    ensures SizedPolicy(s) && plan.mappings == Sort(EntriesFor(s), M.VStart)
  {
  }

  lemma SortedIsPlan(s: seq<ProgramHeader>)
    requires SizedPolicy(s) && M.Acceptable(EntriesFor(s), 128)
    ensures M.PlanOk(Sort(EntriesFor(s), M.VStart))
  {
    hide M.PlanOk, Sort, EntriesFor;
    M.AcceptableSortIsPlan(EntriesFor(s), 128);
  }

  lemma NoZeroIs(pages: seq<P.Page>)
    requires forall k | 0 <= k < |pages| :: pages[k].frame != 0
    ensures B.NoZeroFrame(pages)
  {
  }

  lemma ModeFinal(s: seq<M.PlanEntry>)
    requires M.FinalOk(s)
    ensures B.ModeOk(s, B.Final)
  {
  }

  lemma RoomMeans(pages: seq<P.Page>, cap: P.Capacity)
    requires |P.Nodes(pages)| <= MOST_TABLES && P.LowRoots(pages) == {}
    ensures MOST_TABLES <= cap.tables && MOST_TABLES - 1 + |pages| <= cap.entries ==> P.Fits(pages, cap)
    ensures !P.Exhausted(P.RemovalCapacityExhausted, pages, cap)
  {
    hide P.Nodes, P.LowRoots;
    B.FitsMeans(pages, cap);
  }

  /** The construction plan holds exactly the pages of the mapping plan. */
  ghost predicate BuiltFrom(built: B.ConstructionPlan, plan: HigherHalfPlan)
    reads built
  {
    M.AllOk(plan.mappings) && built.Valid() && built.Minimal() && built.pages == Q.AllPages(plan.mappings)
  }

  /** Compiles the mappings of a planned kernel. Layout and null-frame errors cannot occur: only tables or entries
      can run out, and never when there is room for `MOST_TABLES` tables and an entry for each loaded page. */
  method BuildTables(plan: HigherHalfPlan, capacity: P.Capacity, ghost image: ValidatedImage,
                     ghost source: L.SourceAllocation)
    returns (r: Result<B.ConstructionPlan, P.PlanError>)
    requires HigherHalfOk(image) && PlannedFrom(plan, Segments(image.bytes, image.header), source)
    ensures M.PlanOk(plan.mappings)
    ensures r.Err? ==> (r.error.TableCapacityExhausted? || r.error.EntryCapacityExhausted?) &&
                       P.Exhausted(r.error, Q.AllPages(plan.mappings), capacity)
    ensures MOST_TABLES <= capacity.tables && MOST_TABLES - 1 + plan.load.totalPageBytes / 4096 <= capacity.entries ==>
              r.Ok?
    ensures r.Ok? ==> fresh(r.value) && BuiltFrom(r.value, plan) && r.value.mode == B.Final &&
                      |r.value.tables| <= MOST_TABLES && r.value.removals == [] &&
                      |r.value.entries| == |r.value.tables| - 1 + plan.load.totalPageBytes / 4096
  {
    hide *;
    HigherHalfMeans(image);
    ImageMeans(image);
    ghost var s := Segments(image.bytes, image.header);
    HigherHalfSegments(image);
    KernelNeeds(plan, s, source, |image.bytes|);
    M.EntriesAllOk(plan.mappings);
    ghost var pages := Q.AllPages(plan.mappings);
    RoomMeans(pages, capacity);
    r := B.ConstructionPlan.Build(plan.mappings, B.Final, capacity);
    match r
    case Err(e) => OnlyRoom(e, pages, capacity);
    case Ok(built) => BuiltIs(built, plan);
  }

  lemma OnlyRoom(e: P.PlanError, pages: seq<P.Page>, cap: P.Capacity)
    requires P.Exhausted(e, pages, cap) && !P.Exhausted(P.RemovalCapacityExhausted, pages, cap)
    ensures e.TableCapacityExhausted? || e.EntryCapacityExhausted?
  {
    hide P.Nodes, P.LowRoots;
  }

  lemma BuiltIs(built: B.ConstructionPlan, plan: HigherHalfPlan)
    requires built.Valid() && built.Minimal() && M.AllOk(plan.mappings) && built.pages == Q.AllPages(plan.mappings)
    ensures BuiltFrom(built, plan)
    ensures |built.tables| == |P.Nodes(built.pages)| && |built.entries| == |built.tables| - 1 + |built.pages|
    ensures |built.removals| == |P.LowRoots(built.pages)|
  {
    hide P.Nodes, P.LowRoots, P.TreeOk, P.RemovalsOk, Q.AllPages;
    B.CountsWhenMinimal(built.View(), built.index, built.pages);
  }
}
