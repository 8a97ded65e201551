/** What the processor sees of a loaded higher-half kernel: file validation, load planning, copying, mapping and
    paging put together. */
module KernelView {
  import opened Prelude
  import opened Sorting
  import opened Elf
  import opened ElfImage
  import opened HigherHalf
  import opened KernelTables
  import L = LoadPlan
  import M = MappingPlan
  import T = LoadTargets
  import P = PageTablePlan
  import Q = MappingPages
  import B = PageTableBuilder
  import E = PageTables
  import G = Paging
  import A = AddressTranslation
  import R = RangeOwner

  /** The segments of an accepted file that lies in memory, their plan, and memory after the targets have been
      prepared. */
  ghost predicate Loaded(file: File, s: seq<ProgramHeader>, source: L.SourceAllocation, plan: HigherHalfPlan,
                         start: T.Bytes, m: T.Bytes) {
    SegmentsGood(s, |file|) && PlannedFrom(plan, s, source) && T.Ready(plan.load, source, start) &&
    T.FileIn(start, source) == file &&
    T.Progress(start, m, plan.load.items, file, |plan.load.items|, |plan.load.items|)
  }

  /** The byte a segment defines at an address of its pages: from the file as far as that goes, then zero. */
  function SegmentByte(file: File, p: ProgramHeader, a: int): Byte
    requires p.fileOffset + p.fileSize <= |file| && p.virtualAddress <= a
  {
    if a < p.virtualAddress + p.fileSize then file[p.fileOffset + (a - p.virtualAddress)] else 0
  }

  // ---- memory

  lemma ImageByte(item: L.LoadItem, file: T.Bytes, k: nat)
    requires T.Fits(item, file) && k < item.pageLength
    ensures T.Image(item, file)[k] == if k < item.fileSize then file[item.sourceOffset + k] else 0
  {
  }

  lemma HeldByte(m: T.Bytes, item: L.LoadItem, content: T.Bytes, k: nat)
    requires T.Holds(m, item, content) && k < item.pageLength
    ensures item.pageStart + k < |m| && |content| == item.pageLength && m[item.pageStart + k] == content[k]
  {
    assert m[item.pageStart..L.ItemEnd(item)][k] == m[item.pageStart + k];
  }

  /** The item planned for a segment has the segment's place, size and file range. */
  lemma ItemOf(file: File, s: seq<ProgramHeader>, source: L.SourceAllocation, plan: HigherHalfPlan, start: T.Bytes,
               m: T.Bytes, i: nat)
    requires Loaded(file, s, source, plan, start, m) && i < |s|
    ensures |plan.load.items| == |s| && L.MakeItem(Spec(s[i]), source.fileLength) == Ok(plan.load.items[i])
    ensures T.Fits(plan.load.items[i], file) && T.Holds(m, plan.load.items[i], T.Image(plan.load.items[i], file))
  {
    hide SegmentsGood, SizedPolicy, EntriesFor, Sort, L.MakeItem, L.Packed, T.Holds, T.Image, T.Fits, T.SourceInMemory,
      M.FinalOk, Spec;
    assert L.MakeItem(Specs(s)[i], source.fileLength) == Ok(plan.load.items[i]);
  }

  lemma LoadedByte(file: File, s: seq<ProgramHeader>, source: L.SourceAllocation, plan: HigherHalfPlan,
                   start: T.Bytes, m: T.Bytes,
                   i: nat, a: int)
    requires Loaded(file, s, source, plan, start, m) && i < |s| && InMapping(s[i], a)
    ensures s[i].fileOffset + s[i].fileSize <= |file|
    ensures 0 <= a - OFFSET < |m| && m[a - OFFSET] == SegmentByte(file, s[i], a)
  {
    hide *;
    var p := s[i];
    LoadedSegment(file, s, source, plan, start, m, i);
    ItemOf(file, s, source, plan, start, m, i);
    var item, k := plan.load.items[i], a - p.virtualAddress;
    ItemShape(p, source, item);
    OffsetInto(p, a, item);
    HeldByte(m, item, T.Image(item, file), k);
    ImageByte(item, file, k);
    ByteMeans(file, p, a);
  }

  lemma LoadedSegment(file: File, s: seq<ProgramHeader>, source: L.SourceAllocation, plan: HigherHalfPlan,
                      start: T.Bytes, m: T.Bytes, i: nat)
    requires Loaded(file, s, source, plan, start, m) && i < |s|
    ensures SegmentsGood(s, |file|) && SizedPolicy(s) && SegmentPolicy(s[i]) &&
      s[i].fileOffset + s[i].fileSize <= |file|
    ensures plan.mappings == Sort(EntriesFor(s), M.VStart)
  {
    hide SegmentPolicy, T.Ready, T.Progress, T.FileIn, L.PlanOk;
  }

  /** Both ranges of a segment round up alike, so an address of its pages falls into the item. */
  lemma OffsetInto(p: ProgramHeader, a: int, item: L.LoadItem)
    requires SegmentPolicy(p) && InMapping(p, a)
    requires item.pageStart == p.physicalAddress && item.pageStart + item.pageLength == RoundedUp(PhysicalEnd(p))
    ensures a - OFFSET == item.pageStart + (a - p.virtualAddress) && 0 <= a - p.virtualAddress < item.pageLength
    ensures p.virtualAddress <= a
  {
  }

  lemma ByteMeans(file: File, p: ProgramHeader, a: int)
    requires p.fileOffset + p.fileSize <= |file| && p.virtualAddress <= a
    ensures SegmentByte(file, p, a) ==
            if a - p.virtualAddress < p.fileSize then file[p.fileOffset + (a - p.virtualAddress)] else 0
  {
  }

  // ---- translation

  /** The plan's answer for an address of a segment's pages: by the offset, with the segment's permissions. */
  lemma SegmentPlanned(s: seq<ProgramHeader>, fileLength: nat, i: nat, a: U64)
    requires SegmentsGood(s, fileLength) && SizedPolicy(s) && i < |s| && InMapping(s[i], a)
    ensures a - OFFSET >= 0
    ensures A.Planned(Sort(EntriesFor(s), M.VStart), a) ==
            Some(G.Translation(a - OFFSET, s[i].flags == 6, s[i].flags == 5, false, false, false, true))
  {
    hide SegmentsGood, SegmentPolicy, M.Translate, M.FindEntry, M.PlanOk, Sort, EntryFor, InMapping;
    var plan := Sort(EntriesFor(s), M.VStart);
    assert MappedBy(s, a);
    TranslatesByOffset(s, fileLength, a);
    var k := MemberSorted(s, fileLength, i);
    SegmentEntry(s, i, a);
    M.FindEntryAt(plan, k, a);
  }

  lemma SegmentEntry(s: seq<ProgramHeader>, i: nat, a: int)
    requires SizedPolicy(s) && i < |s| && InMapping(s[i], a)
    ensures var e := EntryFor(s[i]);
      M.Contains(e.virt, a) && M.Writable(e) == (s[i].flags == 6) && M.Executable(e) == (s[i].flags == 5) &&
      e.cache == Some(M.WriteBack) && a >= OFFSET && M.IsCanonical(a) && s[i].virtualAddress <= a
  {
  }

  /** Through the tables the address leads to the byte the segment defines there, with exactly its permissions. */
  ghost predicate Shows(words: G.Words, root: int, m: T.Bytes, file: File, p: ProgramHeader, a: U64)
    requires p.fileOffset + p.fileSize <= |file| && p.virtualAddress <= a
  {
    match G.HardwareWalk(words, root, a)
    case None => false
    case Some(tr) =>
      tr.physical == a - OFFSET && 0 <= tr.physical < |m| && m[tr.physical] == SegmentByte(file, p, a) &&
      tr.writable == (p.flags == 6) && tr.executable == (p.flags == 5) && !tr.user
  }

  /** End to end: at every address of a segment's pages the processor's walk reaches memory that holds the
      segment's file byte, or zero behind the file part, with exactly the segment's permissions. */
  lemma KernelBytes(image: ValidatedImage, s: seq<ProgramHeader>, source: L.SourceAllocation, plan: HigherHalfPlan,
                    start: T.Bytes, m: T.Bytes, t: P.Tree, ix: P.Index, frames: seq<int>, words: G.Words, i: nat,
                    a: U64)
    requires HigherHalfOk(image) && s == Segments(image.bytes, image.header) &&
      Loaded(image.bytes, s, source, plan, start, m)
    requires A.Compiled(plan.mappings, t, ix, frames, words) && i < |s| && InMapping(s[i], a)
    ensures |frames| > 0 && s[i].fileOffset + s[i].fileSize <= |image.bytes|
    ensures Shows(words, frames[0], m, image.bytes, s[i], a)
  {
    hide *;
    LoadedSegment(image.bytes, s, source, plan, start, m, i);
    LoadedByte(image.bytes, s, source, plan, start, m, i, a);
    SegmentPlanned(s, |image.bytes|, i, a);
    SegmentEntry(s, i, a);
    A.WalkIsTranslate(plan.mappings, t, ix, frames, words, a);
    ShowsBy(words, frames[0], m, image.bytes, s[i], a);
  }

  lemma ShowsBy(words: G.Words, root: int, m: T.Bytes, file: File, p: ProgramHeader, a: U64)
    requires p.fileOffset + p.fileSize <= |file| && p.virtualAddress <= a && 0 <= a - OFFSET < |m|
    requires m[a - OFFSET] == SegmentByte(file, p, a)
    requires G.HardwareWalk(words, root, a) ==
             Some(G.Translation(a - OFFSET, p.flags == 6, p.flags == 5, false, false, false, true))
    ensures Shows(words, root, m, file, p, a)
  {
    hide G.HardwareWalk, SegmentByte;
  }

  /** The same from a plan the builder made for the loaded kernel and materialised in any frames. */
  lemma BuiltKernelBytes(image: ValidatedImage, s: seq<ProgramHeader>, source: L.SourceAllocation,
                         plan: HigherHalfPlan, start: T.Bytes, m: T.Bytes, built: B.ConstructionPlan,
                         frames: seq<int>, words: G.Words, i: nat, a: U64)
    requires HigherHalfOk(image) && s == Segments(image.bytes, image.header) &&
      Loaded(image.bytes, s, source, plan, start, m)
    requires BuiltFrom(built, plan) && G.FramesOk(frames) && |frames| == |built.tables|
    requires G.Materialized(words, built.entries, frames) && i < |s| && InMapping(s[i], a)
    ensures |frames| > 0 && s[i].fileOffset + s[i].fileSize <= |image.bytes|
    ensures Shows(words, frames[0], m, image.bytes, s[i], a)
  {
    hide *;
    LoadedPlan(image.bytes, s, source, plan, start, m);
    KernelNeeds(plan, s, source, |image.bytes|);
    BuiltMeans(built, plan);
    E.InstalledCompiled(built, plan.mappings, frames, words);
    KernelBytes(image, s, source, plan, start, m, built.View(), built.index, frames, words, i, a);
  }

  lemma LoadedPlan(file: File, s: seq<ProgramHeader>, source: L.SourceAllocation, plan: HigherHalfPlan,
                   start: T.Bytes, m: T.Bytes)
    requires Loaded(file, s, source, plan, start, m)
    ensures SegmentsGood(s, |file|) && PlannedFrom(plan, s, source)
  {
  }

  lemma BuiltMeans(built: B.ConstructionPlan, plan: HigherHalfPlan)
    requires BuiltFrom(built, plan)
    ensures M.AllOk(plan.mappings) && built.Valid() && built.Minimal() && built.pages == Q.AllPages(plan.mappings)
  {
  }

  /** And nothing else is mapped: every other canonical address faults. */
  lemma NothingElseMapped(image: ValidatedImage, s: seq<ProgramHeader>, source: L.SourceAllocation,
                          plan: HigherHalfPlan,
                          t: P.Tree, ix: P.Index, frames: seq<int>, words: G.Words, a: U64)
    requires HigherHalfOk(image) && s == Segments(image.bytes, image.header) && PlannedFrom(plan, s, source)
    requires A.Compiled(plan.mappings, t, ix, frames, words) && M.IsCanonical(a)
    ensures |frames| > 0 && SizedPolicy(s) && (G.HardwareWalk(words, frames[0], a).Some? <==> MappedBy(s, a))
  {
    HigherHalfSegments(image);
    PlannedParts(plan, s, source);
    hide *;
    TranslatesByOffset(s, |image.bytes|, a);
    A.WalkIsTranslate(plan.mappings, t, ix, frames, words, a);
  }

  /** Every accepted image in memory whose source allocation fits has a plan and a loaded memory. */
  lemma LoadedExists(image: ValidatedImage, source: L.SourceAllocation, start: T.Bytes)
    returns (plan: HigherHalfPlan, m: T.Bytes)
    requires HigherHalfOk(image) && SourceFits(Segments(image.bytes, image.header), source)
    requires T.SourceInMemory(source, |start|) && T.FileIn(start, source) == image.bytes
    ensures Loaded(image.bytes, Segments(image.bytes, image.header), source, plan, start, m)
  {
    hide *;
    HigherHalfMeans(image);
    ImageMeans(image);
    var s := Segments(image.bytes, image.header);
    HigherHalfSegments(image);
    plan := PlanFor(s, source, |image.bytes|, image.virtualStart, image.virtualEnd);
    PlannedLoad(plan, s, source);
    T.PlannedIsReady(plan.load, Specs(s), source, start);
    m := T.PreparedExists(plan.load, source, start);
    LoadedMeans(image.bytes, s, source, plan, start, m);
  }

  lemma PlanFor(s: seq<ProgramHeader>, source: L.SourceAllocation, fileLength: nat, from: U64, to: U64)
    returns (plan: HigherHalfPlan)
    requires SegmentsGood(s, fileLength) && PolicyOk(s) && EntryHeld(s, LINK_ADDRESS) && SourceFits(s, source)
    ensures PlannedFrom(plan, s, source)
  {
    hide SegmentsGood, SegmentPolicy, PolicyOk, SourceFits, L.PlanOk, L.Buildable, Sort, M.FinalOk, M.Acceptable,
      EntryFor, EntryHeld;
    EntriesAcceptable(s, fileLength);
    MappingsFinal(s, fileLength);
    BuildableExact(s, source, fileLength);
    var load := L.PlanExists(PHYSICAL_LINK_ADDRESS, Specs(s), source);
    plan := HigherHalfPlan(load, Sort(EntriesFor(s), M.VStart), LINK_ADDRESS, PHYSICAL_LINK_ADDRESS, from, to);
    PlannedMeans(plan, s, source);
  }

  datatype LoadFailure = PlanningFailed(plan: HigherHalfPlanError) | TargetsFailed(work: T.WorkFailure)

  /** Plans and prepares an accepted image whose file lies in its source pages. It fails only for a fault of the
      source allocation or a failing page allocation, and otherwise leaves memory loaded. */
  method LoadKernel(image: ValidatedImage, source: L.SourceAllocation, memory: array<Byte>, backend: R.PageBackend)
    returns (r: Result<(HigherHalfPlan, R.RangeOwner), LoadFailure>)
    requires HigherHalfOk(image) && T.SourceInMemory(source, memory.Length) &&
      T.FileIn(memory[..], source) == image.bytes
    requires backend.live == multiset{}
    modifies memory, backend
    ensures r.Ok? ==> r.value.1.Valid() && r.value.1.backend == backend &&
                      Loaded(image.bytes, Segments(image.bytes, image.header), source, r.value.0, old(memory[..]),
                        memory[..])
    ensures r.Err? && r.error.PlanningFailed? ==> !SourceFits(Segments(image.bytes, image.header), source)
    ensures r.Err? && r.error.TargetsFailed? ==> r.error.work.kind == T.Allocate && r.error.work.owner.Valid()
    ensures r.Err? ==> memory[..] == old(memory[..])
  {
    HigherHalfSegments(image);
    ImageMeans(image);
    hide *;
    ghost var s := Segments(image.bytes, image.header);
    var planned := FromValidated(image, source);
    match planned
    case Err(e) => return Err(PlanningFailed(e));
    case Ok(plan) =>
      PlannedLoad(plan, s, source);
      ghost var start := memory[..];
      var prepared := T.PrepareTargets(plan.load, source, memory, backend, Specs(s));
      match prepared
      case Err(e) => return Err(TargetsFailed(e));
      case Ok(owner) =>
        LoadedMeans(image.bytes, s, source, plan, start, memory[..]);
        return Ok((plan, owner));
  }

  lemma PlannedLoad(plan: HigherHalfPlan, s: seq<ProgramHeader>, source: L.SourceAllocation)
    requires PlannedFrom(plan, s, source)
    ensures L.PlanOk(plan.load, Specs(s), source)
  {
  }

  lemma LoadedMeans(file: File, s: seq<ProgramHeader>, source: L.SourceAllocation, plan: HigherHalfPlan,
                    start: T.Bytes, m: T.Bytes)
    requires SegmentsGood(s, |file|) && PlannedFrom(plan, s, source) && T.Ready(plan.load, source, start)
    requires T.SourceInMemory(source, |start|) && T.FileIn(start, source) == file
    requires T.Progress(start, m, plan.load.items, file, |plan.load.items|, |plan.load.items|)
    ensures Loaded(file, s, source, plan, start, m)
  {
  }
}
