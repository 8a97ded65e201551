/** The higher-half policy on images, and the load and mapping plans made from an accepted one. */
module HigherHalf {
  import opened Prelude
  import opened Sorting
  import opened Elf
  import opened ElfImage
  import L = LoadPlan
  import M = MappingPlan

  const OFFSET: int := 0xffff_ffff_8000_0000
  const LINK_ADDRESS: int := 0xffff_ffff_8020_0000
  const PHYSICAL_LINK_ADDRESS: int := 0x0020_0000

  datatype HigherHalfError =
    | ElfError(error: ValidationError) | UnexpectedEntry | UnexpectedPhysicalStart | UnexpectedVirtualStart
    | MisalignedLoadSegment | PhysicalOutsideBootstrapWindow | VirtualOutsideKernelRegion
    | InconsistentTranslationOffset
    | InvalidSegmentPermissions | MissingExecuteSegment | MissingReadOnlySegment | MissingWritableSegment | MissingBss
    | EntryTranslationOverflow | EntryWithoutPhysicalBacking | SpanOverflow

  // ---- the policy

  /** What every segment of a higher-half image satisfies. */
  predicate SegmentPolicy(p: ProgramHeader) {
    p.alignment == 4096 && p.physicalAddress % 4096 == 0 && p.virtualAddress % 4096 == 0 && p.fileOffset % 4096 == 0 &&
    M.BOOTSTRAP_PHYSICAL_START <= p.physicalAddress && PhysicalEnd(p) <= M.BOOTSTRAP_PHYSICAL_END &&
    M.KERNEL_IMAGE_START <= p.virtualAddress && VirtualEnd(p) <= M.KERNEL_IMAGE_END &&
    p.virtualAddress - p.physicalAddress == OFFSET && (p.flags == 5 || p.flags == 4 || p.flags == 6)
  }

  predicate PolicyError(e: HigherHalfError) {
    !e.ElfError? && e != EntryWithoutPhysicalBacking && e != EntryTranslationOverflow
  }

  function CheckSegment(p: ProgramHeader): (r: Result<(), HigherHalfError>)
    ensures r.Ok? <==> SegmentPolicy(p)
    ensures r.Err? ==> PolicyError(r.error)
  {
    if p.alignment != 4096 || p.physicalAddress % 4096 != 0 || p.virtualAddress % 4096 != 0 || p.fileOffset % 4096 != 0
    then Err(MisalignedLoadSegment)
    else if PhysicalEnd(p) >= U64_LIMIT || VirtualEnd(p) >= U64_LIMIT then Err(SpanOverflow)
    else if p.physicalAddress < M.BOOTSTRAP_PHYSICAL_START || PhysicalEnd(p) > M.BOOTSTRAP_PHYSICAL_END
    then Err(PhysicalOutsideBootstrapWindow)
    else if p.virtualAddress < M.KERNEL_IMAGE_START || VirtualEnd(p) > M.KERNEL_IMAGE_END then
      Err(VirtualOutsideKernelRegion)
    else if p.virtualAddress < p.physicalAddress || p.virtualAddress - p.physicalAddress != OFFSET
    then Err(InconsistentTranslationOffset)
    else if p.flags == 5 || p.flags == 4 || p.flags == 6 then Ok(())
    else Err(InvalidSegmentPermissions)
  }

  ghost predicate Has(s: seq<ProgramHeader>, test: ProgramHeader -> bool) { exists i :: 0 <= i < |s| && test(s[i]) }

  predicate IsText(p: ProgramHeader) { p.flags == 5 }

  predicate IsRodata(p: ProgramHeader) { p.flags == 4 }

  predicate IsData(p: ProgramHeader) { p.flags == 6 }

  predicate HasBss(p: ProgramHeader) { p.memorySize > p.fileSize }

  ghost predicate PolicyOk(s: seq<ProgramHeader>) {
    (forall i | 0 <= i < |s| :: SegmentPolicy(s[i])) && Has(s, IsText) && Has(s, IsRodata) && Has(s, IsData) &&
    Has(s, HasBss)
  }

  ghost predicate HigherHalfOk(image: ValidatedImage) {
    ImageOk(image) && image.header.entry == LINK_ADDRESS && image.loadStart == PHYSICAL_LINK_ADDRESS &&
    image.virtualStart == LINK_ADDRESS && PolicyOk(Segments(image.bytes, image.header))
  }

  datatype Seen = Seen(text: bool, rodata: bool, data: bool, bss: bool)

  ghost predicate SeenIn(x: Seen, s: seq<ProgramHeader>) {
    x.text == Has(s, IsText) && x.rodata == Has(s, IsRodata) && x.data == Has(s, IsData) && x.bss == Has(s, HasBss)
  }

  lemma HasSnoc(s: seq<ProgramHeader>, p: ProgramHeader, test: ProgramHeader -> bool)
    ensures Has(s + [p], test) == (Has(s, test) || test(p))
  {
    var t := s + [p];
    assert t[|s|] == p;
    if Has(s, test) {
      var i :| 0 <= i < |s| && test(s[i]);
      assert test(t[i]);
    }
  }

  method CheckSegments(s: seq<ProgramHeader>) returns (r: Result<(), HigherHalfError>)
    ensures r.Ok? <==> PolicyOk(s)
    ensures r.Err? ==> PolicyError(r.error)
  {
    hide SegmentPolicy, Has;
    var x := Seen(false, false, false, false);
    NothingSeenYet(s);
    for k := 0 to |s|
      invariant SeenIn(x, s[..k]) && forall i | 0 <= i < k :: SegmentPolicy(s[i])
    {
      var p := s[k];
      match CheckSegment(p)
      case Err(e) => return Err(e);
      case Ok(_) =>
        assert s[..k + 1] == s[..k] + [p];
        HasSnoc(s[..k], p, IsText);
        HasSnoc(s[..k], p, IsRodata);
        HasSnoc(s[..k], p, IsData);
        HasSnoc(s[..k], p, HasBss);
        x := Seen(x.text || IsText(p), x.rodata || IsRodata(p), x.data || IsData(p), x.bss || HasBss(p));
    }
    assert s[..|s|] == s;
    if !x.text { return Err(MissingExecuteSegment); }
    if !x.rodata { return Err(MissingReadOnlySegment); }
    if !x.data { return Err(MissingWritableSegment); }
    if !x.bss { return Err(MissingBss); }
    return Ok(());
  }

  lemma NothingSeenYet(s: seq<ProgramHeader>)
    ensures SeenIn(Seen(false, false, false, false), s[..0])
  {
  }

  predicate BacksEntry(p: ProgramHeader, entry: int) {
    Executable(p) && p.physicalAddress <= entry < PhysicalEnd(p)
  }

  /** The virtual entry's segment backs its physical address: the offset is the same everywhere. */
  lemma EntryBacked(image: ValidatedImage)
    requires HigherHalfOk(image)
    ensures exists i :: 0 <= i < |Segments(image.bytes, image.header)| &&
                        BacksEntry(Segments(image.bytes, image.header)[i], PHYSICAL_LINK_ADDRESS)
  {
    var s := Segments(image.bytes, image.header);
    HigherHalfMeans(image);
    hide *;
    BackedBy(s);
  }

  lemma HigherHalfMeans(image: ValidatedImage)
    requires HigherHalfOk(image)
    ensures ImageOk(image)
    ensures var s := Segments(image.bytes, image.header); PolicyOk(s) && EntryHeld(s, LINK_ADDRESS)
  {
    hide PolicyOk;
    ImageMeans(image);
  }

  lemma BackedBy(s: seq<ProgramHeader>)
    requires PolicyOk(s) && EntryHeld(s, LINK_ADDRESS)
    ensures exists i :: 0 <= i < |s| && BacksEntry(s[i], PHYSICAL_LINK_ADDRESS)
  {
    hide Has;
    var i :| 0 <= i < |s| && HoldsEntry(s[i], LINK_ADDRESS);
    assert SegmentPolicy(s[i]);
    assert BacksEntry(s[i], PHYSICAL_LINK_ADDRESS);
  }

  method FindBacking(s: seq<ProgramHeader>, entry: int) returns (found: bool)
    ensures found <==> exists i :: 0 <= i < |s| && BacksEntry(s[i], entry)
  {
    for k := 0 to |s|
      invariant forall i | 0 <= i < k :: !BacksEntry(s[i], entry)
    {
      if BacksEntry(s[k], entry) { return true; }
    }
    return false;
  }

  /** Accepts exactly the images that satisfy the policy; the entry is then always backed. */
  method ValidateHigherHalfImage(b: File) returns (r: Result<ValidatedImage, HigherHalfError>)
    ensures r.Ok? ==> HigherHalfOk(r.value) && r.value.bytes == b
    ensures r.Err? ==> forall image | HigherHalfOk(image) :: image.bytes != b
    ensures r.Err? ==> r.error != EntryWithoutPhysicalBacking && r.error != EntryTranslationOverflow
  {
    hide ImageOk, Acceptable, PolicyOk;
    var parsed := Parse(b);
    match parsed
    case Err(e) =>
      forall image | HigherHalfOk(image) ensures Acceptable(image.bytes, image.header) { AcceptableImage(image); }
      return Err(ElfError(e));
    case Ok(image) =>
      forall other | ImageOk(other) && other.bytes == b ensures other == image { ImageUnique(image, other); }
      if image.header.entry != LINK_ADDRESS { return Err(UnexpectedEntry); }
      if image.loadStart != PHYSICAL_LINK_ADDRESS { return Err(UnexpectedPhysicalStart); }
      if image.virtualStart != LINK_ADDRESS { return Err(UnexpectedVirtualStart); }
      var s := Collect(image);
      var check := CheckSegments(s);
      if check.Err? { return Err(check.error); }
      assert HigherHalfOk(image);
      EntryBacked(image);
      if image.header.entry < OFFSET { return Err(EntryTranslationOverflow); }
      var backed := FindBacking(s, image.header.entry - OFFSET);
      if !backed { return Err(EntryWithoutPhysicalBacking); }
      return Ok(image);
  }

  lemma AcceptableImage(image: ValidatedImage)
    requires HigherHalfOk(image)
    ensures Acceptable(image.bytes, image.header)
  {
  }

  // ---- the plans made from an accepted image

  datatype HigherHalfPlanError =
    | Load(error: L.PlanError) | Layout(layout: M.LayoutError) | InvalidPermissions | TranslationOverflow
    | EntryTranslationMismatch | EntryWithoutExecutableMapping

  datatype HigherHalfPlan = HigherHalfPlan(
    load: L.LoadPlan, mappings: seq<M.PlanEntry>, virtualEntry: U64, physicalEntry: U64, virtualStart: U64,
    virtualEnd: U64)

  /** The segments of a higher-half image, each by itself and against the others. */
  ghost predicate SegmentsGood(s: seq<ProgramHeader>, fileLength: nat) {
    |s| <= 128 && (forall i | 0 <= i < |s| :: SegmentPolicy(s[i]) && SizesOk(s[i], fileLength)) && AllApart(s)
  }

  predicate SizesOk(p: ProgramHeader, fileLength: nat) {
    0 < p.memorySize && p.fileSize <= p.memorySize && p.fileOffset + p.fileSize <= fileLength
  }

  lemma HigherHalfSegments(image: ValidatedImage)
    requires HigherHalfOk(image)
    ensures SegmentsGood(Segments(image.bytes, image.header), |image.bytes|)
    ensures EntryHeld(Segments(image.bytes, image.header), LINK_ADDRESS)
  {
    hide *;
    HigherHalfMeans(image);
    ImageMeans(image);
    AcceptedSegments(image);
    LoadsAreGood(image.bytes, Segments(image.bytes, image.header));
  }

  lemma LoadsAreGood(file: File, s: seq<ProgramHeader>)
    requires AllLoadOk(file, s) && AllApart(s) && |s| <= 128 && PolicyOk(s)
    ensures SegmentsGood(s, |file|)
  {
    hide AllApart, SegmentPolicy, Has;
    forall i | 0 <= i < |s| ensures SizesOk(s[i], |file|) { LoadSized(file, s[i]); }
  }

  lemma LoadSized(file: File, p: ProgramHeader)
    requires LoadOk(file, p)
    ensures SizesOk(p, |file|)
  {
  }

  function Spec(p: ProgramHeader): L.SegmentSpec {
    L.SegmentSpec(p.fileOffset, p.fileSize, p.memorySize, p.physicalAddress, p.flags)
  }

  function Specs(s: seq<ProgramHeader>): (t: seq<L.SegmentSpec>)
    ensures |t| == |s| && forall i | 0 <= i < |s| :: t[i] == Spec(s[i])
  {
    seq(|s|, i requires 0 <= i < |s| => Spec(s[i]))
  }

  /** The only demands on the source allocation: it ends inside the address space, the file bytes of every
      segment lie in it, and no target page meets it. */
  ghost predicate SourceFits(s: seq<ProgramHeader>, source: L.SourceAllocation) {
    L.PageEnd(source).Ok? &&
    forall i | 0 <= i < |s| :: s[i].fileOffset + s[i].fileSize <= source.fileLength &&
      L.SegmentOffSource(Spec(s[i]), source)
  }

  /** Rounding to pages cannot make disjoint, page-aligned segments meet. */
  lemma RoundingKeepsApart(p: ProgramHeader, q: ProgramHeader)
    requires SegmentPolicy(p) && SegmentPolicy(q) && p.memorySize > 0 && q.memorySize > 0 && PhysicallyApart(p, q)
    ensures L.SegmentsApart(Spec(p), Spec(q))
  {
  }

  lemma SegmentPlaceable(s: seq<ProgramHeader>, source: L.SourceAllocation, fileLength: nat, i: nat)
    requires SegmentsGood(s, fileLength) && i < |s|
    ensures L.Placeable(Specs(s), source, i) <==>
            s[i].fileOffset + s[i].fileSize <= source.fileLength && L.SegmentOffSource(Spec(s[i]), source)
  {
    hide PhysicallyApart, VirtuallyApart, L.SegmentsApart, L.SegmentOffSource;
    forall j | 0 <= j < i ensures L.SegmentsApart(Spec(s[j]), Spec(s[i])) { RoundingKeepsApart(s[j], s[i]); }
    WindowHolds(s[i]);
  }

  lemma WindowHolds(p: ProgramHeader)
    requires SegmentPolicy(p) && p.memorySize > 0
    ensures L.SegmentEnd(Spec(p)) <= L.WINDOW_END && L.WINDOW_START <= Spec(p).target
    ensures Spec(p).target + Spec(p).memorySize + 4095 < U64_LIMIT
  {
  }

  /** Planning the load can fail only because of the source allocation. */
  lemma BuildableExact(s: seq<ProgramHeader>, source: L.SourceAllocation, fileLength: nat)
    requires SegmentsGood(s, fileLength) && PolicyOk(s) && EntryHeld(s, LINK_ADDRESS)
    ensures L.Buildable(PHYSICAL_LINK_ADDRESS, Specs(s), source) <==> SourceFits(s, source)
  {
    hide L.Placeable, L.SegmentOffSource, L.PageEnd, SegmentPolicy, SizesOk, Has, AllApart, BacksEntry,
      L.SegmentHasEntry, EntryHeld;
    BackedBy(s);
    var k :| 0 <= k < |s| && BacksEntry(s[k], PHYSICAL_LINK_ADDRESS);
    SpecHasEntry(s[k]);
    assert L.SegmentHasEntry(Specs(s)[k], PHYSICAL_LINK_ADDRESS);
    forall i | 0 <= i < |s|
      ensures L.Placeable(Specs(s), source, i) <==>
              s[i].fileOffset + s[i].fileSize <= source.fileLength && L.SegmentOffSource(Spec(s[i]), source) {
      SegmentPlaceable(s, source, fileLength, i);
    }
  }

  lemma SpecHasEntry(p: ProgramHeader)
    requires BacksEntry(p, PHYSICAL_LINK_ADDRESS)
    ensures L.SegmentHasEntry(Spec(p), PHYSICAL_LINK_ADDRESS)
  {
  }

  function MappingPolicy(flags: U32): Result<(M.Permissions, M.MappingKind), HigherHalfPlanError> {
    if flags == 5 then Ok((M.KERNEL_RX, M.KernelText))
    else if flags == 4 then Ok((M.KERNEL_R, M.KernelRodata))
    else if flags == 6 then Ok((M.KERNEL_RW, M.KernelData))
    else Err(InvalidPermissions)
  }

  /** The mapping entry made from a segment. */
  function EntryFor(p: ProgramHeader): M.PlanEntry
    requires SegmentPolicy(p) && p.memorySize > 0
  {
    var policy := MappingPolicy(p.flags).value;
    M.PlanEntry(M.Range(p.virtualAddress, RoundedUp(VirtualEnd(p))),
      M.Mapped(M.Range(p.physicalAddress, RoundedUp(PhysicalEnd(p)))),
                Some(policy.0), Some(M.WriteBack), policy.1)
  }

  function EntriesFor(s: seq<ProgramHeader>): (t: seq<M.PlanEntry>)
    requires forall i | 0 <= i < |s| :: SegmentPolicy(s[i]) && s[i].memorySize > 0
    ensures |t| == |s| && forall i | 0 <= i < |s| :: t[i] == EntryFor(s[i])
  {
    seq(|s|, i requires 0 <= i < |s| => EntryFor(s[i]))
  }

  /** Layout policy never rejects a segment of an accepted image. */
  lemma EntryForOk(p: ProgramHeader)
    requires SegmentPolicy(p) && p.memorySize > 0
    ensures M.EntryOk(EntryFor(p)) && EntryFor(p).kind != M.BootstrapStack && EntryFor(p).kind != M.TransitionIdentity
    ensures !M.IsLow(EntryFor(p)) && EntryFor(p).virt.start - EntryFor(p).backing.physical.start == OFFSET
    ensures M.Executable(EntryFor(p)) == Executable(p)
  {
  }

  lemma EntriesCompatible(p: ProgramHeader, q: ProgramHeader)
    requires SegmentPolicy(p) && SegmentPolicy(q) && p.memorySize > 0 && q.memorySize > 0
    requires PhysicallyApart(p, q) && VirtuallyApart(p, q)
    ensures M.Compatible(EntryFor(p), EntryFor(q))
  {
    RoundedApart(p.virtualAddress, VirtualEnd(p), q.virtualAddress, VirtualEnd(q));
    RoundedApart(p.physicalAddress, PhysicalEnd(p), q.physicalAddress, PhysicalEnd(q));
    hide MappingPolicy, RoundedUp;
  }

  lemma RoundedApart(a: int, aEnd: int, b: int, bEnd: int)
    requires a % 4096 == b % 4096 == 0 && a < aEnd && b < bEnd && !RangesOverlap(a, aEnd, b, bEnd)
    ensures !RangesOverlap(a, RoundedUp(aEnd), b, RoundedUp(bEnd))
  {
  }

  lemma EntriesAcceptable(s: seq<ProgramHeader>, fileLength: nat)
    requires SegmentsGood(s, fileLength)
    ensures SizedPolicy(s) && M.Acceptable(EntriesFor(s), 128)
  {
    hide M.EntryOk, M.Compatible, EntryFor, PhysicallyApart, VirtuallyApart, SegmentPolicy;
    SizedSegments(s, fileLength);
    var es := EntriesFor(s);
    forall i | 0 <= i < |es| ensures M.EntryOk(es[i]) { EntryForOk(s[i]); }
    forall i, j | 0 <= i < j < |es| ensures M.Compatible(es[i], es[j]) { EntriesCompatible(s[i], s[j]); }
  }

  ghost predicate SizedPolicy(s: seq<ProgramHeader>) {
    forall i | 0 <= i < |s| :: SegmentPolicy(s[i]) && s[i].memorySize > 0
  }

  lemma SizedSegments(s: seq<ProgramHeader>, fileLength: nat)
    requires SegmentsGood(s, fileLength)
    ensures SizedPolicy(s)
  {
    hide SegmentPolicy;
  }

  datatype Mapping = Mapping(virt: M.Range, physical: M.Range, permissions: M.Permissions, kind: M.MappingKind)

  /** The ranges and the policy of one segment, with every check on the way. */
  function SegmentMapping(p: ProgramHeader): Result<Mapping, HigherHalfPlanError> {
    if PhysicalEnd(p) >= U64_LIMIT then Err(TranslationOverflow)
    else match L.RoundUp(PhysicalEnd(p))
      case Err(e) => Err(Load(e))
      case Ok(physicalEnd) =>
        if VirtualEnd(p) >= U64_LIMIT then Err(TranslationOverflow)
        else match L.RoundUp(VirtualEnd(p))
          case Err(e) => Err(Load(e))
          case Ok(virtualEnd) =>
            match M.NewPhysicalRange(p.physicalAddress, physicalEnd)
            case Err(e) => Err(Layout(e))
            case Ok(physical) =>
              match M.NewVirtualRange(p.virtualAddress, virtualEnd)
              case Err(e) => Err(Layout(e))
              case Ok(virt) =>
                match MappingPolicy(p.flags)
                case Err(e) => Err(e)
                case Ok((permissions, kind)) => Ok(Mapping(virt, physical, permissions, kind))
  }

  lemma SegmentMappingOk(p: ProgramHeader)
    requires SegmentPolicy(p) && p.memorySize > 0
    ensures SegmentMapping(p).Ok?
    ensures var m := SegmentMapping(p).value;
      M.ValidVirtual(m.virt) && M.ValidPhysical(m.physical) &&
      EntryFor(p) == M.PlanEntry(m.virt, M.Mapped(m.physical), Some(m.permissions), Some(M.WriteBack), m.kind)
  {
    RoundedIs(PhysicalEnd(p));
    RoundedIs(VirtualEnd(p));
    hide RoundedUp, L.RoundUp;
    RangesValid(p);
  }

  lemma RoundedIs(a: U64)
    ensures a + 4095 < U64_LIMIT ==> L.RoundUp(a) == Ok(RoundedUp(a))
  {
  }

  lemma RangesValid(p: ProgramHeader)
    requires SegmentPolicy(p) && p.memorySize > 0
    ensures M.ValidVirtual(M.Range(p.virtualAddress, RoundedUp(VirtualEnd(p))))
    ensures M.ValidPhysical(M.Range(p.physicalAddress, RoundedUp(PhysicalEnd(p))))
  {
  }

  /** Maps one segment. */
  method InsertSegment(plan: M.Plan, p: ProgramHeader) returns (r: Result<(), HigherHalfPlanError>)
    requires plan.Valid() && SegmentPolicy(p) && p.memorySize > 0 && M.FitsWith(plan.Entries(), EntryFor(p)) &&
      plan.len < plan.entries.Length
    modifies plan, plan.entries
    ensures plan.Valid() && plan.entries == old(plan.entries)
    ensures r.Ok? && plan.Entries() == Insert(old(plan.Entries()), EntryFor(p), M.VStart)
  {
    EntryForOk(p);
    SegmentMappingOk(p);
    hide M.PlanOk, M.FitsWith, Insert, M.EntryOk, SegmentPolicy, EntryFor, SegmentMapping, M.ValidVirtual,
      M.ValidPhysical;
    match SegmentMapping(p)
    case Err(e) => return Err(e);
    case Ok(m) =>
      var insert := plan.InsertMapping(m.virt, m.physical, m.permissions, M.WriteBack, m.kind);
      match insert
      case Err(e) => return Err(Layout(e));
      case Ok(_) => return Ok(());
  }

  /** Inserts every segment; none can be refused. */
  method InsertSegments(plan: M.Plan, s: seq<ProgramHeader>, ghost fileLength: nat)
    returns (r: Result<(), HigherHalfPlanError>)
    requires plan.Valid() && plan.Entries() == [] && plan.entries.Length == 128 && SegmentsGood(s, fileLength) &&
      SizedPolicy(s)
    modifies plan, plan.entries
    ensures plan.Valid() && r.Ok? && plan.Entries() == Sort(EntriesFor(s), M.VStart)
  {
    hide SegmentsGood, SegmentPolicy, EntryFor, M.FitsWith, Insert, M.PlanOk, M.Acceptable;
    ghost var es := EntriesFor(s);
    SortNone(es);
    for k := 0 to |s|
      invariant plan.Valid() && plan.entries == old(plan.entries) && plan.Entries() == Sort(es[..k], M.VStart) &&
        plan.len == k
    {
      NextFits(s, fileLength, k);
      r := InsertSegment(plan, s[k]);
      if r.Err? { return; }
    }
    assert es[..|s|] == es;
    return Ok(());
  }

  lemma SortNone(es: seq<M.PlanEntry>)
    ensures Sort(es[..0], M.VStart) == []
  {
  }

  /** The next entry fits the plan so far, which then is the sorted list one entry longer. */
  lemma NextFits(s: seq<ProgramHeader>, fileLength: nat, k: nat)
    requires SegmentsGood(s, fileLength) && SizedPolicy(s) && k < |s|
    ensures var es := EntriesFor(s);
      M.FitsWith(Sort(es[..k], M.VStart), EntryFor(s[k])) && k < 128 &&
      Sort(es[..k + 1], M.VStart) == Insert(Sort(es[..k], M.VStart), EntryFor(s[k]), M.VStart) &&
      |Sort(es[..k + 1], M.VStart)| == k + 1
  {
    hide SegmentPolicy, EntryFor, Insert, M.EntryOk, M.Compatible;
    EntriesAcceptable(s, fileLength);
    var es := EntriesFor(s);
    var front := es[..k];
    forall i | 0 <= i < k ensures M.Compatible(front[i], es[k]) { assert M.Compatible(es[i], es[k]); }
    M.FitsWithSorted(front, es[k]);
    assert es[..k + 1][..k] == front && es[..k + 1][k] == es[k];
    SortPermutes(es[..k + 1], M.VStart);
    SameLength(es[..k + 1], Sort(es[..k + 1], M.VStart));
  }

  ghost predicate MappedBy(s: seq<ProgramHeader>, a: int)
    requires SizedPolicy(s)
  {
    exists i :: 0 <= i < |s| && InMapping(s[i], a)
  }

  predicate InMapping(p: ProgramHeader, a: int) { p.virtualAddress <= a < RoundedUp(VirtualEnd(p)) }

  lemma SortedMember(s: seq<ProgramHeader>, fileLength: nat, k: nat) returns (i: nat)
    requires SegmentsGood(s, fileLength) && SizedPolicy(s) && k < |Sort(EntriesFor(s), M.VStart)|
    ensures i < |s| && Sort(EntriesFor(s), M.VStart)[k] == EntryFor(s[i])
  {
    var es := EntriesFor(s);
    SortPermutes(es, M.VStart);
    SameMembers(es, Sort(es, M.VStart), Sort(es, M.VStart)[k]);
    i :| 0 <= i < |es| && es[i] == Sort(es, M.VStart)[k];
  }

  lemma MemberSorted(s: seq<ProgramHeader>, fileLength: nat, i: nat) returns (k: nat)
    requires SegmentsGood(s, fileLength) && SizedPolicy(s) && i < |s|
    ensures k < |Sort(EntriesFor(s), M.VStart)| && Sort(EntriesFor(s), M.VStart)[k] == EntryFor(s[i])
  {
    var es, sorted := EntriesFor(s), Sort(EntriesFor(s), M.VStart);
    SortPermutes(es, M.VStart);
    SameMembers(es, sorted, es[i]);
    k :| 0 <= k < |sorted| && sorted[k] == es[i];
  }

  /** Every address of a mapped page translates to itself minus the offset, and nothing else is mapped. */
  lemma TranslatesByOffset(s: seq<ProgramHeader>, fileLength: nat, a: U64)
    requires SegmentsGood(s, fileLength) && SizedPolicy(s)
    ensures var plan := Sort(EntriesFor(s), M.VStart);
      M.PlanOk(plan) && (M.Translate(plan, a).Ok? <==> MappedBy(s, a)) &&
      (M.Translate(plan, a).Ok? ==> M.Translate(plan, a) == Ok(a - OFFSET))
  {
    hide SegmentsGood, SegmentPolicy, M.PlanOk, M.Acceptable, M.EntryOk, M.Translate, M.FindEntry, Sort, RoundedUp,
      MappingPolicy;
    EntriesAcceptable(s, fileLength);
    M.AcceptableSortIsPlan(EntriesFor(s), 128);
    var plan := Sort(EntriesFor(s), M.VStart);
    if MappedBy(s, a) {
      var i :| 0 <= i < |s| && InMapping(s[i], a);
      var k := MemberSorted(s, fileLength, i);
      M.TranslateInside(plan, k, a);
      EntryForOk(s[i]);
    }
    if M.Translate(plan, a).Ok? {
      TranslatedFound(plan, a);
      var k := M.FindEntryIndex(plan, a);
      var i := SortedMember(s, fileLength, k);
      M.TranslateInside(plan, k, a);
      EntryForOk(s[i]);
      assert InMapping(s[i], a);
    }
  }

  lemma TranslatedFound(plan: seq<M.PlanEntry>, a: U64)
    requires M.Translate(plan, a).Ok?
    ensures M.FindEntry(plan, a).Some?
  {
  }

  lemma MappingsFinal(s: seq<ProgramHeader>, fileLength: nat)
    requires SegmentsGood(s, fileLength) && SizedPolicy(s)
    ensures M.FinalOk(Sort(EntriesFor(s), M.VStart))
  {
    hide SegmentsGood, SegmentPolicy, EntryFor, Sort, M.IsLow;
    var plan := Sort(EntriesFor(s), M.VStart);
    forall k | 0 <= k < |plan|
      ensures plan[k].kind != M.TransitionIdentity && !M.IsLow(plan[k]) && plan[k].kind != M.BootstrapStack {
      var i := SortedMember(s, fileLength, k);
      EntryForOk(s[i]);
    }
  }

  predicate RunsAt(e: M.PlanEntry, a: int) { M.Contains(e.virt, a) && M.Executable(e) }

  method FindExecutable(plan: seq<M.PlanEntry>, a: int) returns (found: bool)
    ensures found <==> exists k :: 0 <= k < |plan| && RunsAt(plan[k], a)
  {
    for k := 0 to |plan|
      invariant forall j | 0 <= j < k :: !RunsAt(plan[j], a)
    {
      if RunsAt(plan[k], a) { return true; }
    }
    return false;
  }

  /** The entry's page is mapped, executable, and translates to the physical entry. */
  lemma EntryMapped(s: seq<ProgramHeader>, fileLength: nat)
    requires SegmentsGood(s, fileLength) && SizedPolicy(s) && EntryHeld(s, LINK_ADDRESS)
    ensures var plan := Sort(EntriesFor(s), M.VStart);
      M.Translate(plan, LINK_ADDRESS) == Ok(PHYSICAL_LINK_ADDRESS) && exists k ::
        0 <= k < |plan| && RunsAt(plan[k], LINK_ADDRESS)
  {
    hide SegmentsGood, M.Translate, Sort, MappingPolicy;
    var i :| 0 <= i < |s| && HoldsEntry(s[i], LINK_ADDRESS);
    assert InMapping(s[i], LINK_ADDRESS);
    TranslatesByOffset(s, fileLength, LINK_ADDRESS);
    var k := MemberSorted(s, fileLength, i);
    EntryForOk(s[i]);
    var plan := Sort(EntriesFor(s), M.VStart);
    assert RunsAt(plan[k], LINK_ADDRESS);
  }

  ghost predicate PlannedFrom(plan: HigherHalfPlan, s: seq<ProgramHeader>, source: L.SourceAllocation) {
    SizedPolicy(s) && plan.mappings == Sort(EntriesFor(s), M.VStart) && L.PlanOk(plan.load, Specs(s), source) &&
    M.FinalOk(plan.mappings) && plan.load.entry == plan.physicalEntry == PHYSICAL_LINK_ADDRESS &&
    plan.virtualEntry == LINK_ADDRESS
  }

  /** For an accepted image, planning fails only because of the source allocation; rounding, layout policy
      and the entry checks never stop it. */
  method FromValidated(image: ValidatedImage, source: L.SourceAllocation)
    returns (r: Result<HigherHalfPlan, HigherHalfPlanError>)
    requires HigherHalfOk(image)
    ensures r.Ok? <==> SourceFits(Segments(image.bytes, image.header), source)
    ensures r.Err? ==> r.error.Load? && SourceFault(r.error.error, Segments(image.bytes, image.header), source)
    ensures r.Ok? ==> PlannedFrom(r.value, Segments(image.bytes, image.header), source)
    ensures r.Ok? ==> r.value.virtualStart == image.virtualStart && r.value.virtualEnd == image.virtualEnd
  {
    HigherHalfSegments(image);
    HigherHalfMeans(image);
    ImageFields(image);
    var s := Collect(image);
    hide *;
    ghost var n := |image.bytes|;
    SizedSegments(s, n);
    BuildableExact(s, source, n);
    EntryMapped(s, n);
    MappingsFinal(s, n);
    OffsetDifference();
    var built := L.Build(image.header.entry - OFFSET, Specs(s), source);
    match built
    case Err(e) =>
      OnlySourceFaults(e, s, source, n);
      return Err(Load(e));
    case Ok(load) =>
      var plan := new M.Plan(128);
      var inserted := InsertSegments(plan, s, n);
      match inserted
      case Err(e) => return Err(e);
      case Ok(_) =>
        var mappings := plan.entries[..plan.len];
        EntriesAre(plan);
        match M.Translate(mappings, image.header.entry)
        case Err(e) => return Err(Layout(e));
        case Ok(translated) =>
          if translated != image.header.entry - OFFSET { return Err(EntryTranslationMismatch); }
          var executable := FindExecutable(mappings, image.header.entry);
          if !executable { return Err(EntryWithoutExecutableMapping); }
          r := Ok(HigherHalfPlan(load, mappings, image.header.entry, image.header.entry - OFFSET, image.virtualStart,
            image.virtualEnd));
          PlannedMeans(r.value, s, source);
  }

  /** The three faults of a source allocation, each with its condition. */
  ghost predicate SourceFault(e: L.PlanError, s: seq<ProgramHeader>, source: L.SourceAllocation) {
    match e
    case RangeOverflow => L.PageEnd(source).Err?
    case SourceOutsideFile => exists i :: 0 <= i < |s| && s[i].fileOffset + s[i].fileSize > source.fileLength
    case SourceOverlap => exists i :: 0 <= i < |s| && !L.SegmentOffSource(Spec(s[i]), source)
    case _ => false
  }

  /** Whatever stops load planning of a higher-half image is a fault of the source allocation: rounding overlap,
      window, size and entry errors are all impossible. */
  lemma OnlySourceFaults(e: L.PlanError, s: seq<ProgramHeader>, source: L.SourceAllocation, fileLength: nat)
    requires SegmentsGood(s, fileLength) && PolicyOk(s) && EntryHeld(s, LINK_ADDRESS) && fileLength < U64_LIMIT
    requires L.PlanFault(e, PHYSICAL_LINK_ADDRESS, Specs(s), source)
    ensures SourceFault(e, s, source)
  {
    hide PolicyOk, EntryHeld, L.Explains, L.SegmentHasEntry, L.PageEnd, SegmentsGood, BacksEntry;
    BackedBy(s);
    var b :| 0 <= b < |s| && BacksEntry(s[b], PHYSICAL_LINK_ADDRESS);
    SpecHasEntry(s[b]);
    assert L.SegmentHasEntry(Specs(s)[b], PHYSICAL_LINK_ADDRESS);
    if k :| 0 <= k < |s| && L.Explains(e, Specs(s), source, k) { SegmentFaultIsSource(e, s, source, fileLength, k); }
  }

  lemma SegmentFaultIsSource(e: L.PlanError, s: seq<ProgramHeader>, source: L.SourceAllocation, fileLength: nat, k: nat)
    requires SegmentsGood(s, fileLength) && fileLength < U64_LIMIT && k < |s| && L.Explains(e, Specs(s), source, k)
    ensures SourceFault(e, s, source)
  {
    hide PhysicallyApart, VirtuallyApart, L.SegmentsApart, L.SegmentOffSource, L.PageEnd;
    forall j | 0 <= j < k ensures L.SegmentsApart(Spec(s[j]), Spec(s[k])) { RoundingKeepsApart(s[j], s[k]); }
    WindowHolds(s[k]);
  }

  lemma ImageFields(image: ValidatedImage)
    requires HigherHalfOk(image)
    ensures ImageOk(image) && image.header.entry == LINK_ADDRESS && TablePresent(image.bytes, image.header)
  {
  }

  lemma OffsetDifference()
    ensures LINK_ADDRESS - OFFSET == PHYSICAL_LINK_ADDRESS >= 0 && LINK_ADDRESS < 0x1_0000_0000_0000_0000 && OFFSET > 0
  {
  }

  lemma EntriesAre(plan: M.Plan)
    requires plan.Valid()
    ensures plan.Entries() == plan.entries[..plan.len]
  {
  }

  lemma PlannedMeans(plan: HigherHalfPlan, s: seq<ProgramHeader>, source: L.SourceAllocation)
    requires SizedPolicy(s) && plan.mappings == Sort(EntriesFor(s), M.VStart) && L.PlanOk(plan.load, Specs(s), source)
    requires M.FinalOk(plan.mappings) && plan.load.entry == plan.physicalEntry == PHYSICAL_LINK_ADDRESS &&
      plan.virtualEntry == LINK_ADDRESS
    ensures PlannedFrom(plan, s, source)
  {
  }
}
