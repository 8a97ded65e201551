/** The simple form of an address space: a sorted list of virtual-to-physical ranges. */
module MappingPlan {
  import opened Prelude
  import opened Sorting

  const LOW_CANONICAL_END: int := 0x0000_8000_0000_0000
  const HIGH_CANONICAL_START: int := 0xffff_8000_0000_0000
  const SUPPORTED_PHYSICAL_END: int := 0x0000_4000_0000_0000
  const DIRECT_MAP_START: int := 0xffff_8000_0000_0000
  const DIRECT_MAP_END: int := 0xffff_c000_0000_0000
  const MMIO_START: int := 0xffff_e000_0000_0000
  const MMIO_END: int := 0xffff_e800_0000_0000
  const FRAMEBUFFER_START: int := 0xffff_e800_0000_0000
  const FRAMEBUFFER_END: int := 0xffff_e900_0000_0000
  const KERNEL_IMAGE_START: int := 0xffff_ffff_8000_0000
  const KERNEL_IMAGE_END: int := 0xffff_ffff_c000_0000
  const KERNEL_LOCAL_START: int := 0xffff_ffff_c000_0000
  const KERNEL_LOCAL_END: int := 0xffff_ffff_ffff_f000
  const BOOTSTRAP_PHYSICAL_START: int := 0x0020_0000
  const BOOTSTRAP_PHYSICAL_END: int := 0x0420_0000
  const TRANSITION_IDENTITY_END: int := 0x1_0000_0000
  const BOOTSTRAP_STACK_BYTES: int := 0x1_0000
  const MAX_TRANSITION_IDENTITY_BYTES: int := 0x1_1000

  datatype LayoutError =
    | NonCanonicalVirtualAddress | UnsupportedPhysicalAddress | EmptyRange | ReversedRange | RangeNotPageAligned
    | CrossesCanonicalHole | RangeLengthMismatch | ReadPermissionRequired | WritableExecutable | UserMappingForbidden
    | InvalidRegionPermissions | InvalidCachePolicy | OutsideDeclaredRegion | OutsideBootstrapPhysicalWindow
    | DirectMapAddressMismatch | InvalidBootstrapStack | MissingStackGuard | VirtualOverlap
    | PhysicalAliasWriteExecute | PhysicalAliasPermissionEscalation | IdentityAddressMismatch
    | TransitionIdentityAboveLimit | TransitionIdentityTooLarge | InvalidTransitionComposition
    | LowMappingInFinalPlan | TransitionMappingInFinalPlan | PlanExhausted | Unmapped_ | RangeOverflow

  datatype Range = Range(start: U64, end: U64)

  datatype Permissions = Permissions(read: bool, write: bool, execute: bool, user: bool, global_: bool)

  const KERNEL_RX := Permissions(true, false, true, false, true)
  const KERNEL_R := Permissions(true, false, false, false, true)
  const KERNEL_RW := Permissions(true, true, false, false, true)

  datatype CachePolicy = WriteBack | Uncached

  datatype MappingKind =
    | KernelText | KernelRodata | KernelData | BootstrapStack | BootInfo | BootMemoryMap
    | PageTable | DirectMap | Framebuffer | Mmio | TransitionIdentity | Guard

  datatype Backing = Mapped(physical: Range) | Unmapped

  datatype PlanEntry = PlanEntry(
    virt: Range, backing: Backing, permissions: Option<Permissions>, cache: Option<CachePolicy>, kind: MappingKind)

  // ---- ranges

  predicate IsCanonical(a: int) { a < LOW_CANONICAL_END || a >= HIGH_CANONICAL_START }

  function Length(r: Range): int { r.end - r.start }

  predicate Contains(r: Range, a: int) { r.start <= a < r.end }

  predicate Overlaps(x: Range, y: Range) { RangesOverlap(x.start, x.end, y.start, y.end) }

  predicate Within(r: Range, start: int, end: int) { start <= r.start && r.end <= end }

  predicate PageBounded(r: Range) { r.start < r.end && r.start % 4096 == 0 && r.end % 4096 == 0 }

  predicate ValidPhysical(r: Range) { PageBounded(r) && r.end <= SUPPORTED_PHYSICAL_END }

  predicate ValidVirtual(r: Range) {
    PageBounded(r) && (r.end <= LOW_CANONICAL_END || HIGH_CANONICAL_START <= r.start)
  }

  function NewPhysicalRange(start: U64, end: U64): (r: Result<Range, LayoutError>)
    ensures r.Ok? <==> ValidPhysical(Range(start, end))
    ensures r.Ok? ==> r.value == Range(start, end)
  {
    if start == end then Err(EmptyRange)
    else if start > end then Err(ReversedRange)
    else if start >= SUPPORTED_PHYSICAL_END || end > SUPPORTED_PHYSICAL_END then Err(UnsupportedPhysicalAddress)
    else if start % 4096 != 0 || end % 4096 != 0 then Err(RangeNotPageAligned)
    else Ok(Range(start, end))
  }

  function NewVirtualRange(start: U64, end: U64): (r: Result<Range, LayoutError>)
    ensures r.Ok? <==> ValidVirtual(Range(start, end))
    ensures r.Ok? ==> r.value == Range(start, end)
  {
    if start == end then Err(EmptyRange)
    else if start > end then Err(ReversedRange)
    else if !IsCanonical(start) || !IsCanonical(end - 1) then Err(NonCanonicalVirtualAddress)
    else if (start < LOW_CANONICAL_END) != (end - 1 < LOW_CANONICAL_END) then Err(CrossesCanonicalHole)
    else if start % 4096 != 0 || end % 4096 != 0 then Err(RangeNotPageAligned)
    else Ok(Range(start, end))
  }

  // ---- policy

  predicate KernelPermissions(p: Permissions) { p == KERNEL_RX || p == KERNEL_R || p == KERNEL_RW }

  function RequireRegion(v: Range, start: int, end: int, p: Permissions, expected: Permissions,
                         cache: CachePolicy, expectedCache: CachePolicy): Result<(), LayoutError> {
    if !Within(v, start, end) then Err(OutsideDeclaredRegion)
    else if p != expected then Err(InvalidRegionPermissions)
    else if cache != expectedCache then Err(InvalidCachePolicy)
    else Ok(())
  }

  function ValidateMappingPolicy(v: Range, ph: Range, p: Permissions, cache: CachePolicy, kind: MappingKind)
    : (r: Result<(), LayoutError>)
    ensures r.Ok? ==> KernelPermissions(p) && (kind != Guard)
    ensures r.Ok? && ValidVirtual(v) && v.start < HIGH_CANONICAL_START ==>
              kind == TransitionIdentity && v == ph && v.end <= TRANSITION_IDENTITY_END
    ensures r.Ok? && kind == TransitionIdentity ==> v == ph && v.end <= TRANSITION_IDENTITY_END
  {
    if !p.read then Err(ReadPermissionRequired)
    else if p.write && p.execute then Err(WritableExecutable)
    else if p.user then Err(UserMappingForbidden)
    else if (kind == KernelText || kind == KernelRodata || kind == KernelData)
            && !Within(ph, BOOTSTRAP_PHYSICAL_START, BOOTSTRAP_PHYSICAL_END) then Err(OutsideBootstrapPhysicalWindow)
    else if (kind == DirectMap || kind == BootInfo || kind == BootMemoryMap || kind == PageTable)
            && (DIRECT_MAP_START + ph.start != v.start || DIRECT_MAP_START + ph.end != v.end)
         then Err(DirectMapAddressMismatch)
    else if kind == BootstrapStack && (Length(ph) != BOOTSTRAP_STACK_BYTES || ph.end > TRANSITION_IDENTITY_END)
         then Err(InvalidBootstrapStack)
    else match kind
      case KernelText => RequireRegion(v, KERNEL_IMAGE_START, KERNEL_IMAGE_END, p, KERNEL_RX, cache, WriteBack)
      case KernelRodata => RequireRegion(v, KERNEL_IMAGE_START, KERNEL_IMAGE_END, p, KERNEL_R, cache, WriteBack)
      case KernelData => RequireRegion(v, KERNEL_IMAGE_START, KERNEL_IMAGE_END, p, KERNEL_RW, cache, WriteBack)
      case BootstrapStack => RequireRegion(v, KERNEL_LOCAL_START, KERNEL_LOCAL_END, p, KERNEL_RW, cache, WriteBack)
      case BootInfo => RequireRegion(v, DIRECT_MAP_START, DIRECT_MAP_END, p, KERNEL_R, cache, WriteBack)
      case BootMemoryMap => RequireRegion(v, DIRECT_MAP_START, DIRECT_MAP_END, p, KERNEL_R, cache, WriteBack)
      case PageTable => RequireRegion(v, DIRECT_MAP_START, DIRECT_MAP_END, p, KERNEL_RW, cache, WriteBack)
      case DirectMap =>
        if !KernelPermissions(p) then Err(InvalidRegionPermissions)
        else if cache != WriteBack then Err(InvalidCachePolicy)
        else if !Within(v, DIRECT_MAP_START, DIRECT_MAP_END) then Err(OutsideDeclaredRegion)
        else Ok(())
      case Framebuffer => RequireRegion(v, FRAMEBUFFER_START, FRAMEBUFFER_END, p, KERNEL_RW, cache, Uncached)
      case Mmio => RequireRegion(v, MMIO_START, MMIO_END, p, KERNEL_RW, cache, Uncached)
      case TransitionIdentity =>
        if v.start != ph.start || v.end != ph.end then Err(IdentityAddressMismatch)
        else if v.end > TRANSITION_IDENTITY_END then Err(TransitionIdentityAboveLimit)
        else if !KernelPermissions(p) then Err(InvalidRegionPermissions)
        else if cache != WriteBack then Err(InvalidCachePolicy)
        else Ok(())
      case Guard => Err(InvalidRegionPermissions)
  }

  // ---- the policy as a table

  /** The virtual region of each kind. */
  function RegionOf(kind: MappingKind): (int, int) {
    match kind
    case KernelText | KernelRodata | KernelData => (KERNEL_IMAGE_START, KERNEL_IMAGE_END)
    case BootstrapStack | Guard => (KERNEL_LOCAL_START, KERNEL_LOCAL_END)
    case BootInfo | BootMemoryMap | PageTable | DirectMap => (DIRECT_MAP_START, DIRECT_MAP_END)
    case Framebuffer => (FRAMEBUFFER_START, FRAMEBUFFER_END)
    case Mmio => (MMIO_START, MMIO_END)
    case TransitionIdentity => (0, TRANSITION_IDENTITY_END)
  }

  function PermissionsOf(kind: MappingKind): set<Permissions> {
    match kind
    case KernelText => {KERNEL_RX}
    case KernelRodata | BootInfo | BootMemoryMap => {KERNEL_R}
    case KernelData | BootstrapStack | PageTable | Framebuffer | Mmio => {KERNEL_RW}
    case DirectMap | TransitionIdentity => {KERNEL_RX, KERNEL_R, KERNEL_RW}
    case Guard => {}
  }

  function CacheOf(kind: MappingKind): CachePolicy {
    if kind == Framebuffer || kind == Mmio then Uncached else WriteBack
  }

  /** How the physical range must relate to the virtual one. */
  predicate BackingOk(v: Range, ph: Range, kind: MappingKind) {
    match kind
    case KernelText | KernelRodata | KernelData => Within(ph, BOOTSTRAP_PHYSICAL_START, BOOTSTRAP_PHYSICAL_END)
    case BootInfo | BootMemoryMap | PageTable | DirectMap =>
      v.start - ph.start == v.end - ph.end == DIRECT_MAP_START
    case BootstrapStack => Length(ph) == BOOTSTRAP_STACK_BYTES && ph.end <= TRANSITION_IDENTITY_END
    case TransitionIdentity => v == ph
    case Framebuffer | Mmio | Guard => true
  }

  /** The chain of policy checks amounts to one line of the table per kind. */
  lemma PolicyExact(v: Range, ph: Range, p: Permissions, cache: CachePolicy, kind: MappingKind)
    ensures ValidateMappingPolicy(v, ph, p, cache, kind).Ok? <==>
            p in PermissionsOf(kind) && cache == CacheOf(kind) && Within(v, RegionOf(kind).0, RegionOf(kind).1) &&
            BackingOk(v, ph, kind)
  {
    if p in PermissionsOf(kind) { assert KernelPermissions(p); }
  }

  // ---- entries and plans

  predicate EntryOk(e: PlanEntry) {
    ValidVirtual(e.virt) &&
    match e.backing
    case Mapped(ph) =>
      ValidPhysical(ph) && Length(e.virt) == Length(ph) && e.permissions.Some? && e.cache.Some? &&
      ValidateMappingPolicy(e.virt, ph, e.permissions.value, e.cache.value, e.kind).Ok?
    case Unmapped =>
      e.kind == Guard && e.permissions.None? && e.cache.None? && Within(e.virt, KERNEL_LOCAL_START, KERNEL_LOCAL_END)
  }

  function VStart(e: PlanEntry): int { e.virt.start }

  predicate Writable(e: PlanEntry) { e.permissions.Some? && e.permissions.value.write }

  predicate Executable(e: PlanEntry) { e.permissions.Some? && e.permissions.value.execute }

  /** Why two entries may not stand in one plan. */
  function Conflict(x: PlanEntry, y: PlanEntry): Option<LayoutError> {
    if Overlaps(x.virt, y.virt) then Some(VirtualOverlap)
    else if x.backing.Mapped? && y.backing.Mapped? && Overlaps(x.backing.physical, y.backing.physical) then
      if (Writable(x) && Executable(y)) || (Writable(y) && Executable(x)) then Some(PhysicalAliasWriteExecute)
      else if Writable(x) != Writable(y) then Some(PhysicalAliasPermissionEscalation)
      else None
    else None
  }

  predicate Compatible(x: PlanEntry, y: PlanEntry) { Conflict(x, y).None? }

  ghost predicate AllOk(s: seq<PlanEntry>) { forall i | 0 <= i < |s| :: EntryOk(s[i]) }

  /** The invariant of every plan: accepted entries, strictly sorted, pairwise compatible. */
  ghost predicate PlanOk(s: seq<PlanEntry>) {
    AllOk(s) && StrictlySortedBy(s, VStart) && Pairwise(s, Compatible)
  }

  lemma EntriesAllOk(s: seq<PlanEntry>)
    requires PlanOk(s)
    ensures AllOk(s)
  {
  }

  lemma PlanDisjoint(s: seq<PlanEntry>, i: nat, j: nat)
    requires PlanOk(s) && i < j < |s|
    ensures s[i].virt.end <= s[j].virt.start
  {
    assert VStart(s[i]) < VStart(s[j]) && Compatible(s[i], s[j]) && EntryOk(s[i]) && EntryOk(s[j]);
  }

  function FindEntry(s: seq<PlanEntry>, a: int): Option<PlanEntry> {
    if s == [] then None else if Contains(s[0].virt, a) then Some(s[0]) else FindEntry(s[1..], a)
  }

  function Translate(s: seq<PlanEntry>, a: U64): Result<U64, LayoutError> {
    match FindEntry(s, a)
    case None => Err(Unmapped_)
    case Some(e) =>
      match e.backing
      case Unmapped => Err(Unmapped_)
      case Mapped(ph) =>
        if a < e.virt.start || ph.start + (a - e.virt.start) >= SUPPORTED_PHYSICAL_END then
          Err(UnsupportedPhysicalAddress)
        else Ok(ph.start + (a - e.virt.start))
  }

  lemma {:induction false} FindEntryAt(s: seq<PlanEntry>, i: nat, a: int)
    requires PlanOk(s) && i < |s| && Contains(s[i].virt, a)
    ensures FindEntry(s, a) == Some(s[i])
  {
    if i > 0 {
      PlanDisjoint(s, 0, i);
      FindEntryAt(s[1..], i - 1, a);
    }
  }

  lemma {:induction false} FindEntryIndex(s: seq<PlanEntry>, a: int) returns (i: nat)
    requires FindEntry(s, a).Some?
    ensures i < |s| && FindEntry(s, a) == Some(s[i]) && Contains(s[i].virt, a)
  {
    if Contains(s[0].virt, a) { i := 0; } else { i := FindEntryIndex(s[1..], a); i := i + 1; }
  }

  /** In a plan, an address translates through the entry that contains it, at its offset. */
  lemma TranslateInside(s: seq<PlanEntry>, i: nat, a: U64)
    requires PlanOk(s) && i < |s| && Contains(s[i].virt, a)
    ensures Translate(s, a) == match s[i].backing
                               case Unmapped => Err(Unmapped_)
                               case Mapped(ph) => Ok(ph.start + (a - s[i].virt.start))
  {
    hide ValidateMappingPolicy, FindEntry, Pairwise, StrictlySortedBy;
    FindEntryAt(s, i, a);
    assert EntryOk(s[i]);
  }

  /** No physical page is writable through one address and executable through another, and all its
      aliases agree on writability. */
  lemma AliasesAgree(s: seq<PlanEntry>, i: nat, j: nat, a: U64, b: U64)
    requires PlanOk(s) && i < |s| && j < |s| && Contains(s[i].virt, a) && Contains(s[j].virt, b)
    requires Translate(s, a).Ok? && Translate(s, b).Ok? && Translate(s, a).value / 4096 == Translate(s, b).value / 4096
    ensures Writable(s[i]) == Writable(s[j]) && !(Writable(s[i]) && Executable(s[j]))
  {
    TranslateInside(s, i, a);
    TranslateInside(s, j, b);
    assert EntryOk(s[i]) && EntryOk(s[j]);
    var x, y := s[i].backing.physical, s[j].backing.physical;
    SamePageOverlaps(x, y, Translate(s, a).value, Translate(s, b).value);
    if i < j { assert Compatible(s[i], s[j]); } else if j < i { assert Compatible(s[j], s[i]); }
  }

  lemma SamePageOverlaps(x: Range, y: Range, a: int, b: int)
    requires PageBounded(x) && PageBounded(y) && Contains(x, a) && Contains(y, b) && a / 4096 == b / 4096
    ensures Overlaps(x, y)
  {
  }

  // ---- insertion

  ghost predicate FitsWith(s: seq<PlanEntry>, e: PlanEntry) { forall i | 0 <= i < |s| :: Compatible(s[i], e) }

  /** The first conflict, in plan order. */
  ghost predicate FirstConflict(s: seq<PlanEntry>, e: PlanEntry, i: int) {
    0 <= i < |s| && !Compatible(s[i], e) && forall k | 0 <= k < i :: Compatible(s[k], e)
  }

  /** A refused entry gets the error of the first entry in its way, or else the plan is full. */
  ghost predicate ConflictFirst(s: seq<PlanEntry>, e: PlanEntry, r: Result<(), LayoutError>) {
    (forall i | FirstConflict(s, e, i) :: r == Err(Conflict(s[i], e).value)) &&
    (r.Err? && FitsWith(s, e) ==> r.error == PlanExhausted)
  }

  lemma CompatibleSymmetric()
    ensures Symmetric(Compatible)
  {
  }

  /** Inserting a compatible entry keeps the plan invariant. */
  lemma InsertKeepsPlan(s: seq<PlanEntry>, e: PlanEntry)
    requires PlanOk(s) && EntryOk(e) && FitsWith(s, e)
    ensures PlanOk(Insert(s, e, VStart)) && |Insert(s, e, VStart)| == |s| + 1
  {
    var p := InsertSplits(s, e, VStart);
    var t := s[..p] + [e] + s[p..];
    CompatibleSymmetric();
    assert Pairwise(t, Compatible) by { PairwiseInsert(s, e, p, Compatible); }
    SortedPlanInsert(s, e, p);
  }

  lemma SortedPlanInsert(s: seq<PlanEntry>, e: PlanEntry, p: nat)
    requires PlanOk(s) && EntryOk(e) && FitsWith(s, e) && p <= |s|
    requires p > 0 ==> VStart(s[p - 1]) <= VStart(e)
    requires p < |s| ==> VStart(e) < VStart(s[p])
    ensures AllOk(s[..p] + [e] + s[p..]) && StrictlySortedBy(s[..p] + [e] + s[p..], VStart)
  {
    hide EntryOk, Conflict;
    var t := s[..p] + [e] + s[p..];
    if p > 0 { StartsDiffer(s[p - 1], e); }
    forall i, j | 0 <= i < j < |t| ensures VStart(t[i]) < VStart(t[j]) {
      var x := if i < p then s[i] else if i == p then e else s[i - 1];
      var y := if j < p then s[j] else if j == p then e else s[j - 1];
      assert t[i] == x && t[j] == y;
    }
    forall i | 0 <= i < |t| ensures EntryOk(t[i]) {
      assert t[i] == if i < p then s[i] else if i == p then e else s[i - 1];
    }
  }

  lemma StartsDiffer(x: PlanEntry, y: PlanEntry)
    requires EntryOk(x) && EntryOk(y) && Compatible(x, y)
    ensures VStart(x) != VStart(y)
  {
  }

  class Plan {
    var entries: array<PlanEntry>
    var len: nat

    ghost predicate Valid()
      reads this, entries
    {
      len <= entries.Length && PlanOk(entries[..len])
    }

    ghost function Entries(): seq<PlanEntry>
      requires len <= entries.Length
      reads this, entries
    {
      entries[..len]
    }

    constructor (capacity: nat)
      ensures Valid() && Entries() == [] && entries.Length == capacity && fresh(entries)
    {
      entries := new PlanEntry[capacity](_ => PlanEntry(Range(0, 4096), Unmapped, None, None, Guard));
      len := 0;
    }

    method FindConflict(entry: PlanEntry) returns (r: Result<(), LayoutError>)
      requires Valid()
      ensures r.Ok? <==> FitsWith(Entries(), entry)
      ensures forall i | FirstConflict(Entries(), entry, i) :: r == Err(Conflict(Entries()[i], entry).value)
    {
      hide PlanOk, Conflict;
      for i := 0 to len
        invariant forall k | 0 <= k < i :: Compatible(Entries()[k], entry)
      {
        match Conflict(entries[i], entry)
        case Some(e) => assert FirstConflict(Entries(), entry, i); return Err(e);
        case None => assert Entries()[i] == entries[i];
      }
      return Ok(());
    }

    method FindPosition(start: int) returns (p: nat)
      requires Valid()
      ensures p <= len && (forall i | 0 <= i < p :: entries[i].virt.start < start)
      ensures p < len ==> start <= entries[p].virt.start
    {
      hide PlanOk;
      p := 0;
      while p < len && entries[p].virt.start < start
        invariant p <= len && forall i | 0 <= i < p :: entries[i].virt.start < start
      {
        p := p + 1;
      }
    }

    /** Inserts in address order; a refused entry leaves the plan as it was. */
    method InsertEntry(entry: PlanEntry) returns (r: Result<(), LayoutError>)
      requires Valid() && EntryOk(entry)
      modifies this, entries
      ensures Valid() && entries == old(entries)
      ensures r.Ok? <==> FitsWith(old(Entries()), entry) && old(len) < entries.Length
      ensures r.Ok? ==> Entries() == Insert(old(Entries()), entry, VStart)
      ensures r.Err? ==> Entries() == old(Entries())
      ensures ConflictFirst(old(Entries()), entry, r)
    {
      hide PlanOk, EntryOk, Conflict, Compatible, FitsWith, FirstConflict, Insert;
      var conflict := FindConflict(entry);
      if conflict.Err? { return conflict; }
      if len == entries.Length { return Err(PlanExhausted); }
      Store(entry);
      return Ok(());
    }

    method Store(entry: PlanEntry)
      requires Valid() && EntryOk(entry) && FitsWith(Entries(), entry) && len < entries.Length
      modifies this, entries
      ensures Valid() && entries == old(entries) && Entries() == Insert(old(Entries()), entry, VStart)
    {
      hide PlanOk, EntryOk, FitsWith, Insert, VStart;
      ghost var s := Entries();
      var position := FindPosition(entry.virt.start);
      PositionIsSplit(s, entry, position);
      InsertKeepsPlan(s, entry);
      ShiftIn(entries, len, position, entry);
      len := len + 1;
      assert entries[..len] == s[..position] + [entry] + s[position..];
    }

    method InsertMapping(virt: Range, physical: Range, permissions: Permissions, cache: CachePolicy, kind: MappingKind)
      returns (r: Result<(), LayoutError>)
      requires Valid() && ValidVirtual(virt) && ValidPhysical(physical)
      modifies this, entries
      ensures Valid() && entries == old(entries)
      ensures var e := PlanEntry(virt, Mapped(physical), Some(permissions), Some(cache), kind);
        (r.Ok? <==> EntryOk(e) && FitsWith(old(Entries()), e) && old(len) < entries.Length) &&
        (r.Ok? ==> Entries() == Insert(old(Entries()), e, VStart)) &&
        (EntryOk(e) ==> ConflictFirst(old(Entries()), e, r))
      ensures r.Err? ==> Entries() == old(Entries())
      ensures Length(virt) != Length(physical) ==> r == Err(RangeLengthMismatch)
      ensures var policy := ValidateMappingPolicy(virt, physical, permissions, cache, kind);
        Length(virt) == Length(physical) && policy.Err? ==> r == policy
    {
      if Length(virt) != Length(physical) { return Err(RangeLengthMismatch); }
      var policy := ValidateMappingPolicy(virt, physical, permissions, cache, kind);
      if policy.Err? { return policy; }
      hide PlanOk, FitsWith, Insert;
      r := InsertEntry(PlanEntry(virt, Mapped(physical), Some(permissions), Some(cache), kind));
    }

    method InsertGuard(range: Range) returns (r: Result<(), LayoutError>)
      requires Valid() && ValidVirtual(range)
      modifies this, entries
      ensures Valid() && entries == old(entries)
      ensures var e := PlanEntry(range, Unmapped, None, None, Guard);
        (r.Ok? <==> EntryOk(e) && FitsWith(old(Entries()), e) && old(len) < entries.Length) &&
        (r.Ok? ==> Entries() == Insert(old(Entries()), e, VStart)) &&
        (EntryOk(e) ==> ConflictFirst(old(Entries()), e, r))
      ensures r.Err? ==> Entries() == old(Entries())
      ensures !Within(range, KERNEL_LOCAL_START, KERNEL_LOCAL_END) ==> r == Err(OutsideDeclaredRegion)
    {
      if !Within(range, KERNEL_LOCAL_START, KERNEL_LOCAL_END) { return Err(OutsideDeclaredRegion); }
      hide PlanOk, FitsWith, Insert;
      r := InsertEntry(PlanEntry(range, Unmapped, None, None, Guard));
    }
  }

  lemma PositionIsSplit(s: seq<PlanEntry>, e: PlanEntry, p: nat)
    requires PlanOk(s) && EntryOk(e) && FitsWith(s, e) && p <= |s|
    requires forall i | 0 <= i < p :: s[i].virt.start < e.virt.start
    requires p < |s| ==> e.virt.start <= s[p].virt.start
    ensures Insert(s, e, VStart) == s[..p] + [e] + s[p..]
  {
    hide EntryOk, Conflict;
    if p < |s| { StartsDiffer(s[p], e); }
    forall i | p <= i < |s| ensures VStart(s[i]) > VStart(e) { if i > p { assert VStart(s[p]) < VStart(s[i]); } }
    InsertAtSplit(s, e, VStart, p);
  }

  // ---- any sequence of inserts

  /** The plan after inserting every entry of `es` in turn into an empty plan of the given capacity, if
      all of them are accepted. */
  ghost function InsertAll(es: seq<PlanEntry>, capacity: nat): Option<seq<PlanEntry>> {
    if es == [] then Some([])
    else match InsertAll(es[..|es| - 1], capacity)
      case None => None
      case Some(s) =>
        var e := es[|es| - 1];
        if EntryOk(e) && FitsWith(s, e) && |s| < capacity then Some(Insert(s, e, VStart)) else None
  }

  ghost predicate Acceptable(es: seq<PlanEntry>, capacity: nat) {
    AllOk(es) && Pairwise(es, Compatible) && |es| <= capacity
  }

  lemma FitsWithSorted(es: seq<PlanEntry>, e: PlanEntry)
    ensures FitsWith(Sort(es, VStart), e) <==> FitsWith(es, e)
  {
    hide Compatible;
    var t := Sort(es, VStart);
    SortSorts(es, VStart);
    SortPermutes(es, VStart);
    if FitsWith(es, e) {
      forall i | 0 <= i < |t| ensures Compatible(t[i], e) { SameMembers(es, t, t[i]); }
    }
    if FitsWith(t, e) {
      forall i | 0 <= i < |es| ensures Compatible(es[i], e) { SameMembers(es, t, es[i]); }
    }
  }

  /** All inserts succeed exactly when the entries are acceptable as a set, and the plan is then the
      sorted list. */
  lemma {:induction false} InsertAllIsSort(es: seq<PlanEntry>, capacity: nat)
    ensures InsertAll(es, capacity) == if Acceptable(es, capacity) then Some(Sort(es, VStart)) else None
  {
    if es != [] {
      hide EntryOk, Compatible, Insert;
      var front, e := es[..|es| - 1], es[|es| - 1];
      InsertAllIsSort(front, capacity);
      SortSorts(front, VStart);
      FitsWithSorted(front, e);
      AcceptableSnoc(es, capacity);
    }
  }

  lemma AcceptableSnoc(es: seq<PlanEntry>, capacity: nat)
    requires es != []
    ensures var front, e := es[..|es| - 1], es[|es| - 1];
      Acceptable(es, capacity) <==> Acceptable(front, capacity) && EntryOk(e) && FitsWith(front, e) &&
                                    |front| < capacity
  {
    hide EntryOk, Compatible;
    var front, e := es[..|es| - 1], es[|es| - 1];
    assert es == front + [e];
    if Acceptable(es, capacity) {
      forall i | 0 <= i < |front| ensures Compatible(front[i], e) { assert Compatible(es[i], es[|es| - 1]); }
    }
  }

  lemma {:induction false} AcceptableSortIsPlan(es: seq<PlanEntry>, capacity: nat)
    requires Acceptable(es, capacity)
    ensures PlanOk(Sort(es, VStart))
  {
    if es != [] {
      hide EntryOk, Compatible, PlanOk, Insert;
      var front, e := es[..|es| - 1], es[|es| - 1];
      AcceptableSnoc(es, capacity);
      AcceptableSortIsPlan(front, capacity);
      FitsWithSorted(front, e);
      InsertKeepsPlan(Sort(front, VStart), e);
    }
  }

  lemma OkPermuted(s: seq<PlanEntry>, t: seq<PlanEntry>)
    requires multiset(s) == multiset(t) && AllOk(s)
    ensures AllOk(t)
  {
    hide EntryOk;
    forall i | 0 <= i < |t| ensures EntryOk(t[i]) { SameMembers(s, t, t[i]); }
  }

  /** Acceptance of a set of mappings, and the plan they form, do not depend on insertion order. */
  lemma InsertOrderIrrelevant(es: seq<PlanEntry>, fs: seq<PlanEntry>, capacity: nat)
    requires multiset(es) == multiset(fs)
    ensures InsertAll(es, capacity) == InsertAll(fs, capacity)
  {
    InsertAllIsSort(es, capacity);
    InsertAllIsSort(fs, capacity);
    if Acceptable(es, capacity) { PermutedAcceptable(es, fs, capacity); }
    if Acceptable(fs, capacity) { PermutedAcceptable(fs, es, capacity); }
  }

  lemma PermutedAcceptable(es: seq<PlanEntry>, fs: seq<PlanEntry>, capacity: nat)
    requires multiset(es) == multiset(fs) && Acceptable(es, capacity)
    ensures Acceptable(fs, capacity) && Sort(fs, VStart) == Sort(es, VStart)
  {
    hide EntryOk, Compatible, Sort;
    SameLength(es, fs);
    OkPermuted(es, fs);
    AcceptableSortIsPlan(es, capacity);
    SortPermutes(es, VStart);
    SortPermutes(fs, VStart);
    SortSorts(fs, VStart);
    SortedUnique(Sort(es, VStart), Sort(fs, VStart), VStart);
    CompatibleSymmetric();
    SortPairwise(fs, VStart, Compatible);
  }

  // ---- the two admissible shapes of a plan

  predicate IsLow(e: PlanEntry) { e.virt.start < HIGH_CANONICAL_START }

  predicate IsTrampoline(e: PlanEntry) { e.permissions == Some(KERNEL_RX) && Length(e.virt) == 4096 }

  predicate IsTransitionStack(e: PlanEntry) {
    e.permissions == Some(KERNEL_RW) && Length(e.virt) == BOOTSTRAP_STACK_BYTES
  }

  ghost function CountLow(s: seq<PlanEntry>, p: PlanEntry -> bool): nat {
    if s == [] then 0 else CountLow(s[..|s| - 1], p) + if IsLow(s[|s| - 1]) && p(s[|s| - 1]) then 1 else 0
  }

  ghost predicate LowIsTransition(s: seq<PlanEntry>) {
    forall i | 0 <= i < |s| && IsLow(s[i]) ::
      s[i].kind == TransitionIdentity && (IsTrampoline(s[i]) || IsTransitionStack(s[i]))
  }

  /** Below the hole: one executable trampoline page, one bootstrap stack and nothing else. */
  ghost predicate TransitionOk(s: seq<PlanEntry>) {
    LowIsTransition(s) && CountLow(s, IsTrampoline) == 1 && CountLow(s, IsTransitionStack) == 1
  }

  lemma {:induction false} CountLowPrefix(s: seq<PlanEntry>, i: nat, p: PlanEntry -> bool)
    requires i <= |s|
    ensures CountLow(s[..i], p) <= CountLow(s, p)
    decreases |s| - i
  {
    if i == |s| { assert s[..i] == s; } else { CountLowSnoc(s, i, p); CountLowPrefix(s, i + 1, p); }
  }

  lemma CountLowSnoc(s: seq<PlanEntry>, i: nat, p: PlanEntry -> bool)
    requires i < |s|
    ensures CountLow(s[..i + 1], p) == CountLow(s[..i], p) + if IsLow(s[i]) && p(s[i]) then 1 else 0
  {
    assert s[..i + 1][..i] == s[..i];
  }

  lemma {:induction false} CountLowWitness(s: seq<PlanEntry>, p: PlanEntry -> bool) returns (i: nat)
    requires CountLow(s, p) > 0
    ensures i < |s| && IsLow(s[i]) && p(s[i])
  {
    if IsLow(s[|s| - 1]) && p(s[|s| - 1]) { i := |s| - 1; } else { i := CountLowWitness(s[..|s| - 1], p); }
  }

  method ValidateTransition(s: seq<PlanEntry>) returns (r: Result<(), LayoutError>)
    requires AllOk(s)
    ensures r.Ok? <==> TransitionOk(s)
  {
    hide EntryOk;
    var identityBytes, trampolines, stacks := 0, 0, 0;
    for i := 0 to |s|
      invariant LowIsTransition(s[..i])
      invariant trampolines == CountLow(s[..i], IsTrampoline) && stacks == CountLow(s[..i], IsTransitionStack)
      invariant identityBytes == 4096 * trampolines + 65536 * stacks <= MAX_TRANSITION_IDENTITY_BYTES
    {
      var e := s[i];
      CountLowSnoc(s, i, IsTrampoline);
      CountLowSnoc(s, i, IsTransitionStack);
      CountLowPrefix(s, i + 1, IsTrampoline);
      CountLowPrefix(s, i + 1, IsTransitionStack);
      if IsLow(e) {
        if e.kind != TransitionIdentity { return Err(IdentityAddressMismatch); }
        identityBytes := identityBytes + Length(e.virt);
        if identityBytes > MAX_TRANSITION_IDENTITY_BYTES { return Err(TransitionIdentityTooLarge); }
        assert EntryOk(s[i]);
        MappedWhenTransition(e);
        if e.permissions.value == KERNEL_RX && Length(e.virt) == 4096 {
          if trampolines + 1 > 255 { return Err(InvalidTransitionComposition); }
          trampolines := trampolines + 1;
        } else if e.permissions.value == KERNEL_RW && Length(e.virt) == BOOTSTRAP_STACK_BYTES {
          if stacks + 1 > 255 { return Err(InvalidTransitionComposition); }
          stacks := stacks + 1;
        } else {
          return Err(InvalidTransitionComposition);
        }
      }
      assert s[..i + 1] == s[..i] + [e];
    }
    assert s[..|s|] == s;
    if trampolines != 1 || stacks != 1 { return Err(InvalidTransitionComposition); }
    return Ok(());
  }

  lemma MappedWhenTransition(e: PlanEntry)
    requires EntryOk(e) && e.kind == TransitionIdentity
    ensures e.permissions.Some? && e.backing == Mapped(e.virt) && e.virt.end <= TRANSITION_IDENTITY_END
  {
  }

  predicate IsGuardBelow(g: PlanEntry, e: PlanEntry) {
    g.kind == Guard && g.virt.start == e.virt.start - 4096 && g.virt.end == e.virt.start
  }

  ghost predicate GuardedStack(s: seq<PlanEntry>, e: PlanEntry) {
    exists j | 0 <= j < |s| :: IsGuardBelow(s[j], e)
  }

  /** Nothing below the hole, no transition mapping, and a guard page under every stack. */
  ghost predicate FinalOk(s: seq<PlanEntry>) {
    (forall i | 0 <= i < |s| :: s[i].kind != TransitionIdentity && !IsLow(s[i])) &&
    forall i | 0 <= i < |s| && s[i].kind == BootstrapStack :: GuardedStack(s, s[i])
  }

  method HasGuard(s: seq<PlanEntry>, e: PlanEntry) returns (b: bool)
    ensures b <==> GuardedStack(s, e)
  {
    for j := 0 to |s|
      invariant forall k | 0 <= k < j :: !IsGuardBelow(s[k], e)
    {
      if IsGuardBelow(s[j], e) { return true; }
    }
    return false;
  }

  method ValidateFinal(s: seq<PlanEntry>) returns (r: Result<(), LayoutError>)
    ensures r.Ok? <==> FinalOk(s)
  {
    for i := 0 to |s|
      invariant forall k | 0 <= k < i :: s[k].kind != TransitionIdentity && !IsLow(s[k])
    {
      if s[i].kind == TransitionIdentity { return Err(TransitionMappingInFinalPlan); }
      if IsLow(s[i]) { return Err(LowMappingInFinalPlan); }
    }
    for i := 0 to |s|
      invariant forall k | 0 <= k < i && s[k].kind == BootstrapStack :: GuardedStack(s, s[k])
    {
      if s[i].kind == BootstrapStack {
        var guarded := HasGuard(s, s[i]);
        if !guarded { return Err(MissingStackGuard); }
      }
    }
    return Ok(());
  }
}
