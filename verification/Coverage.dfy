/** The kernel's check that a physical range is backed by non-usable descriptors throughout. */
module Coverage {
  import opened Prelude
  import opened Sorting
  import opened MemoryMap
  import opened Overlay
  import opened Extensions

  datatype PhysicalRange = PhysicalRange(start: U64, end: U64)

  datatype KernelError = InvalidBootInfo | MapShape | InvalidDescriptor | UsableReservation

  const DESCRIPTOR_SIZE: int := 32

  /** What the kernel reads of the boot information: whether it validates, and the shape of the map. */
  datatype BootMap = BootMap(valid: bool, stride: U32, count: U64, byteLength: U64)

  /** The end the search uses: the byte length saturates, and an end past the address space reads as 0. */
  function SearchEnd(d: Descriptor): int {
    var bytes := if d.pages * 4096 >= U64_LIMIT then U64_LIMIT - 1 else d.pages * 4096;
    if d.start + bytes >= U64_LIMIT then 0 else d.start + bytes
  }

  predicate Found(d: Descriptor, a: int) { d.start <= a < SearchEnd(d) }

  method FindDescriptor(descriptors: seq<Descriptor>, cursor: U64) returns (d: Option<Descriptor>)
    ensures d.Some? ==> d.value in descriptors && Found(d.value, cursor)
    ensures d.None? ==> forall k | 0 <= k < |descriptors| :: !Found(descriptors[k], cursor)
    ensures AllValid(descriptors) && Pairwise(descriptors, Apart) ==>
              At(descriptors, cursor) == if d.Some? then Some(TagOf(d.value)) else None
  {
    for i := 0 to |descriptors|
      invariant forall k | 0 <= k < i :: !Found(descriptors[k], cursor)
    {
      if Found(descriptors[i], cursor) {
        if AllValid(descriptors) && Pairwise(descriptors, Apart) { AtCovered(descriptors, i, cursor); }
        return Some(descriptors[i]);
      }
    }
    if AllValid(descriptors) {
      forall k | 0 <= k < |descriptors| ensures !Covers(descriptors[k], cursor) {
        assert ValidRange(descriptors[k]) && !Found(descriptors[k], cursor);
      }
      AtUncovered(descriptors, cursor);
    }
    return None;
  }

  predicate NonUsable(tag: Option<Tag>) { tag.Some? && tag.value.kind != KIND_USABLE }

  /** Every address of the range lies in a descriptor that is not usable memory. */
  ghost predicate Backed(descriptors: seq<Descriptor>, start: int, end: int) {
    forall a | start <= a < end :: NonUsable(At(descriptors, a))
  }

  lemma SameDescriptor(descriptors: seq<Descriptor>, d: Descriptor, a: int)
    requires Pairwise(descriptors, Apart) && d in descriptors && Covers(d, a)
    ensures At(descriptors, a) == Some(TagOf(d))
  {
    var i :| 0 <= i < |descriptors| && descriptors[i] == d;
    AtCovered(descriptors, i, a);
  }

  /** Some descriptor found at the address is not usable memory. */
  ghost predicate FoundNonUsable(descriptors: seq<Descriptor>, a: int) {
    exists k :: 0 <= k < |descriptors| && Found(descriptors[k], a) && descriptors[k].kind != KIND_USABLE
  }

  /** No descriptor is found at the address, or a usable one is. */
  ghost predicate Exposed(descriptors: seq<Descriptor>, a: int) {
    (forall k | 0 <= k < |descriptors| :: !Found(descriptors[k], a)) ||
    exists k :: 0 <= k < |descriptors| && Found(descriptors[k], a) && descriptors[k].kind == KIND_USABLE
  }

  /** Hops from descriptor to descriptor. Whatever the descriptors, a yes means non-usable memory throughout and
      a no means an exposed address; for a valid map without overlaps these are opposites and the answer is
      exact. */
  method CoveredNonUsable(range: PhysicalRange, descriptors: seq<Descriptor>) returns (r: Result<bool, KernelError>)
    ensures r == Ok(true) ==> forall a | range.start <= a < range.end :: FoundNonUsable(descriptors, a)
    ensures r == Ok(false) ==> exists a :: range.start <= a < range.end && Exposed(descriptors, a)
    ensures r.Err? ==> r.error == InvalidDescriptor && !AllValid(descriptors)
    ensures AllValid(descriptors) && Pairwise(descriptors, Apart) ==>
              r == Ok(Backed(descriptors, range.start, range.end))
  {
    hide At, Pairwise;
    var cursor := range.start;
    while cursor < range.end
      invariant range.start <= cursor && (cursor <= range.end || cursor == range.start)
      invariant forall a | range.start <= a < cursor :: FoundNonUsable(descriptors, a)
      invariant AllValid(descriptors) && Pairwise(descriptors, Apart) ==> Backed(descriptors, range.start, cursor)
      decreases range.end - cursor
    {
      var found := FindDescriptor(descriptors, cursor);
      match found
      case None =>
        assert Exposed(descriptors, cursor);
        return Ok(false);
      case Some(d) =>
        if d.kind == KIND_USABLE {
          FoundIn(descriptors, d, cursor);
          return Ok(false);
        }
        if d.pages * 4096 >= U64_LIMIT { return Err(InvalidDescriptor); }
        if d.start + d.pages * 4096 >= U64_LIMIT { return Err(InvalidDescriptor); }
        var next := Min(d.start + d.pages * 4096, range.end);
        forall a | cursor <= a < next ensures FoundNonUsable(descriptors, a) { FoundIn(descriptors, d, a); }
        if AllValid(descriptors) && Pairwise(descriptors, Apart) {
          forall a | cursor <= a < next ensures NonUsable(At(descriptors, a)) { SameDescriptor(descriptors, d, a); }
        }
        cursor := next;
    }
    return Ok(true);
  }

  lemma FoundIn(descriptors: seq<Descriptor>, d: Descriptor, a: int)
    requires d in descriptors && Found(d, a)
    ensures d.kind != KIND_USABLE ==> FoundNonUsable(descriptors, a)
    ensures d.kind == KIND_USABLE ==> Exposed(descriptors, a)
  {
  }

  ghost predicate RangesAccepted(descriptors: seq<Descriptor>, reserved: seq<PhysicalRange>) {
    forall i | 0 <= i < |reserved| ::
      reserved[i].start < reserved[i].end && Backed(descriptors, reserved[i].start, reserved[i].end)
  }

  predicate ShapeOk(boot: BootMap, descriptors: seq<Descriptor>) {
    boot.stride == DESCRIPTOR_SIZE && boot.count == |descriptors| && boot.byteLength == boot.count * DESCRIPTOR_SIZE
  }

  ghost predicate AllDescriptorsOk(descriptors: seq<Descriptor>) {
    forall i | 0 <= i < |descriptors| :: ValidDescriptor(descriptors[i])
  }

  /** The kernel's checks on the state handed to it, in order: boot information, shape of the map, descriptors,
      reserved ranges. On a map without overlaps the outcome is exact; on any map an acceptance means that every
      address of every range lies in non-usable memory. */
  method ValidateBootState(boot: BootMap, descriptors: seq<Descriptor>, reserved: seq<PhysicalRange>)
    returns (r: Result<(), KernelError>)
    ensures !boot.valid ==> r == Err(InvalidBootInfo)
    ensures boot.valid && !ShapeOk(boot, descriptors) ==> r == Err(MapShape)
    ensures boot.valid && ShapeOk(boot, descriptors) && !AllDescriptorsOk(descriptors) ==> r == Err(InvalidDescriptor)
    ensures boot.valid && ShapeOk(boot, descriptors) && AllDescriptorsOk(descriptors) &&
            Pairwise(descriptors, Apart) ==>
              r == if RangesAccepted(descriptors, reserved) then Ok(()) else Err(UsableReservation)
    ensures r.Ok? ==> forall i, a | 0 <= i < |reserved| && reserved[i].start <= a < reserved[i].end ::
      FoundNonUsable(descriptors, a)
  {
    if !boot.valid { return Err(InvalidBootInfo); }
    if boot.stride != DESCRIPTOR_SIZE || boot.count != |descriptors| { return Err(MapShape); }
    if boot.count * DESCRIPTOR_SIZE >= U64_LIMIT || boot.byteLength != boot.count * DESCRIPTOR_SIZE {
      return Err(MapShape);
    }
    for i := 0 to |descriptors|
      invariant forall k | 0 <= k < i :: ValidDescriptor(descriptors[k])
    {
      if !ValidDescriptor(descriptors[i]) { return Err(InvalidDescriptor); }
    }
    r := CheckRanges(descriptors, reserved);
  }

  method CheckRanges(descriptors: seq<Descriptor>, reserved: seq<PhysicalRange>) returns (r: Result<(), KernelError>)
    requires AllDescriptorsOk(descriptors)
    ensures Pairwise(descriptors, Apart) ==>
      r == if RangesAccepted(descriptors, reserved) then Ok(()) else Err(UsableReservation)
    ensures r.Ok? ==> forall i, a | 0 <= i < |reserved| && reserved[i].start <= a < reserved[i].end ::
      FoundNonUsable(descriptors, a)
  {
    hide FoundNonUsable, Backed, Pairwise;
    for i := 0 to |reserved|
      invariant Pairwise(descriptors, Apart) ==>
          forall k | 0 <= k < i ::
            reserved[k].start < reserved[k].end && Backed(descriptors, reserved[k].start, reserved[k].end)
      invariant forall k, a | 0 <= k < i && reserved[k].start <= a < reserved[k].end :: FoundNonUsable(descriptors, a)
    {
      if reserved[i].start >= reserved[i].end { return Err(UsableReservation); }
      var covered := CoveredNonUsable(reserved[i], descriptors);
      if covered.Err? { return Err(covered.error); }
      if !covered.value { return Err(UsableReservation); }
    }
    return Ok(());
  }

  /** Address `a` belongs to a reservation of a non-usable kind that lies wholly in the base map, as the overlay
      enforces for every source but the framebuffer. */
  ghost predicate Withheld(base: seq<Descriptor>, rs: seq<Reservation>, a: int) {
    exists i | 0 <= i < |rs| ::
      Covers(AsDescriptor(rs[i]), a) && rs[i].kind != KIND_USABLE &&
      (rs[i].source != Framebuffer || FullyCovered(base, rs[i]))
  }

  /** The kernel accepts every range inside the fully covered non-usable reservations of an accepted overlay. */
  lemma ReservedRangesAreBacked(base: seq<Descriptor>, rs: seq<Reservation>, start: int, end: int)
    requires BaseOk(base) && Finished(rs) && !SomeOutside(base, rs)
    requires forall a | start <= a < end :: Withheld(base, rs, a)
    ensures Pairwise(Overlaid(base, rs), Apart) && Backed(Overlaid(base, rs), start, end)
  {
    OverlaidMeaning(base, rs);
    OrderedIsApart(Overlaid(base, rs));
    forall a | start <= a < end ensures NonUsable(At(Overlaid(base, rs), a)) {
      assert Withheld(base, rs, a);
      WithheldAt(base, rs, a);
    }
  }

  lemma WithheldAt(base: seq<Descriptor>, rs: seq<Reservation>, a: int)
    requires BaseOk(base) && Finished(rs) && !SomeOutside(base, rs) && Withheld(base, rs, a)
    ensures NonUsable(OverlayAt(At(base, a), At(AsDescriptors(rs), a)))
  {
    var i :| 0 <= i < |rs| && Covers(AsDescriptor(rs[i]), a) && rs[i].kind != KIND_USABLE &&
             (rs[i].source != Framebuffer || FullyCovered(base, rs[i]));
    OrderedIsApart(AsDescriptors(rs));
    AtCovered(AsDescriptors(rs), i, a);
    assert FullyCovered(base, rs[i]);
  }
}
