/** Filling and checking the planned targets in one shared physical memory. */
module LoadTargets {
  import opened Prelude
  import opened LoadPlan
  import opened RangeOwner

  datatype MemoryError = Range | CopyMismatch | NonZeroBss | NonZeroPadding

  datatype LoadWorkKind = Allocate | Zero | Copy | Verify

  type Bytes = seq<Byte>

  ghost predicate AllZero(s: Bytes) { forall i | 0 <= i < |s| :: s[i] == 0 }

  // ---- one target slice

  predicate CopyInRange(item: LoadItem, source: Bytes, length: nat) {
    length == item.pageLength && item.sourceOffset + item.fileSize <= |source| &&
    item.copyOffset + item.fileSize <= length
  }

  function FileBytes(item: LoadItem, source: Bytes): Bytes
    requires item.sourceOffset + item.fileSize <= |source|
  {
    source[item.sourceOffset..item.sourceOffset + item.fileSize]
  }

  method IsZero(target: Bytes) returns (r: bool)
    ensures r <==> AllZero(target)
  {
    for i := 0 to |target|
      invariant forall k | 0 <= k < i :: target[k] == 0
    {
      if target[i] != 0 { return false; }
    }
    return true;
  }

  /** Copied bytes, zeroed memory and padding; nothing is asked of bytes before the copy offset. */
  ghost predicate Filled(item: LoadItem, source: Bytes, target: Bytes) {
    CopyInRange(item, source, |target|) && item.copyOffset + item.memorySize <= |target| &&
    item.fileSize <= item.memorySize &&
    target[item.copyOffset..item.copyOffset + item.fileSize] == FileBytes(item, source) &&
    AllZero(target[item.copyOffset + item.fileSize..])
  }

  method VerifyTarget(item: LoadItem, source: Bytes, target: Bytes) returns (r: Result<(), MemoryError>)
    ensures r.Ok? <==> Filled(item, source, target)
  {
    if |target| != item.pageLength { return Err(Range); }
    var copyEnd, memoryEnd := item.copyOffset + item.fileSize, item.copyOffset + item.memorySize;
    if item.sourceOffset + item.fileSize > |source| || copyEnd > |target| { return Err(Range); }
    if target[item.copyOffset..copyEnd] != FileBytes(item, source) { return Err(CopyMismatch); }
    if memoryEnd > |target| || copyEnd > memoryEnd { return Err(Range); }
    SplitZero(target, copyEnd, memoryEnd);
    var bss := IsZero(target[copyEnd..memoryEnd]);
    if !bss { return Err(NonZeroBss); }
    var padding := IsZero(target[memoryEnd..]);
    if !padding { return Err(NonZeroPadding); }
    return Ok(());
  }

  lemma SplitZero(target: Bytes, a: nat, b: nat)
    requires a <= b <= |target|
    ensures AllZero(target[a..]) <==> AllZero(target[a..b]) && AllZero(target[b..])
  {
    var s := target[a..];
    assert target[a..b] == s[..b - a] && target[b..] == s[b - a..];
    if AllZero(target[a..b]) && AllZero(target[b..]) {
      forall i | 0 <= i < |s| ensures s[i] == 0 {
        if i < b - a { assert s[i] == target[a..b][i]; } else { assert s[i] == target[b..][i - (b - a)]; }
      }
    }
  }

  predicate Fits(item: LoadItem, source: Bytes) {
    item.sourceOffset + item.fileSize <= |source| && item.fileSize <= item.pageLength
  }

  /** File bytes followed by zeros to the end of the last page. */
  function Image(item: LoadItem, source: Bytes): Bytes
    requires Fits(item, source)
  {
    FileBytes(item, source) + seq(item.pageLength - item.fileSize, _ => 0)
  }

  /** For planned items, whose copy offset is zero, exactly one content is accepted. */
  lemma FilledIsImage(item: LoadItem, source: Bytes, target: Bytes)
    requires Tiled(item) && item.sourceOffset + item.fileSize <= |source|
    ensures Filled(item, source, target) <==> target == Image(item, source)
  {
    var image := Image(item, source);
    assert image[..item.fileSize] == FileBytes(item, source) && AllZero(image[item.fileSize..]);
    if Filled(item, source, target) {
      assert |target| == |image|;
      forall i | 0 <= i < |target| ensures target[i] == image[i] {
        if i < item.fileSize { assert target[i] == target[..item.fileSize][i]; }
        else { assert target[i] == target[item.fileSize..][i - item.fileSize]; }
      }
    }
  }

  /** With a copy offset, bytes in front of the copied ones are never looked at. */
  lemma PrefixUnchecked(item: LoadItem, source: Bytes, target: Bytes, i: nat, b: Byte)
    requires Filled(item, source, target) && i < |target|
    ensures i < item.copyOffset ==> Filled(item, source, target[i := b])
    ensures i >= item.copyOffset && b != target[i] ==> !Filled(item, source, target[i := b])
  {
    var changed, copyEnd := target[i := b], item.copyOffset + item.fileSize;
    if i < item.copyOffset {
      assert changed[item.copyOffset..copyEnd] == target[item.copyOffset..copyEnd];
      assert changed[copyEnd..] == target[copyEnd..];
    } else if i < copyEnd {
      assert changed[item.copyOffset..copyEnd][i - item.copyOffset] == b;
      assert target[item.copyOffset..copyEnd][i - item.copyOffset] == target[i];
    } else {
      assert changed[copyEnd..][i - copyEnd] == b && target[copyEnd..][i - copyEnd] == target[i];
    }
  }

  // ---- targets in shared memory

  /** Nothing outside the item's pages differs. */
  ghost predicate SameOutside(was: Bytes, now: Bytes, item: LoadItem) {
    |was| == |now| && forall a | 0 <= a < |was| && !(item.pageStart <= a < ItemEnd(item)) :: now[a] == was[a]
  }

  ghost predicate Holds(m: Bytes, item: LoadItem, content: Bytes) {
    ItemEnd(item) <= |m| && m[item.pageStart..ItemEnd(item)] == content
  }

  function Zeros(n: nat): Bytes { seq(n, _ => 0) }

  /** A target kept clear of another item's pages keeps its content. */
  lemma HoldsKept(was: Bytes, now: Bytes, item: LoadItem, other: LoadItem, content: Bytes)
    requires SameOutside(was, now, item) && Apart(item, other) && Holds(was, other, content)
    ensures Holds(now, other, content)
  {
    assert now[other.pageStart..ItemEnd(other)] == was[other.pageStart..ItemEnd(other)];
  }

  method ZeroTarget(memory: array<Byte>, item: LoadItem)
    requires ItemEnd(item) <= memory.Length
    modifies memory
    ensures SameOutside(old(memory[..]), memory[..], item) && Holds(memory[..], item, Zeros(item.pageLength))
  {
    forall i | item.pageStart <= i < ItemEnd(item) { memory[i] := 0; }
    assert memory[..][item.pageStart..ItemEnd(item)] == Zeros(item.pageLength);
  }

  /** The file bytes of a target arrived at its copy offset and the rest of the target kept its bytes. */
  ghost predicate Copied(was: Bytes, now: Bytes, item: LoadItem, source: Bytes) {
    |was| == |now| && ItemEnd(item) <= |now| && CopyInRange(item, source, item.pageLength) &&
    forall i | item.pageStart <= i < ItemEnd(item) ::
      now[i] == var k := i - item.pageStart - item.copyOffset;
                if 0 <= k < item.fileSize then source[item.sourceOffset + k] else was[i]
  }

  /** Copies the file bytes of an item into its target. */
  method CopyTarget(memory: array<Byte>, item: LoadItem, source: Bytes) returns (r: Result<(), MemoryError>)
    requires ItemEnd(item) <= memory.Length
    modifies memory
    ensures r.Ok? <==> CopyInRange(item, source, item.pageLength)
    ensures r.Err? ==> memory[..] == old(memory[..]) && r.error == Range
    ensures SameOutside(old(memory[..]), memory[..], item)
    ensures r.Ok? ==> Copied(old(memory[..]), memory[..], item, source)
  {
    if item.sourceOffset + item.fileSize > |source| { return Err(Range); }
    if item.copyOffset + item.fileSize > item.pageLength { return Err(Range); }
    var to := item.pageStart + item.copyOffset;
    forall i | to <= i < to + item.fileSize { memory[i] := source[item.sourceOffset + (i - to)]; }
    return Ok(());
  }

  /** On a zeroed target of a planned item, copying completes the image. */
  lemma CopiedIsImage(was: Bytes, now: Bytes, item: LoadItem, source: Bytes)
    requires Tiled(item) && Holds(was, item, Zeros(item.pageLength)) && Copied(was, now, item, source)
    ensures Holds(now, item, Image(item, source))
  {
    var a, b, image := item.pageStart, ItemEnd(item), Image(item, source);
    forall k | 0 <= k < item.pageLength ensures now[a..b][k] == image[k] {
      assert was[a + k] == was[a..b][k];
    }
    assert now[a..b] == image;
  }

  /** Items before `k` hold their image, later ones zeros, and nothing else differs from the start. */
  ghost predicate Progress(start: Bytes, m: Bytes, items: seq<LoadItem>, source: Bytes, images: nat, zeros: nat)
    requires images <= zeros <= |items| && forall i | 0 <= i < |items| :: Fits(items[i], source)
  {
    |start| == |m| &&
    (forall i | 0 <= i < images :: Holds(m, items[i], Image(items[i], source))) &&
    (forall i | images <= i < zeros :: Holds(m, items[i], Zeros(items[i].pageLength))) &&
    forall a | 0 <= a < |m| && Outside(items, a) :: m[a] == start[a]
  }

  ghost predicate Outside(items: seq<LoadItem>, a: int) {
    forall i | 0 <= i < |items| :: !(items[i].pageStart <= a < ItemEnd(items[i]))
  }

  lemma ZeroStep(start: Bytes, was: Bytes, now: Bytes, items: seq<LoadItem>, source: Bytes, k: nat)
    requires k < |items| && (forall i | 0 <= i < |items| :: Fits(items[i], source)) && Packed(items)
    requires Progress(start, was, items, source, 0, k) && SameOutside(was, now, items[k])
    requires Holds(now, items[k], Zeros(items[k].pageLength))
    ensures Progress(start, now, items, source, 0, k + 1)
  {
    hide Holds, Tiled, InWindow, Apart, Image;
    forall i | 0 <= i < k ensures Holds(now, items[i], Zeros(items[i].pageLength)) {
      ApartSymmetric(items[i], items[k]);
      HoldsKept(was, now, items[k], items[i], Zeros(items[i].pageLength));
    }
  }

  lemma CopyStep(start: Bytes, was: Bytes, now: Bytes, items: seq<LoadItem>, source: Bytes, k: nat)
    requires k < |items| && (forall i | 0 <= i < |items| :: Fits(items[i], source)) && Packed(items)
    requires Progress(start, was, items, source, k, |items|) && SameOutside(was, now, items[k])
    requires Holds(now, items[k], Image(items[k], source))
    ensures Progress(start, now, items, source, k + 1, |items|)
  {
    hide Holds, Tiled, InWindow, Apart, Image, Zeros;
    forall i | 0 <= i < |items| && i != k ensures Apart(items[k], items[i]) { ApartSymmetric(items[i], items[k]); }
    forall i | 0 <= i < k ensures Holds(now, items[i], Image(items[i], source)) {
      HoldsKept(was, now, items[k], items[i], Image(items[i], source));
    }
    forall i | k < i < |items| ensures Holds(now, items[i], Zeros(items[i].pageLength)) {
      HoldsKept(was, now, items[k], items[i], Zeros(items[i].pageLength));
    }
  }

  // ---- the whole preparation

  function Ranges(items: seq<LoadItem>): (s: seq<PageRange>)
    ensures |s| == |items| && forall i | 0 <= i < |s| :: s[i] == PageRange(items[i].pageStart, items[i].pageCount)
  {
    seq(|items|, i requires 0 <= i < |items| => PageRange(items[i].pageStart, items[i].pageCount))
  }

  /** The file lies inside its pages, and memory reaches to the end of the window and of those pages. */
  ghost predicate SourceInMemory(source: SourceAllocation, size: nat) {
    source.fileLength <= source.pageCount * 4096 && source.pageStart + source.pageCount * 4096 <= size &&
    WINDOW_END <= size
  }

  function FileIn(m: Bytes, source: SourceAllocation): Bytes
    requires source.pageStart + source.fileLength <= |m|
  {
    m[source.pageStart..source.pageStart + source.fileLength]
  }

  lemma FileKept(start: Bytes, m: Bytes, items: seq<LoadItem>, source: SourceAllocation)
    requires |start| == |m| && SourceInMemory(source, |m|)
    requires forall i | 0 <= i < |items| :: OffSource(items[i], source) && ItemEnd(items[i]) > items[i].pageStart
    requires forall a | 0 <= a < |m| && Outside(items, a) :: m[a] == start[a]
    ensures FileIn(m, source) == FileIn(start, source)
  {
    forall a | source.pageStart <= a < source.pageStart + source.fileLength ensures m[a] == start[a] {
      assert Outside(items, a);
    }
  }

  ghost predicate Ready(plan: LoadPlan, source: SourceAllocation, m: Bytes) {
    SourceInMemory(source, |m|) && Packed(plan.items) &&
    forall i | 0 <= i < |plan.items| :: OffSource(plan.items[i], source) && Fits(plan.items[i], FileIn(m, source))
  }

  lemma PlannedIsReady(plan: LoadPlan, segments: seq<SegmentSpec>, source: SourceAllocation, m: Bytes)
    requires PlanOk(plan, segments, source) && SourceInMemory(source, |m|)
    ensures Ready(plan, source, m)
  {
    hide MakeItem, SegmentOk;
    forall i | 0 <= i < |plan.items| ensures Fits(plan.items[i], FileIn(m, source)) {
      MakeItemExact(segments[i], source.fileLength);
    }
  }

  datatype WorkFailure = WorkFailure(kind: LoadWorkKind, owner: RangeOwner)

  method AllocateAll(owner: RangeOwner) returns (ok: bool)
    requires owner.Valid() && forall i | 0 <= i < owner.owned.Length :: !owner.owned[i]
    modifies owner.owned, owner.backend`live
    ensures owner.Valid() && (ok ==> forall i | 0 <= i < owner.owned.Length :: owner.owned[i])
  {
    for k := 0 to |owner.items|
      invariant owner.Valid() && forall i | 0 <= i < owner.owned.Length :: owner.owned[i] == (i < k)
    {
      ghost var was := owner.owned[..];
      ok := owner.Allocate(k);
      if !ok { return; }
      assert owner.owned[..] == was[k := true];
    }
    return true;
  }

  method ZeroAll(plan: LoadPlan, source: SourceAllocation, memory: array<Byte>)
    requires Ready(plan, source, memory[..])
    modifies memory
    ensures Progress(old(memory[..]), memory[..], plan.items, FileIn(old(memory[..]), source), 0, |plan.items|)
  {
    hide Progress, SameOutside, Holds, Packed, OffSource, Fits, FileIn, Zeros, ItemEnd;
    ghost var start := memory[..];
    ghost var file := FileIn(start, source);
    NoProgress(start, plan.items, file);
    for k := 0 to |plan.items|
      invariant Progress(start, memory[..], plan.items, file, 0, k)
    {
      ghost var was := memory[..];
      ItemInMemory(plan, source, start, k);
      ZeroTarget(memory, plan.items[k]);
      ZeroStep(start, was, memory[..], plan.items, file, k);
    }
  }

  lemma NoProgress(start: Bytes, items: seq<LoadItem>, file: Bytes)
    requires forall i | 0 <= i < |items| :: Fits(items[i], file)
    ensures Progress(start, start, items, file, 0, 0)
  {
  }

  lemma ItemInMemory(plan: LoadPlan, source: SourceAllocation, m: Bytes, k: nat)
    requires Ready(plan, source, m) && k < |plan.items|
    ensures ItemEnd(plan.items[k]) <= |m| && Tiled(plan.items[k]) && ItemEnd(plan.items[k]) > plan.items[k].pageStart
    ensures CopyInRange(plan.items[k], FileIn(m, source), plan.items[k].pageLength)
  {
    assert Tiled(plan.items[k]) && InWindow(plan.items[k]);
    assert Fits(plan.items[k], FileIn(m, source));
  }

  /** The file is still in its pages, so each copy reads what it read at the start. */
  lemma FileDuring(plan: LoadPlan, source: SourceAllocation, start: Bytes, m: Bytes, images: nat, zeros: nat)
    requires Ready(plan, source, start) && images <= zeros <= |plan.items|
    requires Progress(start, m, plan.items, FileIn(start, source), images, zeros)
    ensures |m| == |start| && FileIn(m, source) == FileIn(start, source)
  {
    hide Holds, Image, Zeros, InWindow, Apart, Fits;
    forall i | 0 <= i < |plan.items| ensures ItemEnd(plan.items[i]) > plan.items[i].pageStart {
      assert Tiled(plan.items[i]);
    }
    FileKept(start, m, plan.items, source);
  }

  method CopyAll(plan: LoadPlan, source: SourceAllocation, memory: array<Byte>, ghost start: Bytes)
    returns (r: Result<(), MemoryError>)
    requires Ready(plan, source, start) &&
      Progress(start, memory[..], plan.items, FileIn(start, source), 0, |plan.items|)
    modifies memory
    ensures r.Ok? && Progress(start, memory[..], plan.items, FileIn(start, source), |plan.items|, |plan.items|)
  {
    assert SourceInMemory(source, |start|);
    hide *;
    for k := 0 to |plan.items|
      invariant Progress(start, memory[..], plan.items, FileIn(start, source), k, |plan.items|)
    {
      ghost var was := memory[..];
      FileDuring(plan, source, start, was, k, |plan.items|);
      ItemInMemory(plan, source, start, k);
      r := CopyTarget(memory, plan.items[k], FileIn(memory[..], source));
      if r.Err? { return; }
      CopyNext(plan, source, start, was, memory[..], k);
    }
    return Ok(());
  }

  lemma CopyNext(plan: LoadPlan, source: SourceAllocation, start: Bytes, was: Bytes, now: Bytes, k: nat)
    requires Ready(plan, source, start) && k < |plan.items|
    requires Progress(start, was, plan.items, FileIn(start, source), k, |plan.items|)
    requires SameOutside(was, now, plan.items[k]) && Copied(was, now, plan.items[k], FileIn(start, source))
    ensures Progress(start, now, plan.items, FileIn(start, source), k + 1, |plan.items|)
  {
    hide Progress, SameOutside, Holds, Packed, OffSource, Fits, FileIn, Zeros, ItemEnd, Image, CopyInRange, Copied;
    ItemInMemory(plan, source, start, k);
    NextIsZero(plan, source, start, was, k);
    CopiedIsImage(was, now, plan.items[k], FileIn(start, source));
    CopyStep(start, was, now, plan.items, FileIn(start, source), k);
  }

  function Overwritten(m: Bytes, item: LoadItem, content: Bytes): Bytes
    requires ItemEnd(item) <= |m| && |content| == item.pageLength
  {
    m[..item.pageStart] + content + m[ItemEnd(item)..]
  }

  lemma OverwrittenHolds(m: Bytes, item: LoadItem, content: Bytes)
    requires ItemEnd(item) <= |m| && |content| == item.pageLength
    ensures var now := Overwritten(m, item, content); SameOutside(m, now, item) && Holds(now, item, content)
  {
  }

  /** Whatever is ready can be prepared. */
  lemma PreparedExists(plan: LoadPlan, source: SourceAllocation, start: Bytes) returns (m: Bytes)
    requires Ready(plan, source, start)
    ensures Progress(start, m, plan.items, FileIn(start, source), |plan.items|, |plan.items|)
  {
    var file, n := FileIn(start, source), |plan.items|;
    hide Progress, SameOutside, Holds, Packed, OffSource, Fits, FileIn, Zeros, ItemEnd, Image, Overwritten, CopyInRange;
    NoProgress(start, plan.items, file);
    m := start;
    for k := 0 to n
      invariant Progress(start, m, plan.items, file, 0, k)
    {
      ItemInMemory(plan, source, start, k);
      FileDuring(plan, source, start, m, 0, k);
      var zeros := Zeros(plan.items[k].pageLength);
      ZerosLength(plan.items[k].pageLength);
      OverwrittenHolds(m, plan.items[k], zeros);
      ZeroStep(start, m, Overwritten(m, plan.items[k], zeros), plan.items, file, k);
      m := Overwritten(m, plan.items[k], zeros);
    }
    for k := 0 to n
      invariant Progress(start, m, plan.items, file, k, n)
    {
      ItemInMemory(plan, source, start, k);
      FileDuring(plan, source, start, m, k, n);
      var image := Image(plan.items[k], file);
      ImageLength(plan.items[k], file);
      OverwrittenHolds(m, plan.items[k], image);
      CopyStep(start, m, Overwritten(m, plan.items[k], image), plan.items, file, k);
      m := Overwritten(m, plan.items[k], image);
    }
  }

  lemma ZerosLength(n: nat)
    ensures |Zeros(n)| == n
  {
  }

  lemma ImageLength(item: LoadItem, file: Bytes)
    requires Fits(item, file)
    ensures |Image(item, file)| == item.pageLength
  {
  }

  lemma NextIsZero(plan: LoadPlan, source: SourceAllocation, start: Bytes, m: Bytes, k: nat)
    requires Ready(plan, source, start) && k < |plan.items|
    requires Progress(start, m, plan.items, FileIn(start, source), k, |plan.items|)
    ensures Holds(m, plan.items[k], Zeros(plan.items[k].pageLength))
  {
    hide Holds, Image, Zeros, Packed;
  }

  /** Reads every target back; on completed targets it accepts. */
  method VerifyAll(plan: LoadPlan, source: SourceAllocation, memory: array<Byte>, ghost start: Bytes)
    returns (r: Result<(), MemoryError>)
    requires Ready(plan, source, start)
    requires Progress(start, memory[..], plan.items, FileIn(start, source), |plan.items|, |plan.items|)
    ensures r.Ok?
  {
    hide Progress, Holds, Packed, OffSource, Fits, FileIn, ItemEnd, Image, Filled;
    for k := 0 to |plan.items| {
      var item := plan.items[k];
      FileDuring(plan, source, start, memory[..], |plan.items|, |plan.items|);
      ItemInMemory(plan, source, start, k);
      TargetFilled(plan, source, start, memory[..], k);
      r := VerifyTarget(item, FileIn(memory[..], source), memory[..][item.pageStart..ItemEnd(item)]);
      if r.Err? { return; }
    }
    return Ok(());
  }

  lemma TargetFilled(plan: LoadPlan, source: SourceAllocation, start: Bytes, m: Bytes, k: nat)
    requires Ready(plan, source, start) && k < |plan.items|
    requires Progress(start, m, plan.items, FileIn(start, source), |plan.items|, |plan.items|)
    ensures var item := plan.items[k];
      0 <= item.pageStart <= ItemEnd(item) <= |m| &&
      Filled(item, FileIn(start, source), m[item.pageStart..ItemEnd(item)])
  {
    hide Image, Tiled, InWindow, Apart, Filled;
    var item := plan.items[k];
    assert Tiled(item) && Fits(item, FileIn(start, source));
    FilledIsImage(item, FileIn(start, source), m[item.pageStart..ItemEnd(item)]);
  }

  /** Only a failing allocation can stop the preparation. Otherwise every target ends up as its file bytes
      followed by zeros, and the source file and all other memory are untouched. */
  method PrepareTargets(plan: LoadPlan, source: SourceAllocation, memory: array<Byte>, backend: PageBackend,
                        ghost segments: seq<SegmentSpec>)
    returns (r: Result<RangeOwner, WorkFailure>)
    requires PlanOk(plan, segments, source) && SourceInMemory(source, memory.Length) && backend.live == multiset{}
    modifies memory, backend
    ensures r.Ok? ==> r.value.Valid() && r.value.items == Ranges(plan.items) && r.value.backend == backend &&
                      forall i | 0 <= i < r.value.owned.Length :: r.value.owned[i]
    ensures r.Ok? ==> Ready(plan, source, old(memory[..])) &&
                      FileIn(memory[..], source) == FileIn(old(memory[..]), source) &&
                      Progress(old(memory[..]), memory[..], plan.items, FileIn(memory[..], source), |plan.items|,
                        |plan.items|)
    ensures r.Err? ==> r.error.kind == Allocate && memory[..] == old(memory[..]) && r.error.owner.Valid() &&
                       r.error.owner.backend == backend
  {
    ghost var start := memory[..];
    PlannedIsReady(plan, segments, source, start);
    hide PlanOk, Ready, Progress, FileIn, Fits;
    var owner := new RangeOwner(backend, Ranges(plan.items));
    var ok := AllocateAll(owner);
    if !ok { return Err(WorkFailure(Allocate, owner)); }
    ZeroAll(plan, source, memory);
    var copied := CopyAll(plan, source, memory, start);
    if copied.Err? { return Err(WorkFailure(Copy, owner)); }
    var verified := VerifyAll(plan, source, memory, start);
    if verified.Err? { return Err(WorkFailure(Verify, owner)); }
    FileDuring(plan, source, start, memory[..], |plan.items|, |plan.items|);
    return Ok(owner);
  }
}
