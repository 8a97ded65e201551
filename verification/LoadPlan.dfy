/** Planning where the segments of a kernel image go inside the bootstrap window. */
module LoadPlan {
  import opened Prelude
  import opened Counting

  const WINDOW_START: int := 0x0020_0000
  const WINDOW_END: int := 0x0420_0000
  const WINDOW_BYTES: int := 0x0400_0000
  const MAX_LOAD_ITEMS: nat := 128

  datatype SourceAllocation = SourceAllocation(pageStart: U64, pageCount: U64, fileLength: U64)

  datatype SegmentSpec = SegmentSpec(fileOffset: U64, fileSize: U64, memorySize: U64, target: U64, flags: U32)

  datatype LoadItem = LoadItem(
    sourceOffset: U64, fileSize: U64, memorySize: U64, targetStart: U64, targetEnd: U64, pageStart: U64, pageCount: U64,
    flags: U32, bssStart: U64, bssLength: U64, pageLength: U64, copyOffset: U64, paddingStart: U64, paddingLength: U64)

  datatype LoadPlan = LoadPlan(items: seq<LoadItem>, totalPageBytes: U64, entry: U64)

  datatype PlanError =
    | NoSegments | TooManySegments | ZeroMemorySize | UnalignedTarget | SourceRangeOverflow | RangeOverflow
    | PageRoundingOverflow | SourceOutsideFile | BelowWindow | AboveWindow | TotalSizeOverflow | TotalSizeExceeded
    | RoundedOverlap | SourceOverlap | EntryOutsideExecutableSegment

  function PageEnd(s: SourceAllocation): Result<U64, PlanError> {
    if s.pageCount * 4096 >= U64_LIMIT || s.pageStart + s.pageCount * 4096 >= U64_LIMIT then Err(RangeOverflow)
    else Ok(s.pageStart + s.pageCount * 4096)
  }

  function RoundDown(value: U64): U64 { value - value % 4096 }

  function RoundUp(value: U64): Result<U64, PlanError> {
    if value + 4095 >= U64_LIMIT then Err(PageRoundingOverflow) else Ok(RoundDown(value + 4095))
  }

  predicate IsExecutable(item: LoadItem) { item.flags % 2 == 1 }

  function ItemEnd(item: LoadItem): int { item.pageStart + item.pageLength }

  function MakeItem(s: SegmentSpec, sourceLength: U64): Result<LoadItem, PlanError> {
    if s.memorySize == 0 then Err(ZeroMemorySize)
    else if s.target % 4096 != 0 then Err(UnalignedTarget)
    else if s.fileOffset + s.fileSize >= U64_LIMIT then Err(SourceRangeOverflow)
    else if s.fileOffset + s.fileSize > sourceLength then Err(SourceOutsideFile)
    else if s.target + s.memorySize >= U64_LIMIT then Err(RangeOverflow)
    else
      var targetEnd: U64 := s.target + s.memorySize;
      var pageStart := RoundDown(s.target);
      match RoundUp(targetEnd)
      case Err(e) => Err(e)
      case Ok(pageEnd) =>
        if pageEnd < pageStart then Err(RangeOverflow)
        else if (pageEnd - pageStart) / 4096 == 0 then Err(ZeroMemorySize)
        else if s.target + s.fileSize >= U64_LIMIT then Err(RangeOverflow)
        else if s.memorySize < s.fileSize then Err(RangeOverflow)
        else if s.target < pageStart then Err(RangeOverflow)
        else if pageEnd < targetEnd then Err(RangeOverflow)
        else Ok(LoadItem(
          s.fileOffset, s.fileSize, s.memorySize, s.target, targetEnd, pageStart, (pageEnd - pageStart) / 4096,
          s.flags, s.target + s.fileSize, s.memorySize - s.fileSize, pageEnd - pageStart, s.target - pageStart,
          targetEnd, pageEnd - targetEnd))
  }

  /** Whole pages, tiled from the first byte by file bytes, zeroed memory and padding, each inside its page bounds. */
  predicate Tiled(item: LoadItem) {
    item.pageStart % 4096 == 0 && item.pageLength == item.pageCount * 4096 && item.pageCount > 0 &&
    item.copyOffset == 0 && item.targetStart == item.pageStart &&
    item.bssStart == item.targetStart + item.fileSize &&
    item.bssStart + item.bssLength == item.targetEnd == item.paddingStart &&
    item.memorySize == item.fileSize + item.bssLength > 0 &&
    item.paddingStart + item.paddingLength == ItemEnd(item) < U64_LIMIT && item.paddingLength < 4096
  }

  /** What a segment must satisfy by itself. */
  predicate SegmentOk(s: SegmentSpec, sourceLength: U64) {
    0 < s.memorySize && s.fileSize <= s.memorySize && s.target % 4096 == 0 &&
    s.fileOffset + s.fileSize <= sourceLength &&
    s.target + s.memorySize + 4095 < U64_LIMIT
  }

  /** An item exists exactly for such a segment; it tiles its pages and keeps the segment's data. */
  lemma MakeItemExact(s: SegmentSpec, sourceLength: U64)
    ensures MakeItem(s, sourceLength).Ok? <==> SegmentOk(s, sourceLength)
    ensures MakeItem(s, sourceLength).Ok? ==>
      var item := MakeItem(s, sourceLength).value;
      Tiled(item) && item.targetStart == s.target && item.memorySize == s.memorySize && item.fileSize == s.fileSize &&
      item.sourceOffset == s.fileOffset && item.flags == s.flags && item.sourceOffset + item.fileSize <= sourceLength
  {
  }

  // ---- packing

  predicate InWindow(item: LoadItem) { WINDOW_START <= item.pageStart && ItemEnd(item) <= WINDOW_END }

  predicate Apart(a: LoadItem, b: LoadItem) { !RangesOverlap(a.pageStart, ItemEnd(a), b.pageStart, ItemEnd(b)) }

  predicate OffSource(item: LoadItem, source: SourceAllocation) {
    !RangesOverlap(source.pageStart, source.pageStart + source.pageCount * 4096, item.pageStart, ItemEnd(item))
  }

  ghost predicate Packed(items: seq<LoadItem>) {
    (forall i | 0 <= i < |items| :: Tiled(items[i]) && InWindow(items[i])) &&
    forall i, j | 0 <= i < j < |items| :: Apart(items[i], items[j])
  }

  function TotalBytes(items: seq<LoadItem>): nat {
    if items == [] then 0 else TotalBytes(items[..|items| - 1]) + items[|items| - 1].pageLength
  }

  /** The addresses the items occupy. */
  ghost function Occupied(items: seq<LoadItem>): set<int> {
    if items == [] then {} else
      Occupied(items[..|items| - 1]) + Interval(items[|items| - 1].pageStart, ItemEnd(items[|items| - 1]))
  }

  lemma {:induction false} OccupiedBy(items: seq<LoadItem>, x: int)
    ensures x in Occupied(items) <==> exists i :: 0 <= i < |items| && items[i].pageStart <= x < ItemEnd(items[i])
  {
    if items != [] {
      var front := items[..|items| - 1];
      OccupiedBy(front, x);
      if i :| 0 <= i < |items| && items[i].pageStart <= x < ItemEnd(items[i]) {
        if i < |front| { assert front[i].pageStart <= x < ItemEnd(front[i]); }
      }
      if i :| 0 <= i < |front| && front[i].pageStart <= x < ItemEnd(front[i]) {
        assert items[i].pageStart <= x < ItemEnd(items[i]);
      }
    }
  }

  lemma DisjointSize<T>(a: set<T>, b: set<T>)
    requires a !! b
    ensures |a + b| == |a| + |b|
  {
  }

  /** Disjoint items occupy as many addresses as their lengths add up to. */
  lemma {:induction false} OccupiedSize(items: seq<LoadItem>)
    requires Packed(items)
    ensures |Occupied(items)| == TotalBytes(items)
  {
    hide Tiled, InWindow;
    if items != [] {
      var front, last := items[..|items| - 1], items[|items| - 1];
      OccupiedSize(front);
      var a, b := Occupied(front), Interval(last.pageStart, ItemEnd(last));
      forall x | x in b ensures x !in a {
        OccupiedBy(front, x);
        forall i | 0 <= i < |front| ensures !(front[i].pageStart <= x < ItemEnd(front[i])) {
          assert Apart(items[i], last);
        }
      }
      DisjointSize(a, b);
    }
  }

  /** Packing: disjoint items inside the window never exceed it, so the total-size check cannot fire. */
  lemma PackedFits(items: seq<LoadItem>)
    requires Packed(items)
    ensures TotalBytes(items) <= WINDOW_BYTES
  {
    OccupiedSize(items);
    var window := Interval(WINDOW_START, WINDOW_END);
    forall x | x in Occupied(items) ensures x in window {
      OccupiedBy(items, x);
      var i :| 0 <= i < |items| && items[i].pageStart <= x < ItemEnd(items[i]);
      assert InWindow(items[i]);
    }
    assert Occupied(items) <= window;
    SubsetSize(Occupied(items), window);
  }

  // ---- building a plan

  predicate HasEntry(item: LoadItem, entry: U64) { IsExecutable(item) && item.targetStart <= entry < item.targetEnd }

  ghost predicate ItemsFor(items: seq<LoadItem>, segments: seq<SegmentSpec>, source: SourceAllocation) {
    |items| == |segments| && forall i | 0 <= i < |items| :: MakeItem(segments[i], source.fileLength) == Ok(items[i])
  }

  ghost predicate PlanOk(plan: LoadPlan, segments: seq<SegmentSpec>, source: SourceAllocation) {
    0 < |plan.items| <= MAX_LOAD_ITEMS && ItemsFor(plan.items, segments, source) && Packed(plan.items) &&
    (forall i | 0 <= i < |plan.items| :: OffSource(plan.items[i], source)) &&
    plan.totalPageBytes == TotalBytes(plan.items) &&
    exists i :: 0 <= i < |plan.items| && HasEntry(plan.items[i], plan.entry)
  }

  /** Segment `i` can be placed after those before it. */
  ghost predicate Placeable(segments: seq<SegmentSpec>, source: SourceAllocation, i: nat)
    requires i < |segments|
  {
    i < MAX_LOAD_ITEMS && SegmentOk(segments[i], source.fileLength) && WINDOW_START <= segments[i].target &&
    SegmentEnd(segments[i]) <= WINDOW_END && SegmentOffSource(segments[i], source) &&
    forall j | 0 <= j < i :: SegmentsApart(segments[j], segments[i])
  }

  /** The end of a segment's last page. */
  function SegmentEnd(s: SegmentSpec): int { RoundedUp(s.target + s.memorySize) }

  predicate SegmentsApart(a: SegmentSpec, b: SegmentSpec) {
    !RangesOverlap(a.target, SegmentEnd(a), b.target, SegmentEnd(b))
  }

  predicate SegmentOffSource(s: SegmentSpec, source: SourceAllocation) {
    !RangesOverlap(source.pageStart, source.pageStart + source.pageCount * 4096, s.target, SegmentEnd(s))
  }

  ghost predicate AllPlaceable(segments: seq<SegmentSpec>, source: SourceAllocation) {
    forall i | 0 <= i < |segments| :: Placeable(segments, source, i)
  }

  predicate SegmentHasEntry(s: SegmentSpec, entry: U64) {
    s.flags % 2 == 1 && s.target <= entry < s.target + s.memorySize
  }

  ghost predicate Buildable(entry: U64, segments: seq<SegmentSpec>, source: SourceAllocation) {
    PageEnd(source).Ok? && segments != [] && AllPlaceable(segments, source) &&
    exists i :: 0 <= i < |segments| && SegmentHasEntry(segments[i], entry)
  }

  /** Why segment `k` cannot be placed: the condition behind each error. */
  ghost predicate Explains(e: PlanError, segments: seq<SegmentSpec>, source: SourceAllocation, k: nat)
    requires k < |segments|
  {
    var s := segments[k];
    match e
    case TooManySegments => k >= MAX_LOAD_ITEMS
    case BelowWindow => s.target < WINDOW_START
    case AboveWindow => SegmentEnd(s) > WINDOW_END
    case RoundedOverlap => exists j :: 0 <= j < k && !SegmentsApart(segments[j], s)
    case SourceOverlap => !SegmentOffSource(s, source)
    case _ => SegmentFault(e, s, source.fileLength)
  }

  /** Why a segment is unacceptable by itself. */
  predicate SegmentFault(e: PlanError, s: SegmentSpec, sourceLength: U64) {
    match e
    case ZeroMemorySize => s.memorySize == 0
    case UnalignedTarget => s.target % 4096 != 0
    case SourceRangeOverflow => s.fileOffset + s.fileSize >= U64_LIMIT
    case SourceOutsideFile => s.fileOffset + s.fileSize > sourceLength
    case RangeOverflow => s.target + s.memorySize >= U64_LIMIT || s.fileSize > s.memorySize
    case PageRoundingOverflow => s.target + s.memorySize + 4095 >= U64_LIMIT
    case _ => false
  }

  /** Why a whole plan is refused. */
  ghost predicate PlanFault(e: PlanError, entry: U64, segments: seq<SegmentSpec>, source: SourceAllocation) {
    (e == RangeOverflow && PageEnd(source).Err?) || (e == NoSegments && segments == []) ||
    (e == EntryOutsideExecutableSegment && forall i | 0 <= i < |segments| :: !SegmentHasEntry(segments[i], entry)) ||
    exists k :: 0 <= k < |segments| && Explains(e, segments, source, k)
  }

  lemma ItemEndIs(s: SegmentSpec, sourceLength: U64)
    requires SegmentOk(s, sourceLength)
    ensures MakeItem(s, sourceLength).Ok? && ItemEnd(MakeItem(s, sourceLength).value) == SegmentEnd(s)
  {
  }

  /** The rounded page range stays clear of every earlier item. */
  method FindOverlap(items: seq<LoadItem>, item: LoadItem) returns (r: Result<bool, PlanError>)
    requires forall i | 0 <= i < |items| :: Tiled(items[i])
    ensures r.Ok? && (r.value <==> exists i :: 0 <= i < |items| && !Apart(items[i], item))
  {
    hide Tiled;
    for k := 0 to |items|
      invariant forall i | 0 <= i < k :: Apart(items[i], item)
    {
      TiledEnd(items[k]);
      if items[k].pageStart + items[k].pageLength >= U64_LIMIT { return Err(RangeOverflow); }
      if RangesOverlap(items[k].pageStart, ItemEnd(items[k]), item.pageStart, ItemEnd(item)) { return Ok(true); }
    }
    return Ok(false);
  }

  lemma TiledEnd(item: LoadItem)
    requires Tiled(item)
    ensures ItemEnd(item) < U64_LIMIT
  {
  }

  /** The items so far are those of the first `k` segments, packed and off the source. */
  ghost predicate PlacedUpTo(items: seq<LoadItem>, segments: seq<SegmentSpec>, source: SourceAllocation, k: nat) {
    k <= |segments| && |items| == k <= MAX_LOAD_ITEMS && ItemsFor(items, segments[..k], source) && Packed(items) &&
    (forall i | 0 <= i < k :: OffSource(items[i], source)) && forall i | 0 <= i < k :: Placeable(segments, source, i)
  }

  lemma PlaceNext(items: seq<LoadItem>, segments: seq<SegmentSpec>, source: SourceAllocation, k: nat, item: LoadItem)
    requires PlacedUpTo(items, segments, source, k) && k < |segments| && k < MAX_LOAD_ITEMS
    requires MakeItem(segments[k], source.fileLength) == Ok(item)
    ensures Placeable(segments, source, k) <==>
            InWindow(item) && OffSource(item, source) && forall i | 0 <= i < k :: Apart(items[i], item)
    ensures Placeable(segments, source, k) ==> PlacedUpTo(items + [item], segments, source, k + 1)
  {
    hide MakeItem, Tiled, SegmentOk;
    MakeItemExact(segments[k], source.fileLength);
    ItemEndIs(segments[k], source.fileLength);
    TiledStart(item);
    forall i | 0 <= i < k ensures Apart(items[i], item) == SegmentsApart(segments[i], segments[k]) {
      assert segments[..k][i] == segments[i];
      MakeItemExact(segments[i], source.fileLength);
      ItemEndIs(segments[i], source.fileLength);
      TiledStart(items[i]);
    }
    assert forall i | 0 <= i < k :: segments[..k + 1][i] == segments[..k][i];
  }

  lemma TiledStart(item: LoadItem)
    requires Tiled(item)
    ensures item.pageStart == item.targetStart
  {
  }

  /** Places one segment after the earlier items, in the order of the source's checks. */
  method PlaceSegment(items: seq<LoadItem>, segments: seq<SegmentSpec>, source: SourceAllocation, k: nat)
    returns (r: Result<LoadItem, PlanError>)
    requires PlacedUpTo(items, segments, source, k) && k < |segments| && PageEnd(source).Ok?
    ensures r.Ok? <==> Placeable(segments, source, k)
    ensures r.Ok? ==> PlacedUpTo(items + [r.value], segments, source, k + 1)
    ensures r.Err? ==> Explains(r.error, segments, source, k)
  {
    hide *;
    PlacedMeans(items, segments, source, k);
    ExplainMeans(items, segments, source, k);
    if |items| == MAX_LOAD_ITEMS { return Err(TooManySegments); }
    MakeItemExact(segments[k], source.fileLength);
    match MakeItem(segments[k], source.fileLength)
    case Err(e) => return Err(e);
    case Ok(item) =>
      PlaceNext(items, segments, source, k, item);
      TiledEnd(item);
      WindowMeans(item, source);
      if item.pageStart < WINDOW_START { return Err(BelowWindow); }
      if item.pageStart + item.pageLength >= U64_LIMIT { return Err(RangeOverflow); }
      if ItemEnd(item) > WINDOW_END { return Err(AboveWindow); }
      var overlap := FindOverlap(items, item);
      match overlap
      case Err(e) => return Err(e);
      case Ok(found) =>
        if found { return Err(RoundedOverlap); }
        if !OffSource(item, source) { return Err(SourceOverlap); }
        return Ok(item);
  }

  lemma PlacedMeans(items: seq<LoadItem>, segments: seq<SegmentSpec>, source: SourceAllocation, k: nat)
    requires PlacedUpTo(items, segments, source, k)
    ensures |items| == k <= MAX_LOAD_ITEMS && Packed(items) && forall i | 0 <= i < |items| :: Tiled(items[i])
    ensures k < |segments| ==> (Placeable(segments, source, k) ==>
      k < MAX_LOAD_ITEMS && SegmentOk(segments[k], source.fileLength))
  {
    hide MakeItem, Tiled, SegmentOk;
  }

  lemma WindowMeans(item: LoadItem, source: SourceAllocation)
    ensures InWindow(item) <==> WINDOW_START <= item.pageStart && ItemEnd(item) <= WINDOW_END
    ensures ItemEnd(item) == item.pageStart + item.pageLength
  {
  }

  lemma MakeItemErrors(s: SegmentSpec, sourceLength: U64)
    ensures MakeItem(s, sourceLength).Err? ==> SegmentFault(MakeItem(s, sourceLength).error, s, sourceLength)
  {
  }

  /** The condition behind each error, in terms of the item made from the segment. */
  lemma ExplainMeans(items: seq<LoadItem>, segments: seq<SegmentSpec>, source: SourceAllocation, k: nat)
    requires PlacedUpTo(items, segments, source, k) && k < |segments|
    ensures k >= MAX_LOAD_ITEMS ==> Explains(TooManySegments, segments, source, k)
    ensures match MakeItem(segments[k], source.fileLength)
      case Err(e) => Explains(e, segments, source, k)
      case Ok(item) =>
        (item.pageStart < WINDOW_START ==> Explains(BelowWindow, segments, source, k)) &&
        (ItemEnd(item) > WINDOW_END ==> Explains(AboveWindow, segments, source, k)) &&
        (!OffSource(item, source) ==> Explains(SourceOverlap, segments, source, k)) &&
        forall i | 0 <= i < k && !Apart(items[i], item) :: Explains(RoundedOverlap, segments, source, k)
  {
    hide Tiled, SegmentOk, Packed, Placeable, SegmentFault;
    MakeItemErrors(segments[k], source.fileLength);
    MakeItemExact(segments[k], source.fileLength);
    match MakeItem(segments[k], source.fileLength)
    case Err(e) => FaultExplains(e, segments, source, k);
    case Ok(item) =>
      ItemEndIs(segments[k], source.fileLength);
      TiledStart(item);
      forall i | 0 <= i < k && !Apart(items[i], item) ensures Explains(RoundedOverlap, segments, source, k) {
        EarlierOverlap(items, segments, source, k, item, i);
      }
  }

  lemma FaultExplains(e: PlanError, segments: seq<SegmentSpec>, source: SourceAllocation, k: nat)
    requires k < |segments| && SegmentFault(e, segments[k], source.fileLength)
    ensures Explains(e, segments, source, k)
  {
  }

  lemma EarlierOverlap(items: seq<LoadItem>, segments: seq<SegmentSpec>, source: SourceAllocation, k: nat,
                       item: LoadItem, i: nat)
    requires PlacedUpTo(items, segments, source, k) && k < |segments| && i < k
    requires MakeItem(segments[k], source.fileLength) == Ok(item) && !Apart(items[i], item)
    ensures Explains(RoundedOverlap, segments, source, k)
  {
    hide MakeItem, Tiled, SegmentOk, Packed, Placeable;
    MakeItemExact(segments[k], source.fileLength);
    ItemEndIs(segments[k], source.fileLength);
    TiledStart(item);
    assert segments[..k][i] == segments[i];
    MakeItemExact(segments[i], source.fileLength);
    ItemEndIs(segments[i], source.fileLength);
    TiledStart(items[i]);
    assert !SegmentsApart(segments[i], segments[k]);
  }

  lemma FaultMeans(e: PlanError, entry: U64, segments: seq<SegmentSpec>, source: SourceAllocation)
    ensures PageEnd(source).Err? ==> PlanFault(RangeOverflow, entry, segments, source)
    ensures segments == [] ==> PlanFault(NoSegments, entry, segments, source)
    ensures !(exists i :: 0 <= i < |segments| && SegmentHasEntry(segments[i], entry)) ==>
              PlanFault(EntryOutsideExecutableSegment, entry, segments, source)
    ensures forall k | 0 <= k < |segments| && Explains(e, segments, source, k) :: PlanFault(e, entry, segments, source)
    ensures PlanFault(e, entry, segments, source) ==> e != TotalSizeExceeded && e != TotalSizeOverflow
  {
    hide SegmentHasEntry, SegmentFault, PageEnd;
    if k :| 0 <= k < |segments| && Explains(e, segments, source, k) {
      FaultNotTotal(e, segments[k], source.fileLength);
    }
  }

  lemma FaultNotTotal(e: PlanError, s: SegmentSpec, sourceLength: U64)
    ensures SegmentFault(e, s, sourceLength) ==> e != TotalSizeExceeded && e != TotalSizeOverflow
  {
  }

  lemma TotalSnoc(items: seq<LoadItem>, item: LoadItem)
    ensures TotalBytes(items + [item]) == TotalBytes(items) + item.pageLength
  {
    assert (items + [item])[..|items|] == items;
  }

  /** Accepts exactly the segment lists that can be placed, and never for lack of total size. */
  method Build(entry: U64, segments: seq<SegmentSpec>, source: SourceAllocation)
    returns (r: Result<LoadPlan, PlanError>)
    ensures r.Ok? <==> Buildable(entry, segments, source)
    ensures r.Ok? ==> PlanOk(r.value, segments, source) && r.value.entry == entry
    ensures r.Err? ==> PlanFault(r.error, entry, segments, source)
    ensures r.Err? ==> r.error != TotalSizeExceeded && r.error != TotalSizeOverflow
  {
    hide *;
    BuildableMeans(entry, segments, source);
    match PageEnd(source)
    case Err(e) =>
      PageEndErrors(source);
      FaultMeans(e, entry, segments, source);
      return Err(e);
    case Ok(_) =>
      var items: seq<LoadItem>, total: U64 := [], 0;
      NothingPlaced(segments, source);
      for k := 0 to |segments|
        invariant PlacedUpTo(items, segments, source, k) && total == TotalBytes(items)
      {
        var place := PlaceSegment(items, segments, source, k);
        match place
        case Err(e) =>
          FaultMeans(e, entry, segments, source);
          return Err(e);
        case Ok(item) =>
          TotalSnoc(items, item);
          PlacedMeans(items + [item], segments, source, k + 1);
          PackedFits(items + [item]);
          WindowSmall();
          if total + item.pageLength >= U64_LIMIT { return Err(TotalSizeOverflow); }
          total := total + item.pageLength;
          if total > WINDOW_BYTES { return Err(TotalSizeExceeded); }
          items := items + [item];
      }
      FaultMeans(NoSegments, entry, segments, source);
      if items == [] { PlacedMeans(items, segments, source, |segments|); return Err(NoSegments); }
      var found := FindEntry(items, entry);
      EntryItems(items, segments, source, entry);
      if !found { return Err(EntryOutsideExecutableSegment); }
      PlanMeans(LoadPlan(items, total, entry), segments, source);
      return Ok(LoadPlan(items, total, entry));
  }

  lemma WindowSmall()
    ensures WINDOW_BYTES < U64_LIMIT == 0x1_0000_0000_0000_0000
  {
  }

  /** Whatever is buildable has a plan. */
  lemma PlanExists(entry: U64, segments: seq<SegmentSpec>, source: SourceAllocation) returns (plan: LoadPlan)
    requires Buildable(entry, segments, source)
    ensures PlanOk(plan, segments, source) && plan.entry == entry
  {
    hide *;
    BuildableMeans(entry, segments, source);
    NothingPlaced(segments, source);
    var items: seq<LoadItem> := [];
    for k := 0 to |segments|
      invariant PlacedUpTo(items, segments, source, k)
    {
      PlacedMeans(items, segments, source, k);
      MakeItemExact(segments[k], source.fileLength);
      var item := MakeItem(segments[k], source.fileLength).value;
      PlaceNext(items, segments, source, k, item);
      items := items + [item];
    }
    PlacedMeans(items, segments, source, |segments|);
    PackedFits(items);
    WindowSmall();
    EntryItems(items, segments, source, entry);
    plan := LoadPlan(items, TotalBytes(items), entry);
    PlanMeans(plan, segments, source);
  }

  lemma PageEndErrors(source: SourceAllocation)
    ensures PageEnd(source).Err? ==> PageEnd(source).error == RangeOverflow
  {
  }

  lemma NothingPlaced(segments: seq<SegmentSpec>, source: SourceAllocation)
    ensures PlacedUpTo([], segments, source, 0) && TotalBytes([]) == 0
  {
  }

  lemma BuildableMeans(entry: U64, segments: seq<SegmentSpec>, source: SourceAllocation)
    ensures Buildable(entry, segments, source) <==>
      PageEnd(source).Ok? && segments != [] && (forall i | 0 <= i < |segments| :: Placeable(segments, source, i)) &&
      exists i :: 0 <= i < |segments| && SegmentHasEntry(segments[i], entry)
  {
    hide Placeable;
  }

  method FindEntry(items: seq<LoadItem>, entry: U64) returns (found: bool)
    ensures found <==> exists i :: 0 <= i < |items| && HasEntry(items[i], entry)
  {
    for k := 0 to |items|
      invariant forall i | 0 <= i < k :: !HasEntry(items[i], entry)
    {
      if HasEntry(items[k], entry) { return true; }
    }
    return false;
  }

  lemma EntryItems(items: seq<LoadItem>, segments: seq<SegmentSpec>, source: SourceAllocation, entry: U64)
    requires PlacedUpTo(items, segments, source, |segments|)
    ensures (exists i :: 0 <= i < |items| && HasEntry(items[i], entry)) <==>
            exists i :: 0 <= i < |segments| && SegmentHasEntry(segments[i], entry)
    ensures forall i | 0 <= i < |segments| :: Placeable(segments, source, i)
  {
    hide MakeItem, Placeable, Packed, SegmentOk;
    assert segments[..|segments|] == segments;
    forall i | 0 <= i < |items| ensures HasEntry(items[i], entry) == SegmentHasEntry(segments[i], entry) {
      MakeItemExact(segments[i], source.fileLength);
    }
  }

  lemma PlanMeans(plan: LoadPlan, segments: seq<SegmentSpec>, source: SourceAllocation)
    requires PlacedUpTo(plan.items, segments, source, |segments|) && plan.items != [] &&
      plan.totalPageBytes == TotalBytes(plan.items)
    requires exists i :: 0 <= i < |plan.items| && HasEntry(plan.items[i], plan.entry)
    ensures PlanOk(plan, segments, source)
  {
    hide MakeItem, Placeable, Packed, TotalBytes;
    assert segments[..|segments|] == segments;
  }

  // ---- the loaded kernel

  datatype SegmentMetadata = SegmentMetadata(
    memoryStart: U64, memoryEnd: U64, allocationStart: U64, allocationEnd: U64, pageCount: U64, flags: U32,
    fileSize: U64, memorySize: U64)

  datatype LoadedKernel = LoadedKernel(
    entryPoint: U64, loadStart: U64, loadEnd: U64, segments: seq<SegmentMetadata>, totalPages: U64,
    entrySegmentIndex: nat)

  function Metadata(item: LoadItem): SegmentMetadata
    requires ItemEnd(item) < U64_LIMIT
  {
    SegmentMetadata(item.targetStart, item.targetEnd, item.pageStart, ItemEnd(item), item.pageCount, item.flags,
      item.fileSize, item.memorySize)
  }

  /** The smallest range that contains every allocation. */
  ghost predicate Hull(items: seq<LoadItem>, start: int, end: int) {
    (exists i :: 0 <= i < |items| && items[i].pageStart == start) &&
    (exists i :: 0 <= i < |items| && ItemEnd(items[i]) == end) &&
    forall i | 0 <= i < |items| :: start <= items[i].pageStart && ItemEnd(items[i]) <= end
  }

  ghost predicate LoadedOk(k: LoadedKernel, plan: LoadPlan) {
    k.entryPoint == plan.entry && Hull(plan.items, k.loadStart, k.loadEnd) &&
    k.totalPages * 4096 == plan.totalPageBytes &&
    |k.segments| == |plan.items| && (forall i | 0 <= i < |plan.items| ::
      ItemEnd(plan.items[i]) < U64_LIMIT && k.segments[i] == Metadata(plan.items[i])) &&
    k.entrySegmentIndex < |plan.items| &&
    forall i | 0 <= i < |plan.items| :: HasEntry(plan.items[i], plan.entry) <==> i == k.entrySegmentIndex
  }

  lemma NotBoth(a: LoadItem, b: LoadItem, entry: U64)
    requires Tiled(a) && Tiled(b) && Apart(a, b) && HasEntry(a, entry)
    ensures !HasEntry(b, entry)
  {
  }

  lemma ApartSymmetric(a: LoadItem, b: LoadItem)
    ensures Apart(a, b) == Apart(b, a)
  {
  }

  /** Disjoint items cannot both hold the entry point. */
  lemma EntryUnique(items: seq<LoadItem>, entry: U64, i: nat)
    requires Packed(items) && i < |items| && HasEntry(items[i], entry)
    ensures forall j | 0 <= j < |items| :: HasEntry(items[j], entry) <==> j == i
  {
    hide HasEntry, Tiled, InWindow, Apart;
    forall j | 0 <= j < |items| && j != i ensures !HasEntry(items[j], entry) {
      ApartSymmetric(items[i], items[j]);
      NotBoth(items[i], items[j], entry);
    }
  }

  lemma PrefixPacked(items: seq<LoadItem>, k: nat)
    requires Packed(items) && k < |items|
    ensures Packed(items[..k]) && TotalBytes(items[..k + 1]) == TotalBytes(items[..k]) + items[k].pageCount * 4096
    ensures TotalBytes(items[..k + 1]) <= WINDOW_BYTES && ItemEnd(items[k]) <= WINDOW_END
  {
    hide TotalBytes;
    assert items[..k + 1] == items[..k] + [items[k]];
    TotalSnoc(items[..k], items[k]);
    assert Tiled(items[k]) && InWindow(items[k]);
    PackedFits(items[..k + 1]);
  }

  method FromVerified(plan: LoadPlan, ghost segments: seq<SegmentSpec>, ghost source: SourceAllocation)
    returns (r: LoadedKernel)
    requires PlanOk(plan, segments, source)
    ensures LoadedOk(r, plan)
  {
    hide MakeItem, ItemsFor, Tiled, TotalBytes, InWindow, Metadata, HasEntry, Apart, Packed, OffSource;
    hide Hull;
    var metadata: seq<SegmentMetadata> := [];
    var loadStart: U64, loadEnd: U64 := 0xffff_ffff_ffff_ffff, 0;
    var totalPages: U64, entryIndex: nat := 0, 0;
    EmptyTotal();
    for k := 0 to |plan.items|
      invariant |metadata| == k
      invariant forall i | 0 <= i < k :: ItemEnd(plan.items[i]) < U64_LIMIT && metadata[i] == Metadata(plan.items[i])
      invariant if k == 0 then loadStart == 0xffff_ffff_ffff_ffff && loadEnd == 0
        else Hull(plan.items[..k], loadStart, loadEnd)
      invariant totalPages * 4096 == TotalBytes(plan.items[..k])
      invariant (exists i :: 0 <= i < k && HasEntry(plan.items[i], plan.entry)) ==>
        entryIndex < k && HasEntry(plan.items[entryIndex], plan.entry)
    {
      var item := plan.items[k];
      PrefixPacked(plan.items, k);
      var allocationEnd: U64 := ItemEnd(item);
      metadata := metadata + [Metadata(item)];
      HullStep(plan.items, k, loadStart, loadEnd);
      if item.pageStart < loadStart { loadStart := item.pageStart; }
      if loadEnd < allocationEnd { loadEnd := allocationEnd; }
      totalPages := totalPages + item.pageCount;
      if HasEntry(item, plan.entry) { entryIndex := k; }
    }
    assert plan.items[..|plan.items|] == plan.items;
    EntryUnique(plan.items, plan.entry, entryIndex);
    return LoadedKernel(plan.entry, loadStart, loadEnd, metadata, totalPages, entryIndex);
  }

  lemma EmptyTotal()
    ensures TotalBytes([]) == 0
  {
  }

  lemma HullStep(items: seq<LoadItem>, k: nat, start: U64, end: U64)
    requires k < |items| && ItemEnd(items[k]) < U64_LIMIT
    requires if k == 0 then start == 0xffff_ffff_ffff_ffff && end == 0 else Hull(items[..k], start, end)
    ensures Hull(items[..k + 1], Min(start, items[k].pageStart), Max(end, ItemEnd(items[k])))
  {
    var now := items[..k + 1];
    assert now == items[..k] + [items[k]];
    assert now[k] == items[k];
    if k > 0 {
      var i :| 0 <= i < k && items[..k][i].pageStart == start;
      var j :| 0 <= j < k && ItemEnd(items[..k][j]) == end;
      assert now[i] == items[..k][i] && now[j] == items[..k][j];
    }
  }
}
