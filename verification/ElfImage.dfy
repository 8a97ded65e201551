/** Accepting a whole image: its load segments, their ranges and the entry point. */
module ElfImage {
  import opened Prelude
  import MappingPlan
  import opened Elf

  predicate IsPowerOfTwo(n: nat) { n == 1 || (n > 1 && n % 2 == 0 && IsPowerOfTwo(n / 2)) }

  predicate Executable(p: ProgramHeader) { p.flags % 2 == 1 }

  predicate Writable(p: ProgramHeader) { p.flags / 2 % 2 == 1 }

  function PhysicalEnd(p: ProgramHeader): int { p.physicalAddress + p.memorySize }

  function VirtualEnd(p: ProgramHeader): int { p.virtualAddress + p.memorySize }

  function ValidateLoadSegment(b: File, p: ProgramHeader): Result<(U64, U64), ValidationError> {
    if p.memorySize == 0 then Err(ZeroLengthLoadSegment)
    else if p.fileSize > p.memorySize then Err(FileSizeExceedsMemorySize)
    else if p.fileOffset + p.fileSize >= U64_LIMIT then Err(SegmentFileRangeOverflow)
    else if p.fileOffset + p.fileSize > |b| then Err(SegmentOutsideFile)
    else if PhysicalEnd(p) >= U64_LIMIT then Err(SegmentMemoryRangeOverflow)
    else if VirtualEnd(p) >= U64_LIMIT then Err(SegmentMemoryRangeOverflow)
    else if !MappingPlan.IsCanonical(p.virtualAddress) || !MappingPlan.IsCanonical(VirtualEnd(p) - 1) then
      Err(NonCanonicalAddress)
    else if p.alignment > 1 && !IsPowerOfTwo(p.alignment) then Err(InvalidAlignment)
    else if p.alignment > 1 && p.fileOffset % p.alignment != p.virtualAddress % p.alignment then
      Err(InvalidOffsetAddressCongruence)
    else if Writable(p) && Executable(p) then Err(WritableExecutableSegment)
    else Ok((PhysicalEnd(p), VirtualEnd(p)))
  }

  predicate LoadOk(b: File, p: ProgramHeader) {
    0 < p.memorySize && p.fileSize <= p.memorySize && p.fileOffset + p.fileSize <= |b| &&
    PhysicalEnd(p) < U64_LIMIT && VirtualEnd(p) < U64_LIMIT &&
    MappingPlan.IsCanonical(p.virtualAddress) && MappingPlan.IsCanonical(VirtualEnd(p) - 1) &&
    (p.alignment > 1 ==> IsPowerOfTwo(p.alignment) && p.fileOffset % p.alignment == p.virtualAddress % p.alignment) &&
    !(Writable(p) && Executable(p))
  }

  lemma LoadSegmentExact(b: File, p: ProgramHeader)
    ensures ValidateLoadSegment(b, p).Ok? <==> LoadOk(b, p)
    ensures LoadOk(b, p) ==> ValidateLoadSegment(b, p) == Ok((PhysicalEnd(p), VirtualEnd(p)))
  {
    hide IsPowerOfTwo;
  }

  // ---- the load segments of an image

  function HeaderAt(b: File, h: RawHeader, i: nat): ProgramHeader
    requires TablePresent(b, h) && i < h.programCount
  {
    HeaderPresent(b, h, i);
    ProgramHeaderAt(b, h, i).value
  }

  /** The load segments among the first `n` program headers, in table order. */
  function Loads(b: File, h: RawHeader, n: nat): seq<ProgramHeader>
    requires TablePresent(b, h) && n <= h.programCount
  {
    if n == 0 then []
    else Loads(b, h, n - 1) + if HeaderAt(b, h, n - 1).kind == PT_LOAD then [HeaderAt(b, h, n - 1)] else []
  }

  predicate PhysicallyApart(p: ProgramHeader, q: ProgramHeader) {
    !RangesOverlap(p.physicalAddress, PhysicalEnd(p), q.physicalAddress, PhysicalEnd(q))
  }

  predicate VirtuallyApart(p: ProgramHeader, q: ProgramHeader) {
    !RangesOverlap(p.virtualAddress, VirtualEnd(p), q.virtualAddress, VirtualEnd(q))
  }

  ghost predicate ClearOf(s: seq<ProgramHeader>, p: ProgramHeader) {
    forall i | 0 <= i < |s| :: PhysicallyApart(s[i], p) && VirtuallyApart(s[i], p)
  }

  ghost predicate AllLoadOk(b: File, s: seq<ProgramHeader>) { forall i | 0 <= i < |s| :: LoadOk(b, s[i]) }

  ghost predicate AllApart(s: seq<ProgramHeader>) {
    forall i, j | 0 <= i < j < |s| :: PhysicallyApart(s[i], s[j]) && VirtuallyApart(s[i], s[j])
  }

  predicate Forbidden(kind: U32) { kind == PT_INTERP || kind == PT_DYNAMIC || kind == PT_TLS }

  ghost predicate HeaderAccepted(b: File, h: RawHeader, i: nat)
    requires TablePresent(b, h) && i < h.programCount
  {
    var p := HeaderAt(b, h, i);
    !Forbidden(p.kind) && (p.kind == PT_LOAD ==> LoadOk(b, p) && ClearOf(Loads(b, h, i), p))
  }

  ghost predicate HeadersAccepted(b: File, h: RawHeader, n: nat)
    requires TablePresent(b, h) && n <= h.programCount
  {
    forall i | 0 <= i < n :: HeaderAccepted(b, h, i)
  }

  lemma {:induction false} LoadsAccepted(b: File, h: RawHeader, n: nat)
    requires TablePresent(b, h) && n <= h.programCount && HeadersAccepted(b, h, n)
    ensures AllLoadOk(b, Loads(b, h, n)) && AllApart(Loads(b, h, n)) && |Loads(b, h, n)| <= n
  {
    hide LoadOk, PhysicallyApart, VirtuallyApart, HeaderAt;
    if n > 0 {
      LoadsAccepted(b, h, n - 1);
      assert HeaderAccepted(b, h, n - 1);
    }
  }

  /** The error of the first segment in the way: a physical overlap is seen before a virtual one. */
  ghost predicate OverlapFault(e: ValidationError, s: seq<ProgramHeader>, p: ProgramHeader) {
    exists i :: 0 <= i < |s| && ClearOf(s[..i], p) && OverlapError(s[i], p) == Some(e)
  }

  function OverlapError(p: ProgramHeader, q: ProgramHeader): Option<ValidationError> {
    if !PhysicallyApart(p, q) then Some(OverlappingLoadSegments)
    else if !VirtuallyApart(p, q) then Some(OverlappingVirtualLoadSegments)
    else None
  }

  /** Compares a load segment with every earlier one. */
  method CheckOverlaps(b: File, h: RawHeader, index: nat, p: ProgramHeader) returns (r: Result<(), ValidationError>)
    requires TablePresent(b, h) && index < h.programCount && HeadersAccepted(b, h, index)
    ensures r.Ok? <==> ClearOf(Loads(b, h, index), p)
    ensures r.Err? ==> OverlapFault(r.error, Loads(b, h, index), p)
  {
    hide LoadOk, ProgramHeaderAt, HeaderAt, Loads, PhysicallyApart, VirtuallyApart, HeaderAccepted, OverlapFault;
    NoLoads(b, h, p);
    for j := 0 to index
      invariant ClearOf(Loads(b, h, j), p)
    {
      ClearStep(b, h, j, p);
      ClearPrefix(b, h, j + 1, index, p);
      OverlapAt(b, h, j, index, p);
      HeaderIs(b, h, j);
      match ProgramHeaderAt(b, h, j)
      case None => return Err(ProgramHeaderTableOutsideFile);
      case Some(previous) =>
        if previous.kind == PT_LOAD {
          if PhysicalEnd(previous) >= U64_LIMIT { return Err(SegmentMemoryRangeOverflow); }
          if !PhysicallyApart(previous, p) { return Err(OverlappingLoadSegments); }
          if VirtualEnd(previous) >= U64_LIMIT { return Err(SegmentMemoryRangeOverflow); }
          if !VirtuallyApart(previous, p) { return Err(OverlappingVirtualLoadSegments); }
        }
    }
    return Ok(());
  }

  lemma NoLoads(b: File, h: RawHeader, p: ProgramHeader)
    requires TablePresent(b, h)
    ensures Loads(b, h, 0) == [] && ClearOf(Loads(b, h, 0), p)
  {
  }

  lemma HeaderIs(b: File, h: RawHeader, i: nat)
    requires TablePresent(b, h) && i < h.programCount
    ensures ProgramHeaderAt(b, h, i) == Some(HeaderAt(b, h, i))
  {
    HeaderPresent(b, h, i);
  }

  lemma ClearStep(b: File, h: RawHeader, j: nat, p: ProgramHeader)
    requires TablePresent(b, h) && j < h.programCount && HeadersAccepted(b, h, j + 1) && ClearOf(Loads(b, h, j), p)
    ensures var q := HeaderAt(b, h, j);
      (ClearOf(Loads(b, h, j + 1), p) <==> (q.kind == PT_LOAD ==> PhysicallyApart(q, p) && VirtuallyApart(q, p))) &&
      (q.kind == PT_LOAD ==> PhysicalEnd(q) < U64_LIMIT && VirtualEnd(q) < U64_LIMIT)
  {
    hide PhysicallyApart, VirtuallyApart, HeaderAt;
    assert HeaderAccepted(b, h, j);
    var s, q := Loads(b, h, j), HeaderAt(b, h, j);
    if q.kind == PT_LOAD { assert Loads(b, h, j + 1)[|s|] == q; }
  }

  lemma {:induction false} LoadsPrefix(b: File, h: RawHeader, j: nat, n: nat)
    requires TablePresent(b, h) && j <= n <= h.programCount
    ensures Loads(b, h, j) <= Loads(b, h, n)
  {
    hide HeaderAt;
    if j < n { LoadsPrefix(b, h, j, n - 1); }
  }

  lemma OverlapAt(b: File, h: RawHeader, j: nat, n: nat, p: ProgramHeader)
    requires TablePresent(b, h) && j < n <= h.programCount && ClearOf(Loads(b, h, j), p)
    ensures var e := OverlapError(HeaderAt(b, h, j), p);
      HeaderAt(b, h, j).kind == PT_LOAD && e.Some? ==> OverlapFault(e.value, Loads(b, h, n), p)
  {
    hide *;
    if HeaderAt(b, h, j).kind == PT_LOAD && OverlapError(HeaderAt(b, h, j), p).Some? {
      LoadsStep(b, h, j);
      LoadsPrefix(b, h, j + 1, n);
      FaultIn(Loads(b, h, j), HeaderAt(b, h, j), Loads(b, h, n), p);
    }
  }

  lemma LoadsStep(b: File, h: RawHeader, j: nat)
    requires TablePresent(b, h) && j < h.programCount
    ensures HeaderAt(b, h, j).kind == PT_LOAD ==> Loads(b, h, j + 1) == Loads(b, h, j) + [HeaderAt(b, h, j)]
  {
    hide HeaderAt;
  }

  lemma FaultIn(front: seq<ProgramHeader>, q: ProgramHeader, s: seq<ProgramHeader>, p: ProgramHeader)
    requires front + [q] <= s && ClearOf(front, p) && OverlapError(q, p).Some?
    ensures OverlapFault(OverlapError(q, p).value, s, p)
  {
    hide ClearOf, OverlapError;
    assert s[..|front|] == front && s[|front|] == q;
  }

  lemma {:induction false} ClearPrefix(b: File, h: RawHeader, j: nat, n: nat, p: ProgramHeader)
    requires TablePresent(b, h) && j <= n <= h.programCount
    ensures ClearOf(Loads(b, h, n), p) ==> ClearOf(Loads(b, h, j), p)
  {
    hide PhysicallyApart, VirtuallyApart, HeaderAt;
    if j < n {
      ClearPrefix(b, h, j, n - 1, p);
      assert Loads(b, h, n - 1) <= Loads(b, h, n);
    }
  }

  /** Checks one program header against the policy and the earlier ones. */
  method CheckHeader(b: File, h: RawHeader, index: nat) returns (r: Result<Option<ProgramHeader>, ValidationError>)
    requires TablePresent(b, h) && index < h.programCount && HeadersAccepted(b, h, index)
    ensures r.Ok? <==> HeaderAccepted(b, h, index)
    ensures r.Ok? ==> r.value == if HeaderAt(b, h, index).kind == PT_LOAD then Some(HeaderAt(b, h, index)) else None
  {
    hide LoadOk, ProgramHeaderAt, HeaderAt, Loads, ClearOf, ValidateLoadSegment, HeadersAccepted;
    HeaderIs(b, h, index);
    match ProgramHeaderAt(b, h, index)
    case None => return Err(ProgramHeaderTableOutsideFile);
    case Some(p) =>
      if p.kind == PT_INTERP { return Err(InterpreterSegment); }
      if p.kind == PT_DYNAMIC { return Err(DynamicSegment); }
      if p.kind == PT_TLS { return Err(TlsSegment); }
      if p.kind != PT_LOAD { return Ok(None); }
      LoadSegmentExact(b, p);
      match ValidateLoadSegment(b, p)
      case Err(e) => return Err(e);
      case Ok(_) =>
        var overlaps := CheckOverlaps(b, h, index, p);
        if overlaps.Err? { return Err(overlaps.error); }
        return Ok(Some(p));
  }

  // ---- the whole image

  /** The smallest physical and virtual ranges that contain the segments. */
  ghost predicate Hulls(s: seq<ProgramHeader>, physicalStart: int, physicalEnd: int, virtualStart: int,
                        virtualEnd: int) {
    (forall i | 0 <= i < |s| :: physicalStart <= s[i].physicalAddress && PhysicalEnd(s[i]) <= physicalEnd &&
                                virtualStart <= s[i].virtualAddress && VirtualEnd(s[i]) <= virtualEnd) &&
    (exists i :: 0 <= i < |s| && s[i].physicalAddress == physicalStart) &&
    (exists i :: 0 <= i < |s| && PhysicalEnd(s[i]) == physicalEnd) &&
    (exists i :: 0 <= i < |s| && s[i].virtualAddress == virtualStart) &&
    (exists i :: 0 <= i < |s| && VirtualEnd(s[i]) == virtualEnd)
  }

  predicate HoldsEntry(p: ProgramHeader, entry: U64) { Executable(p) && p.virtualAddress <= entry < VirtualEnd(p) }

  ghost predicate EntryHeld(s: seq<ProgramHeader>, entry: U64) { exists i :: 0 <= i < |s| && HoldsEntry(s[i], entry) }

  datatype Extent = Extent(count: U16, physicalStart: U64, physicalEnd: U64, virtualStart: U64, virtualEnd: U64,
                           entryHeld: bool)

  const EMPTY_EXTENT := Extent(0, 0xffff_ffff_ffff_ffff, 0, 0xffff_ffff_ffff_ffff, 0, false)

  /** Running totals over the segments seen so far. */
  ghost predicate ExtentOf(x: Extent, s: seq<ProgramHeader>, entry: U64) {
    x.count == |s| && x.entryHeld == EntryHeld(s, entry) &&
    if s == [] then x == EMPTY_EXTENT
    else Hulls(s, x.physicalStart, x.physicalEnd, x.virtualStart, x.virtualEnd)
  }

  function Extend(x: Extent, p: ProgramHeader, entry: U64): Extent
    requires x.count < 0xffff && PhysicalEnd(p) < U64_LIMIT && VirtualEnd(p) < U64_LIMIT
  {
    Extent(x.count + 1, Min(x.physicalStart, p.physicalAddress), Max(x.physicalEnd, PhysicalEnd(p)),
           Min(x.virtualStart, p.virtualAddress), Max(x.virtualEnd, VirtualEnd(p)), x.entryHeld || HoldsEntry(p, entry))
  }

  lemma ExtendExact(x: Extent, s: seq<ProgramHeader>, p: ProgramHeader, entry: U64)
    requires ExtentOf(x, s, entry) && x.count < 0xffff && PhysicalEnd(p) < U64_LIMIT && VirtualEnd(p) < U64_LIMIT
    ensures ExtentOf(Extend(x, p, entry), s + [p], entry)
  {
    hide HoldsEntry;
    var t, y := s + [p], Extend(x, p, entry);
    assert t[|s|] == p && forall i | 0 <= i < |s| :: t[i] == s[i];
    assert EntryHeld(t, entry) == (EntryHeld(s, entry) || HoldsEntry(p, entry)) by {
      if EntryHeld(s, entry) {
        var i :| 0 <= i < |s| && HoldsEntry(s[i], entry);
        assert HoldsEntry(t[i], entry);
      }
    }
    HullsExtend(x, s, p);
  }

  lemma HullsExtend(x: Extent, s: seq<ProgramHeader>, p: ProgramHeader)
    requires if s == [] then x.physicalStart == x.virtualStart == 0xffff_ffff_ffff_ffff &&
      x.physicalEnd == x.virtualEnd == 0
             else Hulls(s, x.physicalStart, x.physicalEnd, x.virtualStart, x.virtualEnd)
    requires PhysicalEnd(p) < U64_LIMIT && VirtualEnd(p) < U64_LIMIT
    ensures Hulls(s + [p], Min(x.physicalStart, p.physicalAddress), Max(x.physicalEnd, PhysicalEnd(p)),
                  Min(x.virtualStart, p.virtualAddress), Max(x.virtualEnd, VirtualEnd(p)))
  {
    var t := s + [p];
    assert t[|s|] == p && forall i | 0 <= i < |s| :: t[i] == s[i];
    if s != [] {
      var i :| 0 <= i < |s| && s[i].physicalAddress == x.physicalStart;
      var j :| 0 <= j < |s| && PhysicalEnd(s[j]) == x.physicalEnd;
      var k :| 0 <= k < |s| && s[k].virtualAddress == x.virtualStart;
      var l :| 0 <= l < |s| && VirtualEnd(s[l]) == x.virtualEnd;
      assert t[i] == s[i] && t[j] == s[j] && t[k] == s[k] && t[l] == s[l];
    }
  }

  datatype ValidatedImage = ValidatedImage(
    bytes: File, header: RawHeader, loadCount: U16, loadStart: U64, loadEnd: U64, virtualStart: U64, virtualEnd: U64)

  ghost function Segments(b: File, h: RawHeader): seq<ProgramHeader>
    requires TablePresent(b, h)
  {
    Loads(b, h, h.programCount)
  }

  ghost predicate TablesOk(b: File, h: RawHeader) {
    ValidateMagic(b).Ok? && ParseRawHeader(b) == Ok(h) && ValidateHeader(h).Ok? && TablePresent(b, h) &&
    SectionsOk(b, h)
  }

  /** What an image must be, segment by segment. */
  ghost predicate Acceptable(b: File, h: RawHeader) {
    TablesOk(b, h) && HeadersAccepted(b, h, h.programCount) && Segments(b, h) != [] &&
    MappingPlan.IsCanonical(h.entry) && EntryHeld(Segments(b, h), h.entry)
  }

  ghost predicate ImageOk(image: ValidatedImage) {
    var b, h := image.bytes, image.header;
    Acceptable(b, h) && image.loadCount == |Segments(b, h)| &&
    Hulls(Segments(b, h), image.loadStart, image.loadEnd, image.virtualStart, image.virtualEnd)
  }

  /** What acceptance promises about the segments: each inside the file, none writable and executable, all
      pairwise disjoint both physically and virtually, and exactly one executable one holding the entry. */
  lemma AcceptedSegments(image: ValidatedImage)
    requires ImageOk(image)
    ensures var s := Segments(image.bytes, image.header);
      AllLoadOk(image.bytes, s) && AllApart(s) && |s| <= 128 &&
      exists i :: 0 <= i < |s| && HoldsEntry(s[i], image.header.entry) &&
                  forall j | 0 <= j < |s| && j != i :: !HoldsEntry(s[j], image.header.entry)
  {
    hide *;
    ImageMeans(image);
    LoadsAccepted(image.bytes, image.header, image.header.programCount);
    EntryExactlyOnce(Segments(image.bytes, image.header), image.header.entry);
  }

  lemma ImageMeans(image: ValidatedImage)
    requires ImageOk(image)
    ensures var b, h := image.bytes, image.header;
      TablePresent(b, h) && HeadersAccepted(b, h, h.programCount) && h.programCount <= 128 &&
      Segments(b, h) == Loads(b, h, h.programCount) && EntryHeld(Segments(b, h), h.entry)
  {
    hide HeadersAccepted, EntryHeld, SectionsOk, Hulls;
  }

  lemma HullsUnique(s: seq<ProgramHeader>, a: int, b: int, c: int, d: int, a': int, b': int, c': int, d': int)
    requires Hulls(s, a, b, c, d) && Hulls(s, a', b', c', d')
    ensures a == a' && b == b' && c == c' && d == d'
  {
  }

  /** The bytes determine everything the parser reports. */
  lemma ImageUnique(x: ValidatedImage, y: ValidatedImage)
    requires ImageOk(x) && ImageOk(y) && x.bytes == y.bytes
    ensures x == y
  {
    hide Hulls, HeadersAccepted, EntryHeld, SectionsOk, ParseRawHeader, ValidateHeader, Loads;
    HullsUnique(Segments(x.bytes, x.header), x.loadStart, x.loadEnd, x.virtualStart, x.virtualEnd,
                y.loadStart, y.loadEnd, y.virtualStart, y.virtualEnd);
  }

  lemma EntryExactlyOnce(s: seq<ProgramHeader>, entry: U64)
    requires AllApart(s) && EntryHeld(s, entry)
    ensures exists i :: 0 <= i < |s| && HoldsEntry(s[i], entry) &&
                        forall j | 0 <= j < |s| && j != i :: !HoldsEntry(s[j], entry)
  {
    hide HoldsEntry, VirtuallyApart, PhysicallyApart;
    var i :| 0 <= i < |s| && HoldsEntry(s[i], entry);
    forall j | 0 <= j < |s| && j != i ensures !HoldsEntry(s[j], entry) { EntryOnce(s[i], s[j], entry); }
  }

  lemma EntryOnce(p: ProgramHeader, q: ProgramHeader, entry: U64)
    requires HoldsEntry(p, entry) && (VirtuallyApart(p, q) || VirtuallyApart(q, p))
    ensures !HoldsEntry(q, entry)
  {
  }

  /** Reads the tables and the header; accepts exactly the well-formed ones. */
  method ParseTables(b: File) returns (r: Result<RawHeader, ValidationError>)
    ensures r.Ok? <==> exists h :: TablesOk(b, h)
    ensures r.Ok? ==> TablesOk(b, r.value) && ParseRawHeader(b) == Ok(r.value)
  {
    hide SectionsOk, ParseRawHeader;
    match ValidateMagic(b)
    case Err(e) => return Err(e);
    case Ok(_) =>
      match ParseRawHeader(b)
      case Err(e) => return Err(e);
      case Ok(h) =>
        match ValidateHeader(h)
        case Err(e) => return Err(e);
        case Ok(_) =>
          match ValidateProgramTable(b, h)
          case Err(e) => return Err(e);
          case Ok(_) =>
            assert TablePresent(b, h);
            var sections := ValidateSectionTable(b, h);
            if sections.Err? { return Err(sections.error); }
            assert TablesOk(b, h);
            return Ok(h);
  }

  /** Checks all program headers and accumulates their ranges. */
  method ScanHeaders(b: File, h: RawHeader) returns (r: Result<Extent, ValidationError>)
    requires TablePresent(b, h)
    ensures r.Ok? <==> HeadersAccepted(b, h, h.programCount)
    ensures r.Ok? ==> ExtentOf(r.value, Segments(b, h), h.entry)
  {
    hide LoadOk, HeaderAt, Loads, HeaderAccepted, ExtentOf, Extend, TablePresent;
    var x := EMPTY_EXTENT;
    NothingSeen(b, h);
    for i := 0 to h.programCount
      invariant HeadersAccepted(b, h, i) && ExtentOf(x, Loads(b, h, i), h.entry)
    {
      var check := CheckHeader(b, h, i);
      match check
      case Err(e) => return Err(e);
      case Ok(load) =>
        SeenStep(b, h, i, x);
        match load {
          case None =>
          case Some(p) => x := Extend(x, p, h.entry);
        }
    }
    return Ok(x);
  }

  lemma NothingSeen(b: File, h: RawHeader)
    requires TablePresent(b, h)
    ensures HeadersAccepted(b, h, 0) && ExtentOf(EMPTY_EXTENT, Loads(b, h, 0), h.entry)
  {
  }

  lemma SeenStep(b: File, h: RawHeader, i: nat, x: Extent)
    requires TablePresent(b, h) && i < h.programCount && HeadersAccepted(b, h, i) && HeaderAccepted(b, h, i)
    requires ExtentOf(x, Loads(b, h, i), h.entry)
    ensures HeadersAccepted(b, h, i + 1)
    ensures var p := HeaderAt(b, h, i);
      if p.kind == PT_LOAD then
        x.count < 0xffff && PhysicalEnd(p) < U64_LIMIT && VirtualEnd(p) < U64_LIMIT &&
        ExtentOf(Extend(x, p, h.entry), Loads(b, h, i + 1), h.entry)
      else ExtentOf(x, Loads(b, h, i + 1), h.entry)
  {
    hide HeaderAt, Extend, ClearOf, Hulls, EntryHeld;
    LoadsAccepted(b, h, i);
    var p := HeaderAt(b, h, i);
    if p.kind == PT_LOAD {
      ExtendExact(x, Loads(b, h, i), p, h.entry);
    } else {
      assert Loads(b, h, i + 1) == Loads(b, h, i);
    }
  }

  /** Accepts exactly the acceptable images and describes them exactly. */
  method Parse(b: File) returns (r: Result<ValidatedImage, ValidationError>)
    ensures r.Ok? <==> exists h :: Acceptable(b, h)
    ensures r.Ok? ==> ImageOk(r.value) && r.value.bytes == b
  {
    hide ParseRawHeader, TablesOk, HeadersAccepted, Loads, ExtentOf, EntryHeld;
    var tables := ParseTables(b);
    match tables
    case Err(e) => return Err(e);
    case Ok(h) =>
      HeaderUnique(b, h);
      var scan := ScanHeaders(b, h);
      match scan
      case Err(e) => return Err(e);
      case Ok(x) =>
        ExtentMeans(x, Segments(b, h), h.entry);
        if x.count == 0 { return Err(NoLoadSegments); }
        if !MappingPlan.IsCanonical(h.entry) || !x.entryHeld { return Err(EntryOutsideExecutableSegment); }
        assert Acceptable(b, h);
        return Ok(ValidatedImage(b, h, x.count, x.physicalStart, x.physicalEnd, x.virtualStart, x.virtualEnd));
  }

  lemma HeaderUnique(b: File, h: RawHeader)
    requires TablesOk(b, h)
    ensures TablePresent(b, h) && forall g :: TablesOk(b, g) ==> g == h
  {
  }

  lemma ExtentMeans(x: Extent, s: seq<ProgramHeader>, entry: U64)
    requires ExtentOf(x, s, entry)
    ensures (x.count == 0 <==> s == []) && x.count == |s| && x.entryHeld == EntryHeld(s, entry)
    ensures s != [] ==> Hulls(s, x.physicalStart, x.physicalEnd, x.virtualStart, x.virtualEnd)
  {
  }

  // ---- iterating over the load segments

  ghost function LoadsFrom(b: File, h: RawHeader, n: nat): seq<ProgramHeader>
    requires TablePresent(b, h) && n <= h.programCount
    decreases h.programCount - n
  {
    if n == h.programCount then []
    else (if HeaderAt(b, h, n).kind == PT_LOAD then [HeaderAt(b, h, n)] else []) + LoadsFrom(b, h, n + 1)
  }

  lemma {:induction false} LoadsSplit(b: File, h: RawHeader, n: nat)
    requires TablePresent(b, h) && n <= h.programCount
    ensures Loads(b, h, n) + LoadsFrom(b, h, n) == Segments(b, h)
    decreases h.programCount - n
  {
    hide HeaderAt, TablePresent;
    if n < h.programCount { LoadsSplit(b, h, n + 1); }
  }

  lemma AllPending(b: File, h: RawHeader)
    requires TablePresent(b, h)
    ensures Loads(b, h, 0) == [] && LoadsFrom(b, h, 0) == Loads(b, h, 0) + LoadsFrom(b, h, 0)
  {
  }

  class LoadSegments {
    const bytes: File
    const header: RawHeader
    var nextIndex: nat

    ghost predicate Valid()
      reads this
    {
      TablePresent(bytes, header) && nextIndex <= header.programCount
    }

    /** What the iterator has yet to yield. */
    ghost function Pending(): seq<ProgramHeader>
      requires Valid()
      reads this
    {
      LoadsFrom(bytes, header, nextIndex)
    }

    constructor (image: ValidatedImage)
      requires ImageOk(image)
      ensures Valid() && bytes == image.bytes && header == image.header &&
        Pending() == Segments(image.bytes, image.header)
    {
      hide Loads, LoadsFrom, TablePresent, ImageOk;
      bytes, header, nextIndex := image.bytes, image.header, 0;
      new;
      ImageMeans(image);
      LoadsSplit(bytes, header, 0);
      AllPending(bytes, header);
    }

    method Next() returns (r: Option<ProgramHeader>)
      requires Valid()
      modifies this
      ensures Valid()
      ensures if old(Pending()) == [] then r == None && Pending() == []
              else r == Some(old(Pending())[0]) && Pending() == old(Pending())[1..]
    {
      hide HeaderAt, ProgramHeaderAt, TablePresent;
      while nextIndex < header.programCount
        invariant Valid() && Pending() == old(Pending())
        decreases header.programCount - nextIndex
      {
        var index := nextIndex;
        nextIndex := nextIndex + 1;
        HeaderIs(bytes, header, index);
        match ProgramHeaderAt(bytes, header, index)
        case None => return None;
        case Some(p) => if p.kind == PT_LOAD { return Some(p); }
      }
      return None;
    }
  }

  /** The iterator yields exactly `loadCount` segments, in table order. */
  method Collect(image: ValidatedImage) returns (s: seq<ProgramHeader>)
    requires ImageOk(image)
    ensures s == Segments(image.bytes, image.header) && |s| == image.loadCount
  {
    hide ImageOk, Loads, LoadsFrom;
    LoadCountIs(image);
    var it := new LoadSegments(image);
    s := [];
    ghost var all := Segments(image.bytes, image.header);
    var next := it.Next();
    while next.Some?
      invariant it.Valid() && all == s + (if next.Some? then [next.value] else []) + it.Pending()
      invariant next.None? ==> it.Pending() == []
      decreases |it.Pending()| + if next.Some? then 1 else 0
    {
      s := s + [next.value];
      next := it.Next();
    }
  }

  lemma LoadCountIs(image: ValidatedImage)
    requires ImageOk(image)
    ensures TablePresent(image.bytes, image.header) && image.loadCount == |Segments(image.bytes, image.header)|
  {
  }
}
