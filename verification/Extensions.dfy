/** The linear extension envelope of boot ABI major version 2. */
module Extensions {
  import opened Prelude
  import opened ByteLayout
  import opened MemoryMap

  const BOOT_INFO_SIZE: nat := 128
  const HEADER_SIZE: nat := 16
  const OWNERSHIP_SIZE: nat := 80
  const FRAME_RECORD_SIZE: nat := 16
  const KIND_OWNERSHIP: nat := 1
  const PHYSICAL_CAP: nat := 0x0000_4000_0000_0000

  datatype ExtensionError =
    | UnsupportedEnvelopeVersion | ExtensionsForbiddenForV1 | TotalSizeMismatch | ExtensionAreaMisaligned
    | TruncatedExtensionHeader | InvalidExtensionHeaderSize | InvalidExtensionSize | UnsupportedExtensionFlags
    | UnknownRequiredExtension | UnsupportedPageTableExtensionVersion | DuplicatePageTableOwnership
    | UnsupportedHierarchyVersion | UnsupportedPagingLevelCount | InvalidPageTableState | UnsupportedPageSize
    | InvalidPhysicalAddressCap | InvalidRootFrame | InvalidOwnedFrameListAddress | EmptyOwnedFrameList
    | InvalidOwnedFrameStride | OwnedFrameListSizeOverflow | OwnedFrameListRangeOverflow
    | ExtensionCountOverflow | TruncatedPageTableOwnership | ReservedNotZero
    | OwnedFrameCountMismatch | OwnedFrameReservedNotZero | UnalignedOwnedFrame | OwnedFrameOutsidePhysicalCap
    | DuplicateOwnedFrame | RootFrameMissingOrDuplicated | OwnedFrameNotReserved

  datatype Header = Header(kind: nat, version: nat, headerSize: nat, totalSize: nat, flags: nat)

  datatype Ownership = Ownership(
    hierarchyVersion: nat, levels: nat, state: nat, pageSize: nat, root: nat, listAddress: nat,
    frameCount: nat, stride: nat, cap: nat, reserved0: nat, reserved1: nat, reserved2: nat)

  datatype Summary = Summary(ownership: Option<Ownership>, count: nat)

  function ParseHeader(b: seq<Byte>): Header
    requires |b| >= HEADER_SIZE
  {
    Header(Field(b, 0, 4), Field(b, 4, 2), Field(b, 6, 2), Field(b, 8, 4), Field(b, 12, 4))
  }

  function ParseOwnership(b: seq<Byte>): Ownership
    requires |b| >= 64
  {
    Ownership(Field(b, 0, 2), b[2], b[3], Field(b, 4, 4), Field(b, 8, 8), Field(b, 16, 8), Field(b, 24, 4),
              Field(b, 28, 4), Field(b, 32, 8), Field(b, 40, 8), Field(b, 48, 8), Field(b, 56, 8))
  }

  function ValidateFrameAddress(address: nat, cap: nat): Result<(), ExtensionError> {
    if address == 0 then Err(InvalidRootFrame)
    else if address % 4096 != 0 then Err(UnalignedOwnedFrame)
    else if address + 4096 >= U64_LIMIT || address + 4096 > cap then Err(OwnedFrameOutsidePhysicalCap)
    else Ok(())
  }

  function ValidateOwnership(o: Ownership): (r: Result<Ownership, ExtensionError>)
    ensures r.Ok? ==> r.value == o
    ensures r.Err? ==> r.error != TotalSizeMismatch
  {
    if o.hierarchyVersion != 1 then Err(UnsupportedHierarchyVersion)
    else if o.levels != 4 then Err(UnsupportedPagingLevelCount)
    else if o.state != 1 && o.state != 2 then Err(InvalidPageTableState)
    else if o.pageSize != 4096 then Err(UnsupportedPageSize)
    else if o.cap != PHYSICAL_CAP then Err(InvalidPhysicalAddressCap)
    else match ValidateFrameAddress(o.root, o.cap)
      case Err(e) => Err(e)
      case Ok(_) =>
        if o.listAddress == 0 || o.listAddress % 8 != 0 then Err(InvalidOwnedFrameListAddress)
        else if o.frameCount == 0 then Err(EmptyOwnedFrameList)
        else if o.stride < FRAME_RECORD_SIZE || o.stride % 8 != 0 then Err(InvalidOwnedFrameStride)
        else if o.frameCount * o.stride >= U64_LIMIT then Err(OwnedFrameListSizeOverflow)
        else if o.listAddress + o.frameCount * o.stride >= U64_LIMIT then Err(OwnedFrameListRangeOverflow)
        else if o.listAddress + o.frameCount * o.stride > o.cap then Err(InvalidOwnedFrameListAddress)
        else if o.reserved0 != 0 || o.reserved1 != 0 || o.reserved2 != 0 then Err(ReservedNotZero)
        else Ok(o)
  }

  // ---- records

  /** The bytes begin with one well-framed record of `ParseHeader(b).totalSize` bytes. */
  predicate FramedHead(b: seq<Byte>) {
    |b| >= HEADER_SIZE &&
    var h := ParseHeader(b);
    h.headerSize == HEADER_SIZE && HEADER_SIZE <= h.totalSize <= |b| && h.totalSize % 8 == 0 && h.flags <= 1
  }

  /** The bytes are exactly one well-framed record. */
  predicate Framed(c: seq<Byte>) { FramedHead(c) && ParseHeader(c).totalSize == |c| }

  predicate CarriesOwnership(c: seq<Byte>)
    requires Framed(c)
  {
    ParseHeader(c).kind == KIND_OWNERSHIP && ParseHeader(c).version == 1
  }

  /** A version-1 ownership record is complete and valid; every other record is optional. */
  predicate Admissible(c: seq<Byte>)
    requires Framed(c)
  {
    if CarriesOwnership(c) then |c| == OWNERSHIP_SIZE && ValidateOwnership(ParseOwnership(c[HEADER_SIZE..])).Ok?
    else ParseHeader(c).flags == 0
  }

  ghost predicate AllFramed(cs: seq<seq<Byte>>) { forall i | 0 <= i < |cs| :: Framed(cs[i]) }

  ghost function Flatten(cs: seq<seq<Byte>>): seq<Byte> {
    if cs == [] then [] else cs[0] + Flatten(cs[1..])
  }

  ghost predicate AllAdmissible(cs: seq<seq<Byte>>)
    requires AllFramed(cs)
  {
    forall i | 0 <= i < |cs| :: Admissible(cs[i])
  }

  ghost predicate AtMostOneOwner(cs: seq<seq<Byte>>)
    requires AllFramed(cs)
  {
    forall i, j | 0 <= i < j < |cs| :: !(CarriesOwnership(cs[i]) && CarriesOwnership(cs[j]))
  }

  /** The reference definition: a concatenation of well-framed admissible records, at most one of
      which carries page-table ownership. */
  ghost predicate IsEnvelope(bytes: seq<Byte>, cs: seq<seq<Byte>>) {
    Flatten(cs) == bytes && AllFramed(cs) && AllAdmissible(cs) && AtMostOneOwner(cs)
  }

  ghost function OwnershipOf(cs: seq<seq<Byte>>): Option<Ownership>
    requires AllFramed(cs) && AllAdmissible(cs)
  {
    if cs == [] then None
    else if CarriesOwnership(cs[|cs| - 1]) then Some(ParseOwnership(cs[|cs| - 1][HEADER_SIZE..]))
    else OwnershipOf(cs[..|cs| - 1])
  }

  lemma HeadField(b: seq<Byte>, n: nat, offset: nat, width: nat)
    requires offset + width <= n <= |b|
    ensures Field(b[..n], offset, width) == Field(b, offset, width)
  {
    assert b[..n][offset..offset + width] == b[offset..offset + width];
  }

  lemma HeadHeader(b: seq<Byte>, n: nat)
    requires HEADER_SIZE <= n <= |b|
    ensures ParseHeader(b[..n]) == ParseHeader(b)
  {
    HeadField(b, n, 0, 4);
    HeadField(b, n, 4, 2);
    HeadField(b, n, 6, 2);
    HeadField(b, n, 8, 4);
    HeadField(b, n, 12, 4);
  }

  lemma {:induction false} FlattenSnoc(cs: seq<seq<Byte>>, c: seq<Byte>)
    ensures Flatten(cs + [c]) == Flatten(cs) + c
  {
    if cs == [] {
      assert (cs + [c])[1..] == [];
      assert Flatten(cs + [c]) == c + Flatten([]);
    } else {
      FlattenSnoc(cs[1..], c);
      assert (cs + [c])[1..] == cs[1..] + [c];
    }
  }

  lemma Associates<T>(a: seq<T>, b: seq<T>, c: seq<T>)
    ensures a + (b + c) == a + b + c
  {
  }

  lemma {:induction false} FlattenConcat(a: seq<seq<Byte>>, b: seq<seq<Byte>>)
    ensures Flatten(a + b) == Flatten(a) + Flatten(b)
  {
    if a == [] {
      assert a + b == b;
    } else {
      FlattenConcat(a[1..], b);
      assert (a + b)[1..] == a[1..] + b && (a + b)[0] == a[0];
      Associates(a[0], Flatten(a[1..]), Flatten(b));
    }
  }

  /** The first record of an envelope is the one its own header delimits. */
  lemma FirstRecord(bytes: seq<Byte>, cs: seq<seq<Byte>>)
    requires Flatten(cs) == bytes && AllFramed(cs) && bytes != []
    ensures cs != [] && FramedHead(bytes) && cs[0] == bytes[..ParseHeader(bytes).totalSize]
    ensures Flatten(cs[1..]) == bytes[ParseHeader(bytes).totalSize..]
  {
    var c := cs[0];
    assert bytes[..|c|] == c;
    HeadHeader(bytes, |c|);
  }

  /** Records that fill a prefix of the bytes are the first records of every way to cut all of them. */
  lemma {:induction false} RecordsUnique(bytes: seq<Byte>, done: seq<seq<Byte>>, cs: seq<seq<Byte>>)
    requires AllFramed(done) && AllFramed(cs)
    requires Flatten(cs) == bytes && Flatten(done) <= bytes
    ensures |done| <= |cs| && done == cs[..|done|]
    ensures Flatten(cs[|done|..]) == bytes[|Flatten(done)|..]
  {
    if done == [] {
      assert cs[0..] == cs && bytes[0..] == bytes;
    } else {
      var d := done[0];
      assert Flatten(done) == d + Flatten(done[1..]);
      assert bytes[..|d|] == d;
      HeadHeader(bytes, |d|);
      FirstRecord(bytes, cs);
      var rest := bytes[|d|..];
      assert Flatten(done[1..]) <= rest;
      RecordsUnique(rest, done[1..], cs[1..]);
      assert cs[1..][|done| - 1..] == cs[|done|..];
    }
  }

  lemma {:induction false} OwnershipPosition(cs: seq<seq<Byte>>) returns (i: nat)
    requires AllFramed(cs) && AllAdmissible(cs) && OwnershipOf(cs).Some?
    ensures i < |cs| && CarriesOwnership(cs[i])
  {
    if CarriesOwnership(cs[|cs| - 1]) { i := |cs| - 1; } else { i := OwnershipPosition(cs[..|cs| - 1]); }
  }

  lemma {:induction false} NoOwnership(cs: seq<seq<Byte>>, i: nat)
    requires AllFramed(cs) && AllAdmissible(cs) && OwnershipOf(cs).None? && i < |cs|
    ensures !CarriesOwnership(cs[i])
  {
    if i < |cs| - 1 { NoOwnership(cs[..|cs| - 1], i); }
  }

  predicate HeadAdmissible(b: seq<Byte>, seen: bool)
    requires FramedHead(b)
  {
    var c := b[..ParseHeader(b).totalSize];
    HeadHeader(b, |c|);
    Admissible(c) && !(seen && CarriesOwnership(c))
  }

  /** The checks on the record at the front of `b`; `seen` says an ownership record came before. */
  function CheckRecord(b: seq<Byte>, seen: bool): (r: Result<nat, ExtensionError>)
    ensures r.Ok? ==> FramedHead(b) && r.value == ParseHeader(b).totalSize
    ensures r.Ok? <==> FramedHead(b) && HeadAdmissible(b, seen)
    ensures r.Err? ==> r.error != TotalSizeMismatch
  {
    if |b| < HEADER_SIZE then Err(TruncatedExtensionHeader)
    else
      var h := ParseHeader(b);
      if h.headerSize != HEADER_SIZE then Err(InvalidExtensionHeaderSize)
      else if h.totalSize < h.headerSize || h.totalSize % 8 != 0 then Err(InvalidExtensionSize)
      else if h.flags > 1 then Err(UnsupportedExtensionFlags)
      else if h.totalSize > |b| then Err(InvalidExtensionSize)
      else
        HeadHeader(b, h.totalSize);
        if h.kind == KIND_OWNERSHIP then
          if h.version != 1 then
            if h.flags != 0 then Err(UnsupportedPageTableExtensionVersion) else Ok(h.totalSize)
          else if h.totalSize != OWNERSHIP_SIZE then Err(TruncatedPageTableOwnership)
          else if seen then Err(DuplicatePageTableOwnership)
          else
            assert b[..h.totalSize][HEADER_SIZE..] == b[HEADER_SIZE..h.totalSize];
            match ValidateOwnership(ParseOwnership(b[HEADER_SIZE..h.totalSize]))
            case Err(e) => Err(e)
            case Ok(_) => Ok(h.totalSize)
        else if h.flags != 0 then Err(UnknownRequiredExtension) else Ok(h.totalSize)
  }

  /** The records scanned so far. */
  ghost predicate Scanned(bytes: seq<Byte>, offset: nat, done: seq<seq<Byte>>) {
    offset <= |bytes| && IsEnvelope(bytes[..offset], done) && HEADER_SIZE * |done| <= offset && offset % 8 == 0
  }

  lemma RecordHead(b: seq<Byte>, seen: bool, n: nat)
    requires CheckRecord(b, seen) == Ok(n)
    ensures HEADER_SIZE <= n <= |b| && n % 8 == 0
    ensures Framed(b[..n]) && Admissible(b[..n]) && !(seen && CarriesOwnership(b[..n]))
  {
    HeadHeader(b, n);
  }

  lemma EnvelopeSnoc(bytes: seq<Byte>, done: seq<seq<Byte>>, c: seq<Byte>)
    requires IsEnvelope(bytes, done) && Framed(c) && Admissible(c)
    requires !(OwnershipOf(done).Some? && CarriesOwnership(c))
    ensures IsEnvelope(bytes + c, done + [c])
    ensures OwnershipOf(done + [c]) == RecordOwnership(c, OwnershipOf(done))
  {
    hide Admissible, CarriesOwnership, Framed;
    FlattenSnoc(done, c);
    assert (done + [c])[..|done|] == done;
    forall i | 0 <= i < |done| && CarriesOwnership(c) ensures !CarriesOwnership(done[i]) { NoOwnership(done, i); }
  }

  function RecordOwnership(c: seq<Byte>, before: Option<Ownership>): Option<Ownership>
    requires Framed(c) && Admissible(c)
  {
    if CarriesOwnership(c) then Some(ParseOwnership(c[HEADER_SIZE..])) else before
  }

  lemma ScanStep(bytes: seq<Byte>, offset: nat, done: seq<seq<Byte>>, n: nat, c: seq<Byte>)
    requires Scanned(bytes, offset, done) && offset < |bytes|
    requires CheckRecord(bytes[offset..], OwnershipOf(done).Some?) == Ok(n)
    requires n <= |bytes| - offset && c == bytes[offset..][..n]
    ensures n >= HEADER_SIZE && Scanned(bytes, offset + n, done + [c])
    ensures Framed(c) && Admissible(c) && OwnershipOf(done + [c]) == RecordOwnership(c, OwnershipOf(done))
  {
    hide Flatten, Admissible, CarriesOwnership, Framed, CheckRecord, OwnershipOf, AtMostOneOwner;
    RecordHead(bytes[offset..], OwnershipOf(done).Some?, n);
    assert c == bytes[offset..offset + n];
    EnvelopeSnoc(bytes[..offset], done, c);
    assert bytes[..offset + n] == bytes[..offset] + c;
  }

  /** If the whole area is an envelope, the scan cannot fail on its next record. */
  lemma ScanCannotFail(bytes: seq<Byte>, offset: nat, done: seq<seq<Byte>>, cs: seq<seq<Byte>>)
    requires Scanned(bytes, offset, done) && offset < |bytes| && IsEnvelope(bytes, cs)
    ensures CheckRecord(bytes[offset..], OwnershipOf(done).Some?).Ok?
  {
    RecordsUnique(bytes, done, cs);
    assert |Flatten(done)| == offset;
    FirstRecord(bytes[offset..], cs[|done|..]);
    var c := cs[|done|];
    assert c == cs[|done|..][0];
    if OwnershipOf(done).Some? {
      var i := OwnershipPosition(done);
      assert done[i] == cs[i];
      assert !(CarriesOwnership(cs[i]) && CarriesOwnership(cs[|done|]));
    }
  }

  lemma {:induction false} FlattenAligned(cs: seq<seq<Byte>>)
    requires AllFramed(cs)
    ensures |Flatten(cs)| % 8 == 0 && HEADER_SIZE * |cs| <= |Flatten(cs)|
  {
    if cs != [] { FlattenAligned(cs[1..]); }
  }

  /** Reads record after record; on success `done` is the one way to cut the area. */
  method ScanRecords(bytes: seq<Byte>) returns (r: Result<Summary, ExtensionError>, ghost done: seq<seq<Byte>>)
    requires |bytes| < U32_LIMIT
    ensures r.Ok? ==> IsEnvelope(bytes, done) && r.value == Summary(OwnershipOf(done), |done|)
    ensures r.Err? ==> r.error != TotalSizeMismatch && forall cs :: !IsEnvelope(bytes, cs)
  {
    hide *;
    var offset, count := 0, 0;
    var ownership: Option<Ownership> := None;
    done := [];
    ScanStart(bytes);
    while offset < |bytes|
      invariant ScanAt(bytes, offset, done, ownership, count)
      decreases |bytes| - offset
    {
      match CheckRecord(bytes[offset..], ownership.Some?)
      case Err(e) =>
        ScanFails(bytes, offset, done, ownership, count);
        return Err(e), done;
      case Ok(n) =>
        ScanAdvances(bytes, offset, done, ownership, count, n);
        var c := bytes[offset..][..n];
        if count + 1 >= U32_LIMIT { return Err(ExtensionCountOverflow), done; }
        ownership := RecordOwnership(c, ownership);
        done := done + [c];
        offset, count := offset + n, count + 1;
    }
    ScanDone(bytes, offset, done, ownership, count);
    return Ok(Summary(ownership, count)), done;
  }

  /** The state of the scan: what lies before the offset is cut into records that account for both results. */
  ghost predicate ScanAt(bytes: seq<Byte>, offset: nat, done: seq<seq<Byte>>, ownership: Option<Ownership>,
                         count: nat) {
    Scanned(bytes, offset, done) && count == |done| && ownership == OwnershipOf(done)
  }

  lemma ScanFails(bytes: seq<Byte>, offset: nat, done: seq<seq<Byte>>, ownership: Option<Ownership>, count: nat)
    requires ScanAt(bytes, offset, done, ownership, count) && offset < |bytes|
    requires CheckRecord(bytes[offset..], ownership.Some?).Err?
    ensures forall cs :: !IsEnvelope(bytes, cs)
  {
    hide CheckRecord, IsEnvelope, Scanned, OwnershipOf;
    forall cs ensures !IsEnvelope(bytes, cs) {
      if IsEnvelope(bytes, cs) { ScanCannotFail(bytes, offset, done, cs); }
    }
  }

  lemma ScanAdvances(bytes: seq<Byte>, offset: nat, done: seq<seq<Byte>>, ownership: Option<Ownership>, count: nat,
                     n: nat)
    requires ScanAt(bytes, offset, done, ownership, count) && offset < |bytes| < U32_LIMIT
    requires CheckRecord(bytes[offset..], ownership.Some?) == Ok(n)
    ensures 0 < n <= |bytes| - offset && count + 1 < U32_LIMIT
    ensures var c := bytes[offset..][..n];
      Framed(c) && Admissible(c) && ScanAt(bytes, offset + n, done + [c], RecordOwnership(c, ownership), count + 1)
  {
    hide CheckRecord, IsEnvelope, OwnershipOf, Framed, Admissible, RecordOwnership;
    RecordHead(bytes[offset..], ownership.Some?, n);
    ScanStep(bytes, offset, done, n, bytes[offset..][..n]);
    CountBound(bytes, offset + n, done + [bytes[offset..][..n]]);
  }

  ghost predicate ScannedFramed(done: seq<seq<Byte>>) { AllFramed(done) && AllAdmissible(done) }

  /** What the validator accepts for major version 2: the declared size is exact and the area is an envelope. */
  ghost predicate Accepted(declaredTotalSize: U32, bytes: seq<Byte>) {
    declaredTotalSize == BOOT_INFO_SIZE + |bytes| && exists cs :: IsEnvelope(bytes, cs)
  }

  /** Accepts exactly the envelopes, and reports their record count and their ownership record. */
  method ValidateExtensionArea(abiMajor: U16, declaredTotalSize: U32, bytes: seq<Byte>)
    returns (r: Result<Summary, ExtensionError>)
    ensures declaredTotalSize != BOOT_INFO_SIZE + |bytes| <==> r == Err(TotalSizeMismatch)
    ensures declaredTotalSize == BOOT_INFO_SIZE + |bytes| && abiMajor == 1 ==>
              r == if bytes == [] then Ok(Summary(None, 0)) else Err(ExtensionsForbiddenForV1)
    ensures declaredTotalSize == BOOT_INFO_SIZE + |bytes| && abiMajor == 2 ==>
              (r.Ok? <==> exists cs :: IsEnvelope(bytes, cs))
    ensures abiMajor == 2 ==> (r.Ok? <==> Accepted(declaredTotalSize, bytes))
    ensures r.Ok? ==> abiMajor in {1, 2}
    ensures forall cs | r.Ok? && IsEnvelope(bytes, cs) :: r.value == Summary(OwnershipOf(cs), |cs|)
  {
    EmptyEnvelope();
    assert BOOT_INFO_SIZE == 128 && U32_LIMIT == 0x1_0000_0000;
    hide *;
    if BOOT_INFO_SIZE + |bytes| >= U32_LIMIT { return Err(TotalSizeMismatch); }
    if declaredTotalSize != BOOT_INFO_SIZE + |bytes| { return Err(TotalSizeMismatch); }
    if abiMajor == 1 {
      if bytes != [] { return Err(ExtensionsForbiddenForV1); }
      return Ok(Summary(None, 0));
    }
    if abiMajor != 2 { return Err(UnsupportedEnvelopeVersion); }
    if |bytes| % 8 != 0 {
      forall cs ensures !IsEnvelope(bytes, cs) { EnvelopeAligned(bytes, cs); }
      return Err(ExtensionAreaMisaligned);
    }
    ghost var done;
    r, done := ScanRecords(bytes);
    forall cs | r.Ok? && IsEnvelope(bytes, cs) ensures cs == done { EnvelopeUnique(bytes, done, cs); }
  }

  lemma EnvelopeAligned(bytes: seq<Byte>, cs: seq<seq<Byte>>)
    ensures IsEnvelope(bytes, cs) ==> |bytes| % 8 == 0
  {
    if IsEnvelope(bytes, cs) { FlattenAligned(cs); }
  }

  lemma EmptyEnvelope()
    ensures IsEnvelope([], []) && OwnershipOf([]) == None
    ensures forall cs | IsEnvelope([], cs) :: cs == []
  {
    forall cs | IsEnvelope([], cs) ensures cs == [] { FlattenAligned(cs); }
  }

  /** An area can be cut into records in one way only. */
  lemma EnvelopeUnique(bytes: seq<Byte>, cs: seq<seq<Byte>>, ds: seq<seq<Byte>>)
    requires IsEnvelope(bytes, cs) && IsEnvelope(bytes, ds)
    ensures ds == cs
  {
    RecordsUnique(bytes, cs, ds);
    FlattenAligned(ds[|cs|..]);
  }

  lemma ScanStart(bytes: seq<Byte>)
    ensures ScanAt(bytes, 0, [], None, 0)
  {
    assert bytes[..0] == [];
  }

  lemma ScanDone(bytes: seq<Byte>, offset: nat, done: seq<seq<Byte>>, ownership: Option<Ownership>, count: nat)
    requires ScanAt(bytes, offset, done, ownership, count) && offset >= |bytes|
    ensures IsEnvelope(bytes, done) && count == |done| && ownership == OwnershipOf(done)
  {
    assert bytes[..offset] == bytes;
  }

  lemma CountBound(bytes: seq<Byte>, offset: nat, done: seq<seq<Byte>>)
    requires Scanned(bytes, offset, done)
    ensures |done| <= |bytes| / HEADER_SIZE
  {
  }

  lemma ConcatOwners(cs: seq<seq<Byte>>, ds: seq<seq<Byte>>)
    requires ScannedFramed(cs) && ScannedFramed(ds) && AtMostOneOwner(cs) && AtMostOneOwner(ds)
    ensures ScannedFramed(cs + ds)
    ensures AtMostOneOwner(cs + ds) <==> !(OwnershipOf(cs).Some? && OwnershipOf(ds).Some?)
  {
    hide CarriesOwnership, Framed, Admissible;
    var es := cs + ds;
    if OwnershipOf(cs).Some? && OwnershipOf(ds).Some? {
      var i := OwnershipPosition(cs);
      var j := OwnershipPosition(ds);
      assert es[i] == cs[i] && es[|cs| + j] == ds[j];
    } else {
      forall i, j | 0 <= i < j < |es| ensures !(CarriesOwnership(es[i]) && CarriesOwnership(es[j])) {
        if OwnershipOf(cs).None? && i < |cs| { NoOwnership(cs, i); }
        if OwnershipOf(ds).None? && j >= |cs| { NoOwnership(ds, j - |cs|); }
        if j < |cs| { assert !(CarriesOwnership(cs[i]) && CarriesOwnership(cs[j])); }
        if i >= |cs| { assert !(CarriesOwnership(ds[i - |cs|]) && CarriesOwnership(ds[j - |cs|])); }
      }
    }
  }

  /** Two envelopes laid end to end form an envelope, unless both carry ownership. */
  lemma ConcatEnvelopes(a: seq<Byte>, b: seq<Byte>, cs: seq<seq<Byte>>, ds: seq<seq<Byte>>)
    requires IsEnvelope(a, cs) && IsEnvelope(b, ds)
    ensures (exists es :: IsEnvelope(a + b, es)) <==> !(OwnershipOf(cs).Some? && OwnershipOf(ds).Some?)
    ensures forall es | IsEnvelope(a + b, es) :: es == cs + ds
  {
    FlattenConcat(cs, ds);
    ConcatOwners(cs, ds);
    hide Flatten, OwnershipOf, AtMostOneOwner, Framed, Admissible;
    var es := cs + ds;
    forall other | IsEnvelope(a + b, other) ensures other == es {
      RecordsUnique(a + b, es, other);
      FlattenAligned(other[|es|..]);
    }
    if AtMostOneOwner(es) { assert IsEnvelope(a + b, es); }
  }

  /** At the validator: two accepted areas laid end to end are accepted exactly under their exact total size and
      when not both carry ownership. Once that size needs more than 32 bits, no declared size is accepted. */
  lemma JoinAccepted(a: seq<Byte>, b: seq<Byte>, cs: seq<seq<Byte>>, ds: seq<seq<Byte>>, declared: U32)
    requires IsEnvelope(a, cs) && IsEnvelope(b, ds)
    ensures Accepted(declared, a + b) <==>
            declared == BOOT_INFO_SIZE + |a| + |b| && !(OwnershipOf(cs).Some? && OwnershipOf(ds).Some?)
    ensures BOOT_INFO_SIZE + |a| + |b| >= U32_LIMIT ==> !Accepted(declared, a + b)
  {
    hide IsEnvelope, OwnershipOf;
    ConcatEnvelopes(a, b, cs, ds);
  }

  // ---- the owned-frame list

  datatype OwnedFrame = OwnedFrame(frame: U64, reserved0: U64)

  predicate ValidDescriptor(d: Descriptor) { d.reserved0 == 0 && ValidRange(d) }

  predicate ReservesFrame(d: Descriptor, f: U64) { d.kind == KIND_PAGE_TABLE && ValidDescriptor(d) && Covers(d, f) }

  ghost predicate IsReserved(map_: seq<Descriptor>, f: U64) { exists i | 0 <= i < |map_| :: ReservesFrame(map_[i], f) }

  ghost predicate FrameOk(o: Ownership, frames: seq<OwnedFrame>, map_: seq<Descriptor>, i: nat)
    requires i < |frames|
  {
    frames[i].reserved0 == 0 && ValidateFrameAddress(frames[i].frame, o.cap).Ok? &&
    (forall k | 0 <= k < i :: frames[k].frame != frames[i].frame) && IsReserved(map_, frames[i].frame)
  }

  ghost predicate FramesAccepted(o: Ownership, frames: seq<OwnedFrame>, map_: seq<Descriptor>) {
    |frames| == o.frameCount && (forall i | 0 <= i < |frames| :: FrameOk(o, frames, map_, i)) &&
    exists i | 0 <= i < |frames| :: frames[i].frame == o.root
  }

  method ContainsFrame(frames: seq<OwnedFrame>, f: U64) returns (b: bool)
    ensures b <==> exists k | 0 <= k < |frames| :: frames[k].frame == f
  {
    for k := 0 to |frames|
      invariant forall i | 0 <= i < k :: frames[i].frame != f
    {
      if frames[k].frame == f { return true; }
    }
    return false;
  }

  method FindReservation(map_: seq<Descriptor>, f: U64) returns (b: bool)
    ensures b <==> IsReserved(map_, f)
  {
    for k := 0 to |map_|
      invariant forall i | 0 <= i < k :: !ReservesFrame(map_[i], f)
    {
      if ReservesFrame(map_[k], f) { return true; }
    }
    return false;
  }

  /** The owned-frame list is accepted exactly when it is complete, sound, without repetition, fully
      reserved in the map and contains the root. */
  method ValidatePageTableFrames(o: Ownership, frames: seq<OwnedFrame>, map_: seq<Descriptor>)
    returns (r: Result<(), ExtensionError>)
    ensures r.Ok? <==> FramesAccepted(o, frames, map_)
  {
    hide ValidateFrameAddress, IsReserved;
    if |frames| != o.frameCount { return Err(OwnedFrameCountMismatch); }
    var rootCount := 0;
    for i := 0 to |frames|
      invariant forall k | 0 <= k < i :: FrameOk(o, frames, map_, k)
      invariant rootCount == if exists k | 0 <= k < i :: frames[k].frame == o.root then 1 else 0
    {
      var f := frames[i];
      if f.reserved0 != 0 { assert !FrameOk(o, frames, map_, i); return Err(OwnedFrameReservedNotZero); }
      var address := ValidateFrameAddress(f.frame, o.cap);
      if address.Err? { assert !FrameOk(o, frames, map_, i); return address; }
      var duplicate := ContainsFrame(frames[..i], f.frame);
      if duplicate { assert !FrameOk(o, frames, map_, i); return Err(DuplicateOwnedFrame); }
      assert forall k | 0 <= k < i :: frames[k] == frames[..i][k];
      if f.frame == o.root { rootCount := rootCount + 1; }
      var reserved := FindReservation(map_, f.frame);
      if !reserved { assert !FrameOk(o, frames, map_, i); return Err(OwnedFrameNotReserved); }
    }
    if rootCount != 1 { return Err(RootFrameMissingOrDuplicated); }
    return Ok(());
  }
}
