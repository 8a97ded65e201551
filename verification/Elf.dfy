/** Reading the headers and tables of an ELF64 file and checking each by itself. */
module Elf {
  import opened Prelude
  import opened ByteLayout

  const PT_LOAD: int := 1
  const PT_DYNAMIC: int := 2
  const PT_INTERP: int := 3
  const PT_TLS: int := 7
  const SHT_SYMTAB: int := 2
  const SHT_RELA: int := 4
  const SHT_REL: int := 9
  const SHT_DYNSYM: int := 11

  datatype ValidationError =
    | HeaderTooSmall | BadMagic | UnsupportedClass | UnsupportedEndianness | UnsupportedIdentVersion | UnsupportedOsAbi
    | UnsupportedObjectType | UnsupportedMachine | UnsupportedElfVersion | InvalidHeaderSize | InvalidProgramHeaderSize
    | TooManyProgramHeaders | ProgramHeaderTableOverflow | ProgramHeaderTableOutsideFile | InvalidSectionHeaderSize
    | SectionHeaderTableOverflow | SectionHeaderTableOutsideFile | RuntimeRelocations | InterpreterSegment
    | DynamicSegment
    | TlsSegment | NoLoadSegments | ZeroLengthLoadSegment | FileSizeExceedsMemorySize | SegmentFileRangeOverflow
    | SegmentOutsideFile | SegmentMemoryRangeOverflow | InvalidAlignment | InvalidOffsetAddressCongruence
    | WritableExecutableSegment | NonCanonicalAddress | OverlappingLoadSegments | OverlappingVirtualLoadSegments
    | EntryOutsideExecutableSegment | InvalidSymbolTable | UndefinedRuntimeSymbol

  datatype RawHeader = RawHeader(
    class_: Byte, endianness: Byte, identVersion: Byte, osAbi: Byte, objectType: U16, machine: U16, elfVersion: U32,
    entry: U64, programOffset: U64, sectionOffset: U64, headerSize: U16, programSize: U16, programCount: U16,
    sectionSize: U16, sectionCount: U16)

  datatype ProgramHeader = ProgramHeader(
    kind: U32, flags: U32, fileOffset: U64, virtualAddress: U64, physicalAddress: U64, fileSize: U64, memorySize: U64,
    alignment: U64)

  // ---- reading integers

  /** A file: its length is a machine word. */
  type File = b: seq<Byte> | |b| < 0x1_0000_0000_0000_0000 witness []

  lemma FieldBound(b: seq<Byte>, offset: nat, width: nat)
    requires offset + width <= |b|
    ensures (width == 2 ==> Field(b, offset, width) < 0x1_0000) &&
      (width == 4 ==> Field(b, offset, width) < 0x1_0000_0000)
    ensures width == 8 ==> Field(b, offset, width) < 0x1_0000_0000_0000_0000
  {
    hide LittleEndian, Span;
    LittleEndianBound(b[offset..offset + width]);
    Spans();
  }

  function ReadU16(b: File, offset: U64): (r: Option<U16>)
    ensures r.Some? <==> offset + 2 <= |b|
    ensures r.Some? ==> ToBytes(r.value, 2) == b[offset..offset + 2]
  {
    if offset + 2 <= |b| then
      FieldBound(b, offset, 2);
      ToBytesInverse(b[offset..offset + 2]);
      Some(Field(b, offset, 2))
    else None
  }

  function ReadU32(b: File, offset: U64): (r: Option<U32>)
    ensures r.Some? <==> offset + 4 <= |b|
    ensures r.Some? ==> ToBytes(r.value, 4) == b[offset..offset + 4]
  {
    if offset + 4 <= |b| then
      FieldBound(b, offset, 4);
      ToBytesInverse(b[offset..offset + 4]);
      Some(Field(b, offset, 4))
    else None
  }

  function ReadU64(b: File, offset: U64): (r: Option<U64>)
    ensures r.Some? <==> offset + 8 <= |b|
    ensures r.Some? ==> ToBytes(r.value, 8) == b[offset..offset + 8]
  {
    if offset + 8 <= |b| then
      FieldBound(b, offset, 8);
      ToBytesInverse(b[offset..offset + 8]);
      Some(Field(b, offset, 8))
    else None
  }

  // ---- headers

  function ParseRawHeader(b: File): Result<RawHeader, ValidationError> {
    if |b| < 64 then Err(HeaderTooSmall)
    else
      Ok(RawHeader(
        b[4], b[5], b[6], b[7], ReadU16(b, 16).value, ReadU16(b, 18).value, ReadU32(b, 20).value, ReadU64(b, 24).value,
        ReadU64(b, 32).value, ReadU64(b, 40).value, ReadU16(b, 52).value, ReadU16(b, 54).value, ReadU16(b, 56).value,
        ReadU16(b, 58).value, ReadU16(b, 60).value))
  }

  function ValidateMagic(b: File): Result<(), ValidationError> {
    if |b| < 4 then Err(HeaderTooSmall)
    else if b[..4] != [0x7f, 0x45, 0x4c, 0x46] then Err(BadMagic)
    else Ok(())
  }

  /** A 64-bit little-endian System V executable for x86-64 with headers of the expected sizes. */
  predicate HeaderOk(h: RawHeader) {
    h.class_ == 2 && h.endianness == 1 && h.identVersion == 1 && h.osAbi == 0 && h.objectType == 2 && h.machine == 62 &&
    h.elfVersion == 1 && h.headerSize == 64 && h.programSize == 56 && h.programCount <= 128
  }

  function ValidateHeader(h: RawHeader): (r: Result<(), ValidationError>)
    ensures r.Ok? <==> HeaderOk(h)
  {
    if h.class_ != 2 then Err(UnsupportedClass)
    else if h.endianness != 1 then Err(UnsupportedEndianness)
    else if h.identVersion != 1 then Err(UnsupportedIdentVersion)
    else if h.osAbi != 0 then Err(UnsupportedOsAbi)
    else if h.objectType != 2 then Err(UnsupportedObjectType)
    else if h.machine != 62 then Err(UnsupportedMachine)
    else if h.elfVersion != 1 then Err(UnsupportedElfVersion)
    else if h.headerSize != 64 then Err(InvalidHeaderSize)
    else if h.programSize != 56 then Err(InvalidProgramHeaderSize)
    else if h.programCount > 128 then Err(TooManyProgramHeaders)
    else Ok(())
  }

  function ValidateProgramTable(b: File, h: RawHeader): Result<(), ValidationError> {
    if h.programOffset + h.programSize * h.programCount >= U64_LIMIT then Err(ProgramHeaderTableOverflow)
    else if h.programOffset + h.programSize * h.programCount > |b| then Err(ProgramHeaderTableOutsideFile)
    else Ok(())
  }

  /** The layout of a program header: kind and flags, then six words. */
  function ProgramCells(p: ProgramHeader): seq<Cell> {
    [Cell(4, p.kind), Cell(4, p.flags), Cell(8, p.fileOffset), Cell(8, p.virtualAddress), Cell(8, p.physicalAddress),
     Cell(8, p.fileSize), Cell(8, p.memorySize), Cell(8, p.alignment)]
  }

  /** These 56 bytes of the file are the layout of the header. */
  predicate LaidOutAt(b: File, offset: U64, p: ProgramHeader) {
    offset + 56 <= |b| && Encode(ProgramCells(p)) == b[offset..offset + 56]
  }

  function ReadProgramHeader(b: File, offset: U64): ProgramHeader
    requires offset + 56 <= |b|
  {
    ProgramHeader(
      ReadU32(b, offset).value, ReadU32(b, offset + 4).value, ReadU64(b, offset + 8).value,
      ReadU64(b, offset + 16).value,
      ReadU64(b, offset + 24).value, ReadU64(b, offset + 32).value, ReadU64(b, offset + 40).value,
      ReadU64(b, offset + 48).value)
  }

  lemma ReadIsLayout(b: File, offset: U64)
    requires offset + 56 <= |b|
    ensures LaidOutAt(b, offset, ReadProgramHeader(b, offset))
  {
    hide ReadU32, ReadU64, ToBytes, Encode, ProgramCells;
    SliceOf(b, offset, 0, 4);
    SliceOf(b, offset, 4, 8);
    SliceOf(b, offset, 8, 16);
    SliceOf(b, offset, 16, 24);
    SliceOf(b, offset, 24, 32);
    SliceOf(b, offset, 32, 40);
    SliceOf(b, offset, 40, 48);
    SliceOf(b, offset, 48, 56);
    ProgramBytes(b[offset..offset + 56], ReadProgramHeader(b, offset));
  }

  lemma SliceOf(b: seq<Byte>, offset: nat, i: nat, j: nat)
    requires offset + 56 <= |b| && i <= j <= 56
    ensures b[offset..offset + 56][i..j] == b[offset + i..offset + j]
  {
    var all, part := b[offset..offset + 56], b[offset + i..offset + j];
    forall k | 0 <= k < j - i ensures all[i..j][k] == part[k] { assert all[i + k] == b[offset + i + k]; }
    assert all[i..j] == part;
  }

  /** Reads a program header exactly when its 56 bytes lie in the file; they are then its layout. */
  function ParseProgramHeader(b: File, offset: U64): (r: Option<ProgramHeader>)
    ensures r.Some? <==> offset + 56 <= |b|
    ensures r.Some? ==> LaidOutAt(b, offset, r.value)
  {
    if offset + 56 > |b| then None
    else
      var p := ReadProgramHeader(b, offset);
      assert LaidOutAt(b, offset, p) by { ReadIsLayout(b, offset); }
      Some(p)
  }

  lemma ProgramBytes(b: seq<Byte>, p: ProgramHeader)
    requires |b| == 56
    requires b[0..4] == ToBytes(p.kind, 4) && b[4..8] == ToBytes(p.flags, 4) && b[8..16] == ToBytes(p.fileOffset, 8)
    requires b[16..24] == ToBytes(p.virtualAddress, 8) && b[24..32] == ToBytes(p.physicalAddress, 8)
    requires b[32..40] == ToBytes(p.fileSize, 8) && b[40..48] == ToBytes(p.memorySize, 8) &&
      b[48..56] == ToBytes(p.alignment, 8)
    ensures Encode(ProgramCells(p)) == b
  {
    hide ToBytes;
    var c := ProgramCells(p);
    EncodeNext(c, 0, b);
    EncodeNext(c, 1, b);
    EncodeNext(c, 2, b);
    EncodeNext(c, 3, b);
    EncodeNext(c, 4, b);
    EncodeNext(c, 5, b);
    EncodeNext(c, 6, b);
    EncodeNext(c, 7, b);
    assert c[..8] == c && b[..56] == b;
  }

  /** Where the fields of a program header begin. */
  function ProgramOffset(i: nat): nat { if i <= 2 then 4 * i else 8 * (i - 1) }

  lemma EncodeNext(c: seq<Cell>, i: nat, b: seq<Byte>)
    requires i < 8 == |c| && |b| == 56 && c[i].width == ProgramOffset(i + 1) - ProgramOffset(i)
    requires b[ProgramOffset(i)..ProgramOffset(i + 1)] == ToBytes(c[i].value, c[i].width)
    requires i > 0 ==> Encode(c[..i]) == b[..ProgramOffset(i)]
    ensures Encode(c[..i + 1]) == b[..ProgramOffset(i + 1)]
  {
    assert c[..i + 1][..i] == c[..i];
    if i == 0 { assert c[..0] == [] && b[..0] == []; }
    assert b[..ProgramOffset(i + 1)] == b[..ProgramOffset(i)] + b[ProgramOffset(i)..ProgramOffset(i + 1)];
  }

  /** Header `index` of the program header table. */
  function ProgramHeaderAt(b: File, h: RawHeader, index: nat): Option<ProgramHeader> {
    if index >= h.programCount then None
    else if h.programOffset + index * h.programSize >= U64_LIMIT then None
    else ParseProgramHeader(b, h.programOffset + index * h.programSize)
  }

  /** Header and program header table are acceptable. */
  predicate TablePresent(b: File, h: RawHeader) {
    h.programSize == 56 && h.programCount <= 128 && h.programOffset + 56 * h.programCount <= |b|
  }

  lemma HeaderPresent(b: File, h: RawHeader, index: nat)
    requires TablePresent(b, h) && index < h.programCount
    ensures ProgramHeaderAt(b, h, index).Some?
  {
  }

  // ---- sections and symbols

  /** Every symbol but the first is defined in some section. */
  ghost predicate SymbolsDefined(b: File, fileOffset: U64, size: U64)
    requires fileOffset + size <= |b|
  {
    forall k: int | 1 <= k < size / 24 :: SymbolSection(b, fileOffset, size, k) != 0
  }

  function SymbolSection(b: File, fileOffset: U64, size: U64, k: int): U16
    requires fileOffset + size <= |b| && 0 <= k < size / 24
  {
    ReadU16(b, fileOffset + 24 * k + 6).value
  }

  /** A symbol table section at this place in the section header table is acceptable. */
  ghost predicate SymbolTableOk(b: File, section: nat, size: U64)
    requires section + 64 <= |b|
  {
    var fileOffset, entrySize := ReadU64(b, section + 24).value, ReadU64(b, section + 56).value;
    entrySize == 24 && size % 24 == 0 && fileOffset + size <= |b| && SymbolsDefined(b, fileOffset, size)
  }

  method ValidateSymbolTable(b: File, section: U64, size: U64) returns (r: Result<(), ValidationError>)
    requires section + 64 <= |b|
    ensures r.Ok? <==> SymbolTableOk(b, section, size)
  {
    hide ReadU64, ReadU16;
    var fileOffsetAt: U64, entrySizeAt: U64 := section + 24, section + 56;
    var fileOffset, entrySize := ReadU64(b, fileOffsetAt), ReadU64(b, entrySizeAt);
    if fileOffset.None? || entrySize.None? { return Err(SectionHeaderTableOutsideFile); }
    if entrySize.value != 24 || size % 24 != 0 { return Err(InvalidSymbolTable); }
    if fileOffset.value + size >= U64_LIMIT { return Err(SectionHeaderTableOverflow); }
    if fileOffset.value + size > |b| { return Err(SectionHeaderTableOutsideFile); }
    r := CheckSymbols(b, fileOffset.value, size);
  }

  method CheckSymbols(b: File, fileOffset: U64, size: U64) returns (r: Result<(), ValidationError>)
    requires fileOffset + size <= |b|
    ensures r.Ok? <==> SymbolsDefined(b, fileOffset, size)
  {
    hide ReadU16;
    var index := 1;
    while index < size / 24
      invariant 1 <= index && forall k | 1 <= k < index && k < size / 24 :: SymbolSection(b, fileOffset, size, k) != 0
    {
      if index * 24 >= U64_LIMIT || fileOffset + index * 24 >= U64_LIMIT { return Err(SectionHeaderTableOverflow); }
      var symbol: U64 := fileOffset + index * 24;
      var at: U64 := symbol + 6;
      var sectionIndex := ReadU16(b, at);
      assert at == fileOffset + 24 * index + 6;
      if sectionIndex.None? { return Err(SectionHeaderTableOutsideFile); }
      assert sectionIndex.value == SymbolSection(b, fileOffset, size, index);
      if sectionIndex.value == 0 { return Err(UndefinedRuntimeSymbol); }
      index := index + 1;
    }
    return Ok(());
  }

  ghost predicate SectionOk(b: File, section: nat)
    requires section + 64 <= |b|
  {
    var kind, size := ReadU32(b, section + 4).value, ReadU64(b, section + 32).value;
    !((kind == SHT_REL || kind == SHT_RELA) && size != 0) &&
    (kind == SHT_SYMTAB || kind == SHT_DYNSYM ==> SymbolTableOk(b, section, size))
  }

  /** Either there is no section table, or it lies in the file and every section is acceptable. */
  ghost predicate SectionsOk(b: File, h: RawHeader) {
    h.sectionCount == 0 ||
    (h.sectionSize == 64 && h.sectionOffset + 64 * h.sectionCount <= |b| &&
     forall i | 0 <= i < h.sectionCount :: SectionAtOk(b, h, i))
  }

  ghost predicate SectionAtOk(b: File, h: RawHeader, i: int)
    requires 0 <= i < h.sectionCount && h.sectionOffset + 64 * h.sectionCount <= |b|
  {
    SectionOk(b, h.sectionOffset + 64 * i)
  }

  /** The additions the source leaves unchecked are assigned to machine words here. */
  method CheckSection(b: File, offset: U64) returns (r: Result<(), ValidationError>)
    requires offset + 64 <= |b|
    ensures r.Ok? <==> SectionOk(b, offset)
  {
    hide ReadU32, ReadU64, SymbolTableOk;
    var kindAt: U64, sizeAt: U64 := offset + 4, offset + 32;
    var kind, size := ReadU32(b, kindAt), ReadU64(b, sizeAt);
    if kind.None? || size.None? { return Err(SectionHeaderTableOutsideFile); }
    if (kind.value == SHT_REL || kind.value == SHT_RELA) && size.value != 0 { return Err(RuntimeRelocations); }
    if kind.value == SHT_SYMTAB || kind.value == SHT_DYNSYM {
      r := ValidateSymbolTable(b, offset, size.value);
      return;
    }
    return Ok(());
  }

  method ValidateSectionTable(b: File, h: RawHeader) returns (r: Result<(), ValidationError>)
    ensures r.Ok? <==> SectionsOk(b, h)
  {
    hide SectionOk;
    if h.sectionCount == 0 { return Ok(()); }
    if h.sectionSize != 64 { return Err(InvalidSectionHeaderSize); }
    if h.sectionOffset + h.sectionSize * h.sectionCount >= U64_LIMIT { return Err(SectionHeaderTableOverflow); }
    if h.sectionOffset + h.sectionSize * h.sectionCount > |b| { return Err(SectionHeaderTableOutsideFile); }
    for i := 0 to h.sectionCount
      invariant forall k | 0 <= k < i :: SectionAtOk(b, h, k)
    {
      if h.sectionOffset + i * 64 >= U64_LIMIT { return Err(SectionHeaderTableOverflow); }
      assert h.sectionOffset + i * 64 == h.sectionOffset + 64 * i;
      r := CheckSection(b, h.sectionOffset + 64 * i);
      assert r.Ok? <==> SectionAtOk(b, h, i);
      if r.Err? { return; }
    }
    return Ok(());
  }
}
