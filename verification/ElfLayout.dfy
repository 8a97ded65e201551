/** Round trips through the byte layout of the ELF64 headers. The layout of a program header is the one the parser's
    contract names; that of the file header is written out here. */
module ElfLayout {
  import opened Prelude
  import opened ByteLayout
  import opened Elf

  // ---- program headers

  lemma ProgramOffsets(p: ProgramHeader)
    ensures var c := ProgramCells(p);
      OffsetOf(c, 0) == 0 && OffsetOf(c, 1) == 4 && OffsetOf(c, 2) == 8 && OffsetOf(c, 3) == 16 &&
      OffsetOf(c, 4) == 24 &&
      OffsetOf(c, 5) == 32 && OffsetOf(c, 6) == 40 && OffsetOf(c, 7) == 48 && OffsetOf(c, 8) == 56
  {
    var c := ProgramCells(p);
    OffsetStep(c, 1);
    OffsetStep(c, 2);
    OffsetStep(c, 3);
    OffsetStep(c, 4);
    OffsetStep(c, 5);
    OffsetStep(c, 6);
    OffsetStep(c, 7);
    OffsetStep(c, 8);
  }

  lemma ProgramField(before: seq<Byte>, p: ProgramHeader, rest: seq<Byte>, i: nat)
    requires i < 8
    ensures var c := ProgramCells(p); var b := before + (Encode(c) + rest);
      |before| + 56 <= |b| && OffsetOf(c, i) + c[i].width <= 56 &&
        Field(b, |before| + OffsetOf(c, i), c[i].width) == c[i].value
  {
    hide Encode, LittleEndian, Span;
    var c := ProgramCells(p);
    Spans();
    ProgramOffsets(p);
    EncodeLength(c);
    FieldReadsBack(c, rest, i);
    FieldBehind(before, Encode(c) + rest, OffsetOf(c, i), c[i].width);
  }

  /** A program header laid out anywhere in a file is read back unchanged. */
  lemma ProgramHeaderRoundTrip(before: seq<Byte>, p: ProgramHeader, rest: seq<Byte>)
    requires |before| + 56 + |rest| < U64_LIMIT
    ensures var b := before + (Encode(ProgramCells(p)) + rest);
      |b| < U64_LIMIT && ParseProgramHeader(b, |before|) == Some(p)
  {
    hide Encode, Field, OffsetOf;
    var c := ProgramCells(p);
    ProgramOffsets(p);
    EncodeLength(c);
    forall i | 0 <= i < 8
      ensures var b := before + (Encode(c) + rest);
        OffsetOf(c, i) + c[i].width <= 56 && |before| + 56 <= |b| &&
        Field(b, |before| + OffsetOf(c, i), c[i].width) == c[i].value {
      ProgramField(before, p, rest, i);
    }
  }

  // ---- the file header

  function HeaderCells(h: RawHeader): seq<Cell> {
    [Cell(4, 0x464c_457f), Cell(1, h.class_), Cell(1, h.endianness), Cell(1, h.identVersion), Cell(1, h.osAbi),
      Cell(8, 0),
     Cell(2, h.objectType), Cell(2, h.machine), Cell(4, h.elfVersion), Cell(8, h.entry), Cell(8, h.programOffset),
     Cell(8, h.sectionOffset), Cell(4, 0), Cell(2, h.headerSize), Cell(2, h.programSize), Cell(2, h.programCount),
     Cell(2, h.sectionSize), Cell(2, h.sectionCount), Cell(2, 0)]
  }

  /** Where the System V ABI places the fields of the file header. */
  const HEADER_OFFSETS: seq<nat> := [0, 4, 5, 6, 7, 8, 16, 18, 20, 24, 32, 40, 48, 52, 54, 56, 58, 60, 62, 64]

  lemma {:induction false} HeaderOffsets(h: RawHeader, i: nat)
    requires i <= 19
    ensures OffsetOf(HeaderCells(h), i) == HEADER_OFFSETS[i]
  {
    if i > 0 { HeaderOffsets(h, i - 1); }
  }

  lemma HeaderField(h: RawHeader, rest: seq<Byte>, i: nat)
    requires i < 19
    ensures var c := HeaderCells(h); var b := Encode(c) + rest;
      |b| == 64 + |rest| && HEADER_OFFSETS[i] + c[i].width <= 64 &&
        Field(b, HEADER_OFFSETS[i], c[i].width) == c[i].value
  {
    hide Encode, LittleEndian, Span, OffsetOf;
    var c := HeaderCells(h);
    Spans();
    assert Span(1) == 256 by { SpanOne(); }
    HeaderOffsets(h, i);
    HeaderOffsets(h, 19);
    HeaderOffsets(h, i + 1);
    EncodeLength(c);
    FieldReadsBack(c, rest, i);
  }

  /** A file header laid out as the ABI says is read back unchanged. */
  lemma HeaderRoundTrip(h: RawHeader, rest: seq<Byte>)
    requires 64 + |rest| < U64_LIMIT
    ensures var b := Encode(HeaderCells(h)) + rest; |b| < U64_LIMIT && ParseRawHeader(b) == Ok(h)
  {
    hide Encode, Field;
    var c, b := HeaderCells(h), Encode(HeaderCells(h)) + rest;
    HeaderField(h, rest, 0);
    forall i | 0 <= i < 19
      ensures HEADER_OFFSETS[i] + c[i].width <= 64 && Field(b, HEADER_OFFSETS[i], c[i].width) == c[i].value {
      HeaderField(h, rest, i);
    }
    OneByte(b, 4);
    OneByte(b, 5);
    OneByte(b, 6);
    OneByte(b, 7);
    HeaderFields(h, b, c);
  }

  lemma HeaderFields(h: RawHeader, b: File, c: seq<Cell>)
    requires |b| >= 64 && c == HeaderCells(h)
    requires forall i | 0 <= i < 19 ::
      HEADER_OFFSETS[i] + c[i].width <= 64 && Field(b, HEADER_OFFSETS[i], c[i].width) == c[i].value
    requires b[4] == Field(b, 4, 1) && b[5] == Field(b, 5, 1) && b[6] == Field(b, 6, 1) && b[7] == Field(b, 7, 1)
    ensures ParseRawHeader(b) == Ok(h)
  {
    hide Field;
    assert HEADER_OFFSETS[1] + c[1].width <= 64;
    assert HEADER_OFFSETS[2] + c[2].width <= 64;
    assert HEADER_OFFSETS[3] + c[3].width <= 64;
    assert HEADER_OFFSETS[4] + c[4].width <= 64;
    assert HEADER_OFFSETS[6] + c[6].width <= 64;
    assert HEADER_OFFSETS[7] + c[7].width <= 64;
    assert HEADER_OFFSETS[8] + c[8].width <= 64;
    assert HEADER_OFFSETS[9] + c[9].width <= 64;
    assert HEADER_OFFSETS[10] + c[10].width <= 64;
    assert HEADER_OFFSETS[11] + c[11].width <= 64;
    assert HEADER_OFFSETS[13] + c[13].width <= 64;
    assert HEADER_OFFSETS[14] + c[14].width <= 64;
    assert HEADER_OFFSETS[15] + c[15].width <= 64;
    assert HEADER_OFFSETS[16] + c[16].width <= 64;
    assert HEADER_OFFSETS[17] + c[17].width <= 64;
  }
}
