/** The byte layout of a page-table ownership record and its way through the envelope validator. */
module ExtensionLayout {
  import opened Prelude
  import opened Extensions
  import opened ByteLayout

  /** What a version-1 ownership record must say. */
  predicate OwnershipOk(o: Ownership) {
    o.hierarchyVersion == 1 && o.levels == 4 && (o.state == 1 || o.state == 2) && o.pageSize == 4096 &&
    o.cap == PHYSICAL_CAP &&
    0 < o.root && o.root % 4096 == 0 && o.root + 4096 <= o.cap &&
    0 < o.listAddress && o.listAddress % 8 == 0 && 0 < o.frameCount && FRAME_RECORD_SIZE <= o.stride &&
    o.stride % 8 == 0 &&
    o.listAddress + o.frameCount * o.stride <= o.cap && o.reserved0 == o.reserved1 == o.reserved2 == 0
  }

  lemma OwnershipExact(o: Ownership)
    ensures ValidateOwnership(o).Ok? <==> OwnershipOk(o)
  {
    Below(o.listAddress, o.frameCount * o.stride);
  }

  lemma Below(a: nat, b: nat)
    ensures a + b <= PHYSICAL_CAP ==> a < U64_LIMIT && b < U64_LIMIT && a + b < U64_LIMIT
  {
  }

  /** The fields fit their widths on the wire. */
  predicate WireSized(o: Ownership) {
    o.hierarchyVersion < 0x1_0000 && o.levels < 256 && o.state < 256 && o.pageSize < 0x1_0000_0000 &&
    o.root < U64_LIMIT && o.listAddress < U64_LIMIT && o.frameCount < 0x1_0000_0000 && o.stride < 0x1_0000_0000 &&
    o.cap < U64_LIMIT && o.reserved0 < U64_LIMIT && o.reserved1 < U64_LIMIT && o.reserved2 < U64_LIMIT
  }

  function RecordCells(o: Ownership, flags: nat): seq<Cell> {
    [Cell(4, 1), Cell(2, 1), Cell(2, 16), Cell(4, 80), Cell(4, flags),
     Cell(2, o.hierarchyVersion), Cell(1, o.levels), Cell(1, o.state), Cell(4, o.pageSize), Cell(8, o.root),
     Cell(8, o.listAddress),
     Cell(4, o.frameCount), Cell(4, o.stride), Cell(8, o.cap), Cell(8, o.reserved0), Cell(8, o.reserved1),
     Cell(8, o.reserved2)]
  }

  /** Where the record layout places its fields. */
  const RECORD_OFFSETS: seq<nat> := [0, 4, 6, 8, 12, 16, 18, 19, 20, 24, 32, 40, 44, 48, 56, 64, 72, 80]

  lemma {:induction false} RecordOffsets(o: Ownership, flags: nat, i: nat)
    requires i <= 17
    ensures OffsetOf(RecordCells(o, flags), i) == RECORD_OFFSETS[i]
  {
    if i > 0 { RecordOffsets(o, flags, i - 1); }
  }

  lemma RecordField(o: Ownership, flags: nat, i: nat)
    requires WireSized(o) && flags <= 1 && i < 17
    ensures var c := RecordCells(o, flags); var b := Encode(c);
      |b| == 80 && RECORD_OFFSETS[i] + c[i].width <= 80 && Field(b, RECORD_OFFSETS[i], c[i].width) == c[i].value
  {
    hide Encode, LittleEndian, Span, OffsetOf;
    var c := RecordCells(o, flags);
    Spans();
    SpanOne();
    RecordOffsets(o, flags, i);
    RecordOffsets(o, flags, i + 1);
    RecordOffsets(o, flags, 17);
    EncodeLength(c);
    FieldReadsBack(c, [], i);
    assert Encode(c) + [] == Encode(c);
  }

  /** The record laid out for an ownership parses back to it. */
  lemma RecordRoundTrip(o: Ownership, flags: nat)
    requires WireSized(o) && flags <= 1
    ensures var b := Encode(RecordCells(o, flags));
      |b| == 80 && ParseHeader(b) == Header(1, 1, 16, 80, flags) && ParseOwnership(b[16..]) == o
  {
    hide Encode, Field;
    var c, b := RecordCells(o, flags), Encode(RecordCells(o, flags));
    RecordField(o, flags, 0);
    forall i | 0 <= i < 17
      ensures RECORD_OFFSETS[i] + c[i].width <= 80 && Field(b, RECORD_OFFSETS[i], c[i].width) == c[i].value {
      RecordField(o, flags, i);
    }
    RecordFields(o, flags, b, c);
  }

  lemma TailField(b: seq<Byte>, offset: nat, width: nat)
    requires 16 + offset + width <= |b|
    ensures Field(b[16..], offset, width) == Field(b, 16 + offset, width)
  {
    assert b[16..][offset..offset + width] == b[16 + offset..16 + offset + width];
  }

  lemma RecordFields(o: Ownership, flags: nat, b: seq<Byte>, c: seq<Cell>)
    requires |b| == 80 && c == RecordCells(o, flags)
    requires forall i | 0 <= i < 17 ::
      RECORD_OFFSETS[i] + c[i].width <= 80 && Field(b, RECORD_OFFSETS[i], c[i].width) == c[i].value
    ensures ParseHeader(b) == Header(1, 1, 16, 80, flags) && ParseOwnership(b[16..]) == o
  {
    hide Field;
    OneByte(b, 18);
    OneByte(b, 19);
    assert RECORD_OFFSETS[0] + c[0].width <= 80;
    assert RECORD_OFFSETS[1] + c[1].width <= 80;
    assert RECORD_OFFSETS[2] + c[2].width <= 80;
    assert RECORD_OFFSETS[3] + c[3].width <= 80;
    assert RECORD_OFFSETS[4] + c[4].width <= 80;
    assert RECORD_OFFSETS[5] + c[5].width <= 80;
    assert RECORD_OFFSETS[6] + c[6].width <= 80;
    assert RECORD_OFFSETS[7] + c[7].width <= 80;
    assert RECORD_OFFSETS[8] + c[8].width <= 80;
    assert RECORD_OFFSETS[9] + c[9].width <= 80;
    assert RECORD_OFFSETS[10] + c[10].width <= 80;
    assert RECORD_OFFSETS[11] + c[11].width <= 80;
    assert RECORD_OFFSETS[12] + c[12].width <= 80;
    assert RECORD_OFFSETS[13] + c[13].width <= 80;
    assert RECORD_OFFSETS[14] + c[14].width <= 80;
    assert RECORD_OFFSETS[15] + c[15].width <= 80;
    assert RECORD_OFFSETS[16] + c[16].width <= 80;
    TailField(b, 0, 2);
    TailField(b, 4, 4);
    TailField(b, 8, 8);
    TailField(b, 16, 8);
    TailField(b, 24, 4);
    TailField(b, 28, 4);
    TailField(b, 32, 8);
    TailField(b, 40, 8);
    TailField(b, 48, 8);
    TailField(b, 56, 8);
  }

  /** A valid ownership, laid out as one record, is an accepted envelope that carries exactly it. */
  lemma OwnershipEnvelope(o: Ownership, flags: nat)
    requires WireSized(o) && flags <= 1 && OwnershipOk(o)
    ensures var b := Encode(RecordCells(o, flags));
      IsEnvelope(b, [b]) && OwnershipOf([b]) == Some(o)
  {
    hide Encode, ParseOwnership, ParseHeader, OwnershipOk;
    RecordRoundTrip(o, flags);
    OwnershipExact(o);
    var b := Encode(RecordCells(o, flags));
    assert Flatten([b]) == b + Flatten([b][1..]);
  }
}
