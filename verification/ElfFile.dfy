/** Whole files: a header, a table of program headers behind it and any further bytes. What such a file says is
    accepted exactly when the headers are. */
module ElfFile {
  import opened Prelude
  import opened ByteLayout
  import MappingPlan
  import opened Elf
  import opened ElfImage
  import opened ElfLayout

  function TableBytes(ps: seq<ProgramHeader>): (b: seq<Byte>)
    ensures |b| == 56 * |ps|
  {
    if ps == [] then [] else
      ProgramLength(ps[|ps| - 1]);
      TableBytes(ps[..|ps| - 1]) + Encode(ProgramCells(ps[|ps| - 1]))
  }

  lemma ProgramLength(p: ProgramHeader)
    ensures |Encode(ProgramCells(p))| == 56
  {
    hide Encode;
    ProgramOffsets(p);
    EncodeLength(ProgramCells(p));
  }

  lemma HeaderLength(h: RawHeader)
    ensures |Encode(HeaderCells(h))| == 64
  {
    hide Encode, OffsetOf;
    HeaderOffsets(h, 19);
    EncodeLength(HeaderCells(h));
  }

  function FileBytes(h: RawHeader, ps: seq<ProgramHeader>, rest: seq<Byte>): seq<Byte> {
    Encode(HeaderCells(h)) + (TableBytes(ps) + rest)
  }

  /** The header names the table that follows it, and no sections. */
  predicate Names(h: RawHeader, ps: seq<ProgramHeader>) {
    HeaderOk(h) && h.programOffset == 64 && h.programCount == |ps| && h.sectionCount == 0
  }

  lemma {:induction false} TableSplit(ps: seq<ProgramHeader>, i: nat) returns (tail: seq<Byte>)
    requires i < |ps|
    ensures TableBytes(ps) == TableBytes(ps[..i]) + (Encode(ProgramCells(ps[i])) + tail)
  {
    hide Encode;
    var front, last := ps[..|ps| - 1], Encode(ProgramCells(ps[|ps| - 1]));
    if i == |ps| - 1 {
      tail := [];
      assert last + tail == last;
    } else {
      var middle := TableSplit(front, i);
      tail := middle + last;
      assert front[..i] == ps[..i];
      Regroup(TableBytes(ps[..i]), Encode(ProgramCells(ps[i])), middle, last);
    }
  }

  lemma Regroup(a: seq<Byte>, b: seq<Byte>, c: seq<Byte>, d: seq<Byte>)
    ensures a + (b + c) + d == a + (b + (c + d))
  {
  }

  lemma Regroup4(a: seq<Byte>, b: seq<Byte>, c: seq<Byte>, d: seq<Byte>, e: seq<Byte>)
    ensures a + ((b + (c + d)) + e) == (a + b) + (c + (d + e))
  {
  }

  /** Every header of the table is read back. */
  lemma HeaderInFile(h: RawHeader, ps: seq<ProgramHeader>, rest: seq<Byte>, i: nat)
    requires Names(h, ps) && |FileBytes(h, ps, rest)| < U64_LIMIT && i < |ps|
    ensures TablePresent(FileBytes(h, ps, rest), h) && HeaderAt(FileBytes(h, ps, rest), h, i) == ps[i]
  {
    hide Encode, ParseProgramHeader, ProgramCells, HeaderCells, TableBytes;
    var tail := TableSplit(ps, i);
    var head, p := Encode(HeaderCells(h)), Encode(ProgramCells(ps[i]));
    HeaderLength(h);
    ProgramLength(ps[i]);
    var before := head + TableBytes(ps[..i]);
    Regroup4(head, TableBytes(ps[..i]), p, tail, rest);
    assert FileBytes(h, ps, rest) == before + (p + (tail + rest));
    ProgramHeaderRoundTrip(before, ps[i], tail + rest);
  }

  lemma {:induction false} LoadsInFile(h: RawHeader, ps: seq<ProgramHeader>, rest: seq<Byte>, n: nat)
    requires Names(h, ps) && |FileBytes(h, ps, rest)| < U64_LIMIT && n <= |ps|
    requires forall i | 0 <= i < |ps| :: ps[i].kind == PT_LOAD
    ensures TablePresent(FileBytes(h, ps, rest), h) && Loads(FileBytes(h, ps, rest), h, n) == ps[..n]
  {
    hide FileBytes, HeaderAt;
    TableInFile(h, ps, rest);
    if n > 0 {
      LoadsInFile(h, ps, rest, n - 1);
      HeaderInFile(h, ps, rest, n - 1);
    }
  }

  lemma TableInFile(h: RawHeader, ps: seq<ProgramHeader>, rest: seq<Byte>)
    requires Names(h, ps) && |FileBytes(h, ps, rest)| < U64_LIMIT
    ensures TablePresent(FileBytes(h, ps, rest), h)
  {
    hide Encode, HeaderCells, TableBytes;
    HeaderLength(h);
  }

  lemma MagicInFile(h: RawHeader, rest: seq<Byte>)
    requires 64 + |rest| < U64_LIMIT
    ensures var b := Encode(HeaderCells(h)) + rest; |b| < U64_LIMIT && ValidateMagic(b).Ok?
  {
    hide Encode, LittleEndian, OffsetOf;
    var b := Encode(HeaderCells(h)) + rest;
    HeaderField(h, rest, 0);
    ToBytesInverse(b[0..4]);
    assert b[..4] == b[0..4] == ToBytes(0x464c_457f, 4);
    MagicBytes();
  }

  lemma MagicBytes()
    ensures ToBytes(0x464c_457f, 4) == [0x7f, 0x45, 0x4c, 0x46]
  {
    assert ToBytes(0x46, 1) == [0x46] + ToBytes(0, 0);
    assert ToBytes(0x464c, 2) == [0x4c] + ToBytes(0x46, 1);
    assert ToBytes(0x46_4c45, 3) == [0x45] + ToBytes(0x464c, 2);
  }

  /** A file of load segments is accepted exactly when its segments are acceptable and one of them holds the entry,
      and then these are its segments. */
  lemma FileAcceptedExactly(h: RawHeader, ps: seq<ProgramHeader>, rest: seq<Byte>)
    requires Names(h, ps) && |FileBytes(h, ps, rest)| < U64_LIMIT
    requires forall i | 0 <= i < |ps| :: ps[i].kind == PT_LOAD
    ensures var b := FileBytes(h, ps, rest);
      Acceptable(b, h) <==>
        AllLoadOk(b, ps) && AllApart(ps) && ps != [] && MappingPlan.IsCanonical(h.entry) && EntryHeld(ps, h.entry)
    ensures TablePresent(FileBytes(h, ps, rest), h) && Segments(FileBytes(h, ps, rest), h) == ps
  {
    hide FileBytes, LoadOk, PhysicallyApart, VirtuallyApart, HeaderAt, EntryHeld, Encode, ValidateMagic, ParseRawHeader,
      HeaderCells, TableBytes, Loads;
    var b := FileBytes(h, ps, rest);
    FileTables(h, ps, rest);
    LoadsInFile(h, ps, rest, |ps|);
    assert ps[..|ps|] == ps;
    AcceptedInFile(h, ps, rest);
  }

  lemma FileTables(h: RawHeader, ps: seq<ProgramHeader>, rest: seq<Byte>)
    requires Names(h, ps) && |FileBytes(h, ps, rest)| < U64_LIMIT
    ensures TablesOk(FileBytes(h, ps, rest), h)
  {
    hide Encode, HeaderCells, TableBytes, ParseRawHeader, ValidateMagic;
    TableInFile(h, ps, rest);
    HeaderLength(h);
    HeaderRoundTrip(h, TableBytes(ps) + rest);
    MagicInFile(h, TableBytes(ps) + rest);
  }

  lemma AcceptedInFile(h: RawHeader, ps: seq<ProgramHeader>, rest: seq<Byte>)
    requires Names(h, ps) && |FileBytes(h, ps, rest)| < U64_LIMIT
    requires forall i | 0 <= i < |ps| :: ps[i].kind == PT_LOAD
    ensures TablePresent(FileBytes(h, ps, rest), h)
    ensures HeadersAccepted(FileBytes(h, ps, rest), h, |ps|) <==>
            AllLoadOk(FileBytes(h, ps, rest), ps) && AllApart(ps)
  {
    hide FileBytes, LoadOk, PhysicallyApart, VirtuallyApart, HeaderAt, Loads;
    var b := FileBytes(h, ps, rest);
    TableInFile(h, ps, rest);
    forall i | 0 <= i < |ps| ensures HeaderAt(b, h, i) == ps[i] && Loads(b, h, i) == ps[..i] {
      HeaderInFile(h, ps, rest, i);
      LoadsInFile(h, ps, rest, i);
    }
    if HeadersAccepted(b, h, |ps|) {
      forall i | 0 <= i < |ps| ensures LoadOk(b, ps[i]) && ClearOf(ps[..i], ps[i]) {
        assert HeaderAccepted(b, h, i);
      }
      forall i, j | 0 <= i < j < |ps| ensures PhysicallyApart(ps[i], ps[j]) && VirtuallyApart(ps[i], ps[j]) {
        assert ps[..j][i] == ps[i];
      }
    }
  }
}
