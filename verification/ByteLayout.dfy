/** Records as lists of little-endian fields: what a writer lays out, field by field, and what reading back
    any of those fields yields. */
module ByteLayout {
  import opened Prelude

  /** A little-endian integer. */
  function LittleEndian(b: seq<Byte>): nat {
    if b == [] then 0 else b[0] + 256 * LittleEndian(b[1..])
  }

  function Field(b: seq<Byte>, offset: nat, width: nat): nat
    requires offset + width <= |b|
  {
    LittleEndian(b[offset..offset + width])
  }

  function Span(width: nat): nat { if width == 0 then 1 else 256 * Span(width - 1) }

  lemma {:induction false} LittleEndianBound(b: seq<Byte>)
    ensures LittleEndian(b) < Span(|b|)
  {
    if b != [] { LittleEndianBound(b[1..]); }
  }

  lemma Spans()
    ensures Span(2) == 0x1_0000 && Span(4) == 0x1_0000_0000 && Span(8) == 0x1_0000_0000_0000_0000
  {
    assert Span(2) == 256 * Span(1);
    assert Span(4) == 256 * Span(3) && Span(3) == 256 * Span(2);
    assert Span(8) == 256 * Span(7) && Span(7) == 256 * Span(6) && Span(6) == 256 * Span(5) && Span(5) == 256 * Span(4);
  }

  function ToBytes(n: nat, width: nat): (b: seq<Byte>)
    ensures |b| == width
    decreases width
  {
    if width == 0 then [] else [n % 256] + ToBytes(n / 256, width - 1)
  }

  lemma {:induction false} FromBytes(n: nat, width: nat)
    requires n < Span(width)
    ensures LittleEndian(ToBytes(n, width)) == n
    decreases width
  {
    if width > 0 {
      FromBytes(n / 256, width - 1);
      assert ToBytes(n, width)[1..] == ToBytes(n / 256, width - 1);
    }
  }

  lemma {:induction false} ToBytesInverse(b: seq<Byte>)
    ensures ToBytes(LittleEndian(b), |b|) == b
  {
    if b != [] {
      ToBytesInverse(b[1..]);
      assert LittleEndian(b) % 256 == b[0] && LittleEndian(b) / 256 == LittleEndian(b[1..]);
    }
  }

  /** A field of a record: its width in bytes and its value. */
  datatype Cell = Cell(width: nat, value: nat)

  function Encode(cells: seq<Cell>): seq<Byte> {
    if cells == [] then []
    else Encode(cells[..|cells| - 1]) + ToBytes(cells[|cells| - 1].value, cells[|cells| - 1].width)
  }

  function OffsetOf(cells: seq<Cell>, i: nat): nat
    requires i <= |cells|
  {
    if i == 0 then 0 else OffsetOf(cells, i - 1) + cells[i - 1].width
  }

  lemma {:induction false} OffsetPrefix(cells: seq<Cell>, n: nat, i: nat)
    requires i <= n <= |cells|
    ensures OffsetOf(cells[..n], i) == OffsetOf(cells, i)
  {
    if i > 0 { OffsetPrefix(cells, n, i - 1); }
  }

  lemma {:induction false} EncodeLength(cells: seq<Cell>)
    ensures |Encode(cells)| == OffsetOf(cells, |cells|)
  {
    if cells != [] {
      EncodeLength(cells[..|cells| - 1]);
      OffsetPrefix(cells, |cells| - 1, |cells| - 1);
    }
  }

  /** Every field of an encoded record reads back at its offset, whatever follows the record. */
  lemma {:induction false} FieldReadsBack(cells: seq<Cell>, rest: seq<Byte>, i: nat)
    requires i < |cells| && cells[i].value < Span(cells[i].width)
    ensures OffsetOf(cells, i) + cells[i].width <= |Encode(cells) + rest|
    ensures Field(Encode(cells) + rest, OffsetOf(cells, i), cells[i].width) == cells[i].value
  {
    var n := |cells| - 1;
    var front, last := cells[..n], ToBytes(cells[n].value, cells[n].width);
    EncodeLength(front);
    EncodeLength(cells);
    OffsetPrefix(cells, n, n);
    assert Encode(cells) + rest == Encode(front) + (last + rest);
    if i == n {
      FromBytes(cells[n].value, cells[n].width);
      assert (Encode(cells) + rest)[|Encode(front)|..|Encode(front)| + cells[n].width] == last;
    } else {
      FieldReadsBack(front, last + rest, i);
      OffsetPrefix(cells, n, i);
    }
  }

  lemma FieldBehind(before: seq<Byte>, b: seq<Byte>, offset: nat, width: nat)
    requires offset + width <= |b|
    ensures Field(before + b, |before| + offset, width) == Field(b, offset, width)
  {
    assert (before + b)[|before| + offset..|before| + offset + width] == b[offset..offset + width];
  }

  lemma OffsetStep(cells: seq<Cell>, i: nat)
    requires 0 < i <= |cells|
    ensures OffsetOf(cells, i) == OffsetOf(cells, i - 1) + cells[i - 1].width && OffsetOf(cells, 0) == 0
  {
  }

  lemma SpanOne()
    ensures Span(1) == 256
  {
    assert Span(1) == 256 * Span(0);
  }

  lemma OneByte(b: seq<Byte>, i: nat)
    requires i < |b|
    ensures Field(b, i, 1) == b[i]
  {
    var s := b[i..i + 1];
    assert s[0] == b[i] && s[1..] == [];
    assert LittleEndian(s) == s[0] + 256 * LittleEndian(s[1..]);
  }
}
