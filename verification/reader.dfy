/** The primitive reader: a forward cursor over the input bytes with the
    alignment rule of the compiled terminfo format (TerminfoParser.cs,
    `ReadFormat`, `ReadShort`, `ReadInt`, `ReadBooleanCapability`,
    `ReadNumberCapability`, `AlignEven`).

    The stream is `data` and the cursor a `nat`; every read returns the
    value together with the cursor after it. The cursor may lie beyond the
    end of `data` after the name section is skipped, as a .NET stream
    position may. */
module Reader {
  import opened Wrappers
  import opened Bytes
  import opened Errors

  /** The two known file formats; they differ in the width of number slots. */
  datatype Format = Legacy | Extended

  /** The magic number that opens a file of format `f`. */
  function Tag(f: Format): int {
    match f
    case Legacy => 282
    case Extended => 542
  }

  /** The width in bytes of a number slot. */
  function Width(f: Format): nat {
    match f
    case Legacy => 2
    case Extended => 4
  }

  /** A decoded value and the cursor just after it. */
  datatype Read<+T> = Read(value: T, next: nat)

  /** The even offset a multi-byte read starting at `pos` really starts at. */
  function Aligned(pos: nat): nat {
    pos + pos % 2
  }

  /** A slot read at an even cursor leaves the cursor even, so the next
      read needs no pad. */
  lemma EvenAdvance(pos: nat, w: nat)
    requires pos % 2 == 0 && (w == 2 || w == 4)
    ensures (pos + w) % 2 == 0 && Aligned(pos + w) == pos + w
  {
    var k := pos / 2;
    assert pos == 2 * k;
    assert pos + w == 2 * (k + w / 2);
  }

  /** The number of bytes left after the cursor. */
  function Available(data: seq<byte>, pos: nat): nat {
    if pos < |data| then |data| - pos else 0
  }

  function Min(a: int, b: int): int {
    if a < b then a else b
  }

  /** `BinaryReader.ReadByte`: fails at the end of the stream. */
  function ReadByte(data: seq<byte>, pos: nat): Result<Read<byte>, Error> {
    if pos < |data| then Success(Read(data[pos], pos + 1)) else Failure(Truncated(pos))
  }

  /** `BinaryReader.ReadBytes`: a negative count fails; otherwise as many of
      the requested bytes as remain are returned, possibly fewer. */
  function ReadBytes(data: seq<byte>, pos: nat, count: int): (r: Result<Read<seq<byte>>, Error>)
    ensures r.Success? <==> count >= 0
    ensures r.Success? ==> |r.value.value| == Min(count, Available(data, pos))
    ensures r.Success? ==> r.value.next == pos + |r.value.value|
    ensures r.Success? && |r.value.value| > 0 ==> r.value.value == data[pos..r.value.next]
    ensures r.Success? && pos <= |data| ==> r.value.next <= |data| && r.value.value == data[pos..r.value.next]
  {
    if count < 0 then Failure(NegativeLength(count))
    else
      var k := Min(count, Available(data, pos));
      Success(Read(if k == 0 then [] else data[pos..pos + k], pos + k))
  }

  /** `Position += delta`: moving before the start of the stream fails;
      moving past its end does not. */
  function Skip(pos: nat, delta: int): (r: Result<nat, Error>)
    ensures r.Success? <==> pos + delta >= 0
    ensures r.Success? ==> r.value == pos + delta
  {
    if pos + delta < 0 then Failure(NegativePosition(pos + delta)) else Success(pos + delta)
  }

  /** `AlignEven`: at an odd offset one byte is consumed and must be zero;
      at an even offset nothing is consumed. */
  function AlignEven(data: seq<byte>, pos: nat): (r: Result<nat, Error>)
    ensures r.Success? <==> pos % 2 == 0 || (pos < |data| && data[pos] == 0)
    ensures r.Success? ==> r.value == Aligned(pos) && r.value % 2 == 0
    ensures r.Success? ==> (r.value == pos + 1 <==> pos % 2 == 1)
    ensures pos % 2 == 1 && pos < |data| && data[pos] != 0 ==> r == Failure(NonZeroPadding(pos))
    ensures pos % 2 == 1 && pos >= |data| ==> r == Failure(Truncated(pos))
  {
    if pos % 2 == 0 then Success(pos)
    else
      var pad :- ReadByte(data, pos);
      if pad.value != 0 then Failure(NonZeroPadding(pos)) else Success(pad.next)
  }

  /** `BitConverter.ToInt16` on a little-endian host. */
  function ToInt16(b0: byte, b1: byte): (v: int)
    ensures v == SignedLE([b0, b1])
  {
    var u := b0 + 256 * b1;
    assert UnsignedLE([b0, b1]) == u by {
      assert [b0, b1][1..] == [b1];
      assert [b1][1..] == [];
    }
    if u >= 32768 then u - 65536 else u
  }

  /** `BitConverter.ToInt32` on a little-endian host. */
  function ToInt32(b0: byte, b1: byte, b2: byte, b3: byte): (v: int)
    ensures v == SignedLE([b0, b1, b2, b3])
  {
    var u := b0 + 256 * b1 + 65536 * b2 + 16777216 * b3;
    assert UnsignedLE([b0, b1, b2, b3]) == u by {
      assert [b3][1..] == [];
      assert UnsignedLE([b3]) == b3;
      assert [b2, b3][1..] == [b3];
      assert UnsignedLE([b2, b3]) == b2 + 256 * b3;
      assert [b1, b2, b3][1..] == [b2, b3];
      assert UnsignedLE([b1, b2, b3]) == b1 + 256 * b2 + 65536 * b3;
      assert [b0, b1, b2, b3][1..] == [b1, b2, b3];
    }
    assert Pow256(4) == 4294967296 by {
      assert Pow256(2) == 65536;
      assert Pow256(3) == 16777216;
    }
    if u >= 2147483648 then u - 4294967296 else u
  }

  /** `ReadShort`: align, then decode two bytes as a signed little-endian
      16-bit value. */
  function ReadShort(data: seq<byte>, pos: nat): (r: Result<Read<int>, Error>)
    ensures r.Success? <==>
      (pos % 2 == 0 || (pos < |data| && data[pos] == 0)) && Aligned(pos) + 2 <= |data|
    ensures r.Success? ==>
      && r.value.next == Aligned(pos) + 2
      && r.value.value == SignedLE(data[Aligned(pos)..r.value.next])
  {
    var start :- AlignEven(data, pos);
    var bytes := ReadBytes(data, start, 2).value;
    if |bytes.value| < 2 then Failure(Truncated(start))
    else
      assert bytes.value == [data[start], data[start + 1]];
      Success(Read(ToInt16(bytes.value[0], bytes.value[1]), bytes.next))
  }

  /** `ReadInt`: align, then decode four bytes as a signed little-endian
      32-bit value. */
  function ReadInt(data: seq<byte>, pos: nat): (r: Result<Read<int>, Error>)
    ensures r.Success? <==>
      (pos % 2 == 0 || (pos < |data| && data[pos] == 0)) && Aligned(pos) + 4 <= |data|
    ensures r.Success? ==>
      && r.value.next == Aligned(pos) + 4
      && r.value.value == SignedLE(data[Aligned(pos)..r.value.next])
  {
    var start :- AlignEven(data, pos);
    var bytes := ReadBytes(data, start, 4).value;
    if |bytes.value| < 4 then Failure(Truncated(start))
    else
      var b := bytes.value;
      assert b == [data[start], data[start + 1], data[start + 2], data[start + 3]];
      Success(Read(ToInt32(b[0], b[1], b[2], b[3]), bytes.next))
  }

  /** A read of a `width`-byte signed field: `ReadInt` for four bytes,
      `ReadShort` otherwise. */
  function ReadWord(data: seq<byte>, pos: nat, width: nat): (r: Result<Read<int>, Error>)
    requires width == 2 || width == 4
    ensures r.Success? <==>
      (pos % 2 == 0 || (pos < |data| && data[pos] == 0)) && Aligned(pos) + width <= |data|
    ensures r.Success? ==>
      && r.value.next == Aligned(pos) + width
      && r.value.value == SignedLE(data[Aligned(pos)..r.value.next])
  {
    if width == 4 then ReadInt(data, pos) else ReadShort(data, pos)
  }

  /** `ReadFormat`: the first short must be one of the two magic numbers. */
  function ReadFormat(data: seq<byte>, pos: nat): (r: Result<Read<Format>, Error>)
    ensures r.Success? <==> ReadShort(data, pos).Success? && ReadShort(data, pos).value.value in {282, 542}
    ensures r.Success? ==>
      && Tag(r.value.value) == ReadShort(data, pos).value.value
      && r.value.next == ReadShort(data, pos).value.next
    ensures ReadShort(data, pos).Success? && ReadShort(data, pos).value.value !in {282, 542} ==>
      r == Failure(UnknownFormat(ReadShort(data, pos).value.value))
  {
    var tag :- ReadShort(data, pos);
    if tag.value == Tag(Legacy) then Success(Read(Legacy, tag.next))
    else if tag.value == Tag(Extended) then Success(Read(Extended, tag.next))
    else Failure(UnknownFormat(tag.value))
  }

  /** The byte values a boolean slot may hold. */
  predicate IsFlagByte(b: byte) {
    b == 0 || b == 1 || b == 254
  }

  /** The byte a boolean slot stores for a value: 0 for false, 1 for true,
      254 for absent. */
  function FlagByte(flag: Option<bool>): byte {
    match flag
    case Some(b) => if b then 1 else 0
    case None => 254
  }

  /** The value a flag byte stores: the inverse of `FlagByte`. */
  function FlagOf(b: byte): Option<bool> {
    if b == 0 then Some(false) else if b == 1 then Some(true) else None
  }

  lemma FlagOfFlagByte(b: byte)
    requires IsFlagByte(b)
    ensures FlagByte(FlagOf(b)) == b
  {
  }

  lemma FlagByteOfFlag(flag: Option<bool>)
    ensures IsFlagByte(FlagByte(flag)) && FlagOf(FlagByte(flag)) == flag
  {
  }

  /** `ReadBooleanCapability`: one unaligned byte, 0 false, 1 true, 254
      absent; any other byte fails. */
  function ReadBooleanCapability(data: seq<byte>, pos: nat): (r: Result<Read<Option<bool>>, Error>)
    ensures r.Success? <==> pos < |data| && IsFlagByte(data[pos])
    ensures r.Success? ==> r.value.next == pos + 1 && r.value.value == FlagOf(data[pos])
    ensures pos < |data| && !IsFlagByte(data[pos]) ==> r == Failure(InvalidBoolean(data[pos]))
  {
    var b :- ReadByte(data, pos);
    match b.value
    case 0 => Success(Read(Some(false), b.next))
    case 1 => Success(Read(Some(true), b.next))
    case 254 => Success(Read(None, b.next))
    case _ => Failure(InvalidBoolean(b.value))
  }

  /** `ReadNumberCapability`: a 32-bit value in the extended format, a
      16-bit value in the legacy one. */
  function ReadNumberCapability(data: seq<byte>, pos: nat, format: Format): (r: Result<Read<int>, Error>)
    ensures r.Success? <==>
      (pos % 2 == 0 || (pos < |data| && data[pos] == 0)) && Aligned(pos) + Width(format) <= |data|
    ensures r.Success? ==>
      && r.value.next == Aligned(pos) + Width(format)
      && r.value.value == SignedLE(data[Aligned(pos)..r.value.next])
  {
    if format.Extended? then ReadInt(data, pos) else ReadShort(data, pos)
  }

  /** Every boolean value survives a write and a read of its slot byte. */
  lemma FlagRoundTrip(flag: Option<bool>)
    ensures ReadBooleanCapability([FlagByte(flag)], 0) == Success(Read(flag, 1))
  {
  }

  /** A short holding a value other than the two magic numbers is rejected
      as a format tag, and each magic number selects its format. */
  lemma FormatTagRoundTrip(tag: int)
    requires InSignedRange(tag, 2)
    ensures var r := ReadFormat(EncodeLE(tag, 2), 0);
      && (r.Success? <==> tag == 282 || tag == 542)
      && (r.Success? ==> Tag(r.value.value) == tag && Width(r.value.value) == (if tag == 542 then 4 else 2))
      && (r.Failure? ==> r.error == UnknownFormat(tag))
  {
    SignedRoundTrip(tag, 2);
    assert EncodeLE(tag, 2)[0..2] == EncodeLE(tag, 2);
  }
}
