/** The top-level decoder (TerminfoParser.cs, `Parse`): the 12-byte legacy
    header, the skipped name section, the three legacy sections, the
    optional extended section, and the id-keyed collection built from the
    capabilities in the order they were decoded. The capability-name
    registries are parameters. */
module TerminfoParser {
  import opened Wrappers
  import opened Bytes
  import opened Errors
  import opened Reader
  import opened Slots
  import opened LegacySections
  import opened ExtendedSection
  import opened Capabilities
  import opened CapabilityInfo

  /** The three registries that name the legacy slots, in slot order. */
  datatype Registries = Registries(booleans: seq<CapabilityName>, numbers: seq<CapabilityName>, strings: seq<CapabilityName>)

  /** The legacy header: the format tag, then five shorts. */
  datatype Header = Header(format: Format, nameBytes: int, booleanCount: int, numberCount: int, stringCount: int, stringBytes: int)

  /** The decoded capabilities, in decoding order, and where the cursor
      stopped. */
  datatype Decoded = Decoded(capabilities: seq<Capability>, end: nat)

  /** The five counts of a header, in file order. */
  function Counts(h: Header): seq<int> {
    [h.nameBytes, h.booleanCount, h.numberCount, h.stringCount, h.stringBytes]
  }

  /** `h` is what the first twelve bytes of `data` hold: the tag of its
      format, then its five counts as shorts. */
  predicate HeaderMatches(data: seq<byte>, h: Header)
    requires 12 <= |data|
  {
    Tag(h.format) == SignedLE(data[0..2]) && Counts(h) == Words(data[2..12], 2)
  }

  /** The header read: the tag is checked before the five other shorts are
      read, so an unknown tag is reported even in a file too short for the
      rest of the header. */
  function ReadHeader(data: seq<byte>): (r: Result<Read<Header>, Error>)
    ensures r.Success? <==> 12 <= |data| && SignedLE(data[0..2]) in {282, 542}
    ensures r.Success? ==> 12 <= |data| && r.value.next == 12 && HeaderMatches(data, r.value.value)
    ensures 2 <= |data| && SignedLE(data[0..2]) !in {282, 542} ==> r == Failure(UnknownFormat(SignedLE(data[0..2])))
  {
    FirstShort(data);
    CountsRead(data);
    var format :- ReadFormat(data, 0);
    var ws :- ReadWords(data, 2, 5, 2);
    var h := Header(format.value, ws.value[0], ws.value[1], ws.value[2], ws.value[3], ws.value[4]);
    FiveCounts(ws.value, h);
    Success(Read(h, ws.next))
  }

  /** The five counts are the ten bytes after the tag. */
  lemma CountsRead(data: seq<byte>)
    ensures ReadWords(data, 2, 5, 2).Success? <==> 12 <= |data|
    ensures ReadWords(data, 2, 5, 2).Success? ==>
      var ws := ReadWords(data, 2, 5, 2).value;
      ws.next == 12 && ws.value == Words(data[2..12], 2) && |ws.value| == 5
  {
    assert Aligned(2) == 2;
    assert Span(5, 2) == 10 by { SpanIsProduct(5, 2); }
  }

  /** A header built from five words has those words as its counts. */
  lemma FiveCounts(ws: seq<int>, h: Header)
    requires |ws| == 5
    requires h.nameBytes == ws[0] && h.booleanCount == ws[1] && h.numberCount == ws[2]
    requires h.stringCount == ws[3] && h.stringBytes == ws[4]
    ensures Counts(h) == ws
  {
    assert forall i :: 0 <= i < 5 ==> Counts(h)[i] == ws[i];
  }

  /** The tag is the first two bytes, read without padding. */
  lemma FirstShort(data: seq<byte>)
    ensures ReadShort(data, 0).Success? <==> 2 <= |data|
    ensures ReadShort(data, 0).Success? ==> ReadShort(data, 0).value == Read(SignedLE(data[0..2]), 2)
    ensures ReadFormat(data, 0).Success? <==> 2 <= |data| && SignedLE(data[0..2]) in {282, 542}
    ensures ReadFormat(data, 0).Success? ==> ReadFormat(data, 0).value.next == 2
  {
    var tag := ReadShort(data, 0);
    assert Aligned(0) == 0;
    if tag.Success? {
      assert tag.value.next == 2;
      assert data[Aligned(0)..tag.value.next] == data[0..2];
    }
  }

  /** The decoding half of `Parse`: header, name skip, legacy booleans,
      alignment, legacy numbers, legacy strings, extended section; the
      capabilities come out in that order. */
  function Decode(data: seq<byte>, regs: Registries): (r: Result<Decoded, Error>)
    ensures ReadHeader(data).Failure? ==> r == Failure(ReadHeader(data).error)
    ensures r.Success? ==> ReadHeader(data).Success? && r.value.end <= |data|
  {
    var header :- ReadHeader(data);
    var h := header.value;
    var start :- Skip(header.next, h.nameBytes);
    var booleans :- ReadBooleanCapabilities(data, start, h.booleanCount, regs.booleans);
    var aligned :- AlignEven(data, booleans.next);
    var numbers :- ReadNumberCapabilities(data, aligned, h.numberCount, h.format, regs.numbers);
    var strings :- ReadStringCapabilities(data, numbers.next, h.stringCount, h.stringBytes, regs.strings);
    var extended :- ReadExtendedCapabilities(data, strings.next, h.format);
    Success(Decoded(booleans.value + numbers.value + strings.value + extended.value, extended.next))
  }

  /** `Parse`: decode, then build the collection, which fails when two
      decoded capabilities share an id. */
  function Parse(data: seq<byte>, regs: Registries): (r: Result<Info, Error>)
    ensures r.Success? <==> Decode(data, regs).Success? && DistinctIds(Decode(data, regs).value.capabilities)
    ensures r.Success? ==> Count(r.value) == |Decode(data, regs).value.capabilities|
    ensures r.Success? ==>
      var caps := Decode(data, regs).value.capabilities;
      forall i :: 0 <= i < |caps| ==> ContainsKey(r.value, caps[i].id) && Get(r.value, caps[i].id) == Success(caps[i])
    ensures Decode(data, regs).Failure? ==> r == Failure(Decode(data, regs).error)
  {
    var decoded :- Decode(data, regs);
    FromList(decoded.capabilities)
  }
}
