/** A reference encoder for compiled terminfo files. It writes the header,
    the name bytes, the legacy slot arrays and string table, and an
    optional extended section exactly where `Layout` places them, pad bytes
    included. Decoding an encoded well-formed file gives back every
    surviving slot value, named as the decoder names it, and consumes the
    whole stream. */
module Encoder {
  import opened Wrappers
  import opened Bytes
  import opened Reader
  import opened Slots
  import opened CapabilityInfo
  import opened TerminfoParser
  import opened Layout

  /** Every value fits a signed `w`-byte field. */
  predicate Fits(vs: seq<int>, w: nat)
    requires w > 0
  {
    forall i :: 0 <= i < |vs| ==> InSignedRange(vs[i], w)
  }

  /** The words `vs`, `w` bytes each, least significant byte first. */
  function EncodeWords(vs: seq<int>, w: nat): (bytes: seq<byte>)
    requires w == 2 || w == 4
    requires Fits(vs, w)
    ensures |bytes| == Span(|vs|, w)
  {
    if |vs| == 0 then [] else EncodeLE(vs[0], w) + EncodeWords(vs[1..], w)
  }

  /** Reading encoded words back gives the words. */
  lemma {:induction false} WordsOfEncoded(vs: seq<int>, w: nat)
    requires w == 2 || w == 4
    requires Fits(vs, w)
    ensures Words(EncodeWords(vs, w), w) == vs
  {
    if |vs| > 0 {
      var bytes := EncodeWords(vs, w);
      assert bytes[..w] == EncodeLE(vs[0], w);
      assert bytes[w..] == EncodeWords(vs[1..], w);
      SignedRoundTrip(vs[0], w);
      WordsOfEncoded(vs[1..], w);
    }
  }

  /** The pad byte the decoder consumes before a word read at an odd
      offset. */
  function Pad(pos: nat): (bytes: seq<byte>)
    ensures pos + |bytes| == Aligned(pos)
  {
    if pos % 2 == 1 then [0] else []
  }

  /** A run of word slots as the decoder expects it at `pos`: nothing when
      the run is empty, otherwise the pad a first read at `pos` consumes,
      then the words. */
  function WordRun(pos: nat, vs: seq<int>, w: nat): (bytes: seq<byte>)
    requires w == 2 || w == 4
    requires Fits(vs, w)
    ensures pos + |bytes| == RunEnd(pos, |vs|, w)
  {
    if |vs| == 0 then [] else Pad(pos) + EncodeWords(vs, w)
  }

  /** A stored concatenation stores each part, the second where the first
      ends. */
  lemma AtSplit(data: seq<byte>, pos: nat, a: seq<byte>, b: seq<byte>, mid: nat)
    requires At(data, pos, a + b) && mid == pos + |a|
    ensures At(data, pos, a) && At(data, mid, b)
  {
    assert data[pos..mid] == (a + b)[..|a|];
    assert data[mid..mid + |b|] == (a + b)[|a|..];
  }

  /** A stored pad reads back. */
  lemma PadStored(data: seq<byte>, pos: nat)
    requires At(data, pos, Pad(pos))
    ensures PadAt(data, pos)
  {
    if pos % 2 == 1 {
      assert data[pos] == Pad(pos)[0];
    }
  }

  /** A stored word run holds its words where the decoder reads them. */
  lemma WordRunStored(data: seq<byte>, pos: nat, vs: seq<int>, w: nat)
    requires w == 2 || w == 4
    requires Fits(vs, w)
    requires At(data, pos, WordRun(pos, vs, w))
    ensures WordsAt(data, pos, vs, w)
  {
    if |vs| > 0 {
      AtSplit(data, pos, Pad(pos), EncodeWords(vs, w), Aligned(pos));
      PadStored(data, pos);
      EncodedWordsStored(data, pos, vs, w);
    }
  }

  /** Encoded words after a pad that reads back are where the decoder reads
      them. */
  lemma EncodedWordsStored(data: seq<byte>, pos: nat, vs: seq<int>, w: nat)
    requires w == 2 || w == 4
    requires Fits(vs, w)
    requires PadAt(data, pos) && At(data, Aligned(pos), EncodeWords(vs, w))
    ensures WordsAt(data, pos, vs, w)
  {
    WordsOfEncoded(vs, w);
  }

  /** What the encoder needs of an extended section: every header count
      and every slot fits its field. */
  predicate EncodableExtension(e: Extension, format: Format) {
    && Fits(ExtHeaderWords(e), 2)
    && Fits(e.numbers, Width(format))
    && Fits(e.offsets, 2)
    && Fits(e.names, 2)
  }

  /** The bytes of the extended section `e` starting at `pos`: its header,
      its boolean bytes, then its number, offset and name runs, then its
      table. */
  function EncodeExtension(pos: nat, e: Extension, format: Format): (bytes: seq<byte>)
    requires EncodableExtension(e, format)
    ensures pos + |bytes| == ExtPlacesOf(pos, e, format).end
  {
    var at := ExtPlacesOf(pos, e, format);
    WordRun(pos, ExtHeaderWords(e), 2)
      + (FlagBytes(e.flags)
      + (WordRun(at.numbers, e.numbers, Width(format))
      + (WordRun(at.offsets, e.offsets, 2)
      + (WordRun(at.names, e.names, 2)
      + e.table))))
  }

  /** An encoded extended section stores each of its parts at its place. */
  lemma ExtensionEncoded(data: seq<byte>, pos: nat, e: Extension, format: Format)
    requires EncodableExtension(e, format)
    requires At(data, pos, EncodeExtension(pos, e, format))
    ensures ExtStoredAt(data, pos, e, format, ExtPlacesOf(pos, e, format))
  {
    var at := ExtPlacesOf(pos, e, format);
    var w := Width(format);
    var names := WordRun(at.names, e.names, 2) + e.table;
    var offsets := WordRun(at.offsets, e.offsets, 2) + names;
    var numbers := WordRun(at.numbers, e.numbers, w) + offsets;
    var flags := FlagBytes(e.flags) + numbers;
    AtSplit(data, pos, WordRun(pos, ExtHeaderWords(e), 2), flags, at.flags);
    AtSplit(data, at.flags, FlagBytes(e.flags), numbers, at.numbers);
    AtSplit(data, at.numbers, WordRun(at.numbers, e.numbers, w), offsets, at.offsets);
    AtSplit(data, at.offsets, WordRun(at.offsets, e.offsets, 2), names, at.names);
    AtSplit(data, at.names, WordRun(at.names, e.names, 2), e.table, at.table);
    WordRunStored(data, pos, ExtHeaderWords(e), 2);
    WordRunStored(data, at.numbers, e.numbers, w);
    WordRunStored(data, at.offsets, e.offsets, 2);
    WordRunStored(data, at.names, e.names, 2);
  }

  /** What the encoder needs of a file: every header count and every slot
      fits its field. */
  predicate Encodable(f: TermFile) {
    && Fits(HeaderWords(f), 2)
    && Fits(f.numbers, Width(f.format))
    && Fits(f.offsets, 2)
    && (f.extension.Some? ==> EncodableExtension(f.extension.value, f.format))
  }

  /** The legacy header: the format tag, then the five counts. */
  function EncodeHeader(f: TermFile): (bytes: seq<byte>)
    requires Encodable(f)
    ensures |bytes| == 12
  {
    assert Span(5, 2) == 10 by { SpanIsProduct(5, 2); }
    EncodeLE(Tag(f.format), 2) + EncodeWords(HeaderWords(f), 2)
  }

  /** An encoded header opens the data it is stored at. */
  lemma HeaderEncoded(data: seq<byte>, f: TermFile)
    requires Encodable(f)
    requires At(data, 0, EncodeHeader(f))
    ensures HeaderAt(data, f)
  {
    AtSplit(data, 0, EncodeLE(Tag(f.format), 2), EncodeWords(HeaderWords(f), 2), 2);
    SignedRoundTrip(Tag(f.format), 2);
    WordsOfEncoded(HeaderWords(f), 2);
  }

  /** The bytes after the legacy string table. */
  function EncodeTail(f: TermFile): (bytes: seq<byte>)
    requires Encodable(f)
    ensures f.extension.None? ==> bytes == []
  {
    match f.extension
    case None => []
    case Some(e) => EncodeExtension(PlacesOf(f).extension, e, f.format)
  }

  /** The header and the legacy parts of `f`, followed by `tail`. */
  function EncodeLegacy(f: TermFile, tail: seq<byte>): (bytes: seq<byte>)
    requires Encodable(f)
  {
    var at := PlacesOf(f);
    EncodeHeader(f)
      + (f.names
      + (FlagBytes(f.flags)
      + (Pad(at.pad)
      + (WordRun(at.numbers, f.numbers, Width(f.format))
      + (WordRun(at.offsets, f.offsets, 2)
      + (f.table
      + tail))))))
  }

  /** The compiled file `f`. */
  function Encode(f: TermFile): (bytes: seq<byte>)
    requires Encodable(f)
  {
    EncodeLegacy(f, EncodeTail(f))
  }

  /** The legacy parts of an encoding sit at their places, followed by the
      tail. */
  lemma LegacyEncoded(f: TermFile, tail: seq<byte>)
    requires Encodable(f)
    ensures LegacyStoredAt(EncodeLegacy(f, tail), f, PlacesOf(f))
    ensures At(EncodeLegacy(f, tail), PlacesOf(f).extension, tail)
    ensures |EncodeLegacy(f, tail)| == PlacesOf(f).extension + |tail|
  {
    var data := EncodeLegacy(f, tail);
    var at := PlacesOf(f);
    var w := Width(f.format);
    var table := f.table + tail;
    var offsets := WordRun(at.offsets, f.offsets, 2) + table;
    var numbers := WordRun(at.numbers, f.numbers, w) + offsets;
    var pad := Pad(at.pad) + numbers;
    var flags := FlagBytes(f.flags) + pad;
    var names := f.names + flags;
    assert data == EncodeHeader(f) + names;
    assert At(data, 0, data);
    AtSplit(data, 0, EncodeHeader(f), names, 12);
    AtSplit(data, 12, f.names, flags, at.booleans);
    AtSplit(data, at.booleans, FlagBytes(f.flags), pad, at.pad);
    AtSplit(data, at.pad, Pad(at.pad), numbers, at.numbers);
    AtSplit(data, at.numbers, WordRun(at.numbers, f.numbers, w), offsets, at.offsets);
    AtSplit(data, at.offsets, WordRun(at.offsets, f.offsets, 2), table, at.table);
    AtSplit(data, at.table, f.table, tail, at.extension);
    HeaderEncoded(data, f);
    PadStored(data, at.pad);
    WordRunStored(data, at.numbers, f.numbers, w);
    WordRunStored(data, at.offsets, f.offsets, 2);
  }

  /** The encoder lays a file out the way the decoder reads it. */
  lemma EncodeLaidOut(f: TermFile)
    requires Encodable(f)
    ensures LaidOut(Encode(f), f)
  {
    var data := Encode(f);
    var at := PlacesOf(f);
    LegacyEncoded(f, EncodeTail(f));
    match f.extension
    case None =>
    case Some(e) =>
      ExtensionEncoded(data, at.extension, e, f.format);
  }

  /** Decoding an encoded well-formed file gives back what the file holds,
      and the decoder stops at the end of the encoding. */
  lemma DecodeEncode(f: TermFile, regs: Registries)
    requires Encodable(f) && WellFormed(f, regs)
    ensures Decode(Encode(f), regs) == Success(Decoded(Expected(f, regs), |Encode(f)|))
  {
    EncodeLaidOut(f);
    DecodeLaidOut(Encode(f), f, regs);
  }

  /** Parsing an encoded well-formed file succeeds exactly when what it
      holds has distinct ids, and then the collection holds each
      capability under its id. */
  lemma ParseEncode(f: TermFile, regs: Registries)
    requires Encodable(f) && WellFormed(f, regs)
    ensures Parse(Encode(f), regs).Success? <==> DistinctIds(Expected(f, regs))
    ensures Parse(Encode(f), regs).Success? ==>
      var caps := Expected(f, regs);
      && Count(Parse(Encode(f), regs).value) == |caps|
      && forall i :: 0 <= i < |caps| ==> Get(Parse(Encode(f), regs).value, caps[i].id) == Success(caps[i])
  {
    EncodeLaidOut(f);
    ParseLaidOut(Encode(f), f, regs);
  }
}
