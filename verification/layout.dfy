/** The byte layout of a compiled terminfo file, stated as what each part
    decodes to and where it sits: the 12-byte header, the skipped name
    bytes, the legacy boolean bytes, a pad byte before an odd offset, the
    legacy number words, the legacy string offsets and table, then the
    optional extended section with its own header, slot arrays, name
    indices and table.

    The central result, `DecodeLaidOut`, is the reference for the whole
    decoder (TerminfoParser.cs, `Parse`): a byte sequence laid out this way
    decodes to the surviving slot values of each section, in section order,
    and the cursor ends at the end of the stream.

    Positions are threaded through the lemmas as plain values (`Places`,
    `ExtPlaces`) related by one predicate each, so that each stage is
    proved on its own and the stages are then chained. */
module Layout {
  import opened Wrappers
  import opened Bytes
  import opened Errors
  import opened Reader
  import opened Slots
  import opened StringTable
  import opened Capabilities
  import opened LegacySections
  import opened ExtendedSection
  import opened TerminfoParser
  import opened CapabilityInfo

  /** The bytes `x` sit in `data` at `pos`. */
  predicate At(data: seq<byte>, pos: nat, x: seq<byte>) {
    pos + |x| <= |data| && data[pos..pos + |x|] == x
  }

  /** The boolean slots `flags` are stored byte by byte from `pos`. */
  predicate FlagsAt(data: seq<byte>, pos: nat, flags: seq<Option<bool>>) {
    At(data, pos, FlagBytes(flags))
  }

  /** Reading a word at `pos` needs no pad, or finds a zero pad byte. */
  predicate PadAt(data: seq<byte>, pos: nat) {
    pos % 2 == 0 || (pos < |data| && data[pos] == 0)
  }

  /** A run of `|vs|` word reads from `pos` finds the words `vs`: the pad
      before an odd start is zero, and the words follow it. */
  predicate WordsAt(data: seq<byte>, pos: nat, vs: seq<int>, w: nat)
    requires w == 2 || w == 4
  {
    |vs| == 0 ||
      (PadAt(data, pos)
       && Aligned(pos) + Span(|vs|, w) <= |data|
       && Words(data[Aligned(pos)..Aligned(pos) + Span(|vs|, w)], w) == vs)
  }

  /** Stored words read back as themselves, `n` being their number. */
  lemma ReadWordsAt(data: seq<byte>, pos: nat, vs: seq<int>, w: nat, n: nat, end: nat)
    requires w == 2 || w == 4
    requires WordsAt(data, pos, vs, w)
    requires n == |vs| && end == RunEnd(pos, |vs|, w)
    ensures ReadWords(data, pos, n, w) == Success(Read(vs, end))
  {
    var r := ReadWords(data, pos, n, w);
    assert r.Success?;
    assert r.value.value == vs;
    var expected := Read(vs, end);
    assert r.value == expected;
    assert r == Success(expected);
  }

  /** Stored boolean slots read back as themselves. */
  lemma ReadFlagsAt(data: seq<byte>, pos: nat, flags: seq<Option<bool>>, end: nat)
    requires FlagsAt(data, pos, flags) && end == pos + |flags|
    ensures ReadBooleanSlots(data, pos, |flags|) == Success(Read(flags, end))
  {
    FlagsRoundTrip(flags);
    var r := ReadBooleanSlots(data, pos, |flags|);
    var expected := Read(flags, end);
    assert r.value == expected;
    assert r == Success(expected);
  }

  /** Stored bytes read back as themselves. */
  lemma ReadBytesAt(data: seq<byte>, pos: nat, x: seq<byte>, end: nat)
    requires At(data, pos, x) && end == pos + |x|
    ensures ReadBytes(data, pos, |x|) == Success(Read(x, end))
  {
  }

  /** A pad that reads back moves the cursor to the next even offset. */
  lemma PadRead(data: seq<byte>, pos: nat, end: nat)
    requires PadAt(data, pos) && end == Aligned(pos)
    ensures AlignEven(data, pos) == Success(end)
  {
  }

  /** String offsets that are not sentinels each point at the start of a
      string of the table. */
  predicate OffsetsAreStarts(offsets: seq<int>, table: seq<byte>) {
    forall j :: 0 <= j < |offsets| && !IsSentinel(offsets[j]) ==> IsStart(table, offsets[j])
  }

  // Legacy sections

  /** Stored legacy boolean slots decode to the true slots, named by their
      registry entries. */
  lemma BooleansRead(data: seq<byte>, pos: nat, flags: seq<Option<bool>>, registry: seq<CapabilityName>, end: nat)
    requires FlagsAt(data, pos, flags) && end == pos + |flags|
    requires |flags| <= |registry| && ValidRegistry(registry)
    ensures ReadBooleanCapabilities(data, pos, |flags|, registry) ==
      Success(Read(Named(registry, BooleanValues(flags)), end))
  {
    ReadFlagsAt(data, pos, flags, end);
    assert Clamp(|flags|) == |flags|;
    var r := ReadBooleanCapabilities(data, pos, |flags|, registry);
    assert r.Success?;
    var expected := Read(Named(registry, BooleanValues(flags)), end);
    assert r.value == expected;
    assert r == Success(expected);
  }

  /** Stored legacy number slots decode to the non-sentinel numbers, named
      by their registry entries. */
  lemma NumbersRead(data: seq<byte>, pos: nat, numbers: seq<int>, format: Format, registry: seq<CapabilityName>, end: nat)
    requires WordsAt(data, pos, numbers, Width(format)) && end == RunEnd(pos, |numbers|, Width(format))
    requires |numbers| <= |registry| && ValidRegistry(registry)
    ensures ReadNumberCapabilities(data, pos, |numbers|, format, registry) ==
      Success(Read(Named(registry, NumberValues(numbers)), end))
  {
    ReadWordsAt(data, pos, numbers, Width(format), |numbers|, end);
    assert Clamp(|numbers|) == |numbers|;
    var r := ReadNumberCapabilities(data, pos, |numbers|, format, registry);
    assert r.Success?;
    var expected := Read(Named(registry, NumberValues(numbers)), end);
    assert r.value == expected;
    assert r == Success(expected);
  }

  /** The string section decodes to the named strings of its offsets once
      its offsets and its table are known to read back. */
  lemma StringsFromReads(data: seq<byte>, pos: nat, offsets: seq<int>, table: seq<byte>, registry: seq<CapabilityName>, mid: nat, end: nat)
    requires ReadWords(data, pos, |offsets|, 2) == Success(Read(offsets, mid))
    requires ReadBytes(data, mid, |table|) == Success(Read(table, end))
    requires |offsets| <= |registry| && ValidRegistry(registry)
    requires Terminated(table) && OffsetsAreStarts(offsets, table)
    ensures ReadStringCapabilities(data, pos, |offsets|, |table|, registry) ==
      Success(Read(Named(registry, StringValues(offsets, Split(table).value)), end))
  {
    var r := ReadStringCapabilities(data, pos, |offsets|, |table|, registry);
    assert r.Success?;
    var expected := Read(Named(registry, StringValues(offsets, Split(table).value)), end);
    assert r.value == expected;
    assert r == Success(expected);
  }

  /** Stored legacy string offsets followed by their table decode to the
      strings the non-sentinel offsets point at, named by their registry
      entries. */
  lemma StringsRead(data: seq<byte>, pos: nat, offsets: seq<int>, table: seq<byte>, registry: seq<CapabilityName>, mid: nat, end: nat)
    requires WordsAt(data, pos, offsets, 2) && mid == RunEnd(pos, |offsets|, 2)
    requires At(data, mid, table) && end == mid + |table|
    requires |offsets| <= |registry| && ValidRegistry(registry)
    requires Terminated(table) && OffsetsAreStarts(offsets, table)
    ensures ReadStringCapabilities(data, pos, |offsets|, |table|, registry) ==
      Success(Read(Named(registry, StringValues(offsets, Split(table).value)), end))
  {
    ReadWordsAt(data, pos, offsets, 2, |offsets|, mid);
    ReadBytesAt(data, mid, table, end);
    StringsFromReads(data, pos, offsets, table, registry, mid, end);
  }

  // Extended section

  /** The contents of an extended section: its slot arrays, the unused
      item count of its header, and its string table. */
  datatype Extension = Extension(
    flags: seq<Option<bool>>,
    numbers: seq<int>,
    offsets: seq<int>,
    names: seq<int>,
    itemCount: int,
    table: seq<byte>)

  /** The five shorts of the extended header that describe `e`. */
  function ExtHeaderWords(e: Extension): seq<int> {
    [|e.flags|, |e.numbers|, |e.offsets|, e.itemCount, |e.table|]
  }

  /** The header those five shorts decode to. */
  function ExtHeaderOf(e: Extension): ExtHeader {
    ExtHeader(|e.flags|, |e.numbers|, |e.offsets|, e.itemCount, |e.table|)
  }

  /** The raw section `e` is read as. */
  function RawOf(e: Extension): RawSection {
    RawSection(ExtHeaderOf(e), e.flags, e.numbers, e.offsets, e.names, e.table)
  }

  /** Where each part of an extended section begins, and where the section
      ends. */
  datatype ExtPlaces = ExtPlaces(flags: nat, numbers: nat, offsets: nat, names: nat, table: nat, end: nat)

  /** `at` lists the places of the parts of `e` for a section that starts
      at `pos`: each part follows the previous one, word runs after a pad
      when they start odd. */
  predicate ExtPlaced(pos: nat, e: Extension, format: Format, at: ExtPlaces) {
    && at.flags == RunEnd(pos, 5, 2)
    && at.numbers == at.flags + |e.flags|
    && at.offsets == RunEnd(at.numbers, |e.numbers|, Width(format))
    && at.names == RunEnd(at.offsets, |e.offsets|, 2)
    && at.table == RunEnd(at.names, |e.names|, 2)
    && at.end == at.table + |e.table|
  }

  function ExtPlacesOf(pos: nat, e: Extension, format: Format): (at: ExtPlaces)
    ensures ExtPlaced(pos, e, format, at)
  {
    var flags := RunEnd(pos, 5, 2);
    var numbers := flags + |e.flags|;
    var offsets := RunEnd(numbers, |e.numbers|, Width(format));
    var names := RunEnd(offsets, |e.offsets|, 2);
    var table := RunEnd(names, |e.names|, 2);
    ExtPlaces(flags, numbers, offsets, names, table, table + |e.table|)
  }

  /** The parts of `e` are stored at the places `at`, the header at
      `pos`. */
  predicate ExtStoredAt(data: seq<byte>, pos: nat, e: Extension, format: Format, at: ExtPlaces) {
    && WordsAt(data, pos, ExtHeaderWords(e), 2)
    && FlagsAt(data, at.flags, e.flags)
    && WordsAt(data, at.numbers, e.numbers, Width(format))
    && WordsAt(data, at.offsets, e.offsets, 2)
    && WordsAt(data, at.names, e.names, 2)
    && At(data, at.table, e.table)
  }

  /** What an extended section needs to decode: one name index per slot,
      a terminated table, names that resolve to valid ids and string
      offsets that resolve to entries. */
  predicate ExtWellFormed(e: Extension) {
    && |e.names| == |e.flags| + |e.numbers| + |e.offsets|
    && Terminated(e.table)
    && var entries := Split(e.table).value;
    && NamesResolve(e.names, 0, |Survivors(e.flags, e.numbers, e.offsets, entries)|, entries, SplitAfter(e.table, CountPresent(e.offsets)))
    && OffsetsResolve(e.offsets, entries)
  }

  /** What an extended section decodes to: its surviving values, booleans
      first, numbers next, strings last, each named by the next name index
      resolved after the split point of the table. */
  function ExtValues(e: Extension): (caps: seq<Capability>)
    requires |e.names| == |e.flags| + |e.numbers| + |e.offsets|
    requires Terminated(e.table)
    ensures |caps| == CountTrue(e.flags) + CountPresent(e.numbers) + CountPresent(e.offsets)
  {
    var entries := Split(e.table).value;
    Lockstep(Survivors(e.flags, e.numbers, e.offsets, entries), e.names, 0, entries, SplitAfter(e.table, CountPresent(e.offsets)))
  }

  /** A stored extended header reads back as the header of `e`. */
  lemma ExtHeaderRead(data: seq<byte>, pos: nat, e: Extension, end: nat)
    requires WordsAt(data, pos, ExtHeaderWords(e), 2) && end == RunEnd(pos, 5, 2)
    ensures ReadExtendedHeader(data, pos) == Success(Read(ExtHeaderOf(e), end))
  {
    ReadWordsAt(data, pos, ExtHeaderWords(e), 2, 5, end);
    var r := ReadExtendedHeader(data, pos);
    var expected := Read(ExtHeaderOf(e), end);
    assert r.value == expected;
    assert r == Success(expected);
  }

  /** Stored slot arrays read back as themselves: the boolean bytes at
      `pos`, then each word run where the previous part ends. */
  lemma SlotArraysAt(data: seq<byte>, pos: nat, numbers: nat, format: Format, a: SlotArrays, offsets: nat, names: nat, end: nat)
    requires FlagsAt(data, pos, a.flags) && numbers == pos + |a.flags|
    requires WordsAt(data, numbers, a.numbers, Width(format)) && offsets == RunEnd(numbers, |a.numbers|, Width(format))
    requires WordsAt(data, offsets, a.offsets, 2) && names == RunEnd(offsets, |a.offsets|, 2)
    requires WordsAt(data, names, a.names, 2) && end == RunEnd(names, |a.names|, 2)
    requires |a.names| == |a.flags| + |a.numbers| + |a.offsets|
    ensures ReadSlotArrays(data, pos, |a.flags|, |a.numbers|, |a.offsets|, format).Success?
    ensures ReadSlotArrays(data, pos, |a.flags|, |a.numbers|, |a.offsets|, format).value == Read(a, end)
  {
    ReadFlagsAt(data, pos, a.flags, numbers);
    RunsAt(data, numbers, Width(format), |a.numbers|, |a.offsets|, |a.names|, a.numbers, a.offsets, a.names, offsets, names, end);
    SlotArraysOfRuns(data, pos, |a.flags|, |a.numbers|, |a.offsets|, format, a, numbers, |a.names|, end);
  }

  /** Three stored word runs, each where the previous one ends, read back
      together. */
  lemma RunsAt(data: seq<byte>, pos: nat, w: nat, n1: nat, n2: nat, n3: nat, v1: seq<int>, v2: seq<int>, v3: seq<int>, p2: nat, p3: nat, end: nat)
    requires w == 2 || w == 4
    requires |v1| == n1 && |v2| == n2 && |v3| == n3
    requires WordsAt(data, pos, v1, w) && p2 == RunEnd(pos, n1, w)
    requires WordsAt(data, p2, v2, 2) && p3 == RunEnd(p2, n2, 2)
    requires WordsAt(data, p3, v3, 2) && end == RunEnd(p3, n3, 2)
    ensures ReadRuns(data, pos, n1, w, n2, n3).Success?
    ensures ReadRuns(data, pos, n1, w, n2, n3).value == Read((v1, v2, v3), end)
  {
    ReadWordsAt(data, pos, v1, w, n1, p2);
    ReadWordsAt(data, p2, v2, 2, n2, p3);
    ReadWordsAt(data, p3, v3, 2, n3, end);
    RunsFromReads(data, pos, n1, w, n2, n3, v1, v2, v3, p2, p3, end);
  }

  /** Slot arrays whose boolean run and word runs read back read back
      together; the word runs start at `p`, right after the booleans, and
      the name count `m` sums the three slot counts. */
  lemma SlotArraysOfRuns(data: seq<byte>, pos: nat, b: nat, n: nat, s: nat, format: Format, a: SlotArrays, p: nat, m: nat, end: nat)
    requires p == pos + b && m == b + n + s
    requires ReadBooleanSlots(data, pos, b).Success? && ReadBooleanSlots(data, pos, b).value.value == a.flags
    requires ReadRuns(data, p, n, Width(format), s, m).Success?
    requires ReadRuns(data, p, n, Width(format), s, m).value == Read((a.numbers, a.offsets, a.names), end)
    ensures ReadSlotArrays(data, pos, b, n, s, format).Success?
    ensures ReadSlotArrays(data, pos, b, n, s, format).value == Read(a, end)
  {
    RunsMoved(data, p, pos, b, n, Width(format), s, m);
    RunsRecounted(data, pos, b, n, Width(format), s, m);
    assert ArraysOfRuns(data, pos, b, n, s, format) == a;
  }

  /** Runs read the same from equal cursors: here the cursor `k` bytes
      after `q`. */
  lemma RunsMoved(data: seq<byte>, p: nat, q: nat, k: nat, n1: nat, w: nat, n2: nat, n3: nat)
    requires w == 2 || w == 4
    requires p == q + k
    ensures ReadRuns(data, p, n1, w, n2, n3) == ReadRuns(data, q + k, n1, w, n2, n3)
  {
    // As one equality of pairs the two cursors become one term, so the
    // runs read at either are seen to be the same.
    assert (p, n1) == (q + k, n1);
  }

  /** Runs read the same with equal name counts: here the count that sums
      the three slot counts, read `k` bytes after `q`. */
  lemma RunsRecounted(data: seq<byte>, q: nat, k: nat, n1: nat, w: nat, n2: nat, m: nat)
    requires w == 2 || w == 4
    requires m == k + n1 + n2
    ensures ReadRuns(data, q + k, n1, w, n2, m) == ReadRuns(data, q + k, n1, w, n2, k + n1 + n2)
  {
    assert (m, n1) == (k + n1 + n2, n1);
  }

  /** A raw section whose header, slot arrays and table read back one after
      another reads back whole. */
  lemma RawSectionFromReads(data: seq<byte>, pos: nat, format: Format, h: ExtHeader, a: SlotArrays, blob: seq<byte>, slots: nat, table: nat, end: nat)
    requires h.booleanCount >= 0 && h.numberCount >= 0 && h.stringCount >= 0
    requires ReadExtendedHeader(data, pos) == Success(Read(h, slots))
    requires ReadSlotArrays(data, slots, h.booleanCount, h.numberCount, h.stringCount, format).Success?
    requires ReadSlotArrays(data, slots, h.booleanCount, h.numberCount, h.stringCount, format).value == Read(a, table)
    requires ReadBytes(data, table, h.tableSize) == Success(Read(blob, end))
    ensures ReadRawSection(data, pos, format) ==
      Success(Read(RawSection(h, a.flags, a.numbers, a.offsets, a.names, blob), end))
  {
    var r := ReadRawSection(data, pos, format);
    assert r.value == Read(RawSection(h, a.flags, a.numbers, a.offsets, a.names, blob), end);
  }

  /** A stored extended section reads back as its raw section. */
  lemma RawSectionRead(data: seq<byte>, pos: nat, e: Extension, format: Format, at: ExtPlaces)
    requires ExtStoredAt(data, pos, e, format, at) && ExtPlaced(pos, e, format, at)
    requires |e.names| == |e.flags| + |e.numbers| + |e.offsets|
    ensures ReadRawSection(data, pos, format) == Success(Read(RawOf(e), at.end))
  {
    ExtHeaderRead(data, pos, e, at.flags);
    var a := SlotArrays(e.flags, e.numbers, e.offsets, e.names);
    SlotArraysAt(data, at.flags, at.numbers, format, a, at.offsets, at.names, at.table);
    ReadBytesAt(data, at.table, e.table, at.end);
    RawSectionFromReads(data, pos, format, ExtHeaderOf(e), a, e.table, at.flags, at.table, at.end);
  }

  /** A raw section that reads back, with a terminated table, resolving
      names and resolving string offsets, decodes to its surviving values
      in lock step with its name indices. */
  lemma ExtensionFromRaw(data: seq<byte>, pos: nat, format: Format, e: Extension, end: nat)
    requires pos != |data|
    requires ReadRawSection(data, pos, format) == Success(Read(RawOf(e), end))
    requires ExtWellFormed(e)
    ensures ReadExtendedCapabilities(data, pos, format) == Success(Read(ExtValues(e), end))
  {
    var r := ReadExtendedCapabilities(data, pos, format);
    assert r.Success?;
    var expected := Read(ExtValues(e), end);
    assert r.value == expected;
    assert r == Success(expected);
  }

  /** A stored, well-formed extended section decodes to `ExtValues`, and
      the cursor stops right after its table. */
  lemma ExtensionRead(data: seq<byte>, pos: nat, e: Extension, format: Format, at: ExtPlaces)
    requires ExtStoredAt(data, pos, e, format, at) && ExtPlaced(pos, e, format, at)
    requires ExtWellFormed(e)
    ensures ReadExtendedCapabilities(data, pos, format) == Success(Read(ExtValues(e), at.end))
  {
    assert pos < |data| by {
      assert Span(5, 2) > 0;
    }
    RawSectionRead(data, pos, e, format, at);
    ExtensionFromRaw(data, pos, format, e, at.end);
  }

  // The whole file

  /** The contents of a compiled terminfo file: its format, the name bytes
      the decoder skips, the legacy boolean, number and string slots with
      the legacy string table, and an optional extended section. */
  datatype TermFile = TermFile(
    format: Format,
    names: seq<byte>,
    flags: seq<Option<bool>>,
    numbers: seq<int>,
    offsets: seq<int>,
    table: seq<byte>,
    extension: Option<Extension>)

  /** The five shorts of the legacy header that describe `f`. */
  function HeaderWords(f: TermFile): seq<int> {
    [|f.names|, |f.flags|, |f.numbers|, |f.offsets|, |f.table|]
  }

  /** The header those shorts decode to. */
  function HeaderOf(f: TermFile): Header {
    Header(f.format, |f.names|, |f.flags|, |f.numbers|, |f.offsets|, |f.table|)
  }

  /** Where each part after the header and the name bytes begins; `pad`
      is where the booleans end and the alignment pad, if any, sits. */
  datatype Places = Places(booleans: nat, pad: nat, numbers: nat, offsets: nat, table: nat, extension: nat)

  /** `at` lists the places of the parts of `f`: the boolean bytes follow
      the name bytes, the number slots start at the next even offset, and
      every later part follows the previous one. */
  predicate Placed(f: TermFile, at: Places) {
    && at.booleans == 12 + |f.names|
    && at.pad == at.booleans + |f.flags|
    && at.numbers == Aligned(at.pad)
    && at.offsets == RunEnd(at.numbers, |f.numbers|, Width(f.format))
    && at.table == RunEnd(at.offsets, |f.offsets|, 2)
    && at.extension == at.table + |f.table|
  }

  function PlacesOf(f: TermFile): (at: Places)
    ensures Placed(f, at)
  {
    var booleans := 12 + |f.names|;
    var pad := booleans + |f.flags|;
    var numbers := Aligned(pad);
    var offsets := RunEnd(numbers, |f.numbers|, Width(f.format));
    var table := RunEnd(offsets, |f.offsets|, 2);
    Places(booleans, pad, numbers, offsets, table, table + |f.table|)
  }

  /** The legacy header of `f` opens `data`: the tag of its format, then its
      five counts. */
  predicate HeaderAt(data: seq<byte>, f: TermFile) {
    && 12 <= |data|
    && SignedLE(data[0..2]) == Tag(f.format)
    && Words(data[2..12], 2) == HeaderWords(f)
  }

  /** The legacy parts of `f` are stored in `data` at the places `at`. */
  predicate LegacyStoredAt(data: seq<byte>, f: TermFile, at: Places) {
    && HeaderAt(data, f)
    && At(data, 12, f.names)
    && FlagsAt(data, at.booleans, f.flags)
    && PadAt(data, at.pad)
    && WordsAt(data, at.numbers, f.numbers, Width(f.format))
    && WordsAt(data, at.offsets, f.offsets, 2)
    && At(data, at.table, f.table)
  }

  /** `data` is exactly the file `f`: its legacy parts at their places, then
      either the end of the data or the extended section, which ends the
      data. */
  predicate LaidOut(data: seq<byte>, f: TermFile) {
    var at := PlacesOf(f);
    && LegacyStoredAt(data, f, at)
    && match f.extension
       case None => |data| == at.extension
       case Some(e) =>
         var ext := ExtPlacesOf(at.extension, e, f.format);
         ExtStoredAt(data, at.extension, e, f.format, ext) && |data| == ext.end
  }

  /** What `f` needs to decode with the registries `regs`: no more legacy
      slots than registry entries, registries whose entries are valid
      names, a terminated legacy table that every legacy string offset
      points into, and a well-formed extended section. */
  predicate WellFormed(f: TermFile, regs: Registries) {
    && |f.flags| <= |regs.booleans| && ValidRegistry(regs.booleans)
    && |f.numbers| <= |regs.numbers| && ValidRegistry(regs.numbers)
    && |f.offsets| <= |regs.strings| && ValidRegistry(regs.strings)
    && Terminated(f.table) && OffsetsAreStarts(f.offsets, f.table)
    && (f.extension.Some? ==> ExtWellFormed(f.extension.value))
  }

  /** What `f` decodes to: the named legacy booleans, numbers and strings,
      then the extended capabilities. */
  function Expected(f: TermFile, regs: Registries): seq<Capability>
    requires WellFormed(f, regs)
  {
    Named(regs.booleans, BooleanValues(f.flags))
      + Named(regs.numbers, NumberValues(f.numbers))
      + Named(regs.strings, StringValues(f.offsets, Split(f.table).value))
      + match f.extension
        case None => []
        case Some(e) => ExtValues(e)
  }

  /** A stored legacy header reads back as the header of `f`. */
  lemma HeaderRead(data: seq<byte>, f: TermFile)
    requires HeaderAt(data, f)
    ensures ReadHeader(data) == Success(Read(HeaderOf(f), 12))
  {
    var r := ReadHeader(data);
    assert r.Success?;
    var h := r.value.value;
    assert h.format == f.format by {
      assert Tag(h.format) == Tag(f.format);
    }
    var counts := Counts(h);
    assert counts == HeaderWords(f);
    assert counts[0] == |f.names| && counts[1] == |f.flags| && counts[2] == |f.numbers|;
    assert counts[3] == |f.offsets| && counts[4] == |f.table|;
    var expected := Read(HeaderOf(f), 12);
    assert r.value == expected;
    assert r == Success(expected);
  }

  /** At the end of the data there is no extended section. */
  lemma NoExtensionRead(data: seq<byte>, pos: nat, format: Format)
    requires pos == |data|
    ensures ReadExtendedCapabilities(data, pos, format) == Success(Read([], pos))
  {
  }

  /** The decoder runs its stages one after another: once the header,
      the name skip, the legacy booleans, the alignment and the legacy
      numbers and strings have each read back from where the previous one
      stopped, the outcome is that of the extended section, its
      capabilities appended to the legacy ones. */
  lemma DecodeFromStages(
    data: seq<byte>, regs: Registries, h: Header,
    start: nat, pad: nat, numbers: nat, strings: nat, ext: nat,
    bs: seq<Capability>, ns: seq<Capability>, ss: seq<Capability>)
    requires ReadHeader(data) == Success(Read(h, 12))
    requires Skip(12, h.nameBytes) == Success(start)
    requires ReadBooleanCapabilities(data, start, h.booleanCount, regs.booleans) == Success(Read(bs, pad))
    requires AlignEven(data, pad) == Success(numbers)
    requires ReadNumberCapabilities(data, numbers, h.numberCount, h.format, regs.numbers) == Success(Read(ns, strings))
    requires ReadStringCapabilities(data, strings, h.stringCount, h.stringBytes, regs.strings) == Success(Read(ss, ext))
    ensures var x := ReadExtendedCapabilities(data, ext, h.format);
      Decode(data, regs) ==
        if x.Success? then Success(Decoded(bs + ns + ss + x.value.value, x.value.next)) else Failure(x.error)
  {
  }

  /** When the alignment after the legacy booleans fails, so does the
      decoder, with the same error. */
  lemma DecodeStopsAtPad(data: seq<byte>, regs: Registries, h: Header, start: nat, pad: nat, bs: seq<Capability>)
    requires ReadHeader(data) == Success(Read(h, 12))
    requires Skip(12, h.nameBytes) == Success(start)
    requires ReadBooleanCapabilities(data, start, h.booleanCount, regs.booleans) == Success(Read(bs, pad))
    requires AlignEven(data, pad).Failure?
    ensures Decode(data, regs) == Failure(AlignEven(data, pad).error)
  {
  }

  /** The legacy stages of a laid-out, well-formed file read back one after
      another. */
  lemma LegacyStagesRead(data: seq<byte>, f: TermFile, regs: Registries, at: Places)
    requires LegacyStoredAt(data, f, at) && Placed(f, at) && WellFormed(f, regs)
    ensures ReadHeader(data) == Success(Read(HeaderOf(f), 12))
    ensures Skip(12, |f.names|) == Success(at.booleans)
    ensures ReadBooleanCapabilities(data, at.booleans, |f.flags|, regs.booleans) ==
      Success(Read(Named(regs.booleans, BooleanValues(f.flags)), at.pad))
    ensures AlignEven(data, at.pad) == Success(at.numbers)
    ensures ReadNumberCapabilities(data, at.numbers, |f.numbers|, f.format, regs.numbers) ==
      Success(Read(Named(regs.numbers, NumberValues(f.numbers)), at.offsets))
    ensures ReadStringCapabilities(data, at.offsets, |f.offsets|, |f.table|, regs.strings) ==
      Success(Read(Named(regs.strings, StringValues(f.offsets, Split(f.table).value)), at.extension))
  {
    HeaderRead(data, f);
    BooleansRead(data, at.booleans, f.flags, regs.booleans, at.pad);
    PadRead(data, at.pad, at.numbers);
    NumbersRead(data, at.numbers, f.numbers, f.format, regs.numbers, at.offsets);
    StringsRead(data, at.offsets, f.offsets, f.table, regs.strings, at.table, at.extension);
  }

  /** What follows the legacy string table reads back as the extended
      capabilities of `f`, ending at the end of the data. */
  lemma ExtensionStageRead(data: seq<byte>, f: TermFile, regs: Registries, at: Places)
    requires LaidOut(data, f) && at == PlacesOf(f) && WellFormed(f, regs)
    ensures ReadExtendedCapabilities(data, at.extension, f.format) ==
      Success(Read(match f.extension case None => [] case Some(e) => ExtValues(e), |data|))
  {
    match f.extension
    case None =>
      NoExtensionRead(data, at.extension, f.format);
    case Some(e) =>
      ExtensionRead(data, at.extension, e, f.format, ExtPlacesOf(at.extension, e, f.format));
  }

  /** The decoder's reference: the data of a well-formed file `f` decodes
      to `Expected(f, regs)`, and the cursor stops at the end of the data. */
  lemma DecodeLaidOut(data: seq<byte>, f: TermFile, regs: Registries)
    requires LaidOut(data, f) && WellFormed(f, regs)
    ensures Decode(data, regs) == Success(Decoded(Expected(f, regs), |data|))
  {
    var at := PlacesOf(f);
    LegacyStagesRead(data, f, regs, at);
    ExtensionStageRead(data, f, regs, at);
    DecodeFromStages(data, regs, HeaderOf(f), at.booleans, at.pad, at.numbers, at.offsets, at.extension,
      Named(regs.booleans, BooleanValues(f.flags)),
      Named(regs.numbers, NumberValues(f.numbers)),
      Named(regs.strings, StringValues(f.offsets, Split(f.table).value)));
  }

  /** Parsing the data of a well-formed file `f` succeeds exactly when the
      capabilities it decodes to have distinct ids, and then the collection
      holds each of them under its id. */
  lemma ParseLaidOut(data: seq<byte>, f: TermFile, regs: Registries)
    requires LaidOut(data, f) && WellFormed(f, regs)
    ensures Parse(data, regs).Success? <==> DistinctIds(Expected(f, regs))
    ensures Parse(data, regs).Success? ==>
      var caps := Expected(f, regs);
      && Count(Parse(data, regs).value) == |caps|
      && forall i :: 0 <= i < |caps| ==> Get(Parse(data, regs).value, caps[i].id) == Success(caps[i])
  {
    DecodeLaidOut(data, f, regs);
  }
}
