/** Small files and what the decoder makes of them: a single boolean slot,
    a single number slot, a boolean not followed by the pad the number
    section needs, stray bytes after the legacy sections, and an extended
    section with exactly one true boolean. */
module Scenarios {
  import opened Wrappers
  import opened Bytes
  import opened Errors
  import opened Reader
  import opened Slots
  import opened StringTable
  import opened Capabilities
  import opened LegacySections
  import opened ExtendedSection
  import opened TerminfoParser
  import opened Layout
  import opened Encoder

  /** Registries whose entries are all valid names, with at least one
      boolean and one number name. */
  predicate Usable(regs: Registries) {
    && 1 <= |regs.booleans| && ValidRegistry(regs.booleans)
    && 1 <= |regs.numbers| && ValidRegistry(regs.numbers)
    && ValidRegistry(regs.strings)
  }

  /** A legacy file with no names, no strings and no extended section. */
  function LegacyFile(flags: seq<Option<bool>>, numbers: seq<int>): TermFile {
    TermFile(Legacy, [], flags, numbers, [], [], None)
  }

  /** A legacy file without an extended section is as long as the place
      of that section says. */
  lemma LegacyLength(f: TermFile)
    requires Encodable(f) && f.extension.None?
    ensures |Encode(f)| == PlacesOf(f).extension
  {
    EncodeLaidOut(f);
  }

  /** The file with one boolean slot: it is encodable and well formed, its
      pad sits at 13, and what it holds. */
  lemma OneBooleanFile(regs: Registries, flag: Option<bool>)
    requires Usable(regs)
    ensures var f := LegacyFile([flag], []);
      && Encodable(f) && WellFormed(f, regs)
      && PlacesOf(f).extension == 14
      && Expected(f, regs) ==
        if flag == Some(true) then [Capability(regs.booleans[0].id, regs.booleans[0].friendlyName, Bool(true))] else []
  {
    var f := LegacyFile([flag], []);
    var values := BooleanValues(f.flags);
    assert values == [if flag == Some(true) then Some(Bool(true)) else None];
    assert values[1..] == [];
    assert Named(regs.booleans[1..], values[1..]) == [];
    assert NumberValues(f.numbers) == [] && StringValues(f.offsets, Split(f.table).value) == [];
    assert Named(regs.numbers, []) == [] && Named(regs.strings, []) == [];
  }

  /** A file with one boolean slot is the header, the slot byte and a pad
      byte; it decodes to one capability, named by the first boolean
      registry entry, when the slot is true and to nothing otherwise. */
  lemma OneBoolean(regs: Registries, flag: Option<bool>)
    requires Usable(regs)
    ensures |Encode(LegacyFile([flag], []))| == 14
    ensures Decode(Encode(LegacyFile([flag], [])), regs) ==
      Success(Decoded(
        if flag == Some(true) then [Capability(regs.booleans[0].id, regs.booleans[0].friendlyName, Bool(true))] else [],
        14))
  {
    var f := LegacyFile([flag], []);
    OneBooleanFile(regs, flag);
    LegacyLength(f);
    DecodeEncode(f, regs);
  }

  /** The file with one number slot: it is encodable and well formed, its
      number slot sits at 12, and what it holds. */
  lemma OneNumberFile(regs: Registries, v: int)
    requires Usable(regs) && InSignedRange(v, 2)
    ensures var f := LegacyFile([], [v]);
      && Encodable(f) && WellFormed(f, regs)
      && PlacesOf(f).extension == 14
      && Expected(f, regs) ==
        if IsSentinel(v) then [] else [Capability(regs.numbers[0].id, regs.numbers[0].friendlyName, Num(v))]
  {
    var f := LegacyFile([], [v]);
    assert Span(1, 2) == 2;
    var values := NumberValues(f.numbers);
    assert values == [if IsSentinel(v) then None else Some(Num(v))];
    assert values[1..] == [];
    assert Named(regs.numbers[1..], values[1..]) == [];
    assert BooleanValues(f.flags) == [] && StringValues(f.offsets, Split(f.table).value) == [];
    assert Named(regs.booleans, []) == [] && Named(regs.strings, []) == [];
  }

  /** A file with one legacy number slot decodes to nothing when the slot
      holds a sentinel, and otherwise to one capability named by the first
      number registry entry. */
  lemma OneNumber(regs: Registries, v: int)
    requires Usable(regs) && InSignedRange(v, 2)
    ensures |Encode(LegacyFile([], [v]))| == 14
    ensures Decode(Encode(LegacyFile([], [v])), regs) ==
      Success(Decoded(
        if IsSentinel(v) then [] else [Capability(regs.numbers[0].id, regs.numbers[0].friendlyName, Num(v))],
        14))
  {
    var f := LegacyFile([], [v]);
    OneNumberFile(regs, v);
    LegacyLength(f);
    DecodeEncode(f, regs);
  }

  /** Data that stops right after an odd number of header, name and
      boolean bytes fails at the alignment before the number section, even
      when the file declares no numbers. */
  lemma MissingPad(f: TermFile, regs: Registries, data: seq<byte>)
    requires Encodable(f) && PlacesOf(f).pad % 2 == 1
    requires |f.flags| <= |regs.booleans| && ValidRegistry(regs.booleans)
    requires data == EncodeHeader(f) + (f.names + FlagBytes(f.flags))
    ensures Decode(data, regs) == Failure(Truncated(PlacesOf(f).pad))
  {
    var at := PlacesOf(f);
    assert At(data, 0, data);
    AtSplit(data, 0, EncodeHeader(f), f.names + FlagBytes(f.flags), 12);
    AtSplit(data, 12, f.names, FlagBytes(f.flags), at.booleans);
    HeaderEncoded(data, f);
    HeaderRead(data, f);
    BooleansRead(data, at.booleans, f.flags, regs.booleans, at.pad);
    DecodeStopsAtPad(data, regs, HeaderOf(f), at.booleans, at.pad, Named(regs.booleans, BooleanValues(f.flags)));
  }

  /** The 13 bytes of a header declaring one boolean, then that boolean,
      with no pad: the decoder fails at offset 13. */
  lemma OneBooleanUnpadded(regs: Registries, flag: Option<bool>)
    requires Usable(regs)
    ensures |EncodeHeader(LegacyFile([flag], [])) + [FlagByte(flag)]| == 13
    ensures Decode(EncodeHeader(LegacyFile([flag], [])) + [FlagByte(flag)], regs) == Failure(Truncated(13))
  {
    var f := LegacyFile([flag], []);
    assert FlagBytes(f.flags) == [FlagByte(flag)];
    assert f.names + FlagBytes(f.flags) == [FlagByte(flag)];
    assert |EncodeHeader(f)| == 12 && PlacesOf(f).pad == 13;
    MissingPad(f, regs, EncodeHeader(f) + [FlagByte(flag)]);
  }

  /** Bytes after the legacy sections that are too few for an extended
      header make the decoder fail rather than be ignored. */
  lemma StrayBytes(f: TermFile, regs: Registries, tail: seq<byte>)
    requires Encodable(f) && WellFormed(f, regs) && f.extension.None?
    requires 0 < |tail| < 10
    ensures Decode(EncodeLegacy(f, tail), regs).Failure?
  {
    var data := EncodeLegacy(f, tail);
    var at := PlacesOf(f);
    LegacyEncoded(f, tail);
    LegacyStagesRead(data, f, regs, at);
    DecodeFromStages(data, regs, HeaderOf(f), at.booleans, at.pad, at.numbers, at.offsets, at.extension,
      Named(regs.booleans, BooleanValues(f.flags)),
      Named(regs.numbers, NumberValues(f.numbers)),
      Named(regs.strings, StringValues(f.offsets, Split(f.table).value)));
    assert ReadExtendedHeader(data, at.extension).Failure?;
  }

  /** Every boolean survivor is `true`. */
  lemma {:induction false} BooleanSurvivorsTrue(flags: seq<Option<bool>>)
    ensures forall i :: 0 <= i < |BooleanSurvivors(flags)| ==> BooleanSurvivors(flags)[i] == Bool(true)
  {
    if |flags| > 0 {
      BooleanSurvivorsTrue(flags[1..]);
    }
  }

  /** An extended section whose only surviving slot is one true boolean
      consumes exactly one name index, the first, and emits one capability
      whose id is the name found through it. */
  lemma OneTrueExtendedBoolean(flags: seq<Option<bool>>, numbers: seq<int>, offsets: seq<int>, names: seq<int>, table: Entries, nameOffset: int)
    requires |names| == |flags| + |numbers| + |offsets|
    requires CountTrue(flags) == 1 && CountPresent(numbers) == 0 && CountPresent(offsets) == 0
    requires EmitExtended(flags, numbers, offsets, names, table, nameOffset).Success?
    ensures var r := EmitExtended(flags, numbers, offsets, names, table, nameOffset).value;
      && r.running == 1
      && |r.records| == 1
      && r.records[0].id == TextAt(table, nameOffset + names[0])
      && r.records[0].value == Bool(true)
  {
    var values := Survivors(flags, numbers, offsets, table);
    BooleanSurvivorsTrue(flags);
    assert values == BooleanSurvivors(flags);
    LockstepAt(values, names, 0, table, nameOffset, 0);
  }
}
