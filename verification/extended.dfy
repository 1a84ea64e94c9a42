/** The extended section of a compiled terminfo file (TerminfoParser.cs,
    `ReadExtendedCapabilities`): user-defined capabilities whose names are
    stored in the section's own string table.

    The section is read in one fixed order: header, boolean slots, number
    slots, string offsets, name indices, string table. Capabilities are then
    emitted booleans first, numbers next, strings last, and one running
    cursor into the name indices advances once per emitted capability. The
    reference `Lockstep` states that pairing directly: the `k`-th surviving
    value is named by the `k`-th name index. */
module ExtendedSection {
  import opened Wrappers
  import opened Bytes
  import opened Ascii
  import opened Errors
  import opened Reader
  import opened Slots
  import opened StringTable
  import opened Capabilities

  /** The five counts of the extended header. `itemCount` is read and
      never used. */
  datatype ExtHeader = ExtHeader(booleanCount: int, numberCount: int, stringCount: int, itemCount: int, tableSize: int)

  /** The raw contents of an extended section, before any capability is
      built: every slot array in file order and the string-table bytes. */
  datatype RawSection = RawSection(
    header: ExtHeader,
    flags: seq<Option<bool>>,
    numbers: seq<int>,
    offsets: seq<int>,
    names: seq<int>,
    blob: seq<byte>)

  /** Emitted capabilities and the name cursor after them. */
  datatype Emitted = Emitted(records: seq<Capability>, running: nat)

  /** The decoded text of the table entry at `key`, or empty text when
      there is none. */
  function TextAt(table: Entries, key: int): Text {
    if key in table then Decode(table[key]) else []
  }

  /** One `Bool(true)` per true boolean slot. */
  function BooleanSurvivors(flags: seq<Option<bool>>): (vs: seq<Value>)
    ensures |vs| == CountTrue(flags)
  {
    if |flags| == 0 then []
    else (if flags[0] == Some(true) then [Bool(true)] else []) + BooleanSurvivors(flags[1..])
  }

  /** The number slots that are not sentinels, in order. */
  function NumberSurvivors(numbers: seq<int>): (vs: seq<Value>)
    ensures |vs| == CountPresent(numbers)
  {
    if |numbers| == 0 then []
    else (if IsSentinel(numbers[0]) then [] else [Num(numbers[0])]) + NumberSurvivors(numbers[1..])
  }

  /** The table entries named by the string offsets that are not
      sentinels, in order. */
  function StringSurvivors(offsets: seq<int>, table: Entries): (vs: seq<Value>)
    ensures |vs| == CountPresent(offsets)
  {
    if |offsets| == 0 then []
    else (if IsSentinel(offsets[0]) then [] else [Str(TextAt(table, offsets[0]))]) + StringSurvivors(offsets[1..], table)
  }

  /** All surviving values of the section in emission order. */
  function Survivors(flags: seq<Option<bool>>, numbers: seq<int>, offsets: seq<int>, table: Entries): seq<Value> {
    BooleanSurvivors(flags) + NumberSurvivors(numbers) + StringSurvivors(offsets, table)
  }

  /** The reference lock-step pairing: the `k`-th value is named by the table
      entry at `nameOffset + names[cursor + k]`, which serves as both id and
      friendly name. */
  function Lockstep(values: seq<Value>, names: seq<int>, cursor: nat, table: Entries, nameOffset: int): (caps: seq<Capability>)
    requires cursor + |values| <= |names|
    decreases |values|
    ensures |caps| == |values|
  {
    if |values| == 0 then []
    else
      var id := TextAt(table, nameOffset + names[cursor]);
      [Capability(id, id, values[0])] + Lockstep(values[1..], names, cursor + 1, table, nameOffset)
  }

  /** Lock-step over a concatenation continues at the first name the first
      part left unused. */
  lemma {:induction false} LockstepAppend(a: seq<Value>, b: seq<Value>, names: seq<int>, cursor: nat, table: Entries, nameOffset: int)
    requires cursor + |a| + |b| <= |names|
    ensures Lockstep(a + b, names, cursor, table, nameOffset)
      == Lockstep(a, names, cursor, table, nameOffset) + Lockstep(b, names, cursor + |a|, table, nameOffset)
    decreases |a|
  {
    if |a| == 0 {
      assert a + b == b;
    } else {
      LockstepAppend(a[1..], b, names, cursor + 1, table, nameOffset);
      assert (a + b)[0] == a[0] && (a + b)[1..] == a[1..] + b;
      var id := TextAt(table, nameOffset + names[cursor]);
      var first := [Capability(id, id, a[0])];
      assert Lockstep(a + b, names, cursor, table, nameOffset) == first + Lockstep(a[1..] + b, names, cursor + 1, table, nameOffset);
      assert Lockstep(a, names, cursor, table, nameOffset) == first + Lockstep(a[1..], names, cursor + 1, table, nameOffset);
    }
  }

  /** The `k`-th lock-step capability carries the `k`-th value and the name
      found through the name index `k` places after the cursor. */
  lemma {:induction false} LockstepAt(values: seq<Value>, names: seq<int>, cursor: nat, table: Entries, nameOffset: int, k: nat)
    requires cursor + |values| <= |names| && k < |values|
    ensures var c := Lockstep(values, names, cursor, table, nameOffset)[k];
      && c.id == TextAt(table, nameOffset + names[cursor + k])
      && c.friendlyName == c.id
      && c.value == values[k]
    decreases k
  {
    if k > 0 {
      LockstepAt(values[1..], names, cursor + 1, table, nameOffset, k - 1);
    }
  }

  /** True when the table entry at `key` exists and is a valid id. */
  predicate NameResolves(table: Entries, key: int) {
    key in table && HasContent(Decode(table[key]))
  }

  /** True when the name of every cursor position in `lo .. hi`
      resolves to a table entry that is a valid id, checked in cursor order. */
  predicate NamesResolve(names: seq<int>, lo: nat, hi: nat, table: Entries, nameOffset: int)
    requires lo <= hi <= |names|
    decreases hi - lo
  {
    lo == hi || (NameResolves(table, nameOffset + names[lo]) && NamesResolve(names, lo + 1, hi, table, nameOffset))
  }

  /** The cursor-order check agrees with the position-wise statement. */
  lemma {:induction false} NamesResolveAll(names: seq<int>, lo: nat, hi: nat, table: Entries, nameOffset: int)
    requires lo <= hi <= |names|
    decreases hi - lo
    ensures NamesResolve(names, lo, hi, table, nameOffset) <==>
      forall k :: lo <= k < hi ==> NameResolves(table, nameOffset + names[k])
  {
    if lo < hi {
      NamesResolveAll(names, lo + 1, hi, table, nameOffset);
    }
  }

  /** True when every string offset that is not a sentinel is a table key. */
  predicate OffsetsResolve(offsets: seq<int>, table: Entries) {
    forall j :: 0 <= j < |offsets| && !IsSentinel(offsets[j]) ==> offsets[j] in table
  }

  /** One slot of the three slot arrays, tagged with its kind. The three
      emission loops share one name cursor, so they behave as one walk over
      the boolean, number and string slots laid end to end. */
  datatype Slot = FlagSlot(flag: Option<bool>) | NumberSlot(number: int) | StringSlot(offset: int)

  function FlagSlots(flags: seq<Option<bool>>): (slots: seq<Slot>)
    ensures |slots| == |flags|
  {
    if |flags| == 0 then [] else [FlagSlot(flags[0])] + FlagSlots(flags[1..])
  }

  function NumberSlots(numbers: seq<int>): (slots: seq<Slot>)
    ensures |slots| == |numbers|
  {
    if |numbers| == 0 then [] else [NumberSlot(numbers[0])] + NumberSlots(numbers[1..])
  }

  function StringSlots(offsets: seq<int>): (slots: seq<Slot>)
    ensures |slots| == |offsets|
  {
    if |offsets| == 0 then [] else [StringSlot(offsets[0])] + StringSlots(offsets[1..])
  }

  /** The slots in emission order. */
  function Pending(flags: seq<Option<bool>>, numbers: seq<int>, offsets: seq<int>): seq<Slot> {
    FlagSlots(flags) + NumberSlots(numbers) + StringSlots(offsets)
  }

  /** True when the slot produces a capability: a boolean that is true, a
      number or string offset that is not a sentinel. */
  predicate Emits(slot: Slot) {
    match slot
    case FlagSlot(flag) => flag == Some(true)
    case NumberSlot(number) => !IsSentinel(number)
    case StringSlot(offset) => !IsSentinel(offset)
  }

  /** The value an emitting slot carries. */
  function SlotValue(slot: Slot, table: Entries): Value {
    match slot
    case FlagSlot(_) => Bool(true)
    case NumberSlot(number) => Num(number)
    case StringSlot(offset) => Str(TextAt(table, offset))
  }

  /** The values of the emitting slots, in order. */
  function SlotValues(slots: seq<Slot>, table: Entries): seq<Value> {
    if |slots| == 0 then []
    else (if Emits(slots[0]) then [SlotValue(slots[0], table)] else []) + SlotValues(slots[1..], table)
  }

  /** True when every emitting string slot names a table entry. */
  predicate SlotsResolve(slots: seq<Slot>, table: Entries) {
    |slots| == 0 ||
    ((!slots[0].StringSlot? || IsSentinel(slots[0].offset) || slots[0].offset in table) && SlotsResolve(slots[1..], table))
  }

  /** Slot values of a concatenation. */
  lemma {:induction false} SlotValuesAppend(a: seq<Slot>, b: seq<Slot>, table: Entries)
    ensures SlotValues(a + b, table) == SlotValues(a, table) + SlotValues(b, table)
    decreases |a|
  {
    if |a| == 0 {
      assert a + b == b;
    } else {
      SlotValuesAppend(a[1..], b, table);
      assert (a + b)[0] == a[0] && (a + b)[1..] == a[1..] + b;
      var head := if Emits(a[0]) then [SlotValue(a[0], table)] else [];
      assert SlotValues(a + b, table) == head + SlotValues(a[1..] + b, table);
    }
  }

  /** The slots of a concatenation resolve exactly when both parts do. */
  lemma {:induction false} SlotsResolveAppend(a: seq<Slot>, b: seq<Slot>, table: Entries)
    ensures SlotsResolve(a + b, table) <==> SlotsResolve(a, table) && SlotsResolve(b, table)
    decreases |a|
  {
    if |a| == 0 {
      assert a + b == b;
    } else {
      SlotsResolveAppend(a[1..], b, table);
      assert (a + b)[0] == a[0] && (a + b)[1..] == a[1..] + b;
    }
  }

  /** The boolean slots carry exactly the boolean survivors and never fail
      to resolve. */
  lemma {:induction false} FlagSlotsMatch(flags: seq<Option<bool>>, table: Entries)
    ensures SlotValues(FlagSlots(flags), table) == BooleanSurvivors(flags)
    ensures SlotsResolve(FlagSlots(flags), table)
  {
    if |flags| > 0 {
      FlagSlotsMatch(flags[1..], table);
      var slots := FlagSlots(flags);
      assert slots[0] == FlagSlot(flags[0]) && slots[1..] == FlagSlots(flags[1..]);
    }
  }

  /** The number slots carry exactly the number survivors and never fail
      to resolve. */
  lemma {:induction false} NumberSlotsMatch(numbers: seq<int>, table: Entries)
    ensures SlotValues(NumberSlots(numbers), table) == NumberSurvivors(numbers)
    ensures SlotsResolve(NumberSlots(numbers), table)
  {
    if |numbers| > 0 {
      NumberSlotsMatch(numbers[1..], table);
      var slots := NumberSlots(numbers);
      assert slots[0] == NumberSlot(numbers[0]) && slots[1..] == NumberSlots(numbers[1..]);
    }
  }

  /** The string slots carry exactly the string survivors, and resolve
      exactly when every non-sentinel offset is a table key. */
  lemma {:induction false} StringSlotsMatch(offsets: seq<int>, table: Entries)
    ensures SlotValues(StringSlots(offsets), table) == StringSurvivors(offsets, table)
    ensures SlotsResolve(StringSlots(offsets), table) <==> OffsetsResolve(offsets, table)
  {
    if |offsets| > 0 {
      StringSlotsMatch(offsets[1..], table);
      var slots := StringSlots(offsets);
      assert slots[0] == StringSlot(offsets[0]) && slots[1..] == StringSlots(offsets[1..]);
      assert forall j :: 1 <= j < |offsets| ==> offsets[1..][j - 1] == offsets[j];
    }
  }

  /** The walk over the pending slots meets exactly the survivors of the
      three arrays, and fails to resolve exactly when a string offset
      does. */
  lemma PendingMatches(flags: seq<Option<bool>>, numbers: seq<int>, offsets: seq<int>, table: Entries)
    ensures SlotValues(Pending(flags, numbers, offsets), table) == Survivors(flags, numbers, offsets, table)
    ensures SlotsResolve(Pending(flags, numbers, offsets), table) <==> OffsetsResolve(offsets, table)
    ensures |Survivors(flags, numbers, offsets, table)| <= |flags| + |numbers| + |offsets|
  {
    FlagSlotsMatch(flags, table);
    NumberSlotsMatch(numbers, table);
    StringSlotsMatch(offsets, table);
    SlotValuesAppend(FlagSlots(flags), NumberSlots(numbers), table);
    SlotValuesAppend(FlagSlots(flags) + NumberSlots(numbers), StringSlots(offsets), table);
    SlotsResolveAppend(FlagSlots(flags), NumberSlots(numbers), table);
    SlotsResolveAppend(FlagSlots(flags) + NumberSlots(numbers), StringSlots(offsets), table);
  }

  /** The emission walk: each emitting slot takes the next name index,
      looks its name up, then (for a string) its value, and builds the
      capability with the name as id and no friendly name. */
  function Emit(slots: seq<Slot>, names: seq<int>, running: nat, table: Entries, nameOffset: int): (r: Result<Emitted, Error>)
    requires running + |SlotValues(slots, table)| <= |names|
    decreases |slots|
    ensures r.Success? ==> r.value.running == running + |SlotValues(slots, table)|
    ensures r.Success? ==> r.value.records == Lockstep(SlotValues(slots, table), names, running, table, nameOffset)
    ensures r.Success? <==>
      NamesResolve(names, running, running + |SlotValues(slots, table)|, table, nameOffset) && SlotsResolve(slots, table)
  {
    if |slots| == 0 then Success(Emitted([], running))
    else if !Emits(slots[0]) then
      assert SlotValues(slots, table) == SlotValues(slots[1..], table);
      Emit(slots[1..], names, running, table, nameOffset)
    else
      var name := Lookup(table, nameOffset + names[running]);
      if name.Failure? then Failure(name.error)
      else
        var value := match slots[0]
          case StringSlot(offset) => Lookup(table, offset)
          case _ => Success([]);
        if value.Failure? then Failure(value.error)
        else
          var cap := New(Some(Decode(name.value)), None, SlotValue(slots[0], table));
          if cap.Failure? then Failure(cap.error)
          else
            var rest := Emit(slots[1..], names, running + 1, table, nameOffset);
            if rest.Failure? then Failure(rest.error)
            else Success(Emitted([cap.value] + rest.value.records, rest.value.running))
  }

  /** The emission phase: booleans, then numbers, then strings, sharing one
      name cursor that starts at 0 and ends at the number of capabilities
      emitted. */
  function EmitExtended(flags: seq<Option<bool>>, numbers: seq<int>, offsets: seq<int>, names: seq<int>, table: Entries, nameOffset: int): (r: Result<Emitted, Error>)
    requires |names| == |flags| + |numbers| + |offsets|
    ensures r.Success? ==> r.value.running == |r.value.records| <= |names|
    ensures r.Success? ==>
      r.value.records == Lockstep(Survivors(flags, numbers, offsets, table), names, 0, table, nameOffset)
    ensures r.Success? <==>
      NamesResolve(names, 0, |Survivors(flags, numbers, offsets, table)|, table, nameOffset) && OffsetsResolve(offsets, table)
  {
    PendingMatches(flags, numbers, offsets, table);
    Emit(Pending(flags, numbers, offsets), names, 0, table, nameOffset)
  }

  /** The five shorts of the extended header, read one after another. */
  function ReadExtendedHeader(data: seq<byte>, pos: nat): (r: Result<Read<ExtHeader>, Error>)
    ensures r.Success? <==> (pos % 2 == 0 || (pos < |data| && data[pos] == 0)) && Aligned(pos) + 10 <= |data|
    ensures r.Success? ==> r.value.next == Aligned(pos) + 10
    ensures r.Success? ==>
      var ws := Words(data[Aligned(pos)..Aligned(pos) + 10], 2);
      |ws| == 5 && r.value.value == ExtHeader(ws[0], ws[1], ws[2], ws[3], ws[4])
  {
    var ws :- ReadWords(data, pos, 5, 2);
    Success(Read(ExtHeader(ws.value[0], ws.value[1], ws.value[2], ws.value[3], ws.value[4]), ws.next))
  }

  /** The extended section at `pos` is in `data`: its header reads, no
      count is negative, every slot run fits where the header ends, and the
      table size is not negative (the table itself may be cut short by the
      end of the stream). */
  predicate RawSectionFits(data: seq<byte>, pos: nat, format: Format) {
    && ReadExtendedHeader(data, pos).Success?
    && var h := ReadExtendedHeader(data, pos).value.value;
    && h.booleanCount >= 0 && h.numberCount >= 0 && h.stringCount >= 0
    && SlotRunsFit(data, ReadExtendedHeader(data, pos).value.next, h.booleanCount, h.numberCount, h.stringCount, format)
    && h.tableSize >= 0
  }

  /** `raw` is what the extended section at `pos` stores, and `next` is
      where it ends: the header read there, the slot arrays held by the
      bytes of their runs, and as many table bytes as the stream still has
      after the runs, up to `tableSize`. */
  predicate RawSectionStored(data: seq<byte>, pos: nat, format: Format, raw: RawSection, next: nat)
    requires RawSectionFits(data, pos, format)
  {
    var header := ReadExtendedHeader(data, pos).value;
    var h := header.value;
    var slotsEnd := SlotRunsEnd(header.next, h.booleanCount, h.numberCount, h.stringCount, format);
    && raw.header == h
    && SlotArraysStored(data, header.next, h.booleanCount, h.numberCount, h.stringCount, format,
         SlotArrays(raw.flags, raw.numbers, raw.offsets, raw.names))
    && |raw.blob| == Min(h.tableSize, Available(data, slotsEnd))
    && next == slotsEnd + |raw.blob|
    && slotsEnd <= next <= |data|
    && raw.blob == data[slotsEnd..next]
  }

  /** Everything the extended section stores, read in file order: header,
      boolean slots, number slots, string offsets, name indices and the
      string-table bytes. Each buffer is allocated before any slot is read,
      so a negative count fails first, in the order booleans, numbers,
      strings. */
  function ReadRawSection(data: seq<byte>, pos: nat, format: Format): (r: Result<Read<RawSection>, Error>)
    ensures r.Success? ==> ReadExtendedHeader(data, pos).Success?
    ensures r.Success? ==>
      var raw := r.value.value;
      var h := raw.header;
      && h == ReadExtendedHeader(data, pos).value.value
      && h.booleanCount >= 0 && h.numberCount >= 0 && h.stringCount >= 0 && h.tableSize >= 0
      && |raw.flags| == h.booleanCount && |raw.numbers| == h.numberCount && |raw.offsets| == h.stringCount
      && |raw.names| == h.booleanCount + h.numberCount + h.stringCount
      && |raw.blob| <= h.tableSize
      && pos < r.value.next <= |data|
      && (|raw.blob| < h.tableSize ==> r.value.next == |data|)
    ensures ReadExtendedHeader(data, pos).Success? ==>
      var h := ReadExtendedHeader(data, pos).value.value;
      && (h.booleanCount < 0 ==> r == Failure(NegativeLength(h.booleanCount)))
      && (h.booleanCount >= 0 && h.numberCount < 0 ==> r == Failure(NegativeLength(h.numberCount)))
      && (h.booleanCount >= 0 && h.numberCount >= 0 && h.stringCount < 0 ==> r == Failure(NegativeLength(h.stringCount)))
    ensures r.Success? <==> RawSectionFits(data, pos, format)
    ensures r.Success? ==> RawSectionStored(data, pos, format, r.value.value, r.value.next)
  {
    var header :- ReadExtendedHeader(data, pos);
    var h := header.value;
    if h.booleanCount < 0 then Failure(NegativeLength(h.booleanCount))
    else if h.numberCount < 0 then Failure(NegativeLength(h.numberCount))
    else if h.stringCount < 0 then Failure(NegativeLength(h.stringCount))
    else
      var slots :- ReadSlotArrays(data, header.next, h.booleanCount, h.numberCount, h.stringCount, format);
      var blob :- ReadBytes(data, slots.next, h.tableSize);
      var arrays := slots.value;
      RawSectionFromParts(data, pos, format, header, slots, blob);
      Success(Read(RawSection(h, arrays.flags, arrays.numbers, arrays.offsets, arrays.names, blob.value), blob.next))
  }

  /** A header, slot arrays and table bytes read one after another make a
      section that fits and is what its bytes store. */
  lemma RawSectionFromParts(data: seq<byte>, pos: nat, format: Format, header: Read<ExtHeader>, slots: Read<SlotArrays>, blob: Read<seq<byte>>)
    requires ReadExtendedHeader(data, pos).Success? && ReadExtendedHeader(data, pos).value == header
    requires header.value.booleanCount >= 0 && header.value.numberCount >= 0 && header.value.stringCount >= 0
    requires ReadSlotArrays(data, header.next, header.value.booleanCount, header.value.numberCount, header.value.stringCount, format).Success?
    requires ReadSlotArrays(data, header.next, header.value.booleanCount, header.value.numberCount, header.value.stringCount, format).value == slots
    requires ReadBytes(data, slots.next, header.value.tableSize).Success?
    requires ReadBytes(data, slots.next, header.value.tableSize).value == blob
    ensures RawSectionFits(data, pos, format)
    ensures RawSectionStored(data, pos, format,
      RawSection(header.value, slots.value.flags, slots.value.numbers, slots.value.offsets, slots.value.names, blob.value), blob.next)
  {
    var h, a := header.value, slots.value;
    var slotsEnd := SlotRunsEnd(header.next, h.booleanCount, h.numberCount, h.stringCount, format);
    assert SlotArrays(a.flags, a.numbers, a.offsets, a.names) == a;
    assert slots.next == slotsEnd <= |data|;
  }

  /** The four slot arrays of the extended section. */
  datatype SlotArrays = SlotArrays(flags: seq<Option<bool>>, numbers: seq<int>, offsets: seq<int>, names: seq<int>)

  /** Every run of the extended slot arrays is in `data`: the boolean
      bytes are flag bytes, and the number, string-offset and name-index
      runs, each starting where the previous one ends, have a zero pad
      byte where they need one and all of their words. */
  predicate SlotRunsFit(data: seq<byte>, pos: nat, booleanCount: nat, numberCount: nat, stringCount: nat, format: Format) {
    && (booleanCount == 0 || (pos + booleanCount <= |data| && Flags(data[pos..pos + booleanCount]).Some?))
    && RunsFollow(data, pos + booleanCount, numberCount, Width(format), stringCount, booleanCount + numberCount + stringCount)
  }

  /** The slot arrays `a` are what the bytes of their runs hold. */
  predicate SlotArraysStored(data: seq<byte>, pos: nat, booleanCount: nat, numberCount: nat, stringCount: nat, format: Format, a: SlotArrays)
    requires SlotRunsFit(data, pos, booleanCount, numberCount, stringCount, format)
  {
    var p1 := pos + booleanCount;
    var p2 := RunEnd(p1, numberCount, Width(format));
    && (booleanCount > 0 ==> Flags(data[pos..p1]) == Some(a.flags))
    && a.numbers == RunWords(data, p1, numberCount, Width(format))
    && a.offsets == RunWords(data, p2, stringCount, 2)
    && a.names == RunWords(data, RunEnd(p2, stringCount, 2), booleanCount + numberCount + stringCount, 2)
  }

  /** Where the runs of the extended slot arrays end: after the name
      indices. */
  function SlotRunsEnd(pos: nat, booleanCount: nat, numberCount: nat, stringCount: nat, format: Format): nat {
    var p2 := RunEnd(pos + booleanCount, numberCount, Width(format));
    RunEnd(RunEnd(p2, stringCount, 2), booleanCount + numberCount + stringCount, 2)
  }

  /** The slot reads of the extended section, once every count is known to
      be non-negative: booleans byte by byte, numbers in the file's width,
      string offsets and name indices as shorts. They succeed exactly when
      every run is in `data`, and then each array holds what the bytes of
      its run store. */
  function ReadSlotArrays(data: seq<byte>, pos: nat, booleanCount: nat, numberCount: nat, stringCount: nat, format: Format): (r: Result<Read<SlotArrays>, Error>)
    ensures r.Success? <==> SlotRunsFit(data, pos, booleanCount, numberCount, stringCount, format)
    ensures r.Success? ==>
      var a := r.value.value;
      && |a.flags| == booleanCount && |a.numbers| == numberCount && |a.offsets| == stringCount
      && |a.names| == booleanCount + numberCount + stringCount
      && SlotArraysStored(data, pos, booleanCount, numberCount, stringCount, format, a)
      && r.value.next == SlotRunsEnd(pos, booleanCount, numberCount, stringCount, format)
    ensures r.Success? ==> pos <= r.value.next && (pos <= |data| ==> r.value.next <= |data|)
  {
    RunsFitIffRead(data, pos, booleanCount, numberCount, stringCount, format);
    var flags := ReadBooleanSlots(data, pos, booleanCount);
    if flags.Failure? then Failure(flags.error)
    else
      var runs := ReadRuns(data, pos + booleanCount, numberCount, Width(format), stringCount, booleanCount + numberCount + stringCount);
      if runs.Failure? then Failure(runs.error)
      else
        SlotArraysFromRuns(data, pos, booleanCount, numberCount, stringCount, format);
        Success(Read(ArraysOfRuns(data, pos, booleanCount, numberCount, stringCount, format), runs.value.next))
  }

  /** The slot arrays built from a boolean run and three word runs that
      read back. */
  function ArraysOfRuns(data: seq<byte>, pos: nat, booleanCount: nat, numberCount: nat, stringCount: nat, format: Format): SlotArrays
    requires ReadBooleanSlots(data, pos, booleanCount).Success?
    requires ReadRuns(data, pos + booleanCount, numberCount, Width(format), stringCount, booleanCount + numberCount + stringCount).Success?
  {
    var words := ReadRuns(data, pos + booleanCount, numberCount, Width(format), stringCount, booleanCount + numberCount + stringCount).value.value;
    SlotArrays(ReadBooleanSlots(data, pos, booleanCount).value.value, words.0, words.1, words.2)
  }

  /** The runs of the slot arrays fit exactly when the boolean run and the
      three word runs read. */
  lemma RunsFitIffRead(data: seq<byte>, pos: nat, booleanCount: nat, numberCount: nat, stringCount: nat, format: Format)
    ensures SlotRunsFit(data, pos, booleanCount, numberCount, stringCount, format) <==>
      && ReadBooleanSlots(data, pos, booleanCount).Success?
      && ReadRuns(data, pos + booleanCount, numberCount, Width(format), stringCount, booleanCount + numberCount + stringCount).Success?
  {
  }

  /** Slot arrays whose boolean run and word runs read back are the values
      the bytes of their runs store, and the runs end at `SlotRunsEnd`. */
  lemma SlotArraysFromRuns(data: seq<byte>, pos: nat, booleanCount: nat, numberCount: nat, stringCount: nat, format: Format)
    requires ReadBooleanSlots(data, pos, booleanCount).Success?
    requires ReadRuns(data, pos + booleanCount, numberCount, Width(format), stringCount, booleanCount + numberCount + stringCount).Success?
    ensures var a := ArraysOfRuns(data, pos, booleanCount, numberCount, stringCount, format);
      && |a.flags| == booleanCount && |a.numbers| == numberCount && |a.offsets| == stringCount
      && |a.names| == booleanCount + numberCount + stringCount
      && SlotRunsFit(data, pos, booleanCount, numberCount, stringCount, format)
      && SlotArraysStored(data, pos, booleanCount, numberCount, stringCount, format, a)
    ensures ReadRuns(data, pos + booleanCount, numberCount, Width(format), stringCount, booleanCount + numberCount + stringCount).value.next
      == SlotRunsEnd(pos, booleanCount, numberCount, stringCount, format)
  {
  }

  /** `ReadExtendedCapabilities`: nothing when the cursor is at the end of
      the stream; otherwise the raw section, its string table split at the
      `stringWithValueCount`-th string, and the emission phase with names
      resolved relative to that split. */
  function ReadExtendedCapabilities(data: seq<byte>, pos: nat, format: Format): (r: Result<Read<seq<Capability>>, Error>)
    ensures pos == |data| ==> r == Success(Read([], pos))
    ensures r.Success? ==> pos <= r.value.next <= |data|
    ensures r.Success? && pos != |data| ==>
      ReadRawSection(data, pos, format).Success? && r.value.next == ReadRawSection(data, pos, format).value.next
    ensures r.Success? && pos != |data| ==>
      && ReadRawSection(data, pos, format).Success?
      && var raw := ReadRawSection(data, pos, format).value.value;
      && Terminated(raw.blob)
      && var entries := Split(raw.blob).value;
      && var split := SplitAfter(raw.blob, CountPresent(raw.offsets));
      && r.value.value == Lockstep(Survivors(raw.flags, raw.numbers, raw.offsets, entries), raw.names, 0, entries, split)
    ensures pos != |data| ==>
      (r.Success? <==>
        && ReadRawSection(data, pos, format).Success?
        && var raw := ReadRawSection(data, pos, format).value.value;
        && Terminated(raw.blob)
        && var entries := Split(raw.blob).value;
        && var split := SplitAfter(raw.blob, CountPresent(raw.offsets));
        && NamesResolve(raw.names, 0, |Survivors(raw.flags, raw.numbers, raw.offsets, entries)|, entries, split)
        && OffsetsResolve(raw.offsets, entries))
  {
    if pos == |data| then Success(Read([], pos))
    else
      var raw :- ReadRawSection(data, pos, format);
      var section := raw.value;
      var table :- SplitWithThreshold(section.blob, CountPresent(section.offsets));
      var emitted :- EmitExtended(section.flags, section.numbers, section.offsets, section.names, table.entries, table.split);
      Success(Read(emitted.records, raw.next))
  }
}
