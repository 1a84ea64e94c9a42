/** The legacy sections of a compiled terminfo file (TerminfoParser.cs,
    `ReadBooleanCapabilities`, `ReadNumberCapabilities`,
    `ReadStringCapabilities`): fixed-count slot arrays whose slot `j` is named
    by entry `j` of the matching registry. Suppressed slots (false or absent
    booleans, -1 and -2 numbers and string offsets) produce nothing.

    Each decoder is related to a reference: the raw slot array read by
    `Slots`, turned into optional values slot by slot, then named by
    `Named`. */
module LegacySections {
  import opened Wrappers
  import opened Bytes
  import opened Ascii
  import opened Errors
  import opened Reader
  import opened Slots
  import opened StringTable
  import opened Capabilities

  /** The reference emission of a legacy section: every slot `j` holding a
      value becomes a capability with the id and friendly name of registry
      entry `j`, in slot order. */
  function Named(registry: seq<CapabilityName>, values: seq<Option<Value>>): seq<Capability>
    requires |values| <= |registry|
  {
    if |values| == 0 then []
    else
      var head := if values[0].Some? then [Capability(registry[0].id, registry[0].friendlyName, values[0].value)] else [];
      head + Named(registry[1..], values[1..])
  }

  /** Only a true boolean slot carries a value. */
  function BooleanValues(flags: seq<Option<bool>>): (vs: seq<Option<Value>>)
    ensures |vs| == |flags|
  {
    if |flags| == 0 then []
    else [if flags[0] == Some(true) then Some(Bool(true)) else None] + BooleanValues(flags[1..])
  }

  /** Every number slot but a sentinel carries its value, 0 included. */
  function NumberValues(numbers: seq<int>): (vs: seq<Option<Value>>)
    ensures |vs| == |numbers|
  {
    if |numbers| == 0 then []
    else [if IsSentinel(numbers[0]) then None else Some(Num(numbers[0]))] + NumberValues(numbers[1..])
  }

  /** Every string slot but a sentinel carries the decoded table entry at
      its offset. */
  function StringValues(offsets: seq<int>, table: Entries): (vs: seq<Option<Value>>)
    ensures |vs| == |offsets|
  {
    if |offsets| == 0 then []
    else
      var o := offsets[0];
      [if IsSentinel(o) || o !in table then None else Some(Str(Decode(table[o])))] + StringValues(offsets[1..], table)
  }

  /** The number of iterations of `for (int i = 0; i < count; i++)`. */
  function Clamp(count: int): nat {
    if count < 0 then 0 else count
  }

  /** True when every registry entry can be turned into a capability. */
  predicate ValidRegistry(registry: seq<CapabilityName>) {
    forall j :: 0 <= j < |registry| ==> ValidName(registry[j])
  }

  /** The slot loop of `ReadBooleanCapabilities` over the `n` remaining
      slots, named by the remaining registry entries. */
  function BooleanLoop(data: seq<byte>, pos: nat, n: nat, registry: seq<CapabilityName>): (r: Result<Read<seq<Capability>>, Error>)
    requires n <= |registry|
    decreases n
    ensures r.Success? ==>
      var slots := ReadBooleanSlots(data, pos, n);
      && slots.Success?
      && r.value.next == slots.value.next
      && r.value.value == Named(registry, BooleanValues(slots.value.value))
    ensures ReadBooleanSlots(data, pos, n).Success? && ValidRegistry(registry) ==> r.Success?
  {
    if n == 0 then Success(Read([], pos))
    else
      var flag :- ReadBooleanCapability(data, pos);
      if flag.value != Some(true) then
        BooleanLoop(data, flag.next, n - 1, registry[1..])
      else
        var name := registry[0];
        var cap :- New(Some(name.id), Some(name.friendlyName), Bool(true));
        var rest :- BooleanLoop(data, flag.next, n - 1, registry[1..]);
        Success(Read([cap] + rest.value, rest.next))
  }

  /** `ReadBooleanCapabilities`: a count above the registry length fails;
      otherwise one byte per slot, and each true slot yields a capability
      named by its registry entry. */
  function ReadBooleanCapabilities(data: seq<byte>, pos: nat, count: int, registry: seq<CapabilityName>): (r: Result<Read<seq<Capability>>, Error>)
    ensures count > |registry| ==> r == Failure(TooManyCapabilities(BooleanSection, count, |registry|))
    ensures r.Success? ==>
      var slots := ReadBooleanSlots(data, pos, Clamp(count));
      && count <= |registry|
      && slots.Success?
      && r.value.next == slots.value.next
      && r.value.value == Named(registry, BooleanValues(slots.value.value))
    ensures count <= |registry| && ReadBooleanSlots(data, pos, Clamp(count)).Success? && ValidRegistry(registry) ==>
      r.Success?
  {
    if count > |registry| then Failure(TooManyCapabilities(BooleanSection, count, |registry|))
    else BooleanLoop(data, pos, Clamp(count), registry)
  }

  /** The slot loop of `ReadNumberCapabilities` over the `n` remaining
      slots. */
  function NumberLoop(data: seq<byte>, pos: nat, n: nat, format: Format, registry: seq<CapabilityName>): (r: Result<Read<seq<Capability>>, Error>)
    requires n <= |registry|
    decreases n
    ensures r.Success? ==>
      var slots := ReadWords(data, pos, n, Width(format));
      && slots.Success?
      && r.value.next == slots.value.next
      && r.value.value == Named(registry, NumberValues(slots.value.value))
    ensures ReadWords(data, pos, n, Width(format)).Success? && ValidRegistry(registry) ==> r.Success?
  {
    if n == 0 then Success(Read([], pos))
    else
      ReadWordsStep(data, pos, n, Width(format));
      assert ReadNumberCapability(data, pos, format) == ReadWord(data, pos, Width(format));
      var number :- ReadNumberCapability(data, pos, format);
      if IsSentinel(number.value) then
        NumberLoop(data, number.next, n - 1, format, registry[1..])
      else
        var name := registry[0];
        var cap :- New(Some(name.id), Some(name.friendlyName), Num(number.value));
        var rest :- NumberLoop(data, number.next, n - 1, format, registry[1..]);
        Success(Read([cap] + rest.value, rest.next))
  }

  /** `ReadNumberCapabilities`: a count above the registry length fails;
      otherwise one 2- or 4-byte signed word per slot (by format), and every
      slot but a sentinel yields a capability named by its registry entry. */
  function ReadNumberCapabilities(data: seq<byte>, pos: nat, count: int, format: Format, registry: seq<CapabilityName>): (r: Result<Read<seq<Capability>>, Error>)
    ensures count > |registry| ==> r == Failure(TooManyCapabilities(NumberSection, count, |registry|))
    ensures r.Success? ==>
      var slots := ReadWords(data, pos, Clamp(count), Width(format));
      && count <= |registry|
      && slots.Success?
      && r.value.next == slots.value.next
      && r.value.value == Named(registry, NumberValues(slots.value.value))
    ensures count <= |registry| && ReadWords(data, pos, Clamp(count), Width(format)).Success? && ValidRegistry(registry) ==>
      r.Success?
  {
    if count > |registry| then Failure(TooManyCapabilities(NumberSection, count, |registry|))
    else NumberLoop(data, pos, Clamp(count), format, registry)
  }

  /** The emission loop of `ReadStringCapabilities`: each offset that is not
      a sentinel must be a table key, and its entry, decoded as ASCII, is
      the value of a capability named by the registry entry of its slot. */
  function EmitStrings(offsets: seq<int>, table: Entries, registry: seq<CapabilityName>): (r: Result<seq<Capability>, Error>)
    requires |offsets| <= |registry|
    ensures r.Success? ==> forall j :: 0 <= j < |offsets| && !IsSentinel(offsets[j]) ==> offsets[j] in table
    ensures r.Success? ==> r.value == Named(registry, StringValues(offsets, table))
    ensures (forall j :: 0 <= j < |offsets| && !IsSentinel(offsets[j]) ==> offsets[j] in table) && ValidRegistry(registry) ==>
      r.Success?
  {
    if |offsets| == 0 then Success([])
    else
      assert forall j :: 1 <= j < |offsets| ==> offsets[1..][j - 1] == offsets[j];
      if IsSentinel(offsets[0]) then EmitStrings(offsets[1..], table, registry[1..])
      else
        var name := registry[0];
        var bytes :- Lookup(table, offsets[0]);
        var cap :- New(Some(name.id), Some(name.friendlyName), Str(Decode(bytes)));
        var rest :- EmitStrings(offsets[1..], table, registry[1..]);
        Success([cap] + rest)
  }

  /** `ReadStringCapabilities`: a count above the registry length or a
      negative count fails; otherwise the 2-byte offsets, then the string
      table of `tableSize` bytes, then one capability per offset that is not
      a sentinel. */
  function ReadStringCapabilities(data: seq<byte>, pos: nat, count: int, tableSize: int, registry: seq<CapabilityName>): (r: Result<Read<seq<Capability>>, Error>)
    ensures count > |registry| ==> r == Failure(TooManyCapabilities(StringSection, count, |registry|))
    ensures count <= |registry| && count < 0 ==> r == Failure(NegativeLength(count))
    ensures r.Success? ==>
      && 0 <= count <= |registry|
      && tableSize >= 0
      && var offsets := ReadWords(data, pos, count, 2);
      && offsets.Success?
      && var blob := ReadBytes(data, offsets.value.next, tableSize).value;
      && Terminated(blob.value)
      && r.value.next == blob.next
      && (forall j :: 0 <= j < count && !IsSentinel(offsets.value.value[j]) ==> IsStart(blob.value, offsets.value.value[j]))
      && r.value.value == Named(registry, StringValues(offsets.value.value, Split(blob.value).value))
  {
    if count > |registry| then Failure(TooManyCapabilities(StringSection, count, |registry|))
    else if count < 0 then Failure(NegativeLength(count))
    else
      var offsets :- ReadWords(data, pos, count, 2);
      var blob :- ReadBytes(data, offsets.next, tableSize);
      var table :- Split(blob.value);
      var caps :- EmitStrings(offsets.value, table, registry);
      Success(Read(caps, blob.next))
  }

  /** The converse of the success clause of `ReadStringCapabilities`: a
      count within the registry, a non-negative table size, offsets that
      read back, a terminated table and non-sentinel offsets that all point
      at string starts are enough for the section to decode. */
  lemma StringSectionSucceeds(data: seq<byte>, pos: nat, count: int, tableSize: int, registry: seq<CapabilityName>)
    requires 0 <= count <= |registry| && tableSize >= 0 && ValidRegistry(registry)
    requires ReadWords(data, pos, count, 2).Success?
    requires
      var offsets := ReadWords(data, pos, count, 2).value;
      var blob := ReadBytes(data, offsets.next, tableSize).value.value;
      && Terminated(blob)
      && forall j :: 0 <= j < count && !IsSentinel(offsets.value[j]) ==> IsStart(blob, offsets.value[j])
    ensures ReadStringCapabilities(data, pos, count, tableSize, registry).Success?
  {
    var offsets := ReadWords(data, pos, count, 2).value;
    var blob := ReadBytes(data, offsets.next, tableSize).value.value;
    var table := Split(blob).value;
    assert forall j :: 0 <= j < count && !IsSentinel(offsets.value[j]) ==> offsets.value[j] in table;
    assert EmitStrings(offsets.value, table, registry).Success?;
  }
}
