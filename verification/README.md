# Compiled terminfo decoder — a Dafny model

This project models the decoder for compiled terminfo files in Owl-Domain/Console, together with the two value types it produces. It proves properties of the model.

- **`TerminfoParser.Parse`.** It reads a byte stream in four stages:
  - the legacy header (a format tag, then five counts);
  - the name section, which is skipped;
  - the legacy boolean, number and string sections, with alignment padding;
  - an optional extended section, whose capability names live in its own string table.

  The capabilities it decodes go into an id-keyed collection.
- **`TerminalCapability<T>`.** It validates the id and the friendly name. A missing friendly name defaults to the id.
- **`TerminalCapabilityInfo`.** It builds a dictionary from a list of capabilities, keyed by id. A repeated id fails.

How the model represents the program:

- **The stream** is a `seq<byte>` with a `nat` cursor. Each read returns the value and the cursor after it.
- **Exceptions** become a `Failure` carrying an `Errors.Error`. The `:-` operator propagates a failure exactly as the exception would abort the parse.
- **The three capability-name registries** (`BooleanCapabilities`, `NumberCapabilities`, `StringCapabilities`) are parameters of type `seq<CapabilityName>`.
- **The generic value `T`** becomes `Bool | Num | Str`.

Every decoding function is paired with an independent reference:

- **Slot arrays.** `Slots.Words` and `Slots.Flags` read a byte run slot by slot.
- **Legacy sections.** `LegacySections.Named` names slot `j` by registry entry `j`.
- **String table.** `StringTable.IsStart`, `Run` and `SplitAfter` describe the table directly from the blob.
- **Extended section.** `ExtendedSection.Lockstep` states the name/value pairing: the `k`-th surviving value is named by the `k`-th name index.
- **Whole files.** A file is described abstractly as a `Layout.TermFile`. `Layout.LaidOut` says where each part sits in the data. `Encoder.Encode` produces such data, and `Layout.Expected` is what the file holds. `Layout.DecodeLaidOut` and `Encoder.DecodeEncode` prove two things:
  - the decoder returns exactly `Expected`;
  - the decoder stops at the end of the data. This is the property the repository's test checks: after parsing a valid file, the stream position equals its length.

Module layout, one file each:

| Module | File | What it holds |
|---|---|---|
| `Wrappers` | `wrappers.dfy` | `Option` and `Result` |
| `Bytes` | `bytes.dfy` | little-endian two's-complement values, with round trips |
| `Ascii` | `ascii.dfy` | ASCII decoding and white space |
| `Errors` | `errors.dfy` | the `Error` datatype |
| `Reader` | `reader.dfy` | the primitive reads and `AlignEven` |
| `ByteOrder` | `byte_order.dfy` | host byte order and `Reverse` |
| `Slots` | `slots.dfy` | runs of slot reads |
| `StringTable` | `string_table.dfy` | both `ReadStringTable` overloads |
| `Capabilities` | `capability.dfy` | `TerminalCapability<T>` |
| `CapabilityInfo` | `capability_info.dfy` | `TerminalCapabilityInfo` |
| `LegacySections` | `legacy.dfy` | the three legacy sections |
| `ExtendedSection` | `extended.dfy` | the extended section |
| `TerminfoParser` | `parser.dfy` | the header and `Parse` |
| `Layout` | `layout.dfy` | where each part of a file sits, and the decode-of-layout theorem |
| `Encoder` | `encoder.dfy` | a reference encoder and the round trip |
| `Scenarios` | `scenarios.dfy` | small concrete files |

Behaviour of the code worth noting:

- **A one-boolean file needs a pad byte.** The code runs `AlignEven` before the number section even when there are no numbers. A header declaring one boolean, followed by that boolean byte and nothing else, is 13 bytes long, and it fails at offset 13 (`Scenarios.OneBooleanUnpadded`). With the pad byte it is 14 bytes and decodes to one boolean capability (`Scenarios.OneBoolean`).
- **Extended capabilities do have a friendly name.** They are built with a null friendly name, which the constructor replaces by the id. So their friendly name equals their id (`ExtendedSection.LockstepAt`).
- **Table strings are decoded as ASCII.** They go through `Encoding.ASCII`, so a byte of 128 or more becomes `'?'` (`Ascii.Decode`). Ids are checked for white space on those characters.
- **Fewer than ten stray bytes after the legacy sections fail the decode.** Any bytes left after the string table are read as an extended section, and fewer than ten cannot hold its header. The exact error depends on where those bytes start: a missing or non-zero pad, or a truncated extended header. `Scenarios.StrayBytes` states only that decoding fails. Longer runs are decoded as an extended section and fail only if they do not form a valid one; ten zero bytes at an even offset, for instance, are an empty extended section.
- **The collection is not ordered.** It is a `Dictionary`, so its enumeration order is not promised. The model states the collection's contents, not its order.

## Model

All source paths are relative to the repository root. `TerminfoParser.cs` is `src/capabilities/Capabilities/Terminfo/TerminfoParser.cs`.

| member | source | states |
|---|---|---|
| Reader.AlignEven | src/capabilities/Capabilities/Terminfo/TerminfoParser.cs:307-317 | one byte is consumed exactly when the offset is odd; that byte must exist (else `Truncated`) and be zero (else `NonZeroPadding`); the resulting offset is the even `Aligned(pos)` |
| Reader.ReadShort | src/capabilities/Capabilities/Terminfo/TerminfoParser.cs:262-273 | succeeds exactly when the pad (if any) is zero and two bytes follow the aligned offset; the value is the signed little-endian reading of those two bytes and the cursor ends 2 bytes after the aligned offset |
| Reader.ReadInt | src/capabilities/Capabilities/Terminfo/TerminfoParser.cs:274-286 | the same for four bytes and a 32-bit value |
| Reader.ToInt16 | src/capabilities/Capabilities/Terminfo/TerminfoParser.cs:270 | the `BitConverter.ToInt16` arithmetic equals the reference two's-complement reading `SignedLE` |
| Reader.ToInt32 | src/capabilities/Capabilities/Terminfo/TerminfoParser.cs:283 | the `BitConverter.ToInt32` arithmetic equals `SignedLE` on four bytes |
| Reader.Skip | src/capabilities/Capabilities/Terminfo/TerminfoParser.cs:34-35 | skipping the name section succeeds exactly when the new position is not negative, and it may lie past the end of the stream |
| Reader.ReadFormat | src/capabilities/Capabilities/Terminfo/TerminfoParser.cs:252-261 | succeeds exactly when the first short is 282 or 542, and the format's tag is that short; any other short fails with `UnknownFormat` carrying it |
| Reader.FormatTagRoundTrip | src/capabilities/Capabilities/Terminfo/TerminfoParser.cs:11-15 | for every 16-bit value written as a tag: it is accepted exactly when it is 282 or 542, 542 selects 4-byte numbers and 282 selects 2-byte numbers, and any other value is reported back in the error |
| Reader.ReadBooleanCapability | src/capabilities/Capabilities/Terminfo/TerminfoParser.cs:287-299 | succeeds exactly when a byte is present and is 0, 1 or 254, giving false, true or absent and advancing one byte; any other byte fails with `InvalidBoolean` |
| Reader.FlagRoundTrip | src/capabilities/Capabilities/Terminfo/TerminfoParser.cs:291-296 | every boolean slot value, written as its byte, reads back as itself |
| Reader.ReadNumberCapability | src/capabilities/Capabilities/Terminfo/TerminfoParser.cs:300-306 | a number slot is 4 bytes wide in the extended format and 2 bytes in the legacy one, with the same alignment and little-endian reading |
| ByteOrder.ReverseAsWrittenThrows | src/capabilities/Capabilities/Terminfo/TerminfoParser.cs:318-322 | as written, `Reverse` indexes one past the end on its first swap for every array of two or more bytes |
| ByteOrder.ReverseAsWrittenCounterexample | src/capabilities/Capabilities/Terminfo/TerminfoParser.cs:318-322 | the two-byte word `[1, 2]` fails instead of becoming `[2, 1]` |
| ByteOrder.ReverseCorrect | src/capabilities/Capabilities/Terminfo/TerminfoParser.cs:318-322 | the corrected swap loop yields the reference reversal of every array |
| ByteOrder.HostIndependent | src/capabilities/Capabilities/Terminfo/TerminfoParser.cs:266-270 | with the corrected `Reverse`, the word read on a big-endian host equals the little-endian reading, so the value never depends on the host |
| Slots.ReadBooleanSlots | src/capabilities/Capabilities/Terminfo/TerminfoParser.cs:130-134 | `n` boolean reads succeed exactly when `n` bytes remain and all are flag bytes; they yield the reference `Flags` of those bytes and advance `n` bytes |
| Slots.FlagsPointwise | src/capabilities/Capabilities/Terminfo/TerminfoParser.cs:287-298 | the slot-by-slot reference accepts a run exactly when every byte is 0, 1 or 254, and slot `j` stores byte `j` |
| Slots.FlagsRoundTrip | src/capabilities/Capabilities/Terminfo/TerminfoParser.cs:287-298 | boolean slots written as bytes read back as themselves |
| Slots.ReadWords | src/capabilities/Capabilities/Terminfo/TerminfoParser.cs:136-156 | `n` word reads succeed exactly when the first read's pad is zero and `n` words fit after the aligned offset; only the first read can pad, and the values are the reference `Words` of the bytes read |
| Slots.ReadWordsStep | src/capabilities/Capabilities/Terminfo/TerminfoParser.cs:89-93 | a run of `n` reads is one `ReadShort`/`ReadInt` followed by the remaining `n - 1` reads, in success and in value |
| StringTable.Split | src/capabilities/Capabilities/Terminfo/TerminfoParser.cs:232-251 | succeeds exactly when the blob is empty or ends in a zero; the keys are exactly the start offsets (0 and every offset after a zero, below the size); each value is the run up to the next zero; there is one entry per terminator; failure is `UnterminatedString` |
| StringTable.SplitFromShape | src/capabilities/Capabilities/Terminfo/TerminfoParser.cs:237-248 | the scan from any string start builds one entry per start from there on, each holding its run, and as many entries as terminators from there on |
| StringTable.SplitWithThreshold | src/capabilities/Capabilities/Terminfo/TerminfoParser.cs:208-231 | the same entries as the plain overload; the threshold offset is just after the `threshold`-th terminator, or 0 when `threshold` is below 1 or exceeds the number of strings |
| StringTable.SplitPointIsSplitAfter | src/capabilities/Capabilities/Terminfo/TerminfoParser.cs:226-227 | the split-point property pins the threshold offset down to the reference `SplitAfter` |
| StringTable.Lookup | src/capabilities/Capabilities/Terminfo/TerminfoParser.cs:104 | `table[key]` (also at lines 169 and 199) succeeds exactly when `key` is a key of the table, and otherwise fails with `MissingString` naming the key |
| StringTable.LookupInSplit | src/capabilities/Capabilities/Terminfo/TerminfoParser.cs:104 | `table[offset]` on a decoded table succeeds exactly at string starts, and yields the bytes up to the next zero, which lies inside the blob |
| Ascii.Decode | src/capabilities/Capabilities/Terminfo/TerminfoParser.cs:244 | `Encoding.ASCII.GetString` keeps the length and maps each byte below 128 to itself and every other byte to `'?'` |
| Ascii.IsEmptyOrWhiteSpace | src/capabilities/Capabilities/TerminalCapability.cs:58-59 | the left-to-right blank test is true exactly when the text has no character that is not white space |
| Capabilities.New | src/capabilities/Capabilities/TerminalCapability.cs:56-64 | the factory (line 22) and the constructor succeed exactly when the id is non-null and not blank and a non-null friendly name is not blank; the id is checked first; id and value are stored unchanged; the friendly name is the given one, or the id when none is given |
| CapabilityInfo.Count | src/capabilities/Capabilities/TerminalCapabilityInfo.cs:16 | `Count` is zero exactly when `ContainsKey` holds for no id |
| CapabilityInfo.ContainsKey | src/capabilities/Capabilities/TerminalCapabilityInfo.cs:45 | a collection that contains some id is not empty; which ids a collection built from a list contains is stated by `CapabilityInfo.FromListLookup` |
| CapabilityInfo.TryGetValue | src/capabilities/Capabilities/TerminalCapabilityInfo.cs:48 | `TryGetValue` finds a capability exactly for the ids `ContainsKey` reports, and it is the one stored under that id |
| CapabilityInfo.Get | src/capabilities/Capabilities/TerminalCapabilityInfo.cs:27 | the indexer succeeds exactly for the ids `ContainsKey` reports and then agrees with `TryGetValue`; any other id fails with `MissingKey` |
| CapabilityInfo.Empty | src/capabilities/Capabilities/TerminalCapabilityInfo.cs:32 | the empty collection has `Count` 0 and contains no key |
| CapabilityInfo.AddAll | src/capabilities/Capabilities/TerminalCapabilityInfo.cs:38-39 | adding each capability in turn succeeds exactly when the ids are distinct and new; it adds exactly those ids, keeps earlier entries, stores each capability under its id, and otherwise fails with `DuplicateId` |
| CapabilityInfo.FromList | src/capabilities/Capabilities/TerminalCapabilityInfo.cs:36-40 | building from a list succeeds exactly when the ids are distinct; `Count` is the list length; the keys are exactly the listed ids, each mapped to its capability; a repeated id fails with `DuplicateId` |
| CapabilityInfo.FromListLookup | src/capabilities/Capabilities/TerminalCapabilityInfo.cs:27-48 | after building, `ContainsKey` and `TryGetValue` succeed exactly for the listed ids, and `TryGetValue` and the indexer return the listed capability; the indexer fails with `MissingKey` on any other id |
| LegacySections.BooleanLoop | src/capabilities/Capabilities/Terminfo/TerminfoParser.cs:53-63 | the slot loop succeeds whenever the slots read and the registry entries are valid; it yields one capability per true slot `j`, named by registry entry `j`, in slot order |
| LegacySections.ReadBooleanCapabilities | src/capabilities/Capabilities/Terminfo/TerminfoParser.cs:48-64 | a count above the registry length fails with `TooManyCapabilities`; otherwise the section yields the true slots named by their registry entries, and ends after the slot bytes |
| LegacySections.NumberLoop | src/capabilities/Capabilities/Terminfo/TerminfoParser.cs:70-80 | the slot loop yields one capability per number slot that is not -1 or -2 (0 included), named by its registry entry |
| LegacySections.ReadNumberCapabilities | src/capabilities/Capabilities/Terminfo/TerminfoParser.cs:65-81 | a count above the registry length fails; otherwise it yields the non-sentinel numbers in the format's width, named by their registry entries |
| LegacySections.EmitStrings | src/capabilities/Capabilities/Terminfo/TerminfoParser.cs:96-108 | the emission loop succeeds exactly when every non-sentinel offset is a table key (given valid registry entries); it yields the ASCII-decoded entries named by their registry entries |
| LegacySections.ReadStringCapabilities | src/capabilities/Capabilities/Terminfo/TerminfoParser.cs:82-109 | a count above the registry length fails first, then a negative count; on success the offsets read as shorts, the table bytes are terminated, every non-sentinel offset is a string start, and the result names the strings they point at |
| LegacySections.StringSectionSucceeds | src/capabilities/Capabilities/Terminfo/TerminfoParser.cs:82-109 | conversely, readable offsets, a terminated table and non-sentinel offsets that point at string starts are enough for the section to decode |
| ExtendedSection.ReadExtendedHeader | src/capabilities/Capabilities/Terminfo/TerminfoParser.cs:116-120 | the extended header is five consecutive shorts, read from the aligned offset |
| ExtendedSection.ReadSlotArrays | src/capabilities/Capabilities/Terminfo/TerminfoParser.cs:121-156 | the four loops succeed exactly when every run fits (`SlotRunsFit`): the boolean bytes are flag bytes, and each word run, starting where the previous one ends, has a zero pad where it needs one and all of its words; each array then holds what the bytes of its run store (`Flags`, `Words`), with the declared length, the name-index array has `booleanCount + numberCount + stringCount` entries, and the cursor ends after the name indices |
| Slots.ReadRuns | src/capabilities/Capabilities/Terminfo/TerminfoParser.cs:136-156 | three word runs read one after another succeed exactly when each fits where the previous one ends, and hold the reference `Words` of their bytes |
| ExtendedSection.ReadRawSection | src/capabilities/Capabilities/Terminfo/TerminfoParser.cs:115-158 | a negative boolean, number or string count fails in that order before any slot is read; the section reads exactly when the header reads, no count is negative, every slot run fits after the header and `tableSize` is not negative (`RawSectionFits`); the arrays then hold what their runs store, and the table is the next `min(tableSize, remaining)` bytes after the runs, where the section ends (`RawSectionStored`) |
| ExtendedSection.LockstepAppend | src/capabilities/Capabilities/Terminfo/TerminfoParser.cs:161-203 | pairing values with names over a concatenation continues at the first unused name index, which is why the three loops can share one cursor |
| ExtendedSection.LockstepAt | src/capabilities/Capabilities/Terminfo/TerminfoParser.cs:168-171 | the `k`-th extended capability has the `k`-th surviving value and the id found through the `k`-th name index, and its friendly name equals its id |
| ExtendedSection.NamesResolveAll | src/capabilities/Capabilities/Terminfo/TerminfoParser.cs:168-169 | checking names in cursor order agrees with checking every name index position by position |
| ExtendedSection.PendingMatches | src/capabilities/Capabilities/Terminfo/TerminfoParser.cs:161-203 | the walk over boolean, then number, then string slots meets exactly the survivors in that order, and fails to resolve exactly when a string offset is not a key |
| ExtendedSection.Emit | src/capabilities/Capabilities/Terminfo/TerminfoParser.cs:162-203 | the emission walk advances the name cursor once per emitted capability, yields the lock-step pairing, and succeeds exactly when every name used and every string value resolves |
| ExtendedSection.EmitExtended | src/capabilities/Capabilities/Terminfo/TerminfoParser.cs:160-203 | after the three loops the cursor equals the number of capabilities emitted; these are the survivors paired in lock step with the name indices from 0 |
| ExtendedSection.ReadExtendedCapabilities | src/capabilities/Capabilities/Terminfo/TerminfoParser.cs:110-204 | at the end of the stream nothing is read and nothing emitted; otherwise it succeeds exactly when the raw section reads, its table is terminated, and all names and string values resolve; the threshold is the number of non-sentinel string offsets, and the result is the lock-step pairing; the stream is left where the raw section's table read stopped |
| TerminfoParser.ReadHeader | src/capabilities/Capabilities/Terminfo/TerminfoParser.cs:26-32 | succeeds exactly when 12 bytes are present and the tag is 282 or 542, and then holds the tag and five shorts of the first 12 bytes; an unknown tag is reported even in a file too short for the rest of the header |
| TerminfoParser.Decode | src/capabilities/Capabilities/Terminfo/TerminfoParser.cs:22-41 | a header failure is the decode's failure, and a successful decode never ends past the data |
| TerminfoParser.Parse | src/capabilities/Capabilities/Terminfo/TerminfoParser.cs:22-44 | succeeds exactly when decoding succeeds with distinct ids; the collection then counts every decoded capability and returns each under its id; a decoding failure is passed on |
| Layout.HeaderRead | src/capabilities/Capabilities/Terminfo/TerminfoParser.cs:27-32 | a stored legacy header reads back as the header of the file |
| Layout.BooleansRead | src/capabilities/Capabilities/Terminfo/TerminfoParser.cs:37 | stored boolean slots decode to the named true slots and end after them |
| Layout.NumbersRead | src/capabilities/Capabilities/Terminfo/TerminfoParser.cs:39 | stored number slots decode to the named non-sentinel numbers and end after the run |
| Layout.StringsRead | src/capabilities/Capabilities/Terminfo/TerminfoParser.cs:40 | stored offsets and table decode to the named strings and end after the table |
| Layout.SlotArraysAt | src/capabilities/Capabilities/Terminfo/TerminfoParser.cs:129-156 | slot arrays stored one run after another read back as themselves, and the cursor ends after the name indices |
| Layout.ExtensionRead | src/capabilities/Capabilities/Terminfo/TerminfoParser.cs:41 | a stored, well-formed extended section decodes to its survivors paired in lock step, and ends at the section's end |
| Layout.DecodeLaidOut | src/capabilities/Capabilities/Terminfo/TerminfoParser.cs:22-44 | data holding a well-formed file decodes to the file's legacy booleans, numbers and strings, then its extended capabilities, and the cursor ends at the end of the data |
| Layout.ParseLaidOut | src/capabilities/Capabilities/Terminfo/TerminfoParser.cs:22-44 | parsing such data succeeds exactly when those capabilities have distinct ids, and the collection then holds each under its id |
| Encoder.WordsOfEncoded | src/capabilities/Capabilities/Terminfo/TerminfoParser.cs:262-286 | words written little-endian read back as themselves |
| Encoder.EncodeLaidOut | src/capabilities/Capabilities/Terminfo/TerminfoParser.cs:22-41 | the reference encoding puts every part of a file where `Parse` looks for it, pad bytes included |
| Encoder.DecodeEncode | src/capabilities/Capabilities.Tests/Terminfo/TerminfoParserTests.cs:19-21 | decoding an encoded well-formed file succeeds, gives back what the file holds, and consumes the whole stream |
| Encoder.ParseEncode | src/capabilities/Capabilities.Tests/Terminfo/TerminfoParserTests.cs:16-21 | parsing an encoded well-formed file raises no error exactly when its capabilities have distinct ids |
| Scenarios.OneBoolean | src/capabilities/Capabilities/Terminfo/TerminfoParser.cs:37-38 | header, one boolean byte and the pad (14 bytes) decode to one capability named by boolean registry entry 0 when the byte is 1, and to nothing when it is 0 or 254 |
| Scenarios.OneNumber | src/capabilities/Capabilities/Terminfo/TerminfoParser.cs:72-74 | one legacy number slot decodes to nothing for -1 or -2 (bytes `FF FF` or `FE FF`) and otherwise to one capability named by number registry entry 0 |
| Scenarios.MissingPad | src/capabilities/Capabilities/Terminfo/TerminfoParser.cs:38 | data that stops at an odd offset right after the boolean bytes fails at that offset, even when no numbers are declared |
| Scenarios.OneBooleanUnpadded | src/capabilities/Capabilities/Terminfo/TerminfoParser.cs:307-317 | the 13-byte file of one boolean without its pad fails with `Truncated(13)` |
| Scenarios.StrayBytes | src/capabilities/Capabilities/Terminfo/TerminfoParser.cs:112-120 | one to nine bytes after the legacy sections are not ignored: decoding fails |
| Scenarios.OneTrueExtendedBoolean | src/capabilities/Capabilities/Terminfo/TerminfoParser.cs:161-173 | an extended section whose only survivor is one true boolean uses exactly name index 0 and emits one capability named through it |

## Left out

- The I/O stream. `BinaryReader` and `Stream` are replaced by a byte sequence and a cursor. A read past the end is `Truncated`; `ReadBytes` returns fewer bytes near the end, as `BinaryReader.ReadBytes` does.
- The contents of the three registries. They are defined in a partial-class file that is not part of this model, so they are parameters.
- `stackalloc` versus heap buffers. This is an allocation detail; every buffer is a sequence. A negative length fails with `NegativeLength`, as the allocation would throw.
- Exception types and messages. Each failure kind is one `Error` variant carrying the offending value.
- Dictionary enumeration order, `Keys`, `Values` and `GetEnumerator` of `TerminalCapabilityInfo`. .NET does not specify the order.
- `DebuggerDisplay` helpers and the interface-only files `ITerminalCapability.cs` and `ITerminalCapabilityInfo.cs`. They hold no logic.
- The test's enumeration of files on disk and `File.OpenRead`. The test's promise is stated as `Encoder.DecodeEncode` over every well-formed file.
- The generic `T` of `TerminalCapability<T>`. It is the sum type `Value` (`Bool`, `Num`, `Str`).
- TerminfoParser.Decode: its own contract says only how header failures propagate and where the cursor ends. What a decode yields is stated by `Layout.DecodeLaidOut` for all laid-out files rather than on the function.
- Encoder.EncodeLaidOut: the encoder covers only files whose counts fit the header's shorts and whose numbers fit the format's width (`Encodable`). Files the header cannot describe are not encodable.

## Findings

| source | as written | input that shows it | evidently intended | confidence | as-written member | corrected member |
|---|---|---|---|---|---|---|
| src/capabilities/Capabilities/Terminfo/TerminfoParser.cs:318-322 | `Reverse` swaps `values[i]` with `values[^i]`; for `i = 0` that is index `Length`, out of range, so `ReadShort`/`ReadInt` throw on every big-endian host | the two bytes of any short, e.g. `[0x01, 0x02]`, on a big-endian host | swap `values[i]` with `values[^(i + 1)]`, which reverses the array, so the value read is the little-endian reading on every host | not executed; high | ByteOrder.ReverseAsWrittenThrows | ByteOrder.ReverseCorrect |

The readers of the model (`Reader.ReadShort`, `Reader.ReadInt`) decode little-endian on every host. `ByteOrder.HostIndependent` proves that this is what the corrected `Reverse` gives on a big-endian host.
