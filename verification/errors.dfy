/** The failures that abort a parse: one variant per exception the decoder
    or the capability containers can throw. */
module Errors {
  import opened Bytes
  import opened Ascii

  /** The three legacy capability sections. */
  datatype Section = BooleanSection | NumberSection | StringSection

  datatype Error =
    /** The format tag is neither of the two known magic numbers. */
    | UnknownFormat(tag: int)
    /** The byte skipped to reach an even offset is not zero. */
    | NonZeroPadding(offset: nat)
    /** A read needed bytes beyond the end of the stream. */
    | Truncated(offset: nat)
    /** A boolean slot holds a byte other than 0, 1 or 254. */
    | InvalidBoolean(value: byte)
    /** A header count exceeds the number of known capability names. */
    | TooManyCapabilities(section: Section, count: int, known: nat)
    /** A negative array length or byte count. */
    | NegativeLength(length: int)
    /** Skipping the name section would move the stream before its start. */
    | NegativePosition(position: int)
    /** A string-table entry has no zero terminator. */
    | UnterminatedString(offset: nat)
    /** A string offset that is not the start of a table entry. */
    | MissingString(key: int)
    /** A capability id that is null, empty or white space. */
    | InvalidId
    /** A friendly name that is empty or white space. */
    | InvalidFriendlyName
    /** Two capabilities with the same id in one collection. */
    | DuplicateId(id: Text)
    /** The indexer was given an id the collection does not hold. */
    | MissingKey(id: Text)
    /** An array index outside the array. */
    | IndexOutOfRange(index: int)
}
