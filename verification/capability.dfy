/** A single terminal capability (TerminalCapability.cs): an id, a friendly
    name that defaults to the id, and a typed value. */
module Capabilities {
  import opened Wrappers
  import opened Ascii
  import opened Errors

  /** The value of a capability; the three cases stand for the three
      instantiations of the generic `T` the parser uses. */
  datatype Value = Bool(b: bool) | Num(n: int) | Str(s: Text)

  /** A constructed `TerminalCapability<T>`. Its friendly name is never null
      once constructed. */
  datatype Capability = Capability(id: Text, friendlyName: Text, value: Value)

  /** An entry of a capability-name registry; its position is its index in
      the registry sequence. */
  datatype CapabilityName = CapabilityName(id: Text, friendlyName: Text)

  /** True when a registry entry can be turned into a capability. */
  predicate ValidName(name: CapabilityName) {
    HasContent(name.id) && HasContent(name.friendlyName)
  }

  /** `TerminalCapability.New`, which calls the `TerminalCapability<T>`
      constructor: the id must be non-null and not blank, a non-null friendly
      name must not be blank, and a null friendly name is replaced by the
      id. The id check comes first. */
  function New(id: Option<Text>, friendlyName: Option<Text>, value: Value): (r: Result<Capability, Error>)
    ensures r.Success? <==>
      id.Some? && HasContent(id.value) && (friendlyName.Some? ==> HasContent(friendlyName.value))
    ensures r.Success? ==> r.value.id == id.value && r.value.value == value
    ensures r.Success? ==>
      r.value.friendlyName == (if friendlyName.Some? then friendlyName.value else id.value)
    ensures id.None? || !HasContent(id.value) ==> r == Failure(InvalidId)
    ensures id.Some? && HasContent(id.value) && friendlyName.Some? && !HasContent(friendlyName.value) ==>
      r == Failure(InvalidFriendlyName)
  {
    if id.None? || IsEmptyOrWhiteSpace(id.value) then Failure(InvalidId)
    else if friendlyName.Some? && IsEmptyOrWhiteSpace(friendlyName.value) then Failure(InvalidFriendlyName)
    else Success(Capability(id.value, if friendlyName.Some? then friendlyName.value else id.value, value))
  }
}
