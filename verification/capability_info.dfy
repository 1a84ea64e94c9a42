/** The decoded collection (TerminalCapabilityInfo.cs): capabilities keyed by
    id. Enumeration order of the underlying dictionary is not modelled. */
module CapabilityInfo {
  import opened Wrappers
  import opened Ascii
  import opened Errors
  import opened Capabilities

  /** A `TerminalCapabilityInfo`: its private dictionary from id to
      capability. */
  datatype Info = Info(entries: map<Text, Capability>)

  /** The ids of a capability list, in list order. */
  function IdsOf(caps: seq<Capability>): (ids: seq<Text>)
    ensures |ids| == |caps|
  {
    seq(|caps|, i requires 0 <= i < |caps| => caps[i].id)
  }

  /** No two capabilities of the list share an id. */
  predicate DistinctIds(caps: seq<Capability>) {
    forall i, j :: 0 <= i < j < |caps| ==> caps[i].id != caps[j].id
  }

  /** `Count`: zero exactly when the collection holds no id. */
  function Count(info: Info): (r: nat)
    ensures r == 0 <==> forall key :: !ContainsKey(info, key)
  {
    NoKeysEmpty(info);
    |info.entries|
  }

  /** A collection that holds no id has no entries. */
  lemma NoKeysEmpty(info: Info)
    ensures (forall key :: !ContainsKey(info, key)) ==> |info.entries| == 0
  {
    if forall key :: !ContainsKey(info, key) {
      forall key | key in info.entries
        ensures false
      {
        assert ContainsKey(info, key);
      }
      assert info.entries.Keys == {};
    }
  }

  /** `ContainsKey`: a held id makes the collection non-empty. */
  function ContainsKey(info: Info, key: Text): (r: bool)
    ensures r ==> |info.entries| > 0
  {
    key in info.entries
  }

  /** `TryGetValue`: it finds a capability exactly for the ids
      `ContainsKey` reports, and then the one stored under `key`. */
  function TryGetValue(info: Info, key: Text): (r: Option<Capability>)
    ensures r.Some? <==> ContainsKey(info, key)
    ensures r.Some? ==> r.value == info.entries[key]
  {
    if key in info.entries then Some(info.entries[key]) else None
  }

  /** The indexer: it agrees with `TryGetValue` on every id the collection
      holds, and any other id fails with `MissingKey`. */
  function Get(info: Info, key: Text): (r: Result<Capability, Error>)
    ensures r.Success? <==> ContainsKey(info, key)
    ensures r.Success? ==> TryGetValue(info, key) == Some(r.value)
    ensures r.Failure? ==> r.error == MissingKey(key)
  {
    if key in info.entries then Success(info.entries[key]) else Failure(MissingKey(key))
  }

  /** The empty constructor. */
  function Empty(): (r: Info)
    ensures Count(r) == 0
    ensures forall key :: !ContainsKey(r, key) && TryGetValue(r, key).None?
  {
    Info(map[])
  }

  /** The `foreach` of the list constructor: `Dictionary.Add` of each
      capability in turn, failing on the first id already present. */
  function AddAll(entries: map<Text, Capability>, caps: seq<Capability>): (r: Result<map<Text, Capability>, Error>)
    decreases |caps|
    ensures r.Success? <==>
      DistinctIds(caps) && forall i :: 0 <= i < |caps| ==> caps[i].id !in entries
    ensures r.Success? ==> |r.value| == |entries| + |caps|
    ensures r.Success? ==> forall key :: key in r.value <==> key in entries || key in IdsOf(caps)
    ensures r.Success? ==> forall key :: key in entries ==> r.value[key] == entries[key]
    ensures r.Success? ==> forall i :: 0 <= i < |caps| ==> caps[i].id in r.value && r.value[caps[i].id] == caps[i]
    ensures r.Failure? ==> r.error.DuplicateId?
  {
    if |caps| == 0 then Success(entries)
    else if caps[0].id in entries then Failure(DuplicateId(caps[0].id))
    else
      var head, tail := caps[0], caps[1..];
      var entries' := entries[head.id := head];
      AddStep(entries, caps);
      var r := AddAll(entries', tail);
      assert r.Success? ==> forall key :: key in entries ==> r.value[key] == entries[key] by {
        if r.Success? {
          forall key | key in entries
            ensures r.value[key] == entries[key]
          {
            assert key != head.id && entries'[key] == entries[key];
          }
        }
      }
      assert r.Success? ==> forall i :: 0 <= i < |caps| ==> caps[i].id in r.value && r.value[caps[i].id] == caps[i] by {
        if r.Success? {
          forall i | 0 <= i < |caps|
            ensures caps[i].id in r.value && r.value[caps[i].id] == caps[i]
          {
            if i > 0 {
              assert caps[i] == tail[i - 1];
            }
          }
        }
      }
      r
  }

  /** Adding the head first: the tail must then avoid the head's id as well. */
  lemma AddStep(entries: map<Text, Capability>, caps: seq<Capability>)
    requires |caps| > 0 && caps[0].id !in entries
    ensures IdsOf(caps) == [caps[0].id] + IdsOf(caps[1..])
    ensures
      (DistinctIds(caps[1..]) && forall i :: 0 <= i < |caps[1..]| ==> caps[1..][i].id !in entries[caps[0].id := caps[0]])
      <==>
      (DistinctIds(caps) && forall i :: 0 <= i < |caps| ==> caps[i].id !in entries)
  {
    var tail := caps[1..];
    assert forall i :: 1 <= i < |caps| ==> tail[i - 1] == caps[i];
    if DistinctIds(tail) && forall i :: 0 <= i < |tail| ==> tail[i].id !in entries[caps[0].id := caps[0]] {
      forall i, j | 0 <= i < j < |caps|
        ensures caps[i].id != caps[j].id
      {
        if i > 0 {
          assert tail[i - 1].id != tail[j - 1].id;
        } else {
          assert tail[j - 1].id !in entries[caps[0].id := caps[0]];
        }
      }
    }
  }

  /** The list constructor: one entry per capability, keyed by its id; a
      repeated id fails. */
  function FromList(caps: seq<Capability>): (r: Result<Info, Error>)
    ensures r.Success? <==> DistinctIds(caps)
    ensures r.Success? ==> Count(r.value) == |caps|
    ensures r.Success? ==> forall key :: key in r.value.entries <==> key in IdsOf(caps)
    ensures r.Success? ==> forall i :: 0 <= i < |caps| ==>
      caps[i].id in r.value.entries && r.value.entries[caps[i].id] == caps[i]
    ensures r.Failure? ==> r.error.DuplicateId?
  {
    var entries :- AddAll(map[], caps);
    Success(Info(entries))
  }

  /** After building from a list, an id is found exactly when some listed
      capability carries it, and lookup returns that capability. */
  lemma FromListLookup(caps: seq<Capability>, key: Text)
    requires FromList(caps).Success?
    ensures ContainsKey(FromList(caps).value, key) <==> key in IdsOf(caps)
    ensures TryGetValue(FromList(caps).value, key).Some? <==> key in IdsOf(caps)
    ensures forall i :: 0 <= i < |caps| && caps[i].id == key ==>
      && TryGetValue(FromList(caps).value, key) == Some(caps[i])
      && Get(FromList(caps).value, key) == Success(caps[i])
    ensures key !in IdsOf(caps) ==> Get(FromList(caps).value, key) == Failure(MissingKey(key))
  {
  }
}
