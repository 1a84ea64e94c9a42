/** The string table of a compiled terminfo file (TerminfoParser.cs, both
    `ReadStringTable` overloads): a blob of zero-terminated strings, decoded
    into a map from each string's start offset to its bytes.

    The decoder scans left to right; its result is characterised here
    directly in terms of the blob: the keys are the offsets that start a
    string (`IsStart`), each value is the run of bytes up to the next zero
    (`Run`), and the split offset of the thresholded variant is the offset
    just after a given number of terminators (`IsSplitPoint`). */
module StringTable {
  import opened Wrappers
  import opened Bytes
  import opened Errors

  /** A decoded table: start offset to string bytes, terminator excluded. */
  type Entries = map<int, seq<byte>>

  /** True when a string of the table starts at `k`: offset 0, or an offset
      just after a zero terminator, inside the blob. */
  predicate IsStart(blob: seq<byte>, k: int) {
    0 <= k < |blob| && (k == 0 || blob[k - 1] == 0)
  }

  /** The bytes from `k` up to, not including, the first zero at or after
      `k` (or up to the end of the blob if there is none). */
  function Run(blob: seq<byte>, k: int): seq<byte>
    decreases |blob| - k
  {
    if k < 0 || k >= |blob| || blob[k] == 0 then [] else [blob[k]] + Run(blob, k + 1)
  }

  /** Every string of the blob has its terminator: the blob is empty or
      ends with a zero byte. */
  predicate Terminated(blob: seq<byte>) {
    |blob| == 0 || blob[|blob| - 1] == 0
  }

  /** The number of zero bytes among the first `j` bytes of the blob. */
  function ZerosBefore(blob: seq<byte>, j: nat): nat
    requires j <= |blob|
  {
    if j == 0 then 0 else ZerosBefore(blob, j - 1) + (if blob[j - 1] == 0 then 1 else 0)
  }

  /** True when `t` is the split offset for `threshold`: the offset just
      after the `threshold`-th terminator, or 0 when `threshold` is below 1
      or exceeds the number of terminators. */
  predicate IsSplitPoint(blob: seq<byte>, threshold: int, t: int) {
    if 1 <= threshold <= ZerosBefore(blob, |blob|) then
      0 < t <= |blob| && blob[t - 1] == 0 && ZerosBefore(blob, t) == threshold
    else
      t == 0
  }

  /** `Array.IndexOf(blob, 0, from)`: the first zero at or after `from`, or
      -1 when there is none. */
  function IndexOfZero(blob: seq<byte>, from: nat): (e: int)
    requires from <= |blob|
    decreases |blob| - from
    ensures e == -1 || (from <= e < |blob| && blob[e] == 0)
    ensures forall j :: from <= j < (if e == -1 then |blob| else e) ==> blob[j] != 0
  {
    if from == |blob| then -1
    else if blob[from] == 0 then from
    else IndexOfZero(blob, from + 1)
  }

  /** The run from `i` is the slice up to the first zero after `i`. */
  lemma {:induction false} RunToZero(blob: seq<byte>, i: nat, e: nat)
    requires i <= e < |blob| && blob[e] == 0
    requires forall j :: i <= j < e ==> blob[j] != 0
    ensures Run(blob, i) == blob[i..e]
    decreases e - i
  {
    if i < e {
      RunToZero(blob, i + 1, e);
      assert blob[i..e] == [blob[i]] + blob[i + 1..e];
    }
  }

  /** A stretch without zero bytes adds no terminator to the count. */
  lemma {:induction false} ZerosUnchanged(blob: seq<byte>, i: nat, j: nat)
    requires i <= j <= |blob|
    requires forall k :: i <= k < j ==> blob[k] != 0
    ensures ZerosBefore(blob, j) == ZerosBefore(blob, i)
    decreases j - i
  {
    if i < j {
      ZerosUnchanged(blob, i, j - 1);
    }
  }

  /** One string further, one terminator more. */
  lemma ZerosStep(blob: seq<byte>, i: nat, e: nat)
    requires i <= e < |blob| && blob[e] == 0
    requires forall j :: i <= j < e ==> blob[j] != 0
    ensures ZerosBefore(blob, e + 1) == ZerosBefore(blob, i) + 1
  {
    ZerosUnchanged(blob, i, e);
  }

  /** The loop of the plain `ReadStringTable` from offset `i`, where a
      string starts: it fails exactly when some string from `i` on has no
      terminator. */
  function SplitFrom(blob: seq<byte>, i: nat): (r: Result<Entries, Error>)
    requires i <= |blob|
    decreases |blob| - i
    ensures r.Success? <==> i == |blob| || Terminated(blob)
    ensures r.Failure? ==> r.error.UnterminatedString?
  {
    if i == |blob| then Success(map[])
    else
      var end := IndexOfZero(blob, i);
      if end == -1 then
        assert !Terminated(blob) by { assert blob[|blob| - 1] != 0; }
        Failure(UnterminatedString(i))
      else
        assert end + 1 == |blob| ==> Terminated(blob);
        var rest :- SplitFrom(blob, end + 1);
        Success(rest[i := blob[i..end]])
  }

  /** What the loop from `i` builds: one entry per string start from `i`
      on, keyed by its offset, holding the run up to its terminator; one
      entry per terminator from `i` on. */
  ghost predicate Shaped(blob: seq<byte>, i: nat, m: Entries)
    requires i <= |blob|
  {
    && (forall k :: k in m <==> i <= k < |blob| && (k == i || blob[k - 1] == 0))
    && (forall k :: k in m ==> m[k] == Run(blob, k))
    && |m| == ZerosBefore(blob, |blob|) - ZerosBefore(blob, i)
  }

  /** The loop from `i` builds the entries `Shaped` describes. */
  lemma {:induction false} SplitFromShape(blob: seq<byte>, i: nat, m: Entries)
    requires i <= |blob| && SplitFrom(blob, i) == Success(m)
    decreases |blob| - i
    ensures Shaped(blob, i, m)
  {
    if i < |blob| {
      var end := IndexOfZero(blob, i);
      assert end != -1;
      assert end + 1 == |blob| ==> Terminated(blob);
      var rest := SplitFrom(blob, end + 1).value;
      SplitFromStep(blob, i, end);
      SplitFromShape(blob, end + 1, rest);
      ShapeStep(blob, i, end, rest, m);
    }
  }

  /** One step of the loop keeps the shape: the entries from the string
      after the first terminator, plus the first string. */
  lemma ShapeStep(blob: seq<byte>, i: nat, end: nat, rest: Entries, m: Entries)
    requires i <= end < |blob| && blob[end] == 0
    requires forall j :: i <= j < end ==> blob[j] != 0
    requires Shaped(blob, end + 1, rest)
    requires m == rest[i := blob[i..end]]
    ensures Shaped(blob, i, m)
  {
    RunToZero(blob, i, end);
    ZerosStep(blob, i, end);
    assert i !in rest;
    StartsStep(blob, i, end, rest, m);
    RunsStep(blob, i, blob[i..end], rest, m);
    CountStep(blob, i, rest, m, ZerosBefore(blob, |blob|), ZerosBefore(blob, end + 1), ZerosBefore(blob, i));
  }

  /** Adding the run at `i` keeps every entry the run at its key. */
  lemma RunsStep(blob: seq<byte>, i: nat, s: seq<byte>, rest: Entries, m: Entries)
    requires s == Run(blob, i)
    requires forall k :: k in rest ==> rest[k] == Run(blob, k)
    requires m == rest[i := s]
    ensures forall k :: k in m ==> m[k] == Run(blob, k)
  {
  }

  /** Adding an entry under a new key counts one terminator more. */
  lemma CountStep(blob: seq<byte>, i: nat, rest: Entries, m: Entries, total: nat, after: nat, before: nat)
    requires i !in rest && m.Keys == rest.Keys + {i}
    requires |rest| == total - after && after == before + 1
    ensures |m| == total - before
  {
    assert |m.Keys| == |rest.Keys| + 1;
  }

  /** The strings from `i` start at `i` and wherever the strings after the
      first terminator start. */
  lemma StartsStep(blob: seq<byte>, i: nat, end: nat, rest: Entries, m: Entries)
    requires i <= end < |blob| && blob[end] == 0
    requires forall j :: i <= j < end ==> blob[j] != 0
    requires forall k :: k in rest <==> end + 1 <= k < |blob| && (k == end + 1 || blob[k - 1] == 0)
    requires m.Keys == rest.Keys + {i}
    ensures forall k :: k in m <==> i <= k < |blob| && (k == i || blob[k - 1] == 0)
  {
  }

  /** `ReadStringTable(size)` over the bytes read: the keys are exactly the
      start offsets, each value is the run up to its terminator, there is
      one string per terminator, and a missing terminator fails. */
  function Split(blob: seq<byte>): (r: Result<Entries, Error>)
    ensures r.Success? <==> Terminated(blob)
    ensures r.Success? ==> forall k :: k in r.value <==> IsStart(blob, k)
    ensures r.Success? ==> forall k :: k in r.value ==> r.value[k] == Run(blob, k)
    ensures r.Success? ==> |r.value| == ZerosBefore(blob, |blob|)
    ensures r.Failure? ==> r.error.UnterminatedString?
  {
    var r := SplitFrom(blob, 0);
    if r.Success? then
      SplitFromShape(blob, 0, r.value);
      r
    else r
  }

  /** A decoded table together with the offset that separates the value
      strings from the name strings. */
  datatype Table = Table(entries: Entries, split: nat)

  /** The loop of the thresholded `ReadStringTable` from offset `i`, after
      `count` strings, with the split offset found so far. */
  function SplitCountingFrom(blob: seq<byte>, i: nat, count: nat, threshold: int, split: nat): (r: Result<Table, Error>)
    requires i <= |blob|
    requires count == ZerosBefore(blob, i)
    requires if 1 <= threshold <= count then
        0 < split <= i && blob[split - 1] == 0 && ZerosBefore(blob, split) == threshold
      else
        split == 0
    decreases |blob| - i
    ensures r.Success? <==> SplitFrom(blob, i).Success?
    ensures r.Success? ==> r.value.entries == SplitFrom(blob, i).value
    ensures r.Success? ==> IsSplitPoint(blob, threshold, r.value.split)
  {
    if i == |blob| then Success(Table(map[], split))
    else
      var end := IndexOfZero(blob, i);
      if end == -1 then Failure(UnterminatedString(i))
      else
        ZerosStep(blob, i, end);
        var count' := count + 1;
        var split' := if count' == threshold then end + 1 else split;
        SplitCandidateStep(blob, end, count, threshold, split, split');
        var rest :- SplitCountingFrom(blob, end + 1, count', threshold, split');
        SplitFromStep(blob, i, end);
        Success(Table(rest.entries[i := blob[i..end]], rest.split))
  }

  /** The plain loop at a string start: the string up to the next zero,
      then the rest of the blob. */
  lemma SplitFromStep(blob: seq<byte>, i: nat, end: int)
    requires i < |blob| && end == IndexOfZero(blob, i) && end != -1
    requires SplitFrom(blob, end + 1).Success?
    ensures SplitFrom(blob, i) == Success(SplitFrom(blob, end + 1).value[i := blob[i..end]])
  {
    var r := SplitFrom(blob, i);
    var expected := SplitFrom(blob, end + 1).value[i := blob[i..end]];
    assert r.value == expected;
    assert r == Success(expected);
  }

  /** The split offset found so far stays a split point for the terminators
      seen so far once one more terminator, at `end`, has been seen. */
  lemma SplitCandidateStep(blob: seq<byte>, end: nat, count: nat, threshold: int, split: nat, split': nat)
    requires end < |blob| && blob[end] == 0
    requires ZerosBefore(blob, end + 1) == count + 1
    requires if 1 <= threshold <= count then
        0 < split <= end && blob[split - 1] == 0 && ZerosBefore(blob, split) == threshold
      else
        split == 0
    requires split' == if count + 1 == threshold then end + 1 else split
    ensures if 1 <= threshold <= count + 1 then
        0 < split' <= end + 1 && blob[split' - 1] == 0 && ZerosBefore(blob, split') == threshold
      else
        split' == 0
  {
  }

  /** Terminators only accumulate as the cursor moves right. */
  lemma {:induction false} ZerosMonotone(blob: seq<byte>, i: nat, j: nat)
    requires i <= j <= |blob|
    ensures ZerosBefore(blob, i) <= ZerosBefore(blob, j)
    decreases j - i
  {
    if i < j {
      ZerosMonotone(blob, i, j - 1);
    }
  }

  /** The first offset at or after `j` by which `threshold` terminators
      have been passed, or the end of the blob. */
  function FirstReaching(blob: seq<byte>, threshold: int, j: nat): (t: nat)
    requires j <= |blob|
    decreases |blob| - j
    ensures j <= t <= |blob|
  {
    if j == |blob| || ZerosBefore(blob, j) >= threshold then j else FirstReaching(blob, threshold, j + 1)
  }

  /** The reference split offset: just after the `threshold`-th terminator
      when there are at least that many and `threshold` is positive, and 0
      otherwise. */
  function SplitAfter(blob: seq<byte>, threshold: int): nat {
    if 1 <= threshold <= ZerosBefore(blob, |blob|) then FirstReaching(blob, threshold, 0) else 0
  }

  /** The scan stops at the only offset that is a split point. */
  lemma {:induction false} FirstReachingIsSplit(blob: seq<byte>, threshold: int, j: nat, t: nat)
    requires 1 <= threshold && j <= t <= |blob|
    requires 0 < t && blob[t - 1] == 0 && ZerosBefore(blob, t) == threshold
    requires ZerosBefore(blob, j) <= threshold
    requires j < t ==> ZerosBefore(blob, j) < threshold
    ensures FirstReaching(blob, threshold, j) == t
    decreases t - j
  {
    if j < t {
      assert ZerosBefore(blob, t - 1) == threshold - 1;
      if j + 1 < t {
        ZerosMonotone(blob, j + 1, t - 1);
        FirstReachingIsSplit(blob, threshold, j + 1, t);
      }
    }
  }

  /** `IsSplitPoint` pins the split offset down to the reference. */
  lemma SplitPointIsSplitAfter(blob: seq<byte>, threshold: int, t: int)
    requires IsSplitPoint(blob, threshold, t)
    ensures t == SplitAfter(blob, threshold)
  {
    if 1 <= threshold <= ZerosBefore(blob, |blob|) {
      FirstReachingIsSplit(blob, threshold, 0, t);
    }
  }

  /** `ReadStringTable(size, threshold, out thresholdOffset)`: the same
      entries as the plain overload, and the split offset just after the
      `threshold`-th string (0 when there are fewer strings or `threshold`
      is below 1). */
  function SplitWithThreshold(blob: seq<byte>, threshold: int): (r: Result<Table, Error>)
    ensures r.Success? <==> Terminated(blob)
    ensures r.Success? ==> r.value.entries == Split(blob).value
    ensures r.Success? ==> IsSplitPoint(blob, threshold, r.value.split)
    ensures r.Success? ==> r.value.split == SplitAfter(blob, threshold)
  {
    var r := SplitCountingFrom(blob, 0, 0, threshold, 0);
    if r.Success? then
      SplitPointIsSplitAfter(blob, threshold, r.value.split);
      r
    else r
  }

  /** `table[key]`: a key that does not start an entry fails. */
  function Lookup(entries: Entries, key: int): (r: Result<seq<byte>, Error>)
    ensures r.Success? <==> key in entries
    ensures r.Failure? ==> r.error == MissingString(key)
  {
    if key in entries then Success(entries[key]) else Failure(MissingString(key))
  }

  /** The run at a start offset of a terminated blob is the slice up to a
      zero byte that lies inside the blob, with no zero before it. */
  lemma {:induction false} RunIsTerminated(blob: seq<byte>, k: int)
    requires Terminated(blob) && 0 <= k < |blob|
    ensures k + |Run(blob, k)| < |blob|
    ensures blob[k + |Run(blob, k)|] == 0
    ensures Run(blob, k) == blob[k..k + |Run(blob, k)|]
    decreases |blob| - k
  {
    if blob[k] != 0 {
      RunIsTerminated(blob, k + 1);
    }
  }

  /** Looking up an offset in a decoded table succeeds exactly at the start
      offsets, and yields the bytes up to the next terminator. */
  lemma LookupInSplit(blob: seq<byte>, key: int)
    requires Terminated(blob)
    ensures Lookup(Split(blob).value, key).Success? <==> IsStart(blob, key)
    ensures Lookup(Split(blob).value, key).Success? ==>
      && key + |Lookup(Split(blob).value, key).value| < |blob|
      && blob[key..key + |Lookup(Split(blob).value, key).value| + 1]
         == Lookup(Split(blob).value, key).value + [0]
  {
    if IsStart(blob, key) {
      RunIsTerminated(blob, key);
      var v := Run(blob, key);
      assert blob[key..key + |v| + 1] == blob[key..key + |v|] + [blob[key + |v|]];
    }
  }

  /** The offset one past the last byte is never a table key, and offset 0
      of a blob that starts with a terminator holds the empty string. */
  lemma TableBoundaries(blob: seq<byte>)
    requires Terminated(blob)
    ensures Lookup(Split(blob).value, |blob|).Failure?
    ensures |blob| > 0 && blob[0] == 0 ==> Lookup(Split(blob).value, 0) == Success([])
  {
  }
}
