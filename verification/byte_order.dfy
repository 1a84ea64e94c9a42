/** Host byte order (TerminfoParser.cs, `ReadShort`, `ReadInt`, `Reverse`).
    On a big-endian host the decoder reverses the little-endian bytes of a
    word before handing them to `BitConverter`, which then reads the most
    significant byte first. `Reverse` as written indexes one past the end
    of the array on its first swap; the corrected reversal makes the value
    read independent of the host, which is why the readers of the model use
    the little-endian reading on every host. */
module ByteOrder {
  import opened Wrappers
  import opened Bytes
  import opened Errors

  /** The reference reversal: byte `k` of the result is byte `n - 1 - k`
      of the input. */
  function Reversed(s: seq<byte>): (r: seq<byte>)
    ensures |r| == |s|
  {
    seq(|s|, k requires 0 <= k < |s| => s[|s| - 1 - k])
  }

  /** The C# index-from-end operator: `^i` is index `length - i`. */
  function FromEnd(length: nat, i: nat): int {
    length - i
  }

  /** `Reverse` as written: for `i` below half the length, swap `values[i]`
      with `values[^i]`; an index outside the array throws. */
  function ReverseAsWritten(values: seq<byte>, i: nat): (r: Result<seq<byte>, Error>)
    decreases |values| - i
  {
    if i >= |values| / 2 then Success(values)
    else
      var j := FromEnd(|values|, i);
      if j < 0 || j >= |values| then Failure(IndexOutOfRange(j))
      else ReverseAsWritten(values[i := values[j]][j := values[i]], i + 1)
  }

  /** Every array of two or more bytes (every word the decoder reads) makes
      the first swap index one past the end. */
  lemma ReverseAsWrittenThrows(values: seq<byte>)
    requires |values| >= 2
    ensures ReverseAsWritten(values, 0) == Failure(IndexOutOfRange(|values|))
  {
  }

  /** The two-byte word `[0x01, 0x02]`: as written, reversing it fails
      instead of giving `[0x02, 0x01]`. */
  lemma ReverseAsWrittenCounterexample()
    ensures ReverseAsWritten([1, 2], 0).Failure?
    ensures Reversed([1, 2]) == [2, 1]
  {
    ReverseAsWrittenThrows([1, 2]);
  }

  /** `Reverse` corrected: swap `values[i]` with `values[^(i + 1)]`, the
      mirror position. */
  function ReverseFrom(values: seq<byte>, i: nat): (r: seq<byte>)
    decreases |values| - i
    ensures |r| == |values|
  {
    if i >= |values| / 2 then values
    else
      var j := |values| - 1 - i;
      ReverseFrom(values[i := values[j]][j := values[i]], i + 1)
  }

  /** The swaps done before step `i`: the outer `i` bytes at each end are
      mirrored, the middle is still in place. */
  ghost predicate SwappedUpTo(orig: seq<byte>, v: seq<byte>, i: nat) {
    && |v| == |orig|
    && i <= |orig| / 2
    && (forall k :: 0 <= k < |v| && (k < i || k >= |v| - i) ==> v[k] == orig[|orig| - 1 - k])
    && (forall k :: i <= k < |v| - i ==> v[k] == orig[k])
  }

  /** The corrected loop completes the reversal from any intermediate
      state. */
  lemma {:induction false} ReverseFromReverses(orig: seq<byte>, v: seq<byte>, i: nat)
    requires SwappedUpTo(orig, v, i)
    decreases |v| - i
    ensures ReverseFrom(v, i) == Reversed(orig)
  {
    if i >= |v| / 2 {
      assert forall k :: 0 <= k < |v| ==> v[k] == Reversed(orig)[k] by {
        forall k | 0 <= k < |v|
          ensures v[k] == Reversed(orig)[k]
        {
          if i <= k < |v| - i {
            assert k == |v| - 1 - k;
          }
        }
      }
    } else {
      var j := |v| - 1 - i;
      var w := v[i := v[j]][j := v[i]];
      assert SwappedUpTo(orig, w, i + 1);
      ReverseFromReverses(orig, w, i + 1);
    }
  }

  /** The corrected `Reverse` reverses. */
  lemma ReverseCorrect(values: seq<byte>)
    ensures ReverseFrom(values, 0) == Reversed(values)
  {
    ReverseFromReverses(values, values, 0);
  }

  /** The unsigned value of `s` read most significant byte first, as
      `BitConverter` reads on a big-endian host. */
  function UnsignedBE(s: seq<byte>): (u: nat)
    decreases |s|
  {
    if |s| == 0 then 0 else 256 * UnsignedBE(s[..|s| - 1]) + s[|s| - 1]
  }

  /** Reading reversed bytes most significant first is reading the
      original least significant first. */
  lemma {:induction false} BigEndianOfReversed(s: seq<byte>)
    ensures UnsignedBE(Reversed(s)) == UnsignedLE(s)
  {
    if |s| > 0 {
      var r := Reversed(s);
      assert r[|r| - 1] == s[0];
      assert r[..|r| - 1] == Reversed(s[1..]);
      BigEndianOfReversed(s[1..]);
    }
  }

  /** The word `bytes` (least significant byte first in the file) as the
      corrected decoder reads it on a host of either byte order. */
  function HostWord(bytes: seq<byte>, littleEndianHost: bool): (v: int)
    requires |bytes| > 0
  {
    if littleEndianHost then SignedLE(bytes)
    else
      var u := UnsignedBE(ReverseFrom(bytes, 0));
      if u >= Half(|bytes|) then u - Pow256(|bytes|) else u
  }

  /** With the corrected reversal the value read does not depend on the
      host byte order. */
  lemma HostIndependent(bytes: seq<byte>, littleEndianHost: bool)
    requires |bytes| > 0
    ensures HostWord(bytes, littleEndianHost) == SignedLE(bytes)
  {
    ReverseCorrect(bytes);
    BigEndianOfReversed(bytes);
  }
}
