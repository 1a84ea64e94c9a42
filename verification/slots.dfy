/** Slot arrays: runs of boolean bytes or of signed little-endian words read
    one slot after another with the primitive reader, as the section
    decoders of TerminfoParser.cs do in their `for` loops. */
module Slots {
  import opened Wrappers
  import opened Bytes
  import opened Errors
  import opened Reader

  /** -1 (absent) and -2 (cancelled): number values and string offsets that
      never produce a capability. */
  predicate IsSentinel(v: int) {
    v == -1 || v == -2
  }

  /** The cursor at which a run of `n` multi-byte slots starts: the pad
      before an odd offset is only consumed when a slot is read. */
  function RunStart(pos: nat, n: nat): nat {
    if n == 0 then pos else Aligned(pos)
  }

  /** The reference reading of a byte run as consecutive `w`-byte signed
      little-endian words. */
  function Words(bytes: seq<byte>, w: nat): seq<int>
    requires w > 0
    decreases |bytes|
  {
    if |bytes| < w then [] else [SignedLE(bytes[..w])] + Words(bytes[w..], w)
  }

  /** The reference reading of a byte run as boolean slots, one slot per
      byte; nothing when some byte is not a flag byte. */
  function Flags(bytes: seq<byte>): (r: Option<seq<Option<bool>>>)
    ensures r.Some? ==> |r.value| == |bytes|
  {
    if |bytes| == 0 then Some([])
    else if !IsFlagByte(bytes[0]) then None
    else
      match Flags(bytes[1..])
      case None => None
      case Some(rest) => Some([FlagOf(bytes[0])] + rest)
  }

  /** `Flags` byte by byte: it succeeds exactly when every byte is a flag
      byte, and then each slot is the value its byte stores. */
  lemma {:induction false} FlagsPointwise(bytes: seq<byte>)
    ensures Flags(bytes).Some? <==> forall j :: 0 <= j < |bytes| ==> IsFlagByte(bytes[j])
    ensures Flags(bytes).Some? ==> forall j :: 0 <= j < |bytes| ==> FlagByte(Flags(bytes).value[j]) == bytes[j]
  {
    if |bytes| > 0 {
      FlagsPointwise(bytes[1..]);
      assert forall j :: 1 <= j < |bytes| ==> bytes[1..][j - 1] == bytes[j];
      if IsFlagByte(bytes[0]) {
        FlagOfFlagByte(bytes[0]);
      }
    }
  }

  /** The bytes that store a run of boolean slots. */
  function FlagBytes(flags: seq<Option<bool>>): (bytes: seq<byte>)
    ensures |bytes| == |flags|
  {
    if |flags| == 0 then [] else [FlagByte(flags[0])] + FlagBytes(flags[1..])
  }

  /** Stored boolean slots read back as themselves. */
  lemma {:induction false} FlagsRoundTrip(flags: seq<Option<bool>>)
    ensures Flags(FlagBytes(flags)) == Some(flags)
  {
    if |flags| > 0 {
      FlagsRoundTrip(flags[1..]);
      var bytes := FlagBytes(flags);
      assert bytes[1..] == FlagBytes(flags[1..]);
      FlagByteOfFlag(flags[0]);
      assert [flags[0]] + flags[1..] == flags;
    }
  }

  /** `n` consecutive `ReadBooleanCapability` calls. */
  function ReadBooleanSlots(data: seq<byte>, pos: nat, n: nat): (r: Result<Read<seq<Option<bool>>>, Error>)
    decreases n
    ensures n == 0 ==> r == Success(Read([], pos))
    ensures r.Success? <==> n == 0 || (pos + n <= |data| && Flags(data[pos..pos + n]).Some?)
    ensures r.Success? ==> r.value.next == pos + n && |r.value.value| == n
    ensures r.Success? && n > 0 ==> r.value.value == Flags(data[pos..pos + n]).value
  {
    if n == 0 then Success(Read([], pos))
    else
      assert pos + n <= |data| ==> data[pos..pos + n][1..] == data[pos + 1..pos + n];
      var flag :- ReadBooleanCapability(data, pos);
      var rest :- ReadBooleanSlots(data, flag.next, n - 1);
      Success(Read([flag.value] + rest.value, rest.next))
  }

  /** Where a run of `n` slots of width `w` that begins at `pos` ends. */
  function RunEnd(pos: nat, n: nat, w: nat): nat {
    RunStart(pos, n) + Span(n, w)
  }

  /** A run of `n` slots of width `w` fits in `data` at `pos`: it is empty,
      or its pad byte (when `pos` is odd) is zero and all its words are
      there. */
  predicate RunFits(data: seq<byte>, pos: nat, n: nat, w: nat) {
    n == 0 || ((pos % 2 == 0 || (pos < |data| && data[pos] == 0)) && Aligned(pos) + Span(n, w) <= |data|)
  }

  /** A run that fits lies inside `data`, after its start. */
  lemma RunInside(data: seq<byte>, pos: nat, n: nat, w: nat)
    requires RunFits(data, pos, n, w) && n > 0
    ensures pos <= Aligned(pos) <= RunEnd(pos, n, w) <= |data|
  {
  }

  /** The words of a run that fits in `data`. */
  function RunWords(data: seq<byte>, pos: nat, n: nat, w: nat): seq<int>
    requires w == 2 || w == 4
    requires RunFits(data, pos, n, w)
  {
    if n == 0 then [] else
      RunInside(data, pos, n, w);
      Words(data[Aligned(pos)..RunEnd(pos, n, w)], w)
  }

  /** `n` consecutive reads of `w`-byte signed words (`ReadShort` or
      `ReadInt`). Only the first read can meet an odd offset and consume a
      pad byte; every later one starts even. */
  function ReadWords(data: seq<byte>, pos: nat, n: nat, w: nat): (r: Result<Read<seq<int>>, Error>)
    requires w == 2 || w == 4
    ensures n == 0 ==> r == Success(Read([], pos))
    ensures r.Success? <==> RunFits(data, pos, n, w)
    ensures r.Success? ==> r.value.next == RunEnd(pos, n, w) && |r.value.value| == n
    ensures r.Success? && n > 0 ==> pos <= Aligned(pos) <= r.value.next <= |data|
    ensures r.Success? && n > 0 ==> r.value.value == Words(data[Aligned(pos)..r.value.next], w)
  {
    if n == 0 then Success(Read([], pos))
    else
      var start :- AlignEven(data, pos);
      ReadAlignedWords(data, start, n, w)
  }

  /** `ReadWords` is one `ReadWord` followed by the remaining reads. */
  lemma ReadWordsStep(data: seq<byte>, pos: nat, n: nat, w: nat)
    requires w == 2 || w == 4
    requires n > 0
    ensures var first := ReadWord(data, pos, w);
      && (ReadWords(data, pos, n, w).Success? <==>
          first.Success? && ReadWords(data, first.value.next, n - 1, w).Success?)
      && (ReadWords(data, pos, n, w).Success? ==>
          var rest := ReadWords(data, first.value.next, n - 1, w).value;
          ReadWords(data, pos, n, w).value == Read([first.value.value] + rest.value, rest.next))
  {
    var first := ReadWord(data, pos, w);
    var whole := ReadWords(data, pos, n, w);
    if first.Success? {
      var start := Aligned(pos);
      var mid := start + w;
      assert first.value.next == mid;
      EvenAdvance(start, w);
      var rest := ReadWords(data, mid, n - 1, w);
      assert Span(n, w) == w + Span(n - 1, w);
      if whole.Success? {
        RestWords(data, start, mid, n, w, whole.value.next);
        var expected := Read([first.value.value] + rest.value.value, rest.value.next);
        assert whole.value == expected;
      }
    } else {
      assert Span(n, w) == Span(n - 1, w) + w;
    }
  }

  /** The words after the first of a run read at an even cursor. */
  lemma RestWords(data: seq<byte>, start: nat, mid: nat, n: nat, w: nat, end: nat)
    requires w == 2 || w == 4
    requires n > 0 && start % 2 == 0 && mid == start + w
    requires end == start + Span(n, w) && end <= |data|
    ensures ReadWords(data, mid, n - 1, w) == Success(Read(Words(data[mid..end], w), end))
    ensures Words(data[start..end], w) == [SignedLE(data[start..mid])] + Words(data[mid..end], w)
  {
    assert Span(n, w) == Span(n - 1, w) + w;
    WordsStep(data, start, w, end);
    EvenAdvance(start, w);
    var r := ReadWords(data, mid, n - 1, w);
    assert r.Success?;
    assert r.value.next == end;
    if n - 1 == 0 {
      assert data[mid..end] == [];
    } else {
      assert Aligned(mid) == mid;
      assert r.value.value == Words(data[mid..end], w);
    }
    var expected := Read(Words(data[mid..end], w), end);
    assert r.value == expected;
  }

  /** The reads of `ReadWords` once the cursor is even: the alignment each
      read performs is then a no-op. */
  function ReadAlignedWords(data: seq<byte>, pos: nat, n: nat, w: nat): (r: Result<Read<seq<int>>, Error>)
    requires w == 2 || w == 4
    requires pos % 2 == 0
    decreases n
    ensures r.Success? <==> n == 0 || pos + Span(n, w) <= |data|
    ensures r.Success? ==> r.value.next == pos + Span(n, w) && |r.value.value| == n
    ensures r.Success? && n > 0 ==> r.value.value == Words(data[pos..r.value.next], w)
  {
    if n == 0 then Success(Read([], pos))
    else
      assert Aligned(pos) == pos;
      EvenAdvance(pos, w);
      var word :- ReadWord(data, pos, w);
      var rest :- ReadAlignedWords(data, pos + w, n - 1, w);
      WordsStep(data, pos, w, rest.next);
      Success(Read([word.value] + rest.value, rest.next))
  }

  /** Reading words from a slice of `data`: the first word, then the rest. */
  lemma WordsStep(data: seq<byte>, pos: nat, w: nat, end: nat)
    requires 0 < w && pos + w <= end <= |data|
    ensures Words(data[pos..end], w) == [SignedLE(data[pos..pos + w])] + Words(data[pos + w..end], w)
  {
    var all := data[pos..end];
    assert all[..w] == data[pos..pos + w];
    assert all[w..] == data[pos + w..end];
  }

  /** The number of bytes `n` slots of width `w` occupy, counted slot by
      slot. */
  function Span(n: nat, w: nat): nat {
    if n == 0 then 0 else Span(n - 1, w) + w
  }

  /** Counting slot by slot gives the product. */
  lemma {:induction false} SpanIsProduct(n: nat, w: nat)
    ensures Span(n, w) == n * w
  {
    if n > 0 {
      SpanIsProduct(n - 1, w);
    }
  }

  /** The number of slots that are not sentinels. */
  function CountPresent(vs: seq<int>): (c: nat)
    ensures c <= |vs|
  {
    if |vs| == 0 then 0 else (if IsSentinel(vs[0]) then 0 else 1) + CountPresent(vs[1..])
  }

  /** The number of boolean slots that are true. */
  function CountTrue(flags: seq<Option<bool>>): (c: nat)
    ensures c <= |flags|
  {
    if |flags| == 0 then 0 else (if flags[0] == Some(true) then 1 else 0) + CountTrue(flags[1..])
  }

  /** A word run that reads back holds the words of its bytes. */
  lemma RunRead(data: seq<byte>, pos: nat, n: nat, w: nat, vs: seq<int>, end: nat)
    requires w == 2 || w == 4
    requires ReadWords(data, pos, n, w) == Success(Read(vs, end))
    ensures RunFits(data, pos, n, w) && end == RunEnd(pos, n, w) && vs == RunWords(data, pos, n, w)
  {
  }

  /** A run of `n1` words of width `w` at `pos` fits, then a run of `n2`
      shorts where it ends, then a run of `n3` shorts where that one ends. */
  predicate RunsFollow(data: seq<byte>, pos: nat, n1: nat, w: nat, n2: nat, n3: nat) {
    && RunFits(data, pos, n1, w)
    && RunFits(data, RunEnd(pos, n1, w), n2, 2)
    && RunFits(data, RunEnd(RunEnd(pos, n1, w), n2, 2), n3, 2)
  }

  /** A run of `n1` words of width `w`, then a run of `n2` shorts and a
      run of `n3` shorts, each read from where the previous read left the
      cursor. */
  function ReadRuns(data: seq<byte>, pos: nat, n1: nat, w: nat, n2: nat, n3: nat): (r: Result<Read<(seq<int>, seq<int>, seq<int>)>, Error>)
    requires w == 2 || w == 4
    ensures r.Success? <==> RunsFollow(data, pos, n1, w, n2, n3)
    ensures r.Success? ==>
      var p2 := RunEnd(pos, n1, w);
      var p3 := RunEnd(p2, n2, 2);
      && |r.value.value.0| == n1 && |r.value.value.1| == n2 && |r.value.value.2| == n3
      && r.value.value.0 == RunWords(data, pos, n1, w)
      && r.value.value.1 == RunWords(data, p2, n2, 2)
      && r.value.value.2 == RunWords(data, p3, n3, 2)
      && r.value.next == RunEnd(p3, n3, 2)
  {
    var first := ReadWords(data, pos, n1, w);
    if first.Failure? then Failure(first.error)
    else
      RunRead(data, pos, n1, w, first.value.value, first.value.next);
      TwoRunsFit(data, first.value.next, n2, n3);
      var second := ReadWords(data, first.value.next, n2, 2);
      if second.Failure? then Failure(second.error)
      else
        RunRead(data, first.value.next, n2, 2, second.value.value, second.value.next);
        var third := ReadWords(data, second.value.next, n3, 2);
        if third.Failure? then Failure(third.error)
        else
          RunRead(data, second.value.next, n3, 2, third.value.value, third.value.next);
          Success(Read((first.value.value, second.value.value, third.value.value), third.value.next))
  }

  /** Two runs of shorts read one after another exactly when each fits
      where the previous one ends. */
  lemma TwoRunsFit(data: seq<byte>, pos: nat, n1: nat, n2: nat)
    ensures var first := ReadWords(data, pos, n1, 2);
      (first.Success? && ReadWords(data, first.value.next, n2, 2).Success?) <==>
        RunFits(data, pos, n1, 2) && RunFits(data, RunEnd(pos, n1, 2), n2, 2)
  {
  }

  /** Three runs that read one after another, each from where the previous
      one ended, read back together. */
  lemma RunsFromReads(data: seq<byte>, pos: nat, n1: nat, w: nat, n2: nat, n3: nat, v1: seq<int>, v2: seq<int>, v3: seq<int>, p2: nat, p3: nat, end: nat)
    requires w == 2 || w == 4
    requires ReadWords(data, pos, n1, w) == Success(Read(v1, p2))
    requires ReadWords(data, p2, n2, 2) == Success(Read(v2, p3))
    requires ReadWords(data, p3, n3, 2) == Success(Read(v3, end))
    ensures ReadRuns(data, pos, n1, w, n2, n3).Success?
    ensures ReadRuns(data, pos, n1, w, n2, n3).value == Read((v1, v2, v3), end)
  {
    var r := ReadRuns(data, pos, n1, w, n2, n3);
    assert r.value == Read((v1, v2, v3), end);
  }
}
