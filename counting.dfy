/** The frequency counter (`readForCounts`). */
module Counting {
  import opened HuffCommon

  /**
   * Counts every byte of the input into a table of AlphSize + 1 slots. The slot
   * for PseudoEof is set to 1 before counting starts, and no byte can reach it.
   * The input stream is the sequence of words `readBits(BitsPerWord)` delivers
   * before it signals the end.
   */
  method ReadForCounts(input: seq<Byte>) returns (freq: seq<int>)
    ensures |freq| == AlphSize + 1
    ensures freq[PseudoEof] == 1
    ensures forall b :: 0 <= b < AlphSize ==> freq[b] == multiset(input)[b]
  {
    var counts := new int[AlphSize + 1];
    forall k | 0 <= k < counts.Length {
      counts[k] := 0;
    }
    counts[PseudoEof] := 1;
    var i := 0;
    while i < |input|
      invariant 0 <= i <= |input|
      invariant counts[PseudoEof] == 1
      invariant forall b :: 0 <= b < AlphSize ==> counts[b] == multiset(input[..i])[b]
    {
      var val := input[i];
      assert input[..i + 1] == input[..i] + [val];
      counts[val] := counts[val] + 1;
      i := i + 1;
    }
    assert input[..i] == input;
    freq := counts[..];
  }

  /** A non-empty input leaves at least two positive slots: its first byte and PseudoEof. */
  lemma {:induction false} NonEmptyInputHasTwoSymbols(input: seq<Byte>, freq: seq<int>)
    requires input != []
    requires |freq| == AlphSize + 1 && freq[PseudoEof] == 1
    requires forall b :: 0 <= b < AlphSize ==> freq[b] == multiset(input)[b]
    ensures exists i, j :: 0 <= i < j < |freq| && freq[i] > 0 && freq[j] > 0
  {
    var b := input[0];
    assert b in multiset(input);
    assert freq[b] > 0 && freq[PseudoEof] > 0;
  }
}
