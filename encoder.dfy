/** The payload encoder (`writeCompressedBits`). */
module Encoder {
  import opened HuffCommon

  /** A code table as `makeCodingsFromTree` returns it: one entry per symbol, null for symbols without a leaf. */
  type Table = t: seq<Option<seq<bool>>> | |t| == AlphSize + 1 witness seq(AlphSize + 1, _ => None)

  /** The codes of the input bytes, in order; a byte whose entry is null fails. */
  function CodesOf(table: Table, input: seq<Byte>): Result<seq<bool>>
  {
    if input == [] then Success([])
    else
      var entry := table[input[0]];
      if entry.None? then Failure(NullReference)
      else match CodesOf(table, input[1..])
        case Failure(e) => Failure(e)
        case Success(rest) => Success(entry.value + rest)
  }

  /** The payload: the code of every input byte in order, then the code of PseudoEof. */
  function Payload(table: Table, input: seq<Byte>): Result<seq<bool>>
  {
    match CodesOf(table, input)
    case Failure(e) => Failure(e)
    case Success(bits) =>
      if table[PseudoEof].None? then Failure(NullReference) else Success(bits + table[PseudoEof].value)
  }

  /** Every byte has a code in the table. */
  predicate AllCoded(table: Table, input: seq<Byte>)
  {
    forall j :: 0 <= j < |input| ==> table[input[j]].Some?
  }

  /** The codes of the input can be produced exactly when every byte has a code; otherwise a null entry is dereferenced. */
  lemma {:induction false} CodesOfDefined(table: Table, input: seq<Byte>)
    ensures CodesOf(table, input).Success? <==> AllCoded(table, input)
    ensures CodesOf(table, input).Failure? ==> CodesOf(table, input).error == NullReference
  {
    if input != [] {
      CodesOfDefined(table, input[1..]);
      if table[input[0]].Some? && !AllCoded(table, input) {
        var j :| 0 <= j < |input| && table[input[j]].None?;
        assert input[1..][j - 1] == input[j];
      }
    }
  }

  /**
   * The encoder never fails on a table that codes every byte of its input and
   * PseudoEof; it dereferences a null entry (and fails) otherwise.
   */
  lemma {:induction false} PayloadDefined(table: Table, input: seq<Byte>)
    ensures Payload(table, input).Success? <==> AllCoded(table, input) && table[PseudoEof].Some?
    ensures Payload(table, input).Failure? ==> Payload(table, input).error == NullReference
  {
    CodesOfDefined(table, input);
  }

  /** Appending one byte appends its code. */
  lemma {:induction false} CodesOfSnoc(table: Table, input: seq<Byte>, b: Byte)
    requires CodesOf(table, input).Success? && table[b].Some?
    ensures CodesOf(table, input + [b]) == Success(CodesOf(table, input).value + table[b].value)
  {
    if input == [] {
      assert input + [b] == [b];
      assert [b][1..] == [];
      assert CodesOf(table, [b]) == Success(table[b].value + []);
      assert table[b].value + [] == [] + table[b].value;
    } else {
      assert (input + [b])[0] == input[0];
      assert (input + [b])[1..] == input[1..] + [b];
      var head := table[input[0]].value;
      assert CodesOf(table, input) == Success(head + CodesOf(table, input[1..]).value);
      CodesOfSnoc(table, input[1..], b);
      var tail := CodesOf(table, input[1..]).value;
      assert CodesOf(table, input + [b]) == Success(head + (tail + table[b].value));
      assert head + (tail + table[b].value) == (head + tail) + table[b].value;
    }
  }

  /**
   * `writeCompressedBits`: reads the input again and writes each byte's code,
   * then the code of PseudoEof. A byte without a code dereferences a null entry.
   */
  method WriteCompressedBits(table: Table, input: seq<Byte>) returns (r: Result<seq<bool>>)
    ensures r == Payload(table, input)
  {
    var out: seq<bool> := [];
    var i := 0;
    while i < |input|
      invariant 0 <= i <= |input|
      invariant CodesOf(table, input[..i]) == Success(out)
    {
      var code := table[input[i]];
      if code.None? {
        CodesOfDefined(table, input);
        return Failure(NullReference);
      }
      CodesOfSnoc(table, input[..i], input[i]);
      assert input[..i + 1] == input[..i] + [input[i]];
      out := out + code.value;
      i := i + 1;
    }
    assert input[..i] == input;
    var eof := table[PseudoEof];
    if eof.None? {
      return Failure(NullReference);
    }
    r := Success(out + eof.value);
  }
}
