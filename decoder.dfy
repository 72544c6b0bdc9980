/** The payload decoder (`readCompressedBits`) and its agreement with the encoder. */
module Decoder {
  import opened HuffCommon
  import opened CodeTable
  import opened Encoder

  /** What `writeBits(BitsPerWord, v)` writes: the low 8 bits of v. */
  function LowByte(v: int): Byte
  {
    v % 256
  }

  /** Prepends `prefix` to a successful decoding; a failure stays a failure. */
  function Prepend(prefix: seq<Byte>, r: Result<seq<Byte>>): Result<seq<Byte>>
  {
    match r
    case Failure(e) => Failure(e)
    case Success(s) => Success(prefix + s)
  }

  /**
   * The decoding walk from node `current`: each bit moves to the left child (0)
   * or the right child (1). Reaching the PseudoEof leaf ends the payload; reaching
   * any other leaf writes its symbol and restarts at the root. Running out of bits
   * fails ("bad input"); stepping down from a leaf dereferences a null child.
   */
  function DecodeWalk(root: Tree, current: Tree, bits: seq<bool>): (r: Result<seq<Byte>>)
    ensures r.Failure? ==> r.error == TruncatedPayload || r.error == NullReference
    ensures current.Leaf? ==> r.Failure?
    decreases |bits|
  {
    if bits == [] then Failure(TruncatedPayload)
    else if current.Leaf? then Failure(NullReference)
    else
      var next := if bits[0] then current.right else current.left;
      if next.Node? then DecodeWalk(root, next, bits[1..])
      else if next.value == PseudoEof then Success([])
      else Prepend([LowByte(next.value)], DecodeWalk(root, root, bits[1..]))
  }

  lemma {:induction false} PrependTwice(a: seq<Byte>, b: seq<Byte>, r: Result<seq<Byte>>)
    ensures Prepend(a, Prepend(b, r)) == Prepend(a + b, r)
  {
    if r.Success? {
      assert a + (b + r.value) == (a + b) + r.value;
    }
  }

  /**
   * `readCompressedBits`: walks the tree bit by bit from the root, writing a byte
   * at every leaf other than PseudoEof, until it reaches PseudoEof.
   */
  method ReadCompressedBits(root: Tree, bits: seq<bool>) returns (r: Result<seq<Byte>>)
    ensures r == DecodeWalk(root, root, bits)
  {
    var current := root;
    var out: seq<Byte> := [];
    var i := 0;
    assert bits[0..] == bits;
    assert Prepend(out, DecodeWalk(root, current, bits)) == DecodeWalk(root, root, bits) by {
      var w := DecodeWalk(root, root, bits);
      if w.Success? {
        assert out + w.value == w.value;
      }
    }
    while true
      invariant 0 <= i <= |bits|
      invariant DecodeWalk(root, root, bits) == Prepend(out, DecodeWalk(root, current, bits[i..]))
      decreases |bits| - i
    {
      if i == |bits| {
        return Failure(TruncatedPayload);
      }
      var bit := bits[i];
      assert bits[i..][1..] == bits[i + 1..];
      i := i + 1;
      if current.Leaf? {
        return Failure(NullReference);
      }
      current := if bit then current.right else current.left;
      if current.Leaf? {
        if current.value == PseudoEof {
          assert out + [] == out;
          return Success(out);
        }
        PrependTwice(out, [LowByte(current.value)], DecodeWalk(root, root, bits[i..]));
        out := out + [LowByte(current.value)];
        current := root;
      }
    }
  }

  /**
   * Decoding step rule: from an internal node t, the bits of a symbol's code lead
   * to a leaf holding that symbol. The walk then stops if it is PseudoEof, and
   * otherwise writes the symbol and goes on from the root with the bits after the code.
   */
  lemma {:induction false} WalkCode(root: Tree, t: Tree, s: int, rest: seq<bool>)
    requires t.Node? && Code(t, s).Some?
    ensures DecodeWalk(root, t, Code(t, s).value + rest) ==
      if s == PseudoEof then Success([]) else Prepend([LowByte(s)], DecodeWalk(root, root, rest))
  {
    var c := Code(t, s).value;
    var bits := c + rest;
    var goRight := Code(t.left, s).None?;
    var next := if goRight then t.right else t.left;
    assert Code(next, s).Some? && c == [goRight] + Code(next, s).value;
    assert bits[0] == goRight;
    assert bits[1..] == Code(next, s).value + rest;
    if next.Node? {
      WalkCode(root, next, s, rest);
    }
  }

  /** A code cut short leaves the walk without bits: the payload is truncated. */
  lemma {:induction false} WalkCodePrefix(root: Tree, t: Tree, s: int, p: seq<bool>)
    requires t.Node? && Code(t, s).Some?
    requires |p| < |Code(t, s).value| && p == Code(t, s).value[..|p|]
    ensures DecodeWalk(root, t, p) == Failure(TruncatedPayload)
  {
    if p != [] {
      var c := Code(t, s).value;
      var goRight := Code(t.left, s).None?;
      var next := if goRight then t.right else t.left;
      assert Code(next, s).Some? && c == [goRight] + Code(next, s).value;
      assert p[0] == goRight;
      assert p[1..] == Code(next, s).value[..|p| - 1];
      WalkCodePrefix(root, next, s, p[1..]);
    }
  }

  /** The table holds exactly the codes of `root`, and `root` has the symbols the payload needs. */
  predicate Matches(root: Tree, table: Table, input: seq<Byte>)
  {
    && (forall s :: 0 <= s < |table| ==> table[s] == Code(root, s))
    && PseudoEof in Symbols(root)
    && (forall j :: 0 <= j < |input| ==> input[j] in Symbols(root))
  }

  /** Under a matching table, encoding succeeds. */
  lemma {:induction false} MatchingPayloadDefined(root: Tree, table: Table, input: seq<Byte>)
    requires Matches(root, table, input)
    ensures Payload(table, input).Success?
  {
    forall j | 0 <= j < |input| ensures table[input[j]].Some? {
      CodeDomain(root, input[j]);
    }
    CodeDomain(root, PseudoEof);
    PayloadDefined(table, input);
  }

  /** The payload of a non-empty input is the first byte's code followed by the payload of the rest. */
  lemma {:induction false} PayloadCons(root: Tree, table: Table, input: seq<Byte>)
    requires input != [] && Matches(root, table, input)
    ensures Matches(root, table, input[1..])
    ensures Payload(table, input).Success? && Payload(table, input[1..]).Success?
    ensures Code(root, input[0]).Some?
    ensures Payload(table, input).value == Code(root, input[0]).value + Payload(table, input[1..]).value
  {
    var tail := input[1..];
    assert forall j :: 0 <= j < |tail| ==> tail[j] == input[j + 1];
    MatchingPayloadDefined(root, table, input);
    MatchingPayloadDefined(root, table, tail);
    CodeDomain(root, input[0]);
    var head := table[input[0]].value;
    var rest := CodesOf(table, tail).value;
    var eof := table[PseudoEof].value;
    assert CodesOf(table, input) == Success(head + rest);
    assert (head + rest) + eof == head + (rest + eof);
  }

  /**
   * Lossless payload: under an internal root, decoding the payload of any input,
   * followed by any padding, gives back exactly that input.
   */
  lemma {:induction false} PayloadRoundTrip(root: Tree, table: Table, input: seq<Byte>, pad: seq<bool>)
    requires root.Node? && Matches(root, table, input)
    ensures Payload(table, input).Success?
    ensures DecodeWalk(root, root, Payload(table, input).value + pad) == Success(input)
  {
    MatchingPayloadDefined(root, table, input);
    if input == [] {
      assert CodesOf(table, input) == Success([]);
      CodeDomain(root, PseudoEof);
      var eof := Code(root, PseudoEof).value;
      assert Payload(table, input).value == eof + [];
      assert Payload(table, input).value + pad == eof + pad;
      WalkCode(root, root, PseudoEof, pad);
    } else {
      var x := input[0];
      PayloadCons(root, table, input);
      var after := Payload(table, input[1..]).value + pad;
      assert Payload(table, input).value + pad == Code(root, x).value + after;
      PayloadRoundTrip(root, table, input[1..], pad);
      WalkCode(root, root, x, after);
      assert [LowByte(x)] + input[1..] == input;
    }
  }

  /** Payload truncation: any proper prefix of the payload fails as truncated. */
  lemma {:induction false} PayloadTruncation(root: Tree, table: Table, input: seq<Byte>, p: seq<bool>)
    requires root.Node? && Matches(root, table, input)
    requires Payload(table, input).Success?
    requires |p| < |Payload(table, input).value| && p == Payload(table, input).value[..|p|]
    ensures DecodeWalk(root, root, p) == Failure(TruncatedPayload)
  {
    if input == [] {
      assert CodesOf(table, input) == Success([]);
      CodeDomain(root, PseudoEof);
      assert Payload(table, input).value == Code(root, PseudoEof).value + [];
      WalkCodePrefix(root, root, PseudoEof, p);
    } else {
      var x := input[0];
      PayloadCons(root, table, input);
      var c := Code(root, x).value;
      var full := Payload(table, input).value;
      if |p| < |c| {
        assert p == c[..|p|];
        WalkCodePrefix(root, root, x, p);
      } else {
        var p' := p[|c|..];
        assert p == c + p';
        assert p' == Payload(table, input[1..]).value[..|p'|];
        PayloadTruncation(root, table, input[1..], p');
        WalkCode(root, root, x, p');
      }
    }
  }
}
