/**
 * The two entry points of `HuffProcessor`. A compressed stream is the magic
 * word HuffTree in 32 bits, the tree header, then the payload.
 */
module Processor {
  import opened Bits
  import opened HuffCommon
  import opened Counting
  import opened TreeBuilder
  import opened CodeTable
  import opened Header
  import opened Encoder
  import opened Decoder

  /** `writeBits(BitsPerInt, HuffTree)`: the magic word in 32 bits. */
  function MagicBits(): seq<bool>
  {
    ToBits(HuffTree as int, BitsPerInt)
  }

  /** A 32-bit word that reads back as HuffTree. */
  predicate IsMagic(m: seq<bool>)
  {
    |m| == BitsPerInt && FromBits(m) == HuffTree as int
  }

  /** The magic word reads back as HuffTree: it fits in 32 bits. */
  lemma {:induction false} MagicBitsValue()
    ensures IsMagic(MagicBits())
  {
    Pow2Of32();
    FromToBits(HuffTree as int, BitsPerInt);
  }

  /**
   * What `decompress` writes for a stream, or how it fails. A stream shorter
   * than 32 bits makes `readBits` answer -1, whose 32-bit pattern is not HuffTree,
   * so it is "illegal" like any other wrong magic word.
   */
  function DecompressSpec(bits: seq<bool>): Result<seq<Byte>>
  {
    if |bits| < BitsPerInt || FromBits(bits[..BitsPerInt]) != HuffTree as int then Failure(BadMagic)
    else match ReadTreeHeader(bits[BitsPerInt..])
      case Failure(e) => Failure(e)
      case Success(parsed) => DecodeWalk(parsed.0, parsed.0, parsed.1)
  }

  /**
   * `decompress`: checks the magic word, reads the tree header, then decodes the
   * payload with the tree it read. This is the method form of `DecompressSpec`,
   * with the decoding loop in `ReadCompressedBits`.
   */
  method Decompress(bits: seq<bool>) returns (r: Result<seq<Byte>>)
    ensures r == DecompressSpec(bits)
  {
    if |bits| < BitsPerInt || FromBits(bits[..BitsPerInt]) != HuffTree as int {
      return Failure(BadMagic);
    }
    var header := ReadTreeHeader(bits[BitsPerInt..]);
    if header.Failure? {
      return Failure(header.error);
    }
    var root := header.value.0;
    r := ReadCompressedBits(root, header.value.1);
  }

  /** Magic number: decompression rejects a stream as illegal exactly when it does not open with the magic word. */
  lemma {:induction false} MagicCheck(bits: seq<bool>)
    ensures DecompressSpec(bits) == Failure(BadMagic) <==>
      |bits| < BitsPerInt || bits[..BitsPerInt] != MagicBits()
  {
    MagicBitsValue();
    if |bits| >= BitsPerInt && FromBits(bits[..BitsPerInt]) == HuffTree as int {
      ToFromBits(bits[..BitsPerInt]);
    }
  }

  /** After the magic word and the header of t, decompression decodes the rest with t (less its weights). */
  lemma {:induction false} DecompressAfterHeader(m: seq<bool>, t: Tree, rest: seq<bool>)
    requires IsMagic(m) && SymbolsFit(t)
    ensures DecompressSpec(m + WriteHeader(t) + rest) == DecodeWalk(Unweighted(t), Unweighted(t), rest)
  {
    var bits := m + WriteHeader(t) + rest;
    assert bits[..BitsPerInt] == m;
    assert bits[BitsPerInt..] == WriteHeader(t) + rest;
    HeaderRoundTrip(t, rest);
  }

  /** The tree read back from the header has the same codes and symbols as the tree written. */
  lemma {:induction false} UnweightedMatches(root: Tree, table: Table, input: seq<Byte>)
    requires Matches(root, table, input)
    ensures Matches(Unweighted(root), table, input)
  {
    UnweightedSymbols(root);
    forall s | 0 <= s < |table| ensures table[s] == Code(Unweighted(root), s) {
      UnweightedCode(root, s);
    }
  }

  /** The stream `compress` writes: the magic word, the header of the tree, the payload. */
  function Stream(m: seq<bool>, root: Tree, payload: seq<bool>): seq<bool>
  {
    m + WriteHeader(root) + payload
  }

  /**
   * The stream for an internal root decompresses to the input, whatever bits
   * follow it (the output stream pads the last byte).
   */
  lemma {:induction false} StreamRoundTrip(m: seq<bool>, root: Tree, table: Table, input: seq<Byte>, pad: seq<bool>)
    requires IsMagic(m) && root.Node? && SymbolsFit(root) && Matches(root, table, input)
    ensures Payload(table, input).Success?
    ensures DecompressSpec(Stream(m, root, Payload(table, input).value) + pad) == Success(input)
  {
    MatchingPayloadDefined(root, table, input);
    var payload := Payload(table, input).value;
    assert Stream(m, root, payload) + pad == m + WriteHeader(root) + (payload + pad);
    DecompressAfterHeader(m, root, payload + pad);
    UnweightedMatches(root, table, input);
    PayloadRoundTrip(Unweighted(root), table, input, pad);
  }

  /** Truncation: every proper prefix of a stream fails to decompress. */
  lemma {:induction false} StreamTruncation(m: seq<bool>, root: Tree, table: Table, input: seq<Byte>, n: nat)
    requires IsMagic(m) && SymbolsFit(root) && Matches(root, table, input)
    requires Payload(table, input).Success?
    requires n < |Stream(m, root, Payload(table, input).value)|
    ensures DecompressSpec(Stream(m, root, Payload(table, input).value)[..n]).Failure?
  {
    var header := WriteHeader(root);
    var payload := Payload(table, input).value;
    var p := Stream(m, root, payload)[..n];
    if n < BitsPerInt {
      assert DecompressSpec(p) == Failure(BadMagic);
    } else if n < BitsPerInt + |header| {
      var h := header[..n - BitsPerInt];
      assert p == m + h;
      HeaderCut(m, root, h);
    } else {
      var q := payload[..n - BitsPerInt - |header|];
      assert p == m + header + q;
      PayloadCut(m, root, table, input, q);
    }
  }

  /** A stream cut inside its header fails to decompress. */
  lemma {:induction false} HeaderCut(m: seq<bool>, t: Tree, h: seq<bool>)
    requires IsMagic(m) && SymbolsFit(t)
    requires |h| < |WriteHeader(t)| && h == WriteHeader(t)[..|h|]
    ensures DecompressSpec(m + h).Failure?
  {
    var bits := m + h;
    assert bits[..BitsPerInt] == m;
    assert bits[BitsPerInt..] == h;
    HeaderTruncation(t, h);
  }

  /** A stream cut inside its payload fails to decompress. */
  lemma {:induction false} PayloadCut(m: seq<bool>, root: Tree, table: Table, input: seq<Byte>, q: seq<bool>)
    requires IsMagic(m) && SymbolsFit(root) && Matches(root, table, input)
    requires Payload(table, input).Success?
    requires |q| < |Payload(table, input).value| && q == Payload(table, input).value[..|q|]
    ensures DecompressSpec(m + WriteHeader(root) + q).Failure?
  {
    DecompressAfterHeader(m, root, q);
    if root.Node? {
      UnweightedMatches(root, table, input);
      PayloadTruncation(Unweighted(root), table, input, q);
    }
  }

  /**
   * `compress`: counts the input, builds the tree and its code table, then writes
   * the magic word, the header and the payload. Any non-empty input comes back
   * unchanged from `decompress`, and no proper prefix of the stream decompresses.
   * An empty input gives a lone PseudoEof leaf as the tree, whose stream does not
   * decompress.
   */
  method Compress(input: seq<Byte>) returns (out: seq<bool>)
    ensures |out| >= BitsPerInt && out[..BitsPerInt] == MagicBits()
    ensures input != [] ==> forall pad :: DecompressSpec(out + pad) == Success(input)
    ensures input == [] ==> forall pad :: DecompressSpec(out + pad).Failure?
    ensures forall n :: 0 <= n < |out| ==> DecompressSpec(out[..n]).Failure?
  {
    var freq := ReadForCounts(input);
    var built := MakeTreeFromCounts(freq);
    assert freq[PseudoEof] > 0;
    var root := built.value;
    BuiltTreeSymbols(freq, root);
    var codings := MakeCodingsFromTree(root);
    var payload := WriteCompressedBits(codings, input);
    if input != [] {
      NonEmptyInputHasTwoSymbols(input, freq);
    }
    MagicBitsValue();
    CompressedStream(MagicBits(), input, freq, root, codings);
    out := MagicBits() + WriteHeader(root) + payload.value;
  }

  /** The symbols of the built tree are symbols of the count table. */
  lemma {:induction false} BuiltTreeSymbols(freq: seq<int>, root: Tree)
    requires |freq| == AlphSize + 1
    requires LeafBag(root) == multiset(InitialLeaves(freq))
    ensures forall v :: v in Symbols(root) ==> 0 <= v <= PseudoEof
  {
    BuiltTreeLeaves(freq, root);
  }

  /**
   * The stream built from an input's counts, tree and code table: it opens with
   * the magic word; it decompresses to the input when the tree is internal, and
   * fails when the input is empty; and its proper prefixes fail.
   */
  lemma {:induction false} CompressedStream(m: seq<bool>, input: seq<Byte>, freq: seq<int>, root: Tree, table: Table)
    requires IsMagic(m)
    requires |freq| == AlphSize + 1 && freq[PseudoEof] == 1
    requires forall b :: 0 <= b < AlphSize ==> freq[b] == multiset(input)[b]
    requires LeafBag(root) == multiset(InitialLeaves(freq))
    requires input != [] ==> root.Node?
    requires forall s :: 0 <= s < |table| ==> table[s] == Code(root, s)
    ensures Payload(table, input).Success?
    ensures var out := Stream(m, root, Payload(table, input).value);
      && |out| >= BitsPerInt && out[..BitsPerInt] == m
      && (input != [] ==> forall pad :: DecompressSpec(out + pad) == Success(input))
      && (input == [] ==> forall pad :: DecompressSpec(out + pad).Failure?)
      && (forall n :: 0 <= n < |out| ==> DecompressSpec(out[..n]).Failure?)
  {
    BuiltTreeLeaves(freq, root);
    SymbolsFitBuilt(input, freq, root);
    MatchingPayloadDefined(root, table, input);
    var payload := Payload(table, input).value;
    assert Stream(m, root, payload)[..BitsPerInt] == m;
    if input != [] {
      StreamDecompresses(m, root, table, input);
    } else {
      SingleSymbolTree(freq, PseudoEof, root);
      LoneLeafStreamFails(m, root, payload);
    }
    StreamPrefixesFail(m, root, table, input);
  }

  lemma {:induction false} StreamDecompresses(m: seq<bool>, root: Tree, table: Table, input: seq<Byte>)
    requires IsMagic(m) && root.Node? && SymbolsFit(root) && Matches(root, table, input)
    ensures Payload(table, input).Success?
    ensures forall pad :: DecompressSpec(Stream(m, root, Payload(table, input).value) + pad) == Success(input)
  {
    MatchingPayloadDefined(root, table, input);
    forall pad ensures DecompressSpec(Stream(m, root, Payload(table, input).value) + pad) == Success(input) {
      StreamRoundTrip(m, root, table, input, pad);
    }
  }

  /** A stream whose tree is a lone leaf does not decompress, whatever follows it. */
  lemma {:induction false} LoneLeafStreamFails(m: seq<bool>, root: Tree, payload: seq<bool>)
    requires IsMagic(m) && root.Leaf? && 0 <= root.value < Pow2(SymbolBits)
    ensures forall pad :: DecompressSpec(Stream(m, root, payload) + pad).Failure?
  {
    assert root.value in Symbols(root);
    forall pad ensures DecompressSpec(Stream(m, root, payload) + pad).Failure? {
      assert Stream(m, root, payload) + pad == m + WriteHeader(root) + (payload + pad);
      DecompressAfterHeader(m, root, payload + pad);
    }
  }

  lemma {:induction false} StreamPrefixesFail(m: seq<bool>, root: Tree, table: Table, input: seq<Byte>)
    requires IsMagic(m) && SymbolsFit(root) && Matches(root, table, input)
    requires Payload(table, input).Success?
    ensures forall n :: 0 <= n < |Stream(m, root, Payload(table, input).value)| ==>
      DecompressSpec(Stream(m, root, Payload(table, input).value)[..n]).Failure?
  {
    forall n | 0 <= n < |Stream(m, root, Payload(table, input).value)|
      ensures DecompressSpec(Stream(m, root, Payload(table, input).value)[..n]).Failure?
    {
      StreamTruncation(m, root, table, input, n);
    }
  }

  /**
   * The tree built from the counts of an input has PseudoEof and every byte of
   * the input among its symbols, and no symbol beyond PseudoEof.
   */
  lemma {:induction false} SymbolsFitBuilt(input: seq<Byte>, freq: seq<int>, root: Tree)
    requires |freq| == AlphSize + 1 && freq[PseudoEof] == 1
    requires forall b :: 0 <= b < AlphSize ==> freq[b] == multiset(input)[b]
    requires forall v :: v in Symbols(root) <==> 0 <= v < |freq| && freq[v] > 0
    ensures SymbolsFit(root) && PseudoEof in Symbols(root)
    ensures forall j :: 0 <= j < |input| ==> input[j] in Symbols(root)
  {
    assert Pow2(SymbolBits) == 512;
    forall j | 0 <= j < |input| ensures input[j] in Symbols(root) {
      assert input[j] in multiset(input);
    }
  }
}
