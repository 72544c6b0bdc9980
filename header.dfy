/**
 * The tree header (`writeHeader`, `readTreeHeader`): the tree in pre-order, a
 * 0 bit for an internal node, a 1 bit followed by the 9-bit symbol for a leaf.
 */
module Header {
  import opened Bits
  import opened HuffCommon

  /** The width of a symbol in the header: enough for 0..PseudoEof. */
  const SymbolBits: nat := BitsPerWord + 1

  /** Every symbol of the tree fits in SymbolBits bits. */
  predicate SymbolsFit(t: Tree)
  {
    forall v :: v in Symbols(t) ==> 0 <= v < Pow2(SymbolBits)
  }

  lemma {:induction false} SubtreesFit(t: Tree)
    requires t.Node? && SymbolsFit(t)
    ensures SymbolsFit(t.left) && SymbolsFit(t.right)
  {
    forall v | v in Symbols(t.left) ensures 0 <= v < Pow2(SymbolBits) {
      assert v in Symbols(t);
    }
    forall v | v in Symbols(t.right) ensures 0 <= v < Pow2(SymbolBits) {
      assert v in Symbols(t);
    }
  }

  /**
   * The pre-order serialisation that `readTreeHeader` inverts. Its first bit
   * tells a leaf from an internal node, and every header holds at least one
   * leaf's marker and 9-bit symbol.
   */
  function WriteHeader(t: Tree): (r: seq<bool>)
    ensures |r| >= 1 + SymbolBits
    ensures r[0] <==> t.Leaf?
  {
    match t
    case Leaf(v, _) => [true] + ToBits(v, SymbolBits)
    case Node(l, r, _) => [false] + WriteHeader(l) + WriteHeader(r)
  }

  /**
   * Header size: a full binary tree with n leaves has n - 1 internal nodes, so
   * its header takes 10 bits per leaf and 1 per internal node, 11n - 1 in all.
   */
  lemma {:induction false} HeaderLength(t: Tree)
    ensures |WriteHeader(t)| == 11 * LeafCount(t) - 1
  {
    match t
    case Leaf(_, _) =>
    case Node(l, r, _) =>
      HeaderLength(l);
      HeaderLength(r);
  }

  /**
   * `readTreeHeader`: parses one tree off the front of the stream and returns it
   * with the bits after it. A missing marker bit fails. The 9-bit read of a leaf
   * is not checked: when fewer than 9 bits remain the reader answers -1, which
   * becomes the leaf's symbol, and the reader is exhausted from then on.
   */
  function ReadTreeHeader(bits: seq<bool>): (r: Result<(Tree, seq<bool>)>)
    ensures r.Failure? ==> r.error == TruncatedHeader
    ensures r.Success? ==> |r.value.1| < |bits| && r.value.1 == bits[|bits| - |r.value.1|..]
    ensures r.Success? && -1 in Symbols(r.value.0) ==> r.value.1 == []
    decreases |bits|
  {
    if bits == [] then Failure(TruncatedHeader)
    else if !bits[0] then
      match ReadTreeHeader(bits[1..])
      case Failure(e) => Failure(e)
      case Success(left) =>
        match ReadTreeHeader(left.1)
        case Failure(e) => Failure(e)
        case Success(right) => Success((Node(left.0, right.0, 0), right.1))
    else if |bits| < 1 + SymbolBits then Success((Leaf(-1, 0), []))
    else Success((Leaf(FromBits(bits[1..1 + SymbolBits]), 0), bits[1 + SymbolBits..]))
  }

  /**
   * Header round trip: parsing the header of a tree rebuilds the tree's shape and
   * symbols (weights are not stored, so they come back as 0), consumes exactly the
   * header, and leaves whatever follows it untouched.
   */
  lemma {:induction false} HeaderRoundTrip(t: Tree, rest: seq<bool>)
    requires SymbolsFit(t)
    ensures ReadTreeHeader(WriteHeader(t) + rest) == Success((Unweighted(t), rest))
  {
    match t
    case Leaf(v, _) =>
      assert v in Symbols(t);
      LeafRoundTrip(v, rest);
    case Node(l, r, _) =>
      SubtreesFit(t);
      HeaderRoundTrip(l, WriteHeader(r) + rest);
      HeaderRoundTrip(r, rest);
      NodeRoundTrip(t, rest);
  }

  lemma {:induction false} NodeRoundTrip(t: Tree, rest: seq<bool>)
    requires t.Node?
    requires var after := WriteHeader(t.right) + rest;
      ReadTreeHeader(WriteHeader(t.left) + after) == Success((Unweighted(t.left), after))
    requires ReadTreeHeader(WriteHeader(t.right) + rest) == Success((Unweighted(t.right), rest))
    ensures ReadTreeHeader(WriteHeader(t) + rest) == Success((Unweighted(t), rest))
  {
    var after := WriteHeader(t.right) + rest;
    var tail := WriteHeader(t.left) + after;
    HeaderSplit(t, rest);
    InternalMarker(tail);
  }

  lemma {:induction false} HeaderSplit(t: Tree, rest: seq<bool>)
    requires t.Node?
    ensures WriteHeader(t) + rest == [false] + (WriteHeader(t.left) + (WriteHeader(t.right) + rest))
  {
  }

  /** Parsing a stream that starts with a 0 bit parses two trees off the rest. */
  lemma {:induction false} InternalMarker(tail: seq<bool>)
    ensures ReadTreeHeader([false] + tail) ==
      match ReadTreeHeader(tail)
      case Failure(e) => Failure(e)
      case Success(left) =>
        match ReadTreeHeader(left.1)
        case Failure(e) => Failure(e)
        case Success(right) => Success((Node(left.0, right.0, 0), right.1))
  {
    assert ([false] + tail)[1..] == tail;
  }

  lemma {:induction false} LeafRoundTrip(v: int, rest: seq<bool>)
    requires 0 <= v < Pow2(SymbolBits)
    ensures ReadTreeHeader([true] + ToBits(v, SymbolBits) + rest) == Success((Leaf(v, 0), rest))
  {
    var bits := [true] + ToBits(v, SymbolBits) + rest;
    assert bits[1..1 + SymbolBits] == ToBits(v, SymbolBits);
    assert bits[1 + SymbolBits..] == rest;
    FromToBits(v, SymbolBits);
  }

  /**
   * Header truncation: a header cut short never yields a usable tree. Either a
   * marker bit is missing and parsing fails, or a leaf's symbol was cut, which
   * leaves a -1 leaf and an exhausted stream.
   */
  lemma {:induction false} HeaderTruncation(t: Tree, p: seq<bool>)
    requires SymbolsFit(t)
    requires |p| < |WriteHeader(t)| && p == WriteHeader(t)[..|p|]
    ensures var r := ReadTreeHeader(p);
      r == Failure(TruncatedHeader) || (-1 in Symbols(r.value.0) && r.value.1 == [])
  {
    if p != [] {
      match t
      case Leaf(_, _) =>
      case Node(l, r, _) =>
        SubtreesFit(t);
        var hl := WriteHeader(l);
        var q := p[1..];
        NodePrefix(t, p);
        if |q| < |hl| {
          HeaderTruncation(l, q);
          CutInLeftChild(q);
        } else {
          var q' := q[|hl|..];
          HeaderRoundTrip(l, q');
          HeaderTruncation(r, q');
          CutInRightChild(q, Unweighted(l), q');
        }
    }
  }

  /**
   * A proper prefix of an internal node's header is its 0 marker followed by a
   * proper prefix of the left header, or by the whole left header and a proper
   * prefix of the right header.
   */
  lemma {:induction false} NodePrefix(t: Tree, p: seq<bool>)
    requires t.Node? && 0 < |p| < |WriteHeader(t)| && p == WriteHeader(t)[..|p|]
    ensures p == [false] + p[1..]
    ensures |p| - 1 < |WriteHeader(t.left)| ==> p[1..] == WriteHeader(t.left)[..|p| - 1]
    ensures |p| - 1 >= |WriteHeader(t.left)| ==>
      var q' := p[1..][|WriteHeader(t.left)|..];
      p[1..] == WriteHeader(t.left) + q' && |q'| < |WriteHeader(t.right)| && q' == WriteHeader(t.right)[..|q'|]
  {
    var hl, hr := WriteHeader(t.left), WriteHeader(t.right);
    var q := p[1..];
    assert WriteHeader(t) == [false] + (hl + hr);
    assert q == (hl + hr)[..|q|];
    PrefixOfConcat(hl, hr, |q|);
  }

  /** A prefix of a + b is a prefix of a, or a followed by a prefix of b. */
  lemma {:induction false} PrefixOfConcat(a: seq<bool>, b: seq<bool>, n: nat)
    requires n <= |a + b|
    ensures n <= |a| ==> (a + b)[..n] == a[..n]
    ensures n > |a| ==> (a + b)[..n] == a + b[..n - |a|]
  {
    if n > |a| {
      assert (a + b)[..n] == a + b[..n - |a|];
    }
  }

  /** A cut inside the left subtree's header leaves nothing for the right subtree. */
  lemma {:induction false} CutInLeftChild(q: seq<bool>)
    requires var r := ReadTreeHeader(q);
      r == Failure(TruncatedHeader) || (-1 in Symbols(r.value.0) && r.value.1 == [])
    ensures ReadTreeHeader([false] + q) == Failure(TruncatedHeader)
  {
    InternalMarker(q);
  }

  /** A cut inside the right subtree's header is reported as that subtree's cut. */
  lemma {:induction false} CutInRightChild(q: seq<bool>, left: Tree, q': seq<bool>)
    requires ReadTreeHeader(q) == Success((left, q'))
    requires var r := ReadTreeHeader(q');
      r == Failure(TruncatedHeader) || (-1 in Symbols(r.value.0) && r.value.1 == [])
    ensures var r := ReadTreeHeader([false] + q);
      r == Failure(TruncatedHeader) || (-1 in Symbols(r.value.0) && r.value.1 == [])
  {
    InternalMarker(q);
  }

  function LeftChild(t: Tree): Option<Tree>
  {
    if t.Node? then Some(t.left) else None
  }

  function RightChild(t: Tree): Option<Tree>
  {
    if t.Node? then Some(t.right) else None
  }

  /**
   * `writeHeader` as written, followed for at most `passes` passes of its
   * `while (true)` loop (all nested calls share the budget). Each pass writes the
   * marker of `root` (never of a descendant) and calls itself on root's children;
   * a call on null returns at once. Gives whether the call returned, and the bits
   * written so far. Within any budget it returns only when called on null.
   */
  function AsWrittenWriteHeader(root: Option<Tree>, passes: nat): (r: (bool, seq<bool>))
    ensures r.0 <==> root.None?
    decreases passes
  {
    if root.None? then (true, [])
    else if passes == 0 then (false, [])
    else
      var t := root.value;
      var mark := if t.Leaf? then [true] + ToBits(t.value, SymbolBits) else [false];
      var left := AsWrittenWriteHeader(LeftChild(t), passes - 1);
      if !left.0 then (false, mark + left.1)
      else
        var right := AsWrittenWriteHeader(RightChild(t), passes - 1);
        if !right.0 then (false, mark + left.1 + right.1)
        else
          var again := AsWrittenWriteHeader(root, passes - 1);
          (again.0, mark + left.1 + right.1 + again.1)
  }

  /**
   * However many passes it is given, the literal `writeHeader` never returns on
   * a tree; on a single leaf it writes that leaf's 10 bits once per pass.
   */
  lemma {:induction false} AsWrittenWriteHeaderNeverReturns(t: Tree, passes: nat)
    ensures !AsWrittenWriteHeader(Some(t), passes).0
    ensures t.Leaf? ==> |AsWrittenWriteHeader(Some(t), passes).1| == (1 + SymbolBits) * passes
  {
    if passes > 0 {
      match t
      case Leaf(_, _) =>
        AsWrittenWriteHeaderNeverReturns(t, passes - 1);
      case Node(l, _, _) =>
        AsWrittenWriteHeaderNeverReturns(l, passes - 1);
    }
  }
}
