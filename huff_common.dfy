/**
 * The vocabulary shared by every stage of the Huffman processor: its constants,
 * the tree of `HuffNode`s, and the errors a stage can end with.
 */
module HuffCommon {

  const BitsPerWord: nat := 8
  const BitsPerInt: nat := 32
  /** `1 << BitsPerWord`: the number of literal byte values. */
  const AlphSize: nat := 256
  /** The reserved end-of-stream symbol, one past the last byte value. */
  const PseudoEof: nat := AlphSize
  const HuffNumber: bv32 := 0xface8200
  /** The magic word that opens every compressed stream. */
  const HuffTree: bv32 := HuffNumber | 1

  /** A literal byte, as `readBits(BitsPerWord)` returns it when the input is not exhausted. */
  type Byte = x: int | 0 <= x < 256

  /**
   * A `HuffNode`. A node without children is a leaf carrying a symbol; a node
   * with children is internal, and the value the source stores in it (always 0)
   * is never read, so it is not kept here. Nodes rebuilt from a header have weight 0.
   */
  datatype Tree =
    | Leaf(value: int, weight: int)
    | Node(left: Tree, right: Tree, weight: int)

  /** The ways a stage fails: the `HuffException`s and the null dereferences of the source. */
  datatype Error =
    | BadMagic          // decompress: the first 32 bits are not HuffTree ("illegal")
    | TruncatedHeader   // readTreeHeader: no node-marker bit left ("invalid")
    | TruncatedPayload  // readCompressedBits: no bit left before the end symbol ("bad input")
    | NullReference     // a child of a leaf, or a code that was never assigned, is dereferenced
    | EmptyQueue        // makeTreeFromCounts: no positive count, so the final remove() finds nothing

  datatype Result<T> = Success(value: T) | Failure(error: Error)

  /** A Java reference that may be null. */
  datatype Option<T> = None | Some(value: T)

  /** The leaves of a tree, counted with multiplicity. */
  function LeafBag(t: Tree): (b: multiset<Tree>)
    ensures |b| >= 1
  {
    match t
    case Leaf(_, _) => multiset{t}
    case Node(l, r, _) => LeafBag(l) + LeafBag(r)
  }

  /** The number of leaves of a tree. */
  function LeafCount(t: Tree): nat
  {
    match t
    case Leaf(_, _) => 1
    case Node(l, r, _) => LeafCount(l) + LeafCount(r)
  }

  /** The symbols stored in the leaves of a tree. */
  function Symbols(t: Tree): set<int>
  {
    match t
    case Leaf(v, _) => {v}
    case Node(l, r, _) => Symbols(l) + Symbols(r)
  }

  /** Every internal node weighs what its two children weigh together. */
  predicate WellWeighted(t: Tree)
  {
    match t
    case Leaf(_, _) => true
    case Node(l, r, w) => w == l.weight + r.weight && WellWeighted(l) && WellWeighted(r)
  }

  /** The tree with every weight set to 0: what survives a trip through the header. */
  function Unweighted(t: Tree): (u: Tree)
    ensures u.Leaf? == t.Leaf?
  {
    match t
    case Leaf(v, _) => Leaf(v, 0)
    case Node(l, r, _) => Node(Unweighted(l), Unweighted(r), 0)
  }

  /** A single leaf has exactly one leaf; an internal node has at least two. */
  lemma {:induction false} LeafBagSize(t: Tree)
    ensures t.Leaf? <==> |LeafBag(t)| == 1
  {
    match t
    case Leaf(_, _) =>
    case Node(l, r, _) =>
      assert |LeafBag(l)| >= 1 && |LeafBag(r)| >= 1;
  }

  /** The symbols of a tree are the values of the leaves in its bag. */
  lemma {:induction false} SymbolsOfBag(t: Tree, v: int)
    ensures v in Symbols(t) <==> exists w :: Leaf(v, w) in LeafBag(t)
  {
    match t
    case Leaf(u, w) =>
      if v in Symbols(t) {
        assert Leaf(v, w) in LeafBag(t);
      }
    case Node(l, r, _) =>
      SymbolsOfBag(l, v);
      SymbolsOfBag(r, v);
      if v in Symbols(t) {
        if v in Symbols(l) {
          var w :| Leaf(v, w) in LeafBag(l);
          assert Leaf(v, w) in LeafBag(t);
        } else {
          var w :| Leaf(v, w) in LeafBag(r);
          assert Leaf(v, w) in LeafBag(t);
        }
      }
  }

  /** Dropping the weights keeps the shape and the symbols. */
  lemma {:induction false} UnweightedSymbols(t: Tree)
    ensures Symbols(Unweighted(t)) == Symbols(t)
  {
    match t
    case Leaf(_, _) =>
    case Node(l, r, _) =>
      UnweightedSymbols(l);
      UnweightedSymbols(r);
  }
}
