/**
 * The code table (`makeCodingsFromTree`, `codingHelper`). A leaf's code is the
 * direction path from the root to it: `false` (0) for a left branch, `true` (1)
 * for a right branch, the meaning the decoder gives to bits.
 */
module CodeTable {
  import opened HuffCommon

  /**
   * The code of symbol s in t: the path to a leaf holding s. Should two leaves
   * hold s, the one in the left subtree wins, as it does in the source, where the
   * left subtree is visited last and overwrites the right one's entry.
   */
  function Code(t: Tree, s: int): Option<seq<bool>>
  {
    match t
    case Leaf(v, _) => if v == s then Some([]) else None
    case Node(l, r, _) =>
      var left := Code(l, s);
      if left.Some? then Some([false] + left.value)
      else
        var right := Code(r, s);
        if right.Some? then Some([true] + right.value) else None
  }

  /** The subtree reached from t by following a direction path, unless the path runs past a leaf. */
  function Follow(t: Tree, path: seq<bool>): Option<Tree>
  {
    if path == [] then Some(t)
    else match t
      case Leaf(_, _) => None
      case Node(l, r, _) => Follow(if path[0] then r else l, path[1..])
  }

  predicate IsPrefix(a: seq<bool>, b: seq<bool>)
  {
    |a| <= |b| && b[..|a|] == a
  }

  /** Exactly the symbols stored in the tree get a code. */
  lemma {:induction false} CodeDomain(t: Tree, s: int)
    ensures Code(t, s).Some? <==> s in Symbols(t)
  {
    match t
    case Leaf(_, _) =>
    case Node(l, r, _) =>
      CodeDomain(l, s);
      CodeDomain(r, s);
  }

  /**
   * A code is a root-to-leaf path: following it from the root ends on a leaf
   * holding the symbol, and under an internal root it is never empty.
   */
  lemma {:induction false} CodeIsPathToLeaf(t: Tree, s: int)
    requires Code(t, s).Some?
    ensures t.Node? ==> |Code(t, s).value| >= 1
    ensures var f := Follow(t, Code(t, s).value);
      f.Some? && f.value.Leaf? && f.value.value == s
  {
    match t
    case Leaf(_, _) =>
    case Node(l, r, _) =>
      var c := Code(t, s).value;
      if Code(l, s).Some? {
        CodeIsPathToLeaf(l, s);
        assert c[1..] == Code(l, s).value;
      } else {
        CodeIsPathToLeaf(r, s);
        assert c[1..] == Code(r, s).value;
      }
  }

  /** Prefix-code validity: the code of one symbol is never a prefix of another symbol's code. */
  lemma {:induction false} PrefixFree(t: Tree, s1: int, s2: int)
    requires s1 != s2 && Code(t, s1).Some? && Code(t, s2).Some?
    ensures !IsPrefix(Code(t, s1).value, Code(t, s2).value)
  {
    match t
    case Leaf(_, _) =>
    case Node(l, r, _) =>
      var c1, c2 := Code(t, s1).value, Code(t, s2).value;
      if IsPrefix(c1, c2) {
        assert c2[0] == c1[0];
        if Code(l, s1).Some? {
          var d1, d2 := Code(l, s1).value, Code(l, s2).value;
          assert Code(l, s2).Some?;
          PrefixFree(l, s1, s2);
        } else {
          assert Code(l, s2).None? && Code(r, s2).Some?;
          var d1, d2 := Code(r, s1).value, Code(r, s2).value;
          assert d2[..|d1|] == c2[1..][..|d1|];
          PrefixFree(r, s1, s2);
        }
      }
  }

  /** Codes depend on the shape and the symbols only, not on the weights. */
  lemma {:induction false} UnweightedCode(t: Tree, s: int)
    ensures Code(Unweighted(t), s) == Code(t, s)
  {
    match t
    case Leaf(_, _) =>
    case Node(l, r, _) =>
      UnweightedCode(l, s);
      UnweightedCode(r, s);
  }

  /**
   * `codingHelper`: records in `encodings` the code of every leaf below t,
   * each prefixed by the path that leads to t; other entries keep their value.
   */
  method CodingHelper(t: Tree, path: seq<bool>, encodings: array<Option<seq<bool>>>)
    requires forall v :: v in Symbols(t) ==> 0 <= v < encodings.Length
    modifies encodings
    ensures forall s :: 0 <= s < encodings.Length ==>
      encodings[s] == (if Code(t, s).Some? then Some(path + Code(t, s).value) else old(encodings[s]))
    decreases t
  {
    match t
    case Leaf(v, _) =>
      assert v in Symbols(t);
      encodings[v] := Some(path);
      assert path + [] == path;
    case Node(l, r, _) =>
      assert forall v :: v in Symbols(l) ==> v in Symbols(t);
      assert forall v :: v in Symbols(r) ==> v in Symbols(t);
      CodingHelper(r, path + [true], encodings);
      CodingHelper(l, path + [false], encodings);
      forall s | 0 <= s < encodings.Length && Code(t, s).Some?
        ensures encodings[s] == Some(path + Code(t, s).value)
      {
        if Code(l, s).Some? {
          assert path + [false] + Code(l, s).value == path + ([false] + Code(l, s).value);
        } else {
          assert path + [true] + Code(r, s).value == path + ([true] + Code(r, s).value);
        }
      }
  }

  /**
   * `makeCodingsFromTree`: a table with a slot per symbol holding the symbol's
   * code, or nothing (a null entry) for a symbol not in the tree. The source fills
   * the table 257 times over; every pass after the first rewrites the same codes.
   */
  method MakeCodingsFromTree(root: Tree) returns (codings: seq<Option<seq<bool>>>)
    requires forall v :: v in Symbols(root) ==> 0 <= v <= PseudoEof
    ensures |codings| == AlphSize + 1
    ensures forall s :: 0 <= s < |codings| ==> codings[s] == Code(root, s)
  {
    var encodings := new Option<seq<bool>>[AlphSize + 1](_ => None);
    for i := 0 to encodings.Length
      invariant forall s :: 0 <= s < encodings.Length ==>
        encodings[s] == (if i == 0 then None else Code(root, s))
    {
      CodingHelper(root, [], encodings);
      forall s | 0 <= s < encodings.Length && Code(root, s).Some?
        ensures encodings[s] == Code(root, s)
      {
        assert [] + Code(root, s).value == Code(root, s).value;
      }
    }
    codings := encodings[..];
  }

  /** Java's decimal rendering of an int, as `String + int` produces it. */
  function Decimal(n: int): string
  {
    if n < 0 then "-" + Digits(-n) else Digits(n)
  }

  function Digits(n: nat): string
  {
    if n < 10 then ["0123456789"[n]] else Digits(n / 10) + ["0123456789"[n % 10]]
  }

  /**
   * `codingHelper` as written: every node visited appends its stored value in
   * decimal (0 for an internal node, as `makeTreeFromCounts` builds them) to the
   * path, where a direction digit was meant. Every leaf still gets an entry.
   */
  function AsWrittenCodings(t: Tree, path: string): (m: map<int, string>)
    ensures m.Keys == Symbols(t)
  {
    match t
    case Leaf(v, _) => map[v := path + Decimal(v)]
    case Node(l, r, _) => AsWrittenCodings(r, path + "0") + AsWrittenCodings(l, path + "0")
  }

  /**
   * For the tree with byte 65 on the left and PseudoEof on the right, the code
   * written for 65 is "065", which `Integer.parseInt(code, 2)` rejects, while the
   * direction path is the single bit 0.
   */
  lemma {:induction false} AsWrittenCodeIsNotBinary()
    ensures var t := Node(Leaf(65, 1), Leaf(PseudoEof, 1), 2);
      && AsWrittenCodings(t, "")[65] == "065"
      && AsWrittenCodings(t, "")[PseudoEof] == "0256"
      && Code(t, 65) == Some([false])
      && Code(t, PseudoEof) == Some([true])
  {
    assert Digits(65) == "65";
    assert Digits(256) == "256";
    assert Code(Leaf(65, 1), 65) == Some([]);
    assert Code(Leaf(PseudoEof, 1), 65) == None;
    assert Code(Leaf(65, 1), PseudoEof) == None;
    assert Code(Leaf(PseudoEof, 1), PseudoEof) == Some([]);
    assert [false] + [] == [false] && [true] + [] == [true];
  }
}
