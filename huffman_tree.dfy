/**
 * The Huffman tree of huff.cpp (struct Node) as a value, with the meaning of
 * the recursive traversals over it: the pre-order serialisation
 * (SerializeHuffmanTree), its parser (DeserializeHuffmanTree), the
 * symbol-to-code map built during serialisation, and the root-to-leaf walk
 * that decodes one symbol (DecodeHuffmanTree).
 */
module HuffmanTree {
  import opened Options
  import opened Bits

  /**
   * A node: a leaf holds a symbol and its frequency, an internal node its two
   * children and a frequency. The C++ node tells the two apart by a null
   * `left` link; the per-node `code` string is not kept (the path is passed
   * down the traversals instead).
   */
  datatype Tree = Leaf(sym: Byte, f: nat) | Node(left: Tree, right: Tree, f: nat)

  /** The leaves of a tree, with their frequencies. */
  function Leaves(t: Tree): multiset<Tree>
  {
    match t
    case Leaf(_, _) => multiset{t}
    case Node(l, r, _) => Leaves(l) + Leaves(r)
  }

  /** The symbols on the leaves of a tree, with repetitions. */
  function Syms(t: Tree): multiset<Byte>
  {
    match t
    case Leaf(s, _) => multiset{s}
    case Node(l, r, _) => Syms(l) + Syms(r)
  }

  /** The number of internal nodes. */
  function InternalCount(t: Tree): nat
  {
    match t
    case Leaf(_, _) => 0
    case Node(l, r, _) => InternalCount(l) + 1 + InternalCount(r)
  }

  /** Every internal node's frequency is the sum of its children's. */
  ghost predicate WellWeighted(t: Tree)
  {
    match t
    case Leaf(_, _) => true
    case Node(l, r, f) => f == l.f + r.f && WellWeighted(l) && WellWeighted(r)
  }

  /** No symbol is on two leaves. */
  ghost predicate Distinct(t: Tree)
  {
    forall x :: Syms(t)[x] <= 1
  }

  /**
   * The tree as DeserializeHuffmanTree rebuilds it: same shape and symbols,
   * every frequency 0 (the value `new Node()` gives).
   */
  function Strip(t: Tree): Tree
  {
    match t
    case Leaf(s, _) => Leaf(s, 0)
    case Node(l, r, _) => Node(Strip(l), Strip(r), 0)
  }

  /** A strict binary tree has one more leaf than internal nodes. */
  lemma {:induction false} LeafCount(t: Tree)
    ensures |Leaves(t)| == InternalCount(t) + 1
  {
    match t
    case Leaf(_, _) =>
    case Node(l, r, _) =>
      LeafCount(l);
      LeafCount(r);
  }

  // ---------------------------------------------------------------------------
  // Forests: the sequences of trees the frequency table and the heap hold

  /** The sum of the frequencies of a sequence of trees. */
  function Weight(ts: seq<Tree>): nat
  {
    if ts == [] then 0 else ts[0].f + Weight(ts[1..])
  }

  /** The leaves of all trees of a sequence. */
  function ForestLeaves(ts: seq<Tree>): multiset<Tree>
  {
    if ts == [] then multiset{} else Leaves(ts[0]) + ForestLeaves(ts[1..])
  }

  /** The leaf symbols of all trees of a sequence. */
  function ForestSyms(ts: seq<Tree>): multiset<Byte>
  {
    if ts == [] then multiset{} else Syms(ts[0]) + ForestSyms(ts[1..])
  }

  /** Weight, leaves and symbols of a concatenation add up. */
  lemma {:induction false} ForestConcat(a: seq<Tree>, b: seq<Tree>)
    ensures Weight(a + b) == Weight(a) + Weight(b)
    ensures ForestLeaves(a + b) == ForestLeaves(a) + ForestLeaves(b)
    ensures ForestSyms(a + b) == ForestSyms(a) + ForestSyms(b)
  {
    if a == [] {
      assert a + b == b;
    } else {
      assert (a + b)[1..] == a[1..] + b;
      ForestConcat(a[1..], b);
    }
  }

  /** Weight, leaves and symbols of a one-tree forest are the tree's. */
  lemma ForestSingle(t: Tree)
    ensures Weight([t]) == t.f && ForestLeaves([t]) == Leaves(t) && ForestSyms([t]) == Syms(t)
  {
    assert [t][1..] == [];
  }

  /** Taking out tree i leaves the rest's weight, leaves and symbols. */
  lemma ForestRemove(ts: seq<Tree>, i: nat)
    requires i < |ts|
    ensures Weight(ts) == Weight(ts[..i] + ts[i + 1..]) + ts[i].f
    ensures ForestLeaves(ts) == ForestLeaves(ts[..i] + ts[i + 1..]) + Leaves(ts[i])
    ensures ForestSyms(ts) == ForestSyms(ts[..i] + ts[i + 1..]) + Syms(ts[i])
  {
    SplitAt(ts, i);
    ForestConcat(ts[..i], [ts[i]] + ts[i + 1..]);
    ForestConcat([ts[i]], ts[i + 1..]);
    ForestConcat(ts[..i], ts[i + 1..]);
    ForestSingle(ts[i]);
  }

  /** A sequence is its part before i, its element i and its part after i. */
  lemma SplitAt(ts: seq<Tree>, i: nat)
    requires i < |ts|
    ensures ts == ts[..i] + ([ts[i]] + ts[i + 1..])
  {
  }

  /** The leaves of a forest of single leaves are those leaves. */
  lemma {:induction false} LeafForest(ts: seq<Tree>)
    requires forall k :: 0 <= k < |ts| ==> ts[k].Leaf?
    ensures ForestLeaves(ts) == multiset(ts)
  {
    if ts != [] {
      LeafForest(ts[1..]);
      assert ts == [ts[0]] + ts[1..];
    }
  }

  // ---------------------------------------------------------------------------
  // Serialisation

  /**
   * The pre-order description SerializeHuffmanTree appends: `0` for an
   * internal node followed by its left then right subtree, `1` followed by
   * the 8-bit code of the symbol for a leaf.
   */
  function Serialize(t: Tree): seq<bool>
  {
    match t
    case Leaf(s, _) => [true] + ByteToBits(s)
    case Node(l, r, _) => [false] + Serialize(l) + Serialize(r)
  }

  /** A tree with n leaves is described in 10n - 1 bits: 9 per leaf, 1 per internal node. */
  lemma {:induction false} SerializedLength(t: Tree)
    ensures |Serialize(t)| == 10 * |Leaves(t)| - 1
  {
    match t
    case Leaf(_, _) =>
    case Node(l, r, _) =>
      SerializedLength(l);
      SerializedLength(r);
  }

  /**
   * DeserializeHuffmanTree on a bit string: the tree read from its front and
   * the bits left after it, or None where the C++ code would read past the
   * end of the buffer.
   */
  function ParseTree(bits: seq<bool>): (r: Option<(Tree, seq<bool>)>)
    ensures r.Some? ==> |r.value.1| < |bits| && r.value.1 == bits[|bits| - |r.value.1|..]
    decreases |bits|
  {
    if |bits| == 0 then None
    else if bits[0] then
      if |bits| < 9 then None else Some((Leaf(BitsValue(bits[1..9]), 0), bits[9..]))
    else
      match ParseTree(bits[1..])
      case None => None
      case Some((l, afterLeft)) =>
        match ParseTree(afterLeft)
        case None => None
        case Some((r, afterRight)) => Some((Node(l, r, 0), afterRight))
  }

  /**
   * Reading a serialised tree from the front of a buffer rebuilds its shape
   * and symbols and leaves exactly the bits that followed it.
   */
  lemma {:induction false} ParseSerialized(t: Tree, rest: seq<bool>)
    ensures ParseTree(Serialize(t) + rest) == Some((Strip(t), rest))
  {
    var bits := Serialize(t) + rest;
    match t
    case Leaf(s, _) =>
      assert bits[1..9] == ByteToBits(s);
      assert bits[9..] == rest;
      ByteRoundTrip(s);
    case Node(l, r, _) =>
      assert bits[1..] == Serialize(l) + (Serialize(r) + rest);
      ParseSerialized(l, Serialize(r) + rest);
      ParseSerialized(r, rest);
  }

  // ---------------------------------------------------------------------------
  // Codes

  /**
   * The entries SerializeHuffmanTree adds to the encoder map for the subtree
   * `t` reached by path `code`: every leaf's symbol mapped to its path, `0`
   * for a left edge and `1` for a right edge, later leaves overriding earlier
   * ones as `encoder[n->c] = n->code` does.
   */
  function CodeTable(t: Tree, code: seq<bool>): map<Byte, seq<bool>>
  {
    match t
    case Leaf(s, _) => map[s := code]
    case Node(l, r, _) => CodeTable(l, code + [false]) + CodeTable(r, code + [true])
  }

  /** The encoder map of a whole tree: each symbol to its root-to-leaf path. */
  function Codes(t: Tree): map<Byte, seq<bool>>
  {
    CodeTable(t, [])
  }

  /**
   * The root-to-leaf path of a symbol, `0` for a left edge and `1` for a
   * right edge; should the symbol be on several leaves, the path to the
   * rightmost one, whose entry the encoder map keeps.
   */
  function Path(t: Tree, x: Byte): seq<bool>
    requires x in Syms(t)
  {
    match t
    case Leaf(_, _) => []
    case Node(l, r, _) =>
      if x in Syms(r) then [true] + Path(r, x) else [false] + Path(l, x)
  }

  /** Concatenation of bit strings is associative. */
  lemma ConcatAssoc(a: seq<bool>, b: seq<bool>, c: seq<bool>)
    ensures a + b + c == a + (b + c)
  {
  }

  /** A bit put in front of a string, then more bits after: the bit leads, the rest follows. */
  lemma ConsConcat(b: bool, a: seq<bool>, c: seq<bool>)
    ensures ([b] + a + c)[0] == b && ([b] + a + c)[1..] == a + c
  {
  }

  /** The code map built for a subtree has an entry for exactly the subtree's symbols. */
  lemma {:induction false} CodeTableKeys(t: Tree, code: seq<bool>)
    ensures forall x :: x in CodeTable(t, code) <==> x in Syms(t)
  {
    match t
    case Leaf(_, _) =>
    case Node(l, r, _) =>
      CodeTableKeys(l, code + [false]);
      CodeTableKeys(r, code + [true]);
  }

  /**
   * In the code map built for a subtree reached by path `code`, each of the
   * subtree's symbols maps to that path followed by the symbol's path inside
   * the subtree.
   */
  lemma {:induction false} CodeTableEntry(t: Tree, code: seq<bool>, x: Byte)
    requires x in Syms(t)
    ensures x in CodeTable(t, code) && CodeTable(t, code)[x] == code + Path(t, x)
  {
    CodeTableKeys(t, code);
    match t
    case Leaf(_, _) =>
      assert code + [] == code;
    case Node(l, r, _) =>
      var left, right := CodeTable(l, code + [false]), CodeTable(r, code + [true]);
      assert CodeTable(t, code) == left + right;
      if x in Syms(r) {
        CodeTableEntry(r, code + [true], x);
        ConcatAssoc(code, [true], Path(r, x));
      } else {
        CodeTableKeys(r, code + [true]);
        CodeTableEntry(l, code + [false], x);
        ConcatAssoc(code, [false], Path(l, x));
      }
  }

  /** The encoder map of a whole tree sends each of its symbols to the symbol's path. */
  lemma CodesArePaths(t: Tree, x: Byte)
    requires x in Syms(t)
    ensures x in Codes(t) && Codes(t)[x] == Path(t, x)
  {
    CodeTableEntry(t, [], x);
  }

  /** Both subtrees of a tree without repeated symbols have none, and share none. */
  lemma DistinctChildren(t: Tree)
    requires t.Node? && Distinct(t)
    ensures Distinct(t.left) && Distinct(t.right)
    ensures forall x :: x in Syms(t.left) ==> x !in Syms(t.right)
  {
    var l, r := t.left, t.right;
    assert Syms(t) == Syms(l) + Syms(r);
    forall y
      ensures Syms(l)[y] <= 1 && Syms(r)[y] <= 1
      ensures y in Syms(l) ==> y !in Syms(r)
    {
      assert Syms(t)[y] <= 1;
      assert Syms(t)[y] == Syms(l)[y] + Syms(r)[y];
    }
  }

  /** Stripping frequencies keeps the symbols and the shape. */
  lemma {:induction false} StripKeepsSymbols(t: Tree)
    ensures Syms(Strip(t)) == Syms(t)
    ensures Strip(t).Node? == t.Node?
  {
    match t
    case Leaf(_, _) =>
    case Node(l, r, _) =>
      StripKeepsSymbols(l);
      StripKeepsSymbols(r);
  }

  /** Stripping frequencies keeps the codes. */
  lemma {:induction false} StripKeepsCodes(t: Tree, code: seq<bool>)
    ensures CodeTable(Strip(t), code) == CodeTable(t, code)
  {
    match t
    case Leaf(_, _) =>
    case Node(l, r, _) =>
      StripKeepsCodes(l, code + [false]);
      StripKeepsCodes(r, code + [true]);
  }

  // ---------------------------------------------------------------------------
  // Decoding one symbol

  /**
   * DecodeHuffmanTree on a bit string: from the root, each bit taken from the
   * front chooses the left (`0`) or right (`1`) child until a leaf is
   * reached, whose symbol is returned with the remaining bits; None where the
   * C++ code would read an empty buffer.
   */
  function DecodeOne(t: Tree, bits: seq<bool>): (r: Option<(Byte, seq<bool>)>)
    ensures r.Some? ==> |r.value.1| <= |bits| && r.value.1 == bits[|bits| - |r.value.1|..]
    ensures r.Some? && t.Node? ==> |r.value.1| < |bits|
  {
    match t
    case Leaf(s, _) => Some((s, bits))
    case Node(l, r, _) =>
      if |bits| == 0 then None
      else if !bits[0] then DecodeOne(l, bits[1..])
      else DecodeOne(r, bits[1..])
  }

  /**
   * Decoding a symbol's path, whatever follows it, gives back that symbol and
   * exactly what followed, one bit consumed per edge.
   */
  lemma {:induction false} DecodePath(t: Tree, x: Byte, rest: seq<bool>)
    requires x in Syms(t)
    ensures DecodeOne(t, Path(t, x) + rest) == Some((x, rest))
  {
    match t
    case Leaf(_, _) =>
      assert Path(t, x) + rest == rest;
    case Node(l, r, _) =>
      if x in Syms(r) {
        ConsConcat(true, Path(r, x), rest);
        DecodePath(r, x, rest);
      } else {
        ConsConcat(false, Path(l, x), rest);
        DecodePath(l, x, rest);
      }
  }

  /** Decoding a symbol's code from the encoder map gives back that symbol and what followed. */
  lemma DecodeCode(t: Tree, x: Byte, rest: seq<bool>)
    requires x in Syms(t)
    ensures x in Codes(t)
    ensures DecodeOne(t, Codes(t)[x] + rest) == Some((x, rest))
  {
    CodesArePaths(t, x);
    DecodePath(t, x, rest);
  }

  /** In a tree with at least two leaves every code is at least one bit long. */
  lemma CodesNonEmpty(t: Tree, x: Byte)
    requires t.Node? && x in Syms(t)
    ensures x in Codes(t) && |Codes(t)[x]| > 0
  {
    CodesArePaths(t, x);
  }

  /** No symbol's code is a prefix of another symbol's code. */
  lemma CodesPrefixFree(t: Tree, x: Byte, y: Byte)
    requires x in Syms(t) && y in Syms(t) && x != y
    ensures x in Codes(t) && y in Codes(t)
    ensures !(Codes(t)[x] <= Codes(t)[y])
  {
    DecodeCode(t, x, []);
    DecodeCode(t, y, []);
    if Codes(t)[x] <= Codes(t)[y] {
      var cy := Codes(t)[y];
      var tail := cy[|Codes(t)[x]|..];
      assert Codes(t)[x] + tail == cy + [];
      DecodeCode(t, x, tail);
    }
  }
}
