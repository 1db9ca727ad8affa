/**
 * The recursive traversals of huff.cpp that work on the shared bit buffer:
 * SerializeHuffmanTree appends the tree's description and fills the encoder
 * map, DeserializeHuffmanTree and DecodeHuffmanTree consume bits from the
 * front. Each is proved to do what the matching function of HuffmanTree
 * describes.
 */
module TreeTraversal {
  import opened Options
  import opened Bits
  import opened BitSequence
  import opened HuffmanTree

  /**
   * SerializeHuffmanTree: visits `n`, reached by path `code`, in pre-order,
   * appending `1` and the symbol's 8 bits for a leaf (and recording the leaf's
   * path in the encoder map) or `0` for an internal node before its left then
   * right subtree, whose paths extend `code` by `0` and `1`.
   */
  method SerializeHuffmanTree(n: Tree, code: seq<bool>, encoder: map<Byte, seq<bool>>, buf: BitBuffer)
    returns (updated: map<Byte, seq<bool>>)
    modifies buf
    ensures buf.bits == old(buf.bits) + Serialize(n)
    ensures updated == encoder + CodeTable(n, code)
    decreases n
  {
    match n
    case Leaf(c, _) =>
      buf.PushBack(true);
      var tmp := CharToBinaryCode(c);
      buf.Append(tmp);
      updated := encoder[c := code];
      assert updated == encoder + map[c := code];
    case Node(l, r, _) =>
      buf.PushBack(false);
      var withLeft := SerializeHuffmanTree(l, code + [false], encoder, buf);
      updated := SerializeHuffmanTree(r, code + [true], withLeft, buf);
      MapUnionAssoc(encoder, CodeTable(l, code + [false]), CodeTable(r, code + [true]));
      assert old(buf.bits) + [false] + Serialize(l) + Serialize(r) == old(buf.bits) + Serialize(n);
  }

  /** Union of maps, later entries overriding earlier ones, is associative. */
  lemma MapUnionAssoc<K, V>(a: map<K, V>, b: map<K, V>, c: map<K, V>)
    ensures a + b + c == a + (b + c)
  {
  }

  /**
   * DeserializeHuffmanTree: takes the marker bit from the front; after `1`
   * takes 8 more bits as the leaf's symbol, after `0` reads the left then the
   * right subtree. The buffer must begin with a whole tree description.
   */
  method DeserializeHuffmanTree(buf: BitBuffer) returns (n: Tree)
    requires ParseTree(buf.bits).Some?
    modifies buf
    ensures ParseTree(old(buf.bits)) == Some((n, buf.bits))
    decreases |buf.bits|
  {
    ghost var start := buf.bits;
    var marker := buf.PopFront();
    if marker {
      var tmp := buf.TakeFront(8);
      assert tmp[..8] == tmp == start[1..9];
      var c := ConvertBinaryCodeToChar(tmp);
      n := Leaf(c, 0);
    } else {
      var left := DeserializeHuffmanTree(buf);
      var right := DeserializeHuffmanTree(buf);
      n := Node(left, right, 0);
    }
  }

  /**
   * DecodeHuffmanTree: from `n`, while at an internal node, takes a bit from
   * the front and descends left on `0`, right on `1`; returns the symbol of
   * the leaf reached. The buffer must hold enough bits to reach a leaf.
   */
  method DecodeHuffmanTree(n: Tree, buf: BitBuffer) returns (c: Byte)
    requires DecodeOne(n, buf.bits).Some?
    modifies buf
    ensures DecodeOne(n, old(buf.bits)) == Some((c, buf.bits))
    decreases n
  {
    match n
    case Leaf(s, _) =>
      c := s;
    case Node(l, r, _) =>
      var bit := buf.PopFront();
      if !bit {
        c := DecodeHuffmanTree(l, buf);
      } else {
        c := DecodeHuffmanTree(r, buf);
      }
  }
}
