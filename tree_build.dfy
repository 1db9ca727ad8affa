/**
 * BuildHuffmanTree of huff.cpp: the leaves of the frequency table are put
 * in a min-heap on frequency (NodeDescendingComparisonByFrequency), and the
 * two least-frequent trees are repeatedly taken out and merged under a new
 * internal node whose frequency is their sum, until one tree is left. The
 * heap is modelled as the sequence of its trees; taking the top is taking
 * out a tree of least frequency.
 */
module TreeBuild {
  import opened HuffmanTree

  /** NodeDescendingComparisonByFrequency: `a` sinks below `b` in the heap when it is more frequent. */
  predicate HeapBelow(a: Tree, b: Tree)
  {
    a.f > b.f
  }

  /**
   * `pop_heap` followed by `back()` and `pop_back()`: takes out a tree of
   * least frequency and returns it with the trees that remain.
   */
  method ExtractMin(nodes: seq<Tree>) returns (i: nat, least: Tree, rest: seq<Tree>)
    requires |nodes| > 0
    ensures i < |nodes| && least == nodes[i] && rest == nodes[..i] + nodes[i + 1..]
    ensures forall k :: 0 <= k < |nodes| ==> least.f <= nodes[k].f
  {
    i := 0;
    for k := 1 to |nodes|
      invariant i < k
      invariant forall j :: 0 <= j < k ==> nodes[i].f <= nodes[j].f
    {
      if HeapBelow(nodes[i], nodes[k]) {
        i := k;
      }
    }
    least := nodes[i];
    rest := nodes[..i] + nodes[i + 1..];
  }

  /** Every tree of the forest has each internal frequency the sum of its children's. */
  ghost predicate AllWellWeighted(nodes: seq<Tree>)
  {
    forall k :: 0 <= k < |nodes| ==> WellWeighted(nodes[k])
  }

  /** Taking a tree out of a forest keeps the others. */
  lemma RemoveKeeps(nodes: seq<Tree>, i: nat)
    requires i < |nodes| && AllWellWeighted(nodes)
    ensures AllWellWeighted(nodes[..i] + nodes[i + 1..])
  {
    var rest := nodes[..i] + nodes[i + 1..];
    forall k | 0 <= k < |rest|
      ensures WellWeighted(rest[k])
    {
      assert rest[k] == if k < i then nodes[k] else nodes[k + 1];
    }
  }

  /**
   * One merge of the construction loop: `first` and `second`, taken out of
   * the forest in turn and joined under a new node, keep the forest's
   * total frequency.
   */
  lemma MergeKeepsWeight(nodes: seq<Tree>, i1: nat, rest1: seq<Tree>, i2: nat, rest2: seq<Tree>, parent: Tree)
    requires i1 < |nodes| && rest1 == nodes[..i1] + nodes[i1 + 1..]
    requires i2 < |rest1| && rest2 == rest1[..i2] + rest1[i2 + 1..]
    requires parent == Node(nodes[i1], rest1[i2], nodes[i1].f + rest1[i2].f)
    ensures Weight(rest2 + [parent]) == Weight(nodes)
  {
    ForestRemove(nodes, i1);
    ForestRemove(rest1, i2);
    ForestConcat(rest2, [parent]);
    ForestSingle(parent);
  }

  /** A merge keeps the forest's leaves. */
  lemma MergeKeepsLeaves(nodes: seq<Tree>, i1: nat, rest1: seq<Tree>, i2: nat, rest2: seq<Tree>, parent: Tree)
    requires i1 < |nodes| && rest1 == nodes[..i1] + nodes[i1 + 1..]
    requires i2 < |rest1| && rest2 == rest1[..i2] + rest1[i2 + 1..]
    requires parent == Node(nodes[i1], rest1[i2], nodes[i1].f + rest1[i2].f)
    ensures ForestLeaves(rest2 + [parent]) == ForestLeaves(nodes)
  {
    ForestRemove(nodes, i1);
    ForestRemove(rest1, i2);
    ForestConcat(rest2, [parent]);
    ForestSingle(parent);
  }

  /** A merge keeps the forest's symbols. */
  lemma MergeKeepsSyms(nodes: seq<Tree>, i1: nat, rest1: seq<Tree>, i2: nat, rest2: seq<Tree>, parent: Tree)
    requires i1 < |nodes| && rest1 == nodes[..i1] + nodes[i1 + 1..]
    requires i2 < |rest1| && rest2 == rest1[..i2] + rest1[i2 + 1..]
    requires parent == Node(nodes[i1], rest1[i2], nodes[i1].f + rest1[i2].f)
    ensures ForestSyms(rest2 + [parent]) == ForestSyms(nodes)
  {
    ForestRemove(nodes, i1);
    ForestRemove(rest1, i2);
    ForestConcat(rest2, [parent]);
    ForestSingle(parent);
  }

  /** The merged node is well weighted, and so stays every tree of the forest. */
  lemma MergeKeepsWeighted(nodes: seq<Tree>, i1: nat, rest1: seq<Tree>, i2: nat, rest2: seq<Tree>, parent: Tree)
    requires AllWellWeighted(nodes)
    requires i1 < |nodes| && rest1 == nodes[..i1] + nodes[i1 + 1..]
    requires i2 < |rest1| && rest2 == rest1[..i2] + rest1[i2 + 1..]
    requires parent == Node(nodes[i1], rest1[i2], nodes[i1].f + rest1[i2].f)
    ensures AllWellWeighted(rest2 + [parent])
  {
    RemoveKeeps(nodes, i1);
    RemoveKeeps(rest1, i2);
    var merged := rest2 + [parent];
    forall k | 0 <= k < |merged|
      ensures WellWeighted(merged[k])
    {
      if k < |rest2| {
        assert merged[k] == rest2[k];
      }
    }
  }

  /**
   * What the construction loop keeps: every tree well weighted, and the
   * forest's total frequency, leaves and symbols those of the table.
   */
  ghost predicate ForestOf(nodes: seq<Tree>, table: seq<Tree>)
  {
    AllWellWeighted(nodes) && Weight(nodes) == Weight(table) &&
    ForestLeaves(nodes) == multiset(table) && ForestSyms(nodes) == ForestSyms(table)
  }

  /** A table of leaves is a forest of itself. */
  lemma TableIsForest(table: seq<Tree>)
    requires forall k :: 0 <= k < |table| ==> table[k].Leaf?
    ensures ForestOf(table, table)
  {
    LeafForest(table);
    forall k | 0 <= k < |table|
      ensures WellWeighted(table[k])
    {
      assert table[k].Leaf?;
    }
  }

  /** A merge keeps the forest's relation to the table. */
  lemma MergeKeepsForest(nodes: seq<Tree>, i1: nat, rest1: seq<Tree>, i2: nat, rest2: seq<Tree>, parent: Tree, table: seq<Tree>)
    requires ForestOf(nodes, table)
    requires i1 < |nodes| && rest1 == nodes[..i1] + nodes[i1 + 1..]
    requires i2 < |rest1| && rest2 == rest1[..i2] + rest1[i2 + 1..]
    requires parent == Node(nodes[i1], rest1[i2], nodes[i1].f + rest1[i2].f)
    ensures ForestOf(rest2 + [parent], table)
  {
    MergeKeepsWeight(nodes, i1, rest1, i2, rest2, parent);
    MergeKeepsLeaves(nodes, i1, rest1, i2, rest2, parent);
    MergeKeepsSyms(nodes, i1, rest1, i2, rest2, parent);
    MergeKeepsWeighted(nodes, i1, rest1, i2, rest2, parent);
  }

  /** The one tree left holds the whole table. */
  lemma LastTree(t: Tree, table: seq<Tree>)
    requires ForestOf([t], table)
    ensures WellWeighted(t) && t.f == Weight(table)
    ensures Leaves(t) == multiset(table) && Syms(t) == ForestSyms(table)
    ensures InternalCount(t) == |table| - 1
  {
    ForestSingle(t);
    assert [t][0] == t;
    LeafCount(t);
  }

  /**
   * BuildHuffmanTree: from a table of leaves, builds the single tree whose
   * leaves are the table's, whose root frequency is the sum of theirs and
   * whose every internal frequency is the sum of its children's; an empty
   * table gives no tree at all.
   */
  method BuildHuffmanTree(table: seq<Tree>) returns (nodes: seq<Tree>)
    requires forall k :: 0 <= k < |table| ==> table[k].Leaf?
    ensures |table| == 0 ==> nodes == []
    ensures |table| > 0 ==> |nodes| == 1
    ensures |table| > 0 ==> WellWeighted(nodes[0]) && nodes[0].f == Weight(table)
    ensures |table| > 0 ==> Leaves(nodes[0]) == multiset(table) && Syms(nodes[0]) == ForestSyms(table)
    ensures |table| > 0 ==> InternalCount(nodes[0]) == |table| - 1
  {
    nodes := table;
    TableIsForest(table);
    while |nodes| > 1
      invariant |nodes| == 0 <==> |table| == 0
      invariant ForestOf(nodes, table)
      decreases |nodes|
    {
      var i1, first, rest1 := ExtractMin(nodes);
      var i2, second, rest2 := ExtractMin(rest1);
      var parent := Node(first, second, first.f + second.f);
      MergeKeepsForest(nodes, i1, rest1, i2, rest2, parent, table);
      nodes := rest2 + [parent];
    }
    if |nodes| == 1 {
      assert nodes == [nodes[0]];
      LastTree(nodes[0], table);
    }
  }
}
