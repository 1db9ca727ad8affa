/**
 * The frequency count of huff.cpp: CalculateFrequencies inserts one leaf per
 * input byte into a `set<Node*>` ordered by NodeAscendingComparisonByChar,
 * and bumps the frequency of the leaf already there when the byte repeats.
 * The set is modelled as the sequence of its leaves in the set's order.
 */
module FrequencyTable {
  import opened Bits
  import opened HuffmanTree

  /** How often `x` occurs in `input`. */
  function Count(input: seq<Byte>, x: Byte): nat
  {
    multiset(input)[x]
  }

  /**
   * The key NodeAscendingComparisonByChar compares: the signed `char` widened
   * to `unsigned int`, so bytes 128 to 255 land just below 2^32.
   */
  function SetKey(c: Byte): nat
  {
    if c < 128 then c else 0x1_0000_0000 - 256 + c
  }

  /** The comparator orders symbols as their unsigned byte values. */
  lemma SetKeyOrder(a: Byte, b: Byte)
    ensures SetKey(a) < SetKey(b) <==> a < b
    ensures SetKey(a) == SetKey(b) <==> a == b
  {
  }

  /** A well-formed table: leaves of positive frequency, in strictly ascending symbol order. */
  ghost predicate IsTable(table: seq<Tree>)
  {
    (forall k :: 0 <= k < |table| ==> table[k].Leaf? && table[k].f >= 1) &&
    (forall j, k :: 0 <= j < k < |table| ==> table[j].sym < table[k].sym)
  }

  /** The frequency the table records for `x`, 0 when it has no leaf for `x`. */
  function Lookup(table: seq<Tree>, x: Byte): nat
  {
    if table == [] then 0
    else if table[0].Leaf? && table[0].sym == x then table[0].f
    else Lookup(table[1..], x)
  }

  /** A table with no leaf for `x` records 0 for it. */
  lemma {:induction false} LookupAbsent(table: seq<Tree>, x: Byte)
    requires forall k :: 0 <= k < |table| ==> table[k].Leaf? && table[k].sym != x
    ensures Lookup(table, x) == 0
  {
    if table != [] {
      LookupAbsent(table[1..], x);
    }
  }

  /** Looking up in a concatenation finds the first part's leaf if it has one. */
  lemma {:induction false} LookupConcat(a: seq<Tree>, b: seq<Tree>, x: Byte)
    requires forall k :: 0 <= k < |a| ==> a[k].Leaf? && a[k].f >= 1
    ensures Lookup(a + b, x) == if Lookup(a, x) > 0 then Lookup(a, x) else Lookup(b, x)
  {
    if a == [] {
      assert a + b == b;
    } else {
      assert (a + b)[1..] == a[1..] + b;
      LookupConcat(a[1..], b, x);
    }
  }

  /** Every symbol of `a` is below every symbol of `b`. */
  ghost predicate AllBelow(a: seq<Tree>, b: seq<Tree>)
  {
    forall j, k :: 0 <= j < |a| && 0 <= k < |b| && a[j].Leaf? && b[k].Leaf? ==> a[j].sym < b[k].sym
  }

  /** A table splits into two tables, the first one's symbols below the second's. */
  lemma TableSplit(a: seq<Tree>, b: seq<Tree>)
    requires IsTable(a + b)
    ensures IsTable(a) && IsTable(b) && AllBelow(a, b)
  {
    assert forall k :: 0 <= k < |a| ==> a[k] == (a + b)[k];
    assert forall k :: 0 <= k < |b| ==> b[k] == (a + b)[|a| + k];
  }

  /** Two tables, the first one's symbols below the second's, join into one. */
  lemma TableJoin(a: seq<Tree>, b: seq<Tree>)
    requires IsTable(a) && IsTable(b) && AllBelow(a, b)
    ensures IsTable(a + b)
  {
    var t := a + b;
    forall j, k | 0 <= j < k < |t|
      ensures t[j].sym < t[k].sym
    {
      if k < |a| {
        assert t[j] == a[j] && t[k] == a[k];
      } else if j >= |a| {
        assert t[j] == b[j - |a|] && t[k] == b[k - |a|];
      } else {
        assert t[j] == a[j] && t[k] == b[k - |a|];
      }
    }
  }

  /** Bumping the frequency of the leaf for `b` keeps the table ordered; all leaves before it are below `b`. */
  lemma BumpKeepsTable(before: seq<Tree>, found: Tree, after: seq<Tree>, b: Byte)
    requires IsTable(before + ([found] + after))
    requires found.Leaf? && found.sym == b
    ensures IsTable(before + ([Leaf(b, found.f + 1)] + after))
    ensures forall k :: 0 <= k < |before| ==> before[k].Leaf? && before[k].sym < b
  {
    var bumped := Leaf(b, found.f + 1);
    TableSplit(before, [found] + after);
    TableSplit([found], after);
    forall k | 0 <= k < |after|
      ensures bumped.sym < after[k].sym
    {
      assert [found][0] == found;
    }
    TableJoin([bumped], after);
    forall j, k | 0 <= j < |before| && 0 <= k < |[bumped] + after|
      ensures before[j].sym < ([bumped] + after)[k].sym
    {
      assert ([found] + after)[0] == found;
      if k > 0 {
        assert ([bumped] + after)[k] == ([found] + after)[k];
      }
    }
    TableJoin(before, [bumped] + after);
    forall k | 0 <= k < |before|
      ensures before[k].Leaf? && before[k].sym < b
    {
      assert ([bumped] + after)[0] == bumped;
    }
  }

  /** A leaf for `b` put between smaller and larger symbols keeps the table ordered. */
  lemma InsertKeepsTable(before: seq<Tree>, after: seq<Tree>, b: Byte)
    requires IsTable(before + after)
    requires forall k :: 0 <= k < |before| ==> before[k].Leaf? && before[k].sym < b
    requires forall k :: 0 <= k < |after| ==> after[k].Leaf? && after[k].sym > b
    ensures IsTable(before + ([Leaf(b, 1)] + after))
  {
    TableSplit(before, after);
    TableJoin([Leaf(b, 1)], after);
    TableJoin(before, [Leaf(b, 1)] + after);
  }

  /** Bumping the frequency of the leaf for `b` counts one more `b` and nothing else. */
  lemma BumpCounts(before: seq<Tree>, found: Tree, after: seq<Tree>, b: Byte)
    requires forall k :: 0 <= k < |before| ==> before[k].Leaf? && before[k].f >= 1 && before[k].sym != b
    requires found.Leaf? && found.sym == b
    ensures forall x :: Lookup(before + ([Leaf(b, found.f + 1)] + after), x)
                        == Lookup(before + ([found] + after), x) + (if x == b then 1 else 0)
    ensures Weight(before + ([Leaf(b, found.f + 1)] + after)) == Weight(before + ([found] + after)) + 1
  {
    var bumped := Leaf(b, found.f + 1);
    LookupAbsent(before, b);
    forall x
      ensures Lookup(before + ([bumped] + after), x) == Lookup(before + ([found] + after), x) + (if x == b then 1 else 0)
    {
      LookupConcat(before, [bumped] + after, x);
      LookupConcat(before, [found] + after, x);
    }
    ForestConcat(before, [bumped] + after);
    ForestConcat(before, [found] + after);
    ForestConcat([bumped], after);
    ForestConcat([found], after);
    ForestSingle(bumped);
    ForestSingle(found);
  }

  /** Adding a leaf of frequency 1 for a `b` the table lacks counts one `b` and nothing else. */
  lemma InsertCounts(before: seq<Tree>, after: seq<Tree>, b: Byte)
    requires forall k :: 0 <= k < |before| ==> before[k].Leaf? && before[k].f >= 1 && before[k].sym != b
    requires forall k :: 0 <= k < |after| ==> after[k].Leaf? && after[k].sym != b
    ensures forall x :: Lookup(before + ([Leaf(b, 1)] + after), x)
                        == Lookup(before + after, x) + (if x == b then 1 else 0)
    ensures Weight(before + ([Leaf(b, 1)] + after)) == Weight(before + after) + 1
  {
    var added := Leaf(b, 1);
    LookupAbsent(before, b);
    LookupAbsent(after, b);
    forall x
      ensures Lookup(before + ([added] + after), x) == Lookup(before + after, x) + (if x == b then 1 else 0)
    {
      LookupConcat(before, [added] + after, x);
      LookupConcat(before, after, x);
    }
    ForestConcat(before, [added] + after);
    ForestConcat(before, after);
    ForestConcat([added], after);
    ForestSingle(added);
  }

  /**
   * One step of CalculateFrequencies: `insert` of a leaf for `b` with
   * frequency 1, which searches the ordered set with the comparator; if an
   * equivalent leaf is already there, its frequency goes up by one instead.
   */
  method Tally(table: seq<Tree>, b: Byte) returns (updated: seq<Tree>)
    requires IsTable(table)
    ensures IsTable(updated)
    ensures forall x :: Lookup(updated, x) == Lookup(table, x) + (if x == b then 1 else 0)
    ensures Weight(updated) == Weight(table) + 1
  {
    var i := 0;
    while i < |table| && SetKey(table[i].sym) < SetKey(b)
      invariant 0 <= i <= |table|
      invariant forall k :: 0 <= k < i ==> table[k].sym < b
    {
      SetKeyOrder(table[i].sym, b);
      i := i + 1;
    }
    if i < |table| {
      SetKeyOrder(table[i].sym, b);
    }
    if i < |table| && SetKey(table[i].sym) == SetKey(b) {
      // an equivalent leaf is present: `++f`
      var before, found, after := table[..i], table[i], table[i + 1..];
      assert table == before + ([found] + after);
      BumpKeepsTable(before, found, after, b);
      TableSplit(before, [found] + after);
      BumpCounts(before, found, after, b);
      updated := before + ([Leaf(b, found.f + 1)] + after);
    } else {
      // no equivalent leaf: the new leaf goes in before the first larger key
      var before, after := table[..i], table[i..];
      assert table == before + after;
      forall k | 0 <= k < |after|
        ensures after[k].Leaf? && after[k].sym > b
      {
        assert after[k] == table[i + k];
      }
      InsertKeepsTable(before, after, b);
      InsertCounts(before, after, b);
      updated := before + ([Leaf(b, 1)] + after);
    }
  }

  /**
   * CalculateFrequencies: the table holds one leaf per distinct input byte,
   * in ascending order, whose frequency is the byte's number of occurrences.
   */
  method CalculateFrequencies(input: seq<Byte>) returns (table: seq<Tree>)
    ensures IsTable(table)
    ensures forall x :: Lookup(table, x) == Count(input, x)
    ensures Weight(table) == |input|
  {
    table := [];
    for i := 0 to |input|
      invariant IsTable(table)
      invariant forall x :: Lookup(table, x) == Count(input[..i], x)
      invariant Weight(table) == i
    {
      assert input[..i + 1] == input[..i] + [input[i]];
      table := Tally(table, input[i]);
    }
    assert input[..|input|] == input;
  }

  /**
   * The symbols of a table are the bytes it records a positive frequency for,
   * each once.
   */
  lemma {:induction false} TableSyms(table: seq<Tree>)
    requires IsTable(table)
    ensures forall x :: ForestSyms(table)[x] == if Lookup(table, x) > 0 then 1 else 0
  {
    if table != [] {
      var rest := table[1..];
      TableSyms(rest);
      var s := table[0].sym;
      forall k | 0 <= k < |rest|
        ensures rest[k].Leaf? && rest[k].sym != s
      {
        assert rest[k] == table[k + 1];
      }
      LookupAbsent(rest, s);
    }
  }

  /** Each leaf of a table carries the frequency the table records for its symbol. */
  lemma {:induction false} TableEntry(table: seq<Tree>, k: nat)
    requires IsTable(table) && k < |table|
    ensures Lookup(table, table[k].sym) == table[k].f
  {
    if k > 0 {
      assert table[1..][k - 1] == table[k];
      TableEntry(table[1..], k - 1);
    }
  }
}
