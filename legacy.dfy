/** The older tree builder of src/huffman.py. Its Node compares only count
    and symbol, and its construct_tree indexes nodes[0] without checking for
    an empty list. */
module LegacyHuffman {
  import opened Outcomes
  import opened HuffmanNode
  import opened NodeList

  /** The legacy Node.__eq__: counts and symbols only; an internal node's
      symbol is None, which equals only another None. */
  function NodeEqual(a: Node, b: Node): (r: bool)
    ensures a == b ==> r
    ensures r ==> a.count == b.count && a.Leaf? == b.Leaf?
    ensures r && a.Leaf? ==> a == b
    ensures a.Internal? && b.Internal? ==> (r <==> a.count == b.count)
  {
    match (a, b)
    case (Leaf(ca, da), Leaf(cb, db)) => ca == cb && da == db
    case (Internal(ca, _, _), Internal(cb, _, _)) => ca == cb
    case _ => false
  }

  /** Two internal nodes with the same count and swapped children: always
      equal for the legacy comparison, and different for the recursive one of
      src/huffman/node.py unless the children are equal. */
  lemma ShallowIgnoresChildren(n: nat, a: Node, b: Node)
    ensures NodeEqual(Internal(n, a, b), Internal(n, b, a))
    ensures a != b ==> Equal(Internal(n, a, b), Internal(n, b, a)) != Ok(true)
  {
    EqualIsStructural(Internal(n, a, b), Internal(n, b, a));
  }

  /** The single node left by the merges carries the total count of the
      list. */
  lemma RootCountIsTotal(s: seq<Node>)
    requires s != []
    ensures |Build(s)| == 1 && Build(s)[0].count == Total(s)
  {
    BuildFacts(s);
    assert Total(Build(s)) == Build(s)[0].count + Total(Build(s)[1..]);
  }

  /** The legacy HuffmanTree, from the counter's items onwards. */
  class LegacyTree {
    var nodes: seq<Node>
    var root: Option<Node>

    /** The seeding part of __init__: one leaf per (symbol, count) item, in
        the counter's order, then a stable sort by count. */
    constructor (items: seq<(char, nat)>)
      ensures nodes == SortByCount(Seed(items)) && root == None
    {
      var seeded := SeedNodes(items);
      nodes := SortByCount(seeded);
      root := None;
    }

    /** _process_nodes: the same steps as in src/huffman/tree.py; list.remove finds
        each of the two front nodes at index 0 by identity before it ever
        calls the shallow __eq__. */
    method ProcessNodes() returns (r: Result<()>)
      modifies this`nodes
      ensures |old(nodes)| < 2 ==> r == Err(IndexError) && nodes == old(nodes)
      ensures |old(nodes)| >= 2 ==> r == Ok(()) && nodes == Merge(old(nodes))
    {
      if |nodes| < 2 {
        return Err(IndexError);
      }
      var left, right := nodes[0], nodes[1];
      nodes := nodes[1..];
      nodes := nodes[1..];
      nodes := nodes + [Internal(left.count + right.count, left, right)];
      nodes := SortByCount(nodes);
      return Ok(());
    }

    /** construct_tree: merges until at most one node is left, then reads
        nodes[0], which raises IndexError on an empty list. */
    method ConstructTree() returns (r: Result<Node>)
      modifies this`nodes, this`root
      ensures nodes == Build(old(nodes))
      ensures old(nodes) == [] ==> r == Err(IndexError) && root == old(root)
      ensures old(nodes) != [] ==>
        r.Ok? && nodes == [r.value] && root == Some(r.value) && r.value.count == Total(old(nodes))
    {
      while |nodes| > 1
        invariant Build(nodes) == Build(old(nodes))
        invariant root == old(root)
        decreases |nodes|
      {
        MergeKeeps(nodes);
        var _ := ProcessNodes();
      }
      if old(nodes) != [] {
        RootCountIsTotal(old(nodes));
      }
      if nodes == [] {
        return Err(IndexError);
      }
      root := Some(nodes[0]);
      return Ok(nodes[0]);
    }
  }
}
