/** The node list that tree construction works on (src/huffman/tree.py and
    src/huffman.py): the stable sort by count that `list.sort(key=count)`
    performs, one merge step, and the merging repeated to a single root. */
module NodeList {
  import opened HuffmanNode

  predicate SortedByCount(s: seq<Node>) {
    forall i, j :: 0 <= i < j < |s| ==> s[i].count <= s[j].count
  }

  /** Puts `x` after every node whose count is at most its own. */
  function Insert(x: Node, s: seq<Node>): seq<Node> {
    if s == [] || x.count < s[0].count then [x] + s else [s[0]] + Insert(x, s[1..])
  }

  /** list.sort(key=lambda n: n.count): Python's sort is stable, so each node
      goes after the earlier nodes of equal count. */
  function SortByCount(s: seq<Node>): seq<Node> {
    if s == [] then [] else Insert(s[|s| - 1], SortByCount(s[..|s| - 1]))
  }

  /** The nodes of count `k`, in their order in `s`. */
  function WithCount(s: seq<Node>, k: nat): seq<Node> {
    if s == [] then [] else (if s[0].count == k then [s[0]] else []) + WithCount(s[1..], k)
  }

  /** The sum of the counts in `s`. */
  function Total(s: seq<Node>): nat {
    if s == [] then 0 else s[0].count + Total(s[1..])
  }

  /** The leaves of all trees in `s`, list order then left to right. */
  function AllLeaves(s: seq<Node>): seq<Node> {
    if s == [] then [] else Leaves(s[0]) + AllLeaves(s[1..])
  }

  lemma {:induction false} WithCountAppend(a: seq<Node>, b: seq<Node>, k: nat)
    ensures WithCount(a + b, k) == WithCount(a, k) + WithCount(b, k)
  {
    if a != [] {
      assert (a + b)[1..] == a[1..] + b;
      WithCountAppend(a[1..], b, k);
    } else {
      assert a + b == b;
    }
  }

  lemma {:induction false} TotalAppend(a: seq<Node>, b: seq<Node>)
    ensures Total(a + b) == Total(a) + Total(b)
  {
    if a != [] {
      assert (a + b)[1..] == a[1..] + b;
      TotalAppend(a[1..], b);
    } else {
      assert a + b == b;
    }
  }

  lemma {:induction false} AllLeavesAppend(a: seq<Node>, b: seq<Node>)
    ensures AllLeaves(a + b) == AllLeaves(a) + AllLeaves(b)
  {
    if a != [] {
      assert (a + b)[1..] == a[1..] + b;
      AllLeavesAppend(a[1..], b);
    } else {
      assert a + b == b;
    }
  }

  /** How many nodes Insert leaves in front of `x`. */
  function InsertPos(x: Node, s: seq<Node>): (p: nat)
    ensures p <= |s|
  {
    if s == [] || x.count < s[0].count then 0 else 1 + InsertPos(x, s[1..])
  }

  /** Where Insert puts `x`: after the nodes of count at most its own, before
      those of larger count, with the order of the others kept. */
  lemma {:induction false} InsertAt(x: Node, s: seq<Node>)
    ensures var p := InsertPos(x, s);
      Insert(x, s) == s[..p] + [x] + s[p..]
      && (forall i :: 0 <= i < p ==> s[i].count <= x.count)
      && (SortedByCount(s) ==> forall i :: p <= i < |s| ==> s[i].count > x.count)
  {
    if s != [] && x.count >= s[0].count {
      InsertAt(x, s[1..]);
      var p := InsertPos(x, s[1..]);
      SplitCons(s, x, p);
    }
  }

  lemma SplitCons(s: seq<Node>, x: Node, p: nat)
    requires s != [] && p <= |s| - 1
    ensures [s[0]] + (s[1..][..p] + [x] + s[1..][p..]) == s[..p + 1] + [x] + s[p + 1..]
    ensures forall i :: 1 <= i < |s| ==> s[i] == s[1..][i - 1]
  {
    assert s[..p + 1] == [s[0]] + s[1..][..p];
    assert s[p + 1..] == s[1..][p..];
  }

  /** Inserting adds exactly `x` to the list and its count. */
  lemma {:induction false} InsertAdds(x: Node, s: seq<Node>)
    ensures |Insert(x, s)| == |s| + 1
    ensures multiset(Insert(x, s)) == multiset(s) + multiset{x}
    ensures Total(Insert(x, s)) == Total(s) + x.count
  {
    if s != [] && x.count >= s[0].count {
      InsertAdds(x, s[1..]);
      assert s == [s[0]] + s[1..];
    }
  }

  /** Inserting adds exactly the leaves of `x`. */
  lemma {:induction false} InsertLeaves(x: Node, s: seq<Node>)
    ensures multiset(AllLeaves(Insert(x, s))) == multiset(AllLeaves(s)) + multiset(Leaves(x))
  {
    if s == [] || x.count < s[0].count {
      ConsNode(x, s);
    } else {
      var y, rest := s[0], s[1..];
      var t := Insert(x, rest);
      calc {
        multiset(AllLeaves(Insert(x, s)));
        { ConsNode(y, t); }
        multiset(Leaves(y) + AllLeaves(t));
        multiset(Leaves(y)) + multiset(AllLeaves(t));
        { InsertLeaves(x, rest); }
        multiset(Leaves(y)) + multiset(AllLeaves(rest)) + multiset(Leaves(x));
        multiset(AllLeaves(s)) + multiset(Leaves(x));
      }
    }
  }

  lemma {:induction false} InsertMembers(x: Node, s: seq<Node>)
    ensures forall y :: y in Insert(x, s) <==> y == x || y in s
  {
    if s != [] && x.count >= s[0].count {
      InsertMembers(x, s[1..]);
      assert s == [s[0]] + s[1..];
    }
  }

  /** Inserting keeps a sorted list sorted. */
  lemma {:induction false} InsertSorted(x: Node, s: seq<Node>)
    requires SortedByCount(s)
    ensures SortedByCount(Insert(x, s))
  {
    if s != [] && x.count >= s[0].count {
      InsertSorted(x, s[1..]);
      InsertMembers(x, s[1..]);
      var t := Insert(x, s[1..]);
      assert forall y :: y in t ==> s[0].count <= y.count;
      assert Insert(x, s) == [s[0]] + t;
    }
  }

  /** In a sorted list, `x` lands after the nodes of its count. */
  lemma {:induction false} InsertWithCount(x: Node, s: seq<Node>, k: nat)
    requires SortedByCount(s)
    ensures WithCount(Insert(x, s), k) == WithCount(s, k) + (if x.count == k then [x] else [])
  {
    if s == [] || x.count < s[0].count {
      ConsWithCount(x, s, k);
      if x.count == k {
        NoneWithCount(s, k);
      }
    } else {
      var y, rest := s[0], s[1..];
      InsertWithCount(x, rest, k);
      ConsWithCount(y, Insert(x, rest), k);
      assert WithCount(s, k) == (if y.count == k then [y] else []) + WithCount(rest, k);
    }
  }

  lemma ConsWithCount(y: Node, s: seq<Node>, k: nat)
    ensures WithCount([y] + s, k) == (if y.count == k then [y] else []) + WithCount(s, k)
  {
    assert ([y] + s)[1..] == s;
  }

  /** No node of count `k` means an empty selection. */
  lemma {:induction false} NoneWithCount(s: seq<Node>, k: nat)
    requires forall i :: 0 <= i < |s| ==> s[i].count > k
    ensures WithCount(s, k) == []
  {
    if s != [] {
      NoneWithCount(s[1..], k);
    }
  }

  /** The sort returns a permutation of its input. */
  lemma {:induction false} SortPermutes(s: seq<Node>)
    ensures |SortByCount(s)| == |s|
    ensures multiset(SortByCount(s)) == multiset(s)
    ensures Total(SortByCount(s)) == Total(s)
  {
    if s != [] {
      var init, x := s[..|s| - 1], s[|s| - 1];
      SortPermutes(init);
      InsertAdds(x, SortByCount(init));
      Snoc(s);
      TotalAppend(init, [x]);
      assert Total([x]) == x.count;
    }
  }

  lemma AllLeavesSingle(x: Node)
    ensures AllLeaves([x]) == Leaves(x)
  {
    assert [x][1..] == [];
    assert Leaves(x) + [] == Leaves(x);
  }

  /** The sort keeps the leaves of the list. */
  lemma {:induction false} SortKeepsLeaves(s: seq<Node>)
    ensures multiset(AllLeaves(SortByCount(s))) == multiset(AllLeaves(s))
  {
    if s != [] {
      var init, x := s[..|s| - 1], s[|s| - 1];
      SortKeepsLeaves(init);
      InsertLeaves(x, SortByCount(init));
      LastLeaves(s);
    }
  }

  lemma LastLeaves(s: seq<Node>)
    requires s != []
    ensures AllLeaves(s) == AllLeaves(s[..|s| - 1]) + Leaves(s[|s| - 1])
  {
    var init, x := s[..|s| - 1], s[|s| - 1];
    Snoc(s);
    AllLeavesAppend(init, [x]);
    AllLeavesSingle(x);
  }

  lemma Snoc(s: seq<Node>)
    requires s != []
    ensures s == s[..|s| - 1] + [s[|s| - 1]]
  {
  }

  /** The sort returns a sorted list that keeps the relative order of nodes
      with equal counts. */
  lemma {:induction false} SortIsStable(s: seq<Node>)
    ensures SortedByCount(SortByCount(s))
    ensures forall k: nat :: WithCount(SortByCount(s), k) == WithCount(s, k)
  {
    if s != [] {
      var init, x := s[..|s| - 1], s[|s| - 1];
      SortIsStable(init);
      InsertSorted(x, SortByCount(init));
      Snoc(s);
      forall k: nat ensures WithCount(SortByCount(s), k) == WithCount(s, k) {
        InsertWithCount(x, SortByCount(init), k);
        WithCountAppend(init, [x], k);
        assert [x][1..] == [];
      }
    }
  }

  lemma {:induction false} InWithCount(s: seq<Node>, k: nat, x: Node)
    ensures x in WithCount(s, k) <==> x in s && x.count == k
  {
    if s != [] {
      InWithCount(s[1..], k, x);
      assert s == [s[0]] + s[1..];
    }
  }

  /** A sorted list is determined by its per-count subsequences; so the stable
      sort is the only sorted arrangement that keeps equal counts in order. */
  lemma {:induction false} SortedUnique(a: seq<Node>, b: seq<Node>)
    requires SortedByCount(a) && SortedByCount(b)
    requires forall k: nat :: WithCount(a, k) == WithCount(b, k)
    ensures a == b
    decreases |a|
  {
    if a == [] {
      if b != [] {
        HasOwnCount(b);
        assert false;
      }
    } else if b == [] {
      HasOwnCount(a);
      assert false;
    } else {
      assert WithCount(a, a[0].count) == WithCount(b, a[0].count);
      assert WithCount(a, b[0].count) == WithCount(b, b[0].count);
      FrontEqual(a, b);
      TailsAgree(a, b);
      SortedUnique(a[1..], b[1..]);
      assert a == [a[0]] + a[1..] && b == [b[0]] + b[1..];
    }
  }

  lemma HasOwnCount(s: seq<Node>)
    requires s != []
    ensures WithCount(s, s[0].count) != []
  {
  }

  /** Two sorted lists with the same per-count subsequences start alike. */
  lemma FrontEqual(a: seq<Node>, b: seq<Node>)
    requires a != [] && b != [] && SortedByCount(a) && SortedByCount(b)
    requires WithCount(a, a[0].count) == WithCount(b, a[0].count)
    requires WithCount(a, b[0].count) == WithCount(b, b[0].count)
    ensures a[0] == b[0]
  {
    var m, n := a[0].count, b[0].count;
    assert WithCount(a, m) == [a[0]] + WithCount(a[1..], m);
    assert WithCount(b, n) == [b[0]] + WithCount(b[1..], n);
    InWithCount(b, m, a[0]);
    InWithCount(a, n, b[0]);
    var i :| 0 <= i < |b| && b[i] == a[0];
    var j :| 0 <= j < |a| && a[j] == b[0];
    assert n <= b[i].count == m;
    assert m <= a[j].count == n;
    assert ([a[0]] + WithCount(a[1..], m))[0] == a[0];
    assert ([b[0]] + WithCount(b[1..], n))[0] == b[0];
  }

  lemma TailsAgree(a: seq<Node>, b: seq<Node>)
    requires a != [] && b != [] && a[0] == b[0]
    requires forall k: nat :: WithCount(a, k) == WithCount(b, k)
    ensures forall k: nat :: WithCount(a[1..], k) == WithCount(b[1..], k)
  {
    forall k: nat ensures WithCount(a[1..], k) == WithCount(b[1..], k) {
      var h := if a[0].count == k then [a[0]] else [];
      assert WithCount(a, k) == h + WithCount(a[1..], k);
      assert WithCount(b, k) == h + WithCount(b[1..], k);
      assert WithCount(a, k) == WithCount(b, k);
      assert (h + WithCount(a[1..], k))[|h|..] == WithCount(a[1..], k);
      assert (h + WithCount(b[1..], k))[|h|..] == WithCount(b[1..], k);
    }
  }

  /** Any sorted list that keeps nodes of equal count in their input order is
      what the stable sort returns. */
  lemma StableSortIsUnique(s: seq<Node>, t: seq<Node>)
    requires SortedByCount(t) && forall k: nat :: WithCount(t, k) == WithCount(s, k)
    ensures t == SortByCount(s)
  {
    SortIsStable(s);
    SortedUnique(t, SortByCount(s));
  }

  /** The internal node a merge step builds from the two front nodes. */
  function Combine(s: seq<Node>): Node
    requires |s| >= 2
  {
    Internal(s[0].count + s[1].count, s[0], s[1])
  }

  /** _process_nodes: takes the two front nodes (list.remove finds each at
      index 0 by identity), appends their combination and sorts stably. */
  function Merge(s: seq<Node>): seq<Node>
    requires |s| >= 2
  {
    SortByCount(s[2..] + [Combine(s)])
  }

  /** A merge step on a sorted list removes the two front nodes and inserts
      their combination after every remaining node of equal or smaller count
      and before every larger one, so the list shrinks by one, stays sorted,
      and keeps its total count and its leaves. */
  lemma MergeFacts(s: seq<Node>)
    requires |s| >= 2 && SortedByCount(s)
    ensures var x, rest := Combine(s), s[2..];
      var p := InsertPos(x, rest);
      Merge(s) == rest[..p] + [x] + rest[p..]
      && (forall i :: 0 <= i < p ==> rest[i].count <= x.count)
      && (forall i :: p <= i < |rest| ==> rest[i].count > x.count)
    ensures |Merge(s)| == |s| - 1 && SortedByCount(Merge(s))
    ensures Total(Merge(s)) == Total(s)
    ensures multiset(AllLeaves(Merge(s))) == multiset(AllLeaves(s))
  {
    MergePosition(s);
    MergeSorted(s);
  }

  lemma MergePosition(s: seq<Node>)
    requires |s| >= 2 && SortedByCount(s)
    ensures var x, rest := Combine(s), s[2..];
      var p := InsertPos(x, rest);
      Merge(s) == rest[..p] + [x] + rest[p..]
      && (forall i :: 0 <= i < p ==> rest[i].count <= x.count)
      && (forall i :: p <= i < |rest| ==> rest[i].count > x.count)
  {
    MergeIsInsert(s);
    InsertAt(Combine(s), s[2..]);
  }

  lemma MergeSorted(s: seq<Node>)
    requires |s| >= 2 && SortedByCount(s)
    ensures |Merge(s)| == |s| - 1 && SortedByCount(Merge(s))
    ensures Total(Merge(s)) == Total(s)
    ensures multiset(AllLeaves(Merge(s))) == multiset(AllLeaves(s))
  {
    MergeKeeps(s);
    MergeIsInsert(s);
    InsertSorted(Combine(s), s[2..]);
  }

  lemma MergeIsInsert(s: seq<Node>)
    requires |s| >= 2 && SortedByCount(s)
    ensures Merge(s) == Insert(Combine(s), s[2..])
  {
    var rest := s[2..];
    assert (rest + [Combine(s)])[..|rest|] == rest;
    SortedIsFixed(rest);
  }

  /** The two front nodes and the rest make up the list's count and leaves. */
  lemma FrontTwo(s: seq<Node>)
    requires |s| >= 2
    ensures Total(s) == Combine(s).count + Total(s[2..])
    ensures AllLeaves(s) == Leaves(Combine(s)) + AllLeaves(s[2..])
  {
    FrontOf(s, s[0], s[1], s[2..]);
  }

  lemma FrontOf(s: seq<Node>, a: Node, b: Node, rest: seq<Node>)
    requires s == [a] + ([b] + rest)
    ensures Total(s) == a.count + b.count + Total(rest)
    ensures AllLeaves(s) == (Leaves(a) + Leaves(b)) + AllLeaves(rest)
  {
    ConsNode(b, rest);
    ConsNode(a, [b] + rest);
  }

  /** A node in front adds its count and its leaves in front. */
  lemma ConsNode(x: Node, s: seq<Node>)
    ensures Total([x] + s) == x.count + Total(s)
    ensures AllLeaves([x] + s) == Leaves(x) + AllLeaves(s)
  {
    assert ([x] + s)[1..] == s;
  }

  lemma {:induction false} SortedIsFixed(s: seq<Node>)
    requires SortedByCount(s)
    ensures SortByCount(s) == s
  {
    if s != [] {
      var init, x := s[..|s| - 1], s[|s| - 1];
      SortedIsFixed(init);
      InsertAt(x, init);
      assert InsertPos(x, init) == |init|;
      Snoc(s);
    }
  }

  /** construct_tree's loop: merge until at most one node is left. */
  function Build(s: seq<Node>): seq<Node>
    decreases |s|
  {
    if |s| <= 1 then s
    else
      SortPermutes(s[2..] + [Combine(s)]);
      Build(Merge(s))
  }

  /** Construction ends with no node for an empty list and one node
      otherwise, an internal one once there were two nodes to merge; the
      node's count is the list's total and its leaves are the list's leaves. */
  lemma {:induction false} BuildFacts(s: seq<Node>)
    ensures |Build(s)| == if s == [] then 0 else 1
    ensures |s| >= 2 ==> Build(s)[0].Internal?
    ensures |s| == 1 ==> Build(s) == s
    ensures Total(Build(s)) == Total(s)
    ensures multiset(AllLeaves(Build(s))) == multiset(AllLeaves(s))
    decreases |s|
  {
    if |s| >= 2 {
      MergeKeeps(s);
      BuildFacts(Merge(s));
      if |s| == 2 {
        assert Merge(s) == [Combine(s)] by {
          assert s[2..] + [Combine(s)] == [Combine(s)];
          assert [Combine(s)][..0] == [];
          assert SortByCount([Combine(s)]) == Insert(Combine(s), SortByCount([]));
        }
      }
    }
  }

  /** A non-empty list merges to a single root holding the list's leaves and
      total count. */
  lemma SingleRoot(s: seq<Node>)
    requires s != []
    ensures |Build(s)| == 1
    ensures multiset(Leaves(Build(s)[0])) == multiset(AllLeaves(s))
    ensures Build(s)[0].count == Total(s)
  {
    BuildFacts(s);
    var root := Build(s)[0];
    assert Build(s) == [root];
    AllLeavesSingle(root);
    assert Total([root]) == root.count + Total([]);
  }

  /** A merge step on any list shrinks it by one and keeps its total count
      and its leaves. */
  lemma MergeKeeps(s: seq<Node>)
    requires |s| >= 2
    ensures |Merge(s)| == |s| - 1
    ensures Total(Merge(s)) == Total(s)
    ensures multiset(AllLeaves(Merge(s))) == multiset(AllLeaves(s))
  {
    var x, rest := Combine(s), s[2..];
    AppendOne(rest, x);
    SortPermutes(rest + [x]);
    SortKeepsLeaves(rest + [x]);
    FrontTwo(s);
  }

  /** Appending one node adds its count and its leaves at the end. */
  lemma AppendOne(s: seq<Node>, x: Node)
    ensures Total(s + [x]) == Total(s) + x.count
    ensures AllLeaves(s + [x]) == AllLeaves(s) + Leaves(x)
  {
    TotalAppend(s, [x]);
    AllLeavesAppend(s, [x]);
    AllLeavesSingle(x);
    assert Total([x]) == x.count;
  }

  /** The leaves that the constructor seeds from the counter's items, in the
      dictionary's iteration order. */
  function Seed(items: seq<(char, nat)>): (r: seq<Node>)
    ensures |r| == |items|
    ensures forall i :: 0 <= i < |r| ==> r[i] == Leaf(items[i].1, items[i].0)
  {
    if items == [] then [] else Seed(items[..|items| - 1]) + [Leaf(items[|items| - 1].1, items[|items| - 1].0)]
  }

  /** The seeding loop: one leaf appended per (symbol, count) item. */
  method SeedNodes(items: seq<(char, nat)>) returns (nodes: seq<Node>)
    ensures nodes == Seed(items)
  {
    nodes := [];
    var i := 0;
    while i < |items|
      invariant 0 <= i <= |items|
      invariant nodes == Seed(items[..i])
    {
      assert items[..i + 1][..i] == items[..i];
      nodes := nodes + [Leaf(items[i].1, items[i].0)];
      i := i + 1;
    }
    assert items[..|items|] == items;
  }

  /** Seeded leaves are their own leaves, and their total is the sum of the
      items' counts. */
  lemma {:induction false} SeedLeaves(s: seq<Node>)
    requires forall i :: 0 <= i < |s| ==> s[i].Leaf?
    ensures AllLeaves(s) == s
  {
    if s != [] {
      SeedLeaves(s[1..]);
      assert s == [s[0]] + s[1..];
    }
  }
}
