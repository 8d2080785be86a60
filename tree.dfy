/** The Huffman tree of src/huffman/tree.py: the codeword table derived from a
    tree, the one-symbol decoder, the tree built from a text, and the
    HuffmanTree object that holds the node list, the root and the table on the
    encoding side, and the padding, root and payload on the decoding side. */
module Huffman {
  import opened Outcomes
  import opened BitString
  import opened HuffmanNode
  import opened NodeList
  import opened Counting

  // ---------------------------------------------------------------------
  // The codeword table

  /** _walk_tree: every leaf symbol mapped to `current` followed by its path
      from `t` (false = left, true = right). The right subtree's entries are
      added last, so they win when a symbol occurs on both sides. */
  function WalkTree(t: Node, current: seq<bool>): map<char, seq<bool>> {
    match t
    case Leaf(_, c) => map[c := current]
    case Internal(_, l, r) => WalkTree(l, current + [false]) + WalkTree(r, current + [true])
  }

  /** The table construct_tree stores in binary_map. */
  function Codes(t: Node): map<char, seq<bool>> {
    WalkTree(t, [])
  }

  /** process_stream on a tree: follow one bit per internal node, from the
      front of `stream`, until a leaf; yields its symbol and the unread bits.
      Reading past the end of the stream raises IndexError. */
  function Walk(t: Node, stream: seq<bool>): Result<(char, seq<bool>)> {
    match t
    case Leaf(_, c) => Ok((c, stream))
    case Internal(_, l, r) =>
      if stream == [] then Err(IndexError)
      else Walk(if stream[0] then r else l, stream[1..])
  }

  /** The table has exactly one entry per leaf symbol. */
  lemma {:induction false} WalkTreeKeys(t: Node, current: seq<bool>)
    ensures WalkTree(t, current).Keys == Symbols(t)
  {
    match t
    case Leaf(_, _) =>
    case Internal(_, l, r) =>
      WalkTreeKeys(l, current + [false]);
      WalkTreeKeys(r, current + [true]);
  }

  /** Every entry starts with `current`; the rest is a path that the walk
      follows back to that very symbol, whatever bits come after it. Below an
      internal node the path is never empty. */
  lemma {:induction false} WalkTreeDecodes(t: Node, current: seq<bool>, c: char, rest: seq<bool>)
    requires c in WalkTree(t, current)
    ensures |current| <= |WalkTree(t, current)[c]|
    ensures WalkTree(t, current)[c][..|current|] == current
    ensures Walk(t, WalkTree(t, current)[c][|current|..] + rest) == Ok((c, rest))
    ensures t.Internal? ==> |WalkTree(t, current)[c]| > |current|
  {
    match t
    case Leaf(_, _) =>
      assert WalkTree(t, current)[c] == current;
      assert current[|current|..] + rest == rest;
    case Internal(_, l, r) =>
      var bit := c in WalkTree(r, current + [true]);
      var child := if bit then r else l;
      var next := current + [bit];
      WalkTreeDecodes(child, next, c, rest);
      var code := WalkTree(child, next)[c];
      assert WalkTree(t, current)[c] == code;
      assert code[..|current|] == next[..|current|] == current;
      var suffix := code[|current|..];
      assert suffix[0] == code[|current|] == next[|current|] == bit;
      assert (suffix + rest)[1..] == code[|next|..] + rest;
  }

  /** get_character's promise: reading the codeword of `c`, followed by any
      bits, decodes `c` and leaves exactly those bits. */
  lemma CodesDecode(t: Node, c: char, rest: seq<bool>)
    requires c in Codes(t)
    ensures Walk(t, Codes(t)[c] + rest) == Ok((c, rest))
  {
    WalkTreeDecodes(t, [], c, rest);
    assert Codes(t)[c][0..] == Codes(t)[c];
  }

  /** The table covers the leaf symbols; a leaf root gets the empty codeword
      and below an internal root every codeword has at least one bit. */
  lemma CodesShape(t: Node)
    ensures Codes(t).Keys == Symbols(t)
    ensures t.Leaf? ==> Codes(t) == map[t.data := []]
    ensures t.Internal? ==> forall c :: c in Codes(t) ==> |Codes(t)[c]| >= 1
  {
    WalkTreeKeys(t, []);
    if t.Internal? {
      forall c | c in Codes(t) ensures |Codes(t)[c]| >= 1 {
        WalkTreeDecodes(t, [], c, []);
      }
    }
  }

  /** No codeword is a prefix of another symbol's codeword. */
  lemma PrefixFree(t: Node, c: char, d: char)
    requires c in Codes(t) && d in Codes(t) && c != d
    ensures !(Codes(t)[c] <= Codes(t)[d])
  {
    var cc, cd := Codes(t)[c], Codes(t)[d];
    if cc <= cd {
      var extra := cd[|cc|..];
      assert cc + extra == cd + [];
      CodesDecode(t, c, extra);
      CodesDecode(t, d, []);
      assert false;
    }
  }

  /** A walk reads a prefix of the stream and leaves the rest; from an
      internal node it reads at least one bit; it fails only by running out
      of bits. */
  lemma {:induction false} WalkConsumes(t: Node, stream: seq<bool>)
    ensures Walk(t, stream).Err? ==> Walk(t, stream).error == IndexError
    ensures Walk(t, stream).Ok? ==>
      var rest := Walk(t, stream).value.1;
      |rest| <= |stream| && stream[|stream| - |rest|..] == rest
      && (t.Internal? ==> |rest| < |stream|)
  {
    match t
    case Leaf(_, _) =>
    case Internal(_, l, r) =>
      if stream != [] {
        var child := if stream[0] then r else l;
        WalkConsumes(child, stream[1..]);
        if Walk(t, stream).Ok? {
          var rest := Walk(t, stream).value.1;
          assert stream[1..][|stream[1..]| - |rest|..] == stream[|stream| - |rest|..];
        }
      }
  }

  /** The counts play no part in the table or the walk, so a parsed tree
      (all counts 0) decodes like the tree it was written from. */
  lemma {:induction false} WalkTreeReset(t: Node, current: seq<bool>)
    ensures WalkTree(Reset(t), current) == WalkTree(t, current)
  {
    match t
    case Leaf(_, _) =>
    case Internal(_, l, r) =>
      WalkTreeReset(l, current + [false]);
      WalkTreeReset(r, current + [true]);
  }

  lemma {:induction false} WalkReset(t: Node, stream: seq<bool>)
    ensures Walk(Reset(t), stream) == Walk(t, stream)
  {
    match t
    case Leaf(_, _) =>
    case Internal(_, l, r) =>
      if stream != [] {
        WalkReset(if stream[0] then r else l, stream[1..]);
      }
  }

  // ---------------------------------------------------------------------
  // Encoding and decoding whole texts

  /** The codewords of the characters of `text`, concatenated in order. */
  function EncodeText(codes: map<char, seq<bool>>, text: seq<char>): seq<bool>
    requires forall i :: 0 <= i < |text| ==> text[i] in codes
  {
    if text == [] then [] else codes[text[0]] + EncodeText(codes, text[1..])
  }

  /** Encoding one more character appends its codeword. */
  lemma {:induction false} EncodeTextSnoc(codes: map<char, seq<bool>>, text: seq<char>, c: char)
    requires forall i :: 0 <= i < |text| ==> text[i] in codes
    requires c in codes
    ensures EncodeText(codes, text + [c]) == EncodeText(codes, text) + codes[c]
  {
    if text == [] {
      assert [c][1..] == [];
    } else {
      assert (text + [c])[1..] == text[1..] + [c];
      EncodeTextSnoc(codes, text[1..], c);
    }
  }

  /** decompress_file's loop on a tree: process_stream until no bits are
      left. A call that reads no bit (a leaf root) would repeat forever; it
      ends here with NoProgress. */
  function DecodeAll(t: Node, data: seq<bool>): Result<seq<char>>
    decreases |data|
  {
    if data == [] then Ok([])
    else
      match Walk(t, data)
      case Err(e) => Err(e)
      case Ok((c, rest)) =>
        if |rest| >= |data| then Err(NoProgress)
        else
          match DecodeAll(t, rest)
          case Err(e) => Err(e)
          case Ok(more) => Ok([c] + more)
  }

  /** Decoding the encoding of a text over an internal tree's symbols gives
      the text back. */
  lemma {:induction false} DecodeEncode(t: Node, text: seq<char>)
    requires t.Internal?
    requires forall i :: 0 <= i < |text| ==> text[i] in Codes(t)
    ensures DecodeAll(t, EncodeText(Codes(t), text)) == Ok(text)
  {
    if text != [] {
      var code, rest := Codes(t)[text[0]], EncodeText(Codes(t), text[1..]);
      CodesShape(t);
      CodesDecode(t, text[0], rest);
      DecodeEncode(t, text[1..]);
      assert [text[0]] + text[1..] == text;
    }
  }

  /** With a leaf root nothing is ever read, so any payload fails to decode. */
  lemma LeafRootStalls(t: Node, data: seq<bool>)
    requires t.Leaf? && data != []
    ensures DecodeAll(t, data) == Err(NoProgress)
  {
  }

  lemma {:induction false} DecodeAllReset(t: Node, data: seq<bool>)
    ensures DecodeAll(Reset(t), data) == DecodeAll(t, data)
    decreases |data|
  {
    if data != [] {
      WalkReset(t, data);
      if Walk(t, data).Ok? {
        var rest := Walk(t, data).value.1;
        if |rest| < |data| {
          DecodeAllReset(t, rest);
        }
      }
    }
  }

  // ---------------------------------------------------------------------
  // The decoding side's fields

  /** get_data: data[:-padding]. Python's slice keeps nothing when padding is
      0 or at least the length. */
  function TrimPadding(data: seq<bool>, padding: nat): (r: seq<bool>)
    ensures r <= data
    ensures |r| == if 0 < padding < |data| then |data| - padding else 0
  {
    if 0 < padding < |data| then data[..|data| - padding] else []
  }

  /** The bit_array branch of HuffmanTree.__init__: the padding is the
      unsigned big-endian value of the first 8 bits (fewer if the input is
      shorter; `.uint` of no bits raises), then the tree is parsed from the
      rest and what it leaves is the data. With 8 bits or fewer nothing is
      left for the tree, whose first bit read raises IndexError. */
  function ReadContainer(bits: seq<bool>): (r: Result<(nat, Node, seq<bool>)>)
    ensures bits == [] ==> r == Err(InterpretError)
    ensures 0 < |bits| <= 8 ==> r == Err(IndexError)
    ensures |bits| >= 8 ==> r.Ok? ==>
      r.value.0 == Value(bits[..8]) && r.value.0 < 256
      && FromBits(bits[8..]) == Ok((r.value.1, r.value.2))
    ensures |bits| >= 8 ==> r.Err? ==> FromBits(bits[8..]) == Err(r.error)
  {
    if bits == [] then Err(InterpretError)
    else
      var head := if |bits| < 8 then |bits| else 8;
      match FromBits(bits[head..])
      case Err(e) => Err(e)
      case Ok((t, rest)) => Ok((Value(bits[..head]), t, rest))
  }

  // ---------------------------------------------------------------------
  // The tree built from a text

  /** The text of a file read line by line. */
  function Flatten(lines: seq<seq<char>>): seq<char> {
    if lines == [] then [] else Flatten(lines[..|lines| - 1]) + lines[|lines| - 1]
  }

  /** The counter's items after counting `text` from an empty counter. */
  function TextItems(text: seq<char>): seq<(char, nat)> {
    TallyKeys(map[], text);
    FirstSeenKeys([], text);
    ItemsOf(FirstSeen([], text), Tally(map[], text))
  }

  /** The constructor's node list: one leaf per counter item, stably sorted
      by count. */
  function InitialNodes(text: seq<char>): seq<Node> {
    SortByCount(Seed(TextItems(text)))
  }

  /** The root construct_tree returns for `text`, None for no nodes. */
  function HuffmanRoot(text: seq<char>): Option<Node> {
    var built := Build(InitialNodes(text));
    if built == [] then None else Some(built[0])
  }

  /** Seeding makes one leaf per distinct character, in first-seen order,
      carrying that character's number of occurrences. */
  lemma SeedFacts(text: seq<char>)
    ensures |Seed(TextItems(text))| == |FirstSeen([], text)|
    ensures forall i :: 0 <= i < |FirstSeen([], text)| ==>
      Seed(TextItems(text))[i] == Leaf(multiset(text)[FirstSeen([], text)[i]], FirstSeen([], text)[i])
  {
    var keys, counts := FirstSeen([], text), Tally(map[], text);
    KeysCounted(text);
    TallyOccurrences(map[], text);
    var items := TextItems(text);
    forall i | 0 <= i < |keys|
      ensures Seed(items)[i] == Leaf(multiset(text)[keys[i]], keys[i])
    {
      assert items[i] == (keys[i], counts[keys[i]]);
      assert CountOf(counts, keys[i]) == CountOf(map[], keys[i]) + multiset(text)[keys[i]];
    }
  }

  /** The initial list is sorted by count and keeps the seeding order among
      equal counts. */
  lemma InitialNodesSorted(text: seq<char>)
    ensures |InitialNodes(text)| == |FirstSeen([], text)|
    ensures SortedByCount(InitialNodes(text))
    ensures forall k: nat :: WithCount(InitialNodes(text), k) == WithCount(Seed(TextItems(text)), k)
  {
    SeedFacts(text);
    SortPermutes(Seed(TextItems(text)));
    SortIsStable(Seed(TextItems(text)));
  }

  /** A text has no characters exactly when it has no distinct character. */
  lemma DistinctCount(text: seq<char>)
    ensures FirstSeen([], text) == [] <==> text == []
    ensures Distinct(FirstSeen([], text))
    ensures forall c :: c in FirstSeen([], text) <==> c in text
  {
    FirstSeenKeys([], text);
    if text != [] {
      assert text[0] in FirstSeen([], text);
    }
  }

  lemma {:induction false} SeedTotal(keys: seq<char>, m: map<char, nat>)
    requires forall i :: 0 <= i < |keys| ==> keys[i] in m
    ensures Total(Seed(ItemsOf(keys, m))) == SumOver(keys, m)
  {
    if keys != [] {
      var init := keys[..|keys| - 1];
      var items := ItemsOf(keys, m);
      SeedTotal(init, m);
      assert items[..|items| - 1] == ItemsOf(init, m);
      var leaf := Leaf(m[keys[|keys| - 1]], keys[|keys| - 1]);
      assert Seed(items) == Seed(ItemsOf(init, m)) + [leaf];
      TotalAppend(Seed(ItemsOf(init, m)), [leaf]);
      assert Total([leaf]) == leaf.count;
    }
  }

  /** The leaves of a tree are leaf nodes holding its symbols, and every
      symbol is held by one of them. */
  lemma {:induction false} LeafIn(t: Node, n: Node)
    requires n in Leaves(t)
    ensures n.Leaf? && n.data in Symbols(t)
  {
    match t
    case Leaf(_, _) =>
    case Internal(_, l, r) =>
      if n in Leaves(l) { LeafIn(l, n); } else { LeafIn(r, n); }
  }

  lemma {:induction false} SymbolLeaf(t: Node, c: char) returns (n: Node)
    requires c in Symbols(t)
    ensures n in Leaves(t) && n == Leaf(n.count, c)
  {
    match t
    case Leaf(_, _) =>
      n := t;
    case Internal(_, l, r) =>
      if c in Symbols(l) { n := SymbolLeaf(l, c); } else { n := SymbolLeaf(r, c); }
  }

  lemma {:induction false} AsciiSymbols(t: Node)
    ensures AsciiTree(t) <==> forall c :: c in Symbols(t) ==> IsAscii(c)
  {
    match t
    case Leaf(_, _) =>
    case Internal(_, l, r) =>
      AsciiSymbols(l);
      AsciiSymbols(r);
  }

  /** The leaves under the root are exactly the seeded leaves. */
  lemma RootLeaves(text: seq<char>)
    requires HuffmanRoot(text).Some?
    ensures multiset(Leaves(HuffmanRoot(text).value)) == multiset(Seed(TextItems(text)))
    ensures HuffmanRoot(text).value.count == Total(Seed(TextItems(text)))
  {
    var seed := Seed(TextItems(text));
    SortPermutes(seed);
    SingleRoot(InitialNodes(text));
    SortKeepsLeaves(seed);
    SeedLeaves(seed);
  }

  /** construct_tree yields no root exactly for the empty text; the root is
      a leaf exactly when the text has a single distinct character. */
  lemma RootShape(text: seq<char>)
    ensures HuffmanRoot(text).None? <==> text == []
    ensures HuffmanRoot(text).Some? ==>
      (HuffmanRoot(text).value.Internal? <==> |FirstSeen([], text)| >= 2)
  {
    InitialNodesSorted(text);
    DistinctCount(text);
    BuildFacts(InitialNodes(text));
    if |FirstSeen([], text)| == 1 {
      var seed := Seed(TextItems(text));
      SeedFacts(text);
      SortPermutes(seed);
      var root := HuffmanRoot(text).value;
      assert Build(InitialNodes(text)) == InitialNodes(text);
      assert root in multiset(seed);
    }
  }

  /** Every first-seen character has a count. */
  lemma KeysCounted(text: seq<char>)
    ensures forall i :: 0 <= i < |FirstSeen([], text)| ==> FirstSeen([], text)[i] in Tally(map[], text)
    ensures TextItems(text) == ItemsOf(FirstSeen([], text), Tally(map[], text))
  {
    TallyKeys(map[], text);
    FirstSeenKeys([], text);
  }

  /** The root's count is the number of characters of the text. */
  lemma RootCount(text: seq<char>)
    requires HuffmanRoot(text).Some?
    ensures HuffmanRoot(text).value.count == |text|
  {
    RootLeaves(text);
    SeedCountsText(text);
  }

  /** The seeded leaves' counts add up to the length of the text. */
  lemma SeedCountsText(text: seq<char>)
    ensures Total(Seed(TextItems(text))) == |text|
  {
    var keys, counts := FirstSeen([], text), Tally(map[], text);
    KeysCounted(text);
    SeedTotal(keys, counts);
    TallyTotal([], map[], text);
    assert SumOver([], map[]) == 0;
  }

  /** A seeded leaf carries its character's number of occurrences. */
  lemma SeededLeaf(text: seq<char>, n: Node)
    requires n in Seed(TextItems(text))
    ensures n.Leaf? && n.count == multiset(text)[n.data]
  {
    var seed := Seed(TextItems(text));
    SeedFacts(text);
    var i :| 0 <= i < |seed| && seed[i] == n;
  }

  /** Each leaf under the root carries its character's number of
      occurrences. */
  lemma RootLeafCounts(text: seq<char>)
    requires HuffmanRoot(text).Some?
    ensures forall n :: n in Leaves(HuffmanRoot(text).value) ==>
      n.Leaf? && n.count == multiset(text)[n.data]
  {
    var root := HuffmanRoot(text).value;
    RootLeaves(text);
    forall n | n in Leaves(root) ensures n.Leaf? && n.count == multiset(text)[n.data] {
      assert n in multiset(Leaves(root));
      SeededLeaf(text, n);
    }
  }

  /** The root's symbols are the characters of the text. */
  lemma RootSymbols(text: seq<char>)
    requires HuffmanRoot(text).Some?
    ensures forall c :: c in Symbols(HuffmanRoot(text).value) <==> c in text
  {
    var root := HuffmanRoot(text).value;
    var seed := Seed(TextItems(text));
    var keys := FirstSeen([], text);
    RootLeaves(text);
    SeedFacts(text);
    DistinctCount(text);
    forall c ensures c in Symbols(root) <==> c in text {
      if c in Symbols(root) {
        var n := SymbolLeaf(root, c);
        assert n in multiset(seed);
        var i :| 0 <= i < |seed| && seed[i] == n;
        assert c == keys[i];
      }
      if c in text {
        assert c in keys;
        var i :| 0 <= i < |keys| && keys[i] == c;
        assert seed[i] in multiset(Leaves(root));
        LeafIn(root, seed[i]);
      }
    }
  }

  /** An ASCII text gives a tree that to_bits can write. */
  lemma RootAscii(text: seq<char>)
    requires HuffmanRoot(text).Some?
    requires forall i :: 0 <= i < |text| ==> IsAscii(text[i])
    ensures AsciiTree(HuffmanRoot(text).value)
  {
    RootSymbols(text);
    AsciiSymbols(HuffmanRoot(text).value);
  }

  // ---------------------------------------------------------------------
  // The HuffmanTree object

  /** HuffmanTree. The encoding side fills `counter` and `nodes`, then
      construct_tree sets `root` and `binaryMap`; the decoding side sets
      `padding`, `root` and `data`. An attribute the source never assigns on
      a path is None, null or empty here. */
  class HuffmanTree {
    var counter: CharacterCounter?
    var nodes: seq<Node>
    var root: Option<Node>
    var binaryMap: Option<map<char, seq<bool>>>
    var padding: nat
    var data: seq<bool>

    /** HuffmanTree() with neither a file name nor a bit array. */
    constructor Empty()
      ensures counter == null && nodes == [] && root == None && binaryMap == None
      ensures padding == 0 && data == []
    {
      counter := null;
      nodes := [];
      root := None;
      binaryMap := None;
      padding := 0;
      data := [];
    }

    /** HuffmanTree(file_name), the file given as the lines readline returns:
        each line is counted in turn, then one leaf is appended per counter
        item and the list is sorted stably by count. */
    constructor FromLines(lines: seq<seq<char>>)
      ensures counter != null && fresh(counter) && counter.Valid()
      ensures counter.characters == Tally(map[], Flatten(lines))
      ensures counter.keys == FirstSeen([], Flatten(lines))
      ensures nodes == InitialNodes(Flatten(lines))
      ensures root == None && binaryMap == None && padding == 0 && data == []
    {
      var c := CountLines(lines);
      KeysCounted(Flatten(lines));
      var items := c.Items();
      var seeded := SeedNodes(items);
      counter := c;
      nodes := SortByCount(seeded);
      root := None;
      binaryMap := None;
      padding := 0;
      data := [];
    }

    /** The readline loop of __init__: a fresh counter fed each line in
        turn. */
    static method CountLines(lines: seq<seq<char>>) returns (c: CharacterCounter)
      ensures fresh(c) && c.Valid()
      ensures c.characters == Tally(map[], Flatten(lines))
      ensures c.keys == FirstSeen([], Flatten(lines))
    {
      c := new CharacterCounter();
      var i := 0;
      while i < |lines|
        invariant 0 <= i <= |lines|
        invariant fresh(c) && c.Valid()
        invariant c.characters == Tally(map[], Flatten(lines[..i]))
        invariant c.keys == FirstSeen([], Flatten(lines[..i]))
      {
        TallyAppend(map[], Flatten(lines[..i]), lines[i]);
        FirstSeenAppend([], Flatten(lines[..i]), lines[i]);
        c.AddText(lines[i]);
        assert lines[..i + 1][..i] == lines[..i];
        i := i + 1;
      }
      assert lines[..|lines|] == lines;
    }

    /** HuffmanTree(bit_array=bits): the padding from the first 8 bits, then
        a fresh root parsed from the rest, whose leftover bits are the data. */
    static method FromBitArray(bits: seq<bool>) returns (r: Result<HuffmanTree>)
      ensures r.Err? ==> ReadContainer(bits) == Err(r.error)
      ensures r.Ok? ==>
        fresh(r.value) && r.value.root.Some?
        && ReadContainer(bits) == Ok((r.value.padding, r.value.root.value, r.value.data))
    {
      if bits == [] {
        return Err(InterpretError);
      }
      var head := if |bits| < 8 then |bits| else 8;
      var p := Value(bits[..head]);
      var parsed := FromBits(bits[head..]);
      if parsed.Err? {
        return Err(parsed.error);
      }
      var tree := new HuffmanTree.Empty();
      tree.padding := p;
      tree.root := Some(parsed.value.0);
      tree.data := parsed.value.1;
      return Ok(tree);
    }

    /** _process_nodes: one merge step. Reading nodes[1] of a shorter list
        raises IndexError. */
    method ProcessNodes() returns (r: Result<()>)
      modifies this`nodes
      ensures |old(nodes)| < 2 ==> r == Err(IndexError) && nodes == old(nodes)
      ensures |old(nodes)| >= 2 ==> r == Ok(()) && nodes == Merge(old(nodes))
    {
      if |nodes| < 2 {
        return Err(IndexError);
      }
      var left := nodes[0];
      var right := nodes[1];
      nodes := nodes[1..];  // remove(left): found at index 0 by identity
      nodes := nodes[1..];  // remove(right): now at index 0
      var combined := Internal(left.count + right.count, left, right);
      nodes := nodes + [combined];
      nodes := SortByCount(nodes);
      return Ok(());
    }

    /** construct_tree: merge until at most one node is left; that node, if
        any, is the root, and its codeword table is stored. */
    method ConstructTree() returns (result: Option<Node>)
      modifies this`nodes, this`root, this`binaryMap
      ensures nodes == Build(old(nodes))
      ensures result == root == if nodes == [] then None else Some(nodes[0])
      ensures result.Some? ==> binaryMap == Some(Codes(result.value))
      ensures result.None? ==> binaryMap == old(binaryMap)
    {
      while |nodes| > 1
        invariant Build(nodes) == Build(old(nodes))
        invariant binaryMap == old(binaryMap)
        decreases |nodes|
      {
        MergeKeeps(nodes);
        var _ := ProcessNodes();
      }
      root := if nodes == [] then None else Some(nodes[0]);
      if root.Some? {
        binaryMap := Some(Codes(root.value));
      }
      return root;
    }

    /** get_character: the stored codeword. Indexing a missing table (None)
        raises TypeError, a symbol outside it KeyError. */
    function GetCharacter(c: char): (r: Result<seq<bool>>)
      reads this
      ensures binaryMap.None? ==> r == Err(TypeError)
      ensures binaryMap.Some? ==> (r.Ok? <==> c in binaryMap.value)
      ensures r.Ok? ==> binaryMap.Some? && r.value == binaryMap.value[c]
      ensures r.Err? && binaryMap.Some? ==> r.error == KeyError
    {
      match binaryMap
      case None => Err(TypeError)
      case Some(table) => if c in table then Ok(table[c]) else Err(KeyError)
    }

    /** to_bits: the root's serialisation, None without a root. What it
        writes, from_bits reads back as the root with its counts cleared. */
    function ToBits(): (r: Option<seq<bool>>)
      reads this
      requires root.Some? ==> AsciiTree(root.value)
      ensures r.None? <==> root.None?
      ensures r.Some? ==> r.value == HuffmanNode.ToBits(root.value)
      ensures r.Some? ==> FromBits(r.value) == Ok((Reset(root.value), []))
    {
      match root
      case None => None
      case Some(t) =>
        FromBitsToBits(t, []);
        assert HuffmanNode.ToBits(t) + [] == HuffmanNode.ToBits(t);
        Some(HuffmanNode.ToBits(t))
    }

    /** get_data: the data without its last `padding` bits; a padding of 0,
        or one at least as long as the data, leaves nothing. */
    function GetData(): (r: seq<bool>)
      reads this
      ensures r <= data
      ensures |r| == if 0 < padding < |data| then |data| - padding else 0
      ensures r == TrimPadding(data, padding)
    {
      TrimPadding(data, padding)
    }

    /** process_stream: walk from the root, one bit per step, to a leaf.
        Without a root, `current.data` raises AttributeError. */
    method ProcessStream(stream: seq<bool>) returns (r: Result<(char, seq<bool>)>)
      ensures root.None? ==> r == Err(AttributeError)
      ensures root.Some? ==> r == Walk(root.value, stream)
    {
      if root.None? {
        return Err(AttributeError);
      }
      var current := root.value;
      var i := 0;
      while current.Internal?
        invariant 0 <= i <= |stream|
        invariant Walk(root.value, stream) == Walk(current, stream[i..])
        decreases current
      {
        if i == |stream| {
          return Err(IndexError);
        }
        if !stream[i] {
          current := current.left;
        } else {
          current := current.right;
        }
        assert stream[i..][1..] == stream[i + 1..];
        i := i + 1;
      }
      return Ok((current.data, stream[i..]));
    }
  }
}
