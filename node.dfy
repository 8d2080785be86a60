/** The Huffman tree node of src/huffman/node.py: structural equality and the
    pre-order bit serialisation with its parser. */
module HuffmanNode {
  import opened Outcomes
  import opened BitString

  /** A leaf carries one character, an internal node exactly two children.
      `count` is the frequency (a leaf) or the caller-supplied sum (internal). */
  datatype Node =
    | Leaf(count: nat, data: char)
    | Internal(count: nat, left: Node, right: Node)

  /** A character that UTF-8 encodes in the single byte of a leaf's slot. */
  predicate IsAscii(c: char) {
    (c as int) < 128
  }

  predicate AsciiTree(t: Node) {
    match t
    case Leaf(_, c) => IsAscii(c)
    case Internal(_, l, r) => AsciiTree(l) && AsciiTree(r)
  }

  /** The leaves from left to right. */
  function Leaves(t: Node): (r: seq<Node>)
    ensures |r| >= 1
  {
    match t
    case Leaf(_, _) => [t]
    case Internal(_, l, r) => Leaves(l) + Leaves(r)
  }

  /** The characters held by the leaves. */
  function Symbols(t: Node): set<char> {
    match t
    case Leaf(_, c) => {c}
    case Internal(_, l, r) => Symbols(l) + Symbols(r)
  }

  function InternalCount(t: Node): nat {
    match t
    case Leaf(_, _) => 0
    case Internal(_, l, r) => 1 + InternalCount(l) + InternalCount(r)
  }

  /** The same tree with every count 0: what a parsed node looks like, since
      Node() starts at count 0 and from_bits never sets it. */
  function Reset(t: Node): Node {
    match t
    case Leaf(_, c) => Leaf(0, c)
    case Internal(_, l, r) => Internal(0, Reset(l), Reset(r))
  }

  /** Both trees have the same shape: leaves face leaves, internal nodes face
      internal nodes. */
  predicate SameShape(a: Node, b: Node) {
    match (a, b)
    case (Leaf(_, _), Leaf(_, _)) => true
    case (Internal(_, la, ra), Internal(_, lb, rb)) => SameShape(la, lb) && SameShape(ra, rb)
    case _ => false
  }

  /** Node.__eq__: counts and data compared, then left children, then (only if
      the left ones are equal) right children. Comparing a child with a missing
      child reads `None.count`, so a leaf facing an internal node raises. */
  function Equal(a: Node, b: Node): Result<bool>
    decreases a
  {
    match (a, b)
    case (Leaf(ca, da), Leaf(cb, db)) => Ok(ca == cb && da == db)
    case (Internal(ca, la, ra), Internal(cb, lb, rb)) =>
      (match Equal(la, lb)
       case Err(e) => Err(e)
       case Ok(sameLeft) =>
         if !sameLeft then Ok(false)
         else
           match Equal(ra, rb)
           case Err(e) => Err(e)
           case Ok(sameRight) => Ok(ca == cb && sameRight))
    case _ => Err(AttributeError)
  }

  /** Equality is recursive structural equality; it never raises on trees of
      one shape, and always raises on a leaf against an internal node. */
  lemma {:induction false} EqualIsStructural(a: Node, b: Node)
    ensures Equal(a, b) == Ok(true) <==> a == b
    ensures SameShape(a, b) ==> Equal(a, b).Ok?
    ensures a.Leaf? != b.Leaf? ==> Equal(a, b) == Err(AttributeError)
  {
    match (a, b)
    case (Leaf(_, _), Leaf(_, _)) =>
    case (Internal(_, la, ra), Internal(_, lb, rb)) =>
      EqualIsStructural(la, lb);
      EqualIsStructural(ra, rb);
    case _ =>
  }

  /** Node.to_bits: `0` and the 8-bit symbol for a leaf, `1` then the left and
      right serialisations for an internal node. */
  function ToBits(t: Node): (r: seq<bool>)
    requires AsciiTree(t)
    ensures |r| == 9 * |Leaves(t)| + InternalCount(t)
    ensures r[0] == t.Internal?
  {
    match t
    case Leaf(_, c) => [false] + Byte(c as int)
    case Internal(_, l, r) => [true] + ToBits(l) + ToBits(r)
  }

  /** Node.from_bits on a fresh Node(): parses a prefix of `bits` and returns
      the node with the unconsumed rest. A leaf's slot is bits[1:9], zero-filled
      to a byte and decoded as UTF-8, so only a value below 128 is a character. */
  function FromBits(bits: seq<bool>): (r: Result<(Node, seq<bool>)>)
    ensures r.Ok? ==> |r.value.1| < |bits|
    ensures r.Ok? ==> AsciiTree(r.value.0) && Reset(r.value.0) == r.value.0
    ensures bits == [] ==> r == Err(IndexError)
    decreases |bits|
  {
    if |bits| == 0 then Err(IndexError)
    else if !bits[0] then
      var end := if |bits| < 9 then |bits| else 9;
      var slot := bits[1..end];
      if |slot| == 0 then Err(TruncatedSymbol)
      else
        var v := Value(ToBytes(slot));
        if v < 128 then Ok((Leaf(0, v as char), bits[end..]))
        else Err(UnicodeDecodeError)
    else
      match FromBits(bits[1..])
      case Err(e) => Err(e)
      case Ok((left, afterLeft)) =>
        match FromBits(afterLeft)
        case Err(e) => Err(e)
        case Ok((right, afterRight)) => Ok((Internal(0, left, right), afterRight))
  }

  lemma LeafRoundTrip(c: char, rest: seq<bool>)
    requires IsAscii(c)
    ensures FromBits([false] + Byte(c as int) + rest) == Ok((Leaf(0, c), rest))
  {
    var slot := Byte(c as int);
    var bits := [false] + slot + rest;
    assert bits[1..9] == slot;
    assert ToBytes(slot) == slot;
    assert bits[9..] == rest;
  }

  /** Round trip: parsing a serialised tree followed by any bits rebuilds the
      tree with all counts 0 and hands back exactly the following bits. */
  lemma {:induction false} FromBitsToBits(t: Node, rest: seq<bool>)
    requires AsciiTree(t)
    ensures FromBits(ToBits(t) + rest) == Ok((Reset(t), rest))
  {
    match t
    case Leaf(_, c) =>
      LeafRoundTrip(c, rest);
    case Internal(_, l, r) =>
      FromBitsToBits(l, ToBits(r) + rest);
      FromBitsToBits(r, rest);
      InternalToBits(l, r, rest);
  }

  lemma InternalToBits(l: Node, r: Node, rest: seq<bool>)
    requires AsciiTree(l) && AsciiTree(r)
    requires FromBits(ToBits(l) + (ToBits(r) + rest)) == Ok((Reset(l), ToBits(r) + rest))
    requires FromBits(ToBits(r) + rest) == Ok((Reset(r), rest))
    ensures FromBits([true] + ToBits(l) + ToBits(r) + rest) == Ok((Internal(0, Reset(l), Reset(r)), rest))
  {
    var bits := [true] + ToBits(l) + ToBits(r) + rest;
    TailAfterMarker(true, ToBits(l), ToBits(r), rest);
    InternalRoundTrip(bits, Reset(l), Reset(r), ToBits(r) + rest, rest);
  }

  lemma TailAfterMarker(marker: bool, a: seq<bool>, b: seq<bool>, c: seq<bool>)
    ensures ([marker] + a + b + c)[1..] == a + (b + c)
  {
  }

  /** An internal marker followed by a parsable left and right child. */
  lemma InternalRoundTrip(bits: seq<bool>, l: Node, r: Node, afterLeft: seq<bool>, rest: seq<bool>)
    requires |bits| > 0 && bits[0]
    requires FromBits(bits[1..]) == Ok((l, afterLeft)) && FromBits(afterLeft) == Ok((r, rest))
    ensures FromBits(bits) == Ok((Internal(0, l, r), rest))
  {
  }

  /** `bits` is `code` followed by `rest`, or a proper prefix of `code` with
      nothing left over. */
  predicate Consumed(bits: seq<bool>, code: seq<bool>, rest: seq<bool>) {
    bits == code + rest || (rest == [] && |bits| < |code| && bits == code[..|bits|])
  }

  lemma PrefixOfAppend(a: seq<bool>, b: seq<bool>, k: nat)
    requires k <= |b|
    ensures (a + b)[..|a| + k] == a + b[..k]
  {
  }

  /** A symbol slot of 1 to 8 bits zero-fills to the byte of the character
      it decodes to. */
  lemma SlotByte(slot: seq<bool>, c: char)
    requires 0 < |slot| <= 8 && IsAscii(c) && Value(ToBytes(slot)) == c as int
    ensures ToBytes(slot) == Byte(c as int) && slot == Byte(c as int)[..|slot|]
  {
    var byte := ToBytes(slot);
    WholeByte(|slot|, |byte|);
    ValueInjective(byte, Byte(c as int));
  }

  lemma WholeByte(n: nat, m: nat)
    requires 0 < n <= 8 && n <= m < n + 8 && m % 8 == 0
    ensures m == 8
  {
  }

  /** The bits of a leaf are its marker, then its slot: the byte of its
      character, or a prefix of that byte when the bits ran out. */
  lemma SlotConsumed(bits: seq<bool>, end: nat, c: char)
    requires 1 < end <= |bits| && (end == 9 || (end < 9 && end == |bits|)) && !bits[0]
    requires IsAscii(c) && Value(ToBytes(bits[1..end])) == c as int
    ensures Consumed(bits, [false] + Byte(c as int), bits[end..])
  {
    SlotByte(bits[1..end], c);
    if end == 9 {
      FullSlot(bits, Byte(c as int));
    } else {
      ShortSlot(bits, Byte(c as int));
    }
  }

  lemma FullSlot(bits: seq<bool>, byte: seq<bool>)
    requires |bits| >= 9 && !bits[0] && bits[1..9] == byte
    ensures bits == [false] + byte + bits[9..]
  {
  }

  lemma ShortSlot(bits: seq<bool>, byte: seq<bool>)
    requires 1 < |bits| < 9 && |byte| == 8 && !bits[0] && bits[1..] == byte[..|bits| - 1]
    ensures bits == ([false] + byte)[..|bits|]
  {
    PrefixOfAppend([false], byte, |bits| - 1);
  }

  lemma LeafConsumed(bits: seq<bool>, t: Node, rest: seq<bool>)
    requires |bits| > 0 && !bits[0] && FromBits(bits) == Ok((t, rest))
    ensures Consumed(bits, ToBits(t), rest)
  {
    var end := if |bits| < 9 then |bits| else 9;
    SlotConsumed(bits, end, t.data);
  }

  /** An internal node consumed its marker, all of its left child and what
      its right child consumed. */
  lemma InternalConsumed(bits: seq<bool>, l: Node, r: Node, afterLeft: seq<bool>, rest: seq<bool>)
    requires AsciiTree(l) && AsciiTree(r)
    requires |bits| > 0 && bits[0] && afterLeft != []
    requires Consumed(bits[1..], ToBits(l), afterLeft) && Consumed(afterLeft, ToBits(r), rest)
    ensures Consumed(bits, [true] + ToBits(l) + ToBits(r), rest)
  {
    ConsumedChain(bits, ToBits(l), ToBits(r), afterLeft, rest);
  }

  /** Consuming `a` leaving `mid`, then `b` from `mid`, consumes `a + b`. */
  lemma ConsumedChain(bits: seq<bool>, a: seq<bool>, b: seq<bool>, mid: seq<bool>, rest: seq<bool>)
    requires |bits| > 0 && mid != []
    requires Consumed(bits[1..], a, mid) && Consumed(mid, b, rest)
    ensures Consumed(bits, [bits[0]] + a + b, rest)
  {
    var head := [bits[0]] + a;
    assert bits == head + mid;
    if mid == b + rest {
      assert bits == head + b + rest;
    } else {
      PrefixOfAppend(head, b, |mid|);
    }
  }

  /** What a successful parse consumed is the serialisation of the parsed tree,
      or, when the bits ran out inside the last symbol slot (which tobytes
      zero-fills), a prefix of it with nothing left over. */
  lemma {:induction false} FromBitsConsumed(bits: seq<bool>, t: Node, rest: seq<bool>)
    requires FromBits(bits) == Ok((t, rest))
    ensures Consumed(bits, ToBits(t), rest)
    decreases |bits|
  {
    if !bits[0] {
      LeafConsumed(bits, t, rest);
    } else {
      var (left, afterLeft) := FromBits(bits[1..]).value;
      var (right, afterRight) := FromBits(afterLeft).value;
      assert t == Internal(0, left, right) && rest == afterRight;
      FromBitsConsumed(bits[1..], left, afterLeft);
      FromBitsConsumed(afterLeft, right, afterRight);
      InternalConsumed(bits, left, right, afterLeft, rest);
    }
  }

  /** The serialisation ignores counts. */
  lemma {:induction false} ToBitsReset(t: Node)
    requires AsciiTree(t)
    ensures AsciiTree(Reset(t)) && ToBits(Reset(t)) == ToBits(t)
  {
    match t
    case Leaf(_, _) =>
    case Internal(_, l, r) =>
      ToBitsReset(l);
      ToBitsReset(r);
  }
}
