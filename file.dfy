/** The container of src/huffman/file.py with the files taken away: the text
    comes in as characters and the compressed file is a bit string of whole
    bytes. Layout: one header byte holding 8 - (stream length mod 8), then the
    stream (tree bits, then the codeword of every character in order)
    zero-filled to a byte boundary. */
module HuffmanIO {
  import opened Outcomes
  import opened BitString
  import opened HuffmanNode
  import opened Counting
  import opened Huffman

  /** Characters that to_bits writes in a single 8-bit slot. */
  predicate AsciiText(text: seq<char>) {
    forall i :: 0 <= i < |text| ==> IsAscii(text[i])
  }

  /** The bits compress_file writes after the header, before the final
      zero-fill: the tree, then each character's codeword. */
  function Stream(text: seq<char>): seq<bool>
    requires AsciiText(text)
  {
    match HuffmanRoot(text)
    case None => []
    case Some(root) =>
      RootAscii(text);
      RootSymbols(text);
      CodesShape(root);
      Payload(root, text)
  }

  /** The tree bits of `t` followed by the codewords of `text`. */
  function Payload(t: Node, text: seq<char>): seq<bool>
    requires AsciiTree(t)
    requires forall k :: 0 <= k < |text| ==> text[k] in Codes(t)
  {
    HuffmanNode.ToBits(t) + EncodeText(Codes(t), text)
  }

  /** The header byte for a stream of `n` bits: padding = 8 - n % 8, in
      1..8, written as padding.to_bytes(1). */
  function Header(n: nat): (r: seq<bool>)
    ensures |r| == 8 && 1 <= Value(r) <= 8
    ensures Value(r) == 8 - n % 8
  {
    Byte(8 - n % 8)
  }

  /** The codewords of the characters of `text`, in order. */
  function Codewords(text: seq<char>): seq<bool>
    requires AsciiText(text)
  {
    match HuffmanRoot(text)
    case None => []
    case Some(root) =>
      RootSymbols(text);
      CodesShape(root);
      EncodeText(Codes(root), text)
  }

  /** compress_file's output for `text`: nothing for a text without a root,
      otherwise the padding header then the zero-filled stream. */
  function CompressSpec(text: seq<char>): seq<bool>
    requires AsciiText(text)
  {
    if HuffmanRoot(text).None? then []
    else Header(|Stream(text)|) + ToBytes(Stream(text))
  }

  /** decompress_file's output for the bits of a file: nothing for an empty
      file, otherwise the decoding of the trimmed data. */
  function DecompressSpec(bits: seq<bool>): Result<seq<char>> {
    if bits == [] then Ok([])
    else
      match ReadContainer(bits)
      case Err(e) => Err(e)
      case Ok((padding, root, data)) => DecodeAll(root, TrimPadding(data, padding))
  }

  /** `prefix` followed by a decoding result. */
  function Prepend(prefix: seq<char>, r: Result<seq<char>>): Result<seq<char>> {
    match r
    case Ok(more) => Ok(prefix + more)
    case Err(e) => Err(e)
  }

  /** The stream of a text with a root: its tree bits then its codewords,
      every character having one. */
  lemma StreamFacts(text: seq<char>)
    requires AsciiText(text) && HuffmanRoot(text).Some?
    ensures AsciiTree(HuffmanRoot(text).value)
    ensures forall k :: 0 <= k < |text| ==> text[k] in Codes(HuffmanRoot(text).value)
    ensures Stream(text) == Payload(HuffmanRoot(text).value, text)
    ensures Codewords(text) == EncodeText(Codes(HuffmanRoot(text).value), text)
    ensures Stream(text) == HuffmanNode.ToBits(HuffmanRoot(text).value) + Codewords(text)
  {
    RootAscii(text);
    RootSymbols(text);
    CodesShape(HuffmanRoot(text).value);
  }

  /** One character in compress_file's loop: the written bytes after the
      header, followed by the buffer, grow by the codeword, whether or not
      the buffer is flushed. */
  lemma BufferStep(out: seq<bool>, bits: seq<bool>, code: seq<bool>, sofar: seq<bool>)
    requires |out| >= 8 && |out| % 8 == 0
    requires out[8..] + bits == sofar
    ensures |bits + code| % 8 == 0 ==>
      var flushed := out + ToBytes(bits + code);
      |flushed| >= 8 && |flushed| % 8 == 0 && flushed[..8] == out[..8] && flushed[8..] + [] == sofar + code
    ensures out[8..] + (bits + code) == sofar + code
  {
    if |bits + code| % 8 == 0 {
      var flushed := out + ToBytes(bits + code);
      assert ToBytes(bits + code) == bits + code;
      DropHeader(out, bits + code);
      assert flushed[..8] == out[..8];
    }
  }

  /** One more character adds its codeword to the payload. */
  lemma PayloadSnoc(t: Node, text: seq<char>, i: nat)
    requires AsciiTree(t) && i < |text|
    requires forall k :: 0 <= k < |text| ==> text[k] in Codes(t)
    ensures Payload(t, text[..i + 1]) == Payload(t, text[..i]) + Codes(t)[text[i]]
  {
    EncodePrefixSnoc(Codes(t), text, i);
  }

  lemma EncodePrefixSnoc(codes: map<char, seq<bool>>, text: seq<char>, i: nat)
    requires i < |text| && forall k :: 0 <= k < |text| ==> text[k] in codes
    ensures EncodeText(codes, text[..i + 1]) == EncodeText(codes, text[..i]) + codes[text[i]]
  {
    EncodeTextSnoc(codes, text[..i], text[i]);
    assert text[..i + 1] == text[..i] + [text[i]];
  }

  /** The end of compress_file: the rest of the buffer is written
      zero-filled and the header overwritten with the padding. */
  lemma FinishStep(out: seq<bool>, bits: seq<bool>, stream: seq<bool>)
    requires |out| >= 8 && |out| % 8 == 0
    requires out[8..] + bits == stream
    ensures Header(|bits|) + (out + ToBytes(bits))[8..] == Header(|stream|) + ToBytes(stream)
  {
    var written := out[8..];
    WholeBytesAfterHeader(|out|);
    ToBytesAppend(written, bits);
    DropHeader(out, ToBytes(bits));
    SameResidue(|written|, |bits|);
    HeaderResidue(|bits|, |stream|);
  }

  lemma HeaderResidue(a: nat, b: nat)
    requires a % 8 == b % 8
    ensures Header(a) == Header(b)
  {
    ResidueByte(8 - a % 8, 8 - b % 8);
  }

  lemma ResidueByte(x: nat, y: nat)
    requires x == y && x < 256
    ensures Byte(x) == Byte(y)
  {
  }

  lemma DropHeader(a: seq<bool>, b: seq<bool>)
    requires |a| >= 8
    ensures (a + b)[8..] == a[8..] + b
  {
  }

  lemma WholeBytesAfterHeader(n: nat)
    requires n >= 8 && n % 8 == 0
    ensures (n - 8) % 8 == 0
  {
  }

  lemma SameResidue(w: nat, n: nat)
    requires w % 8 == 0
    ensures (w + n) % 8 == n % 8
  {
  }

  /** compress_file: count the text and build the tree; without a root the
      output is empty, otherwise the container is written. */
  method Compress(text: seq<char>) returns (out: seq<bool>)
    requires AsciiText(text)
    ensures out == CompressSpec(text)
  {
    var tree := new HuffmanTree.FromLines([text]);
    assert Flatten([text]) == text by {
      assert [text][..0] == [];
    }
    var root := tree.ConstructTree();
    if root.None? {
      return [];
    }
    StreamFacts(text);
    out := WriteContainer(tree, root.value, text);
  }

  /** compress_file's writing: a placeholder byte, then a buffer that starts
      with the tree bits and takes the codewords; the rest of the buffer is
      written zero-filled and the first byte is overwritten with
      8 - (buffer length mod 8). */
  method WriteContainer(tree: HuffmanTree, t: Node, text: seq<char>) returns (out: seq<bool>)
    requires tree.root == Some(t) && tree.binaryMap == Some(Codes(t)) && AsciiTree(t)
    requires forall k :: 0 <= k < |text| ==> text[k] in Codes(t)
    ensures out == Header(|Payload(t, text)|) + ToBytes(Payload(t, text))
  {
    var placeholder := ToBytes([false, false, false, false]);
    assert |placeholder| == 8;
    var treeBits := tree.ToBits();
    var bits;
    out, bits := WriteCodewords(tree, t, text, placeholder, treeBits.value);
    ghost var stream := Payload(t, text);
    FinishStep(out, bits, stream);
    out := Header(|bits|) + (out + ToBytes(bits))[8..];
  }

  /** compress_file's loop over the characters: append each codeword to the
      buffer, and whenever the buffer holds whole bytes write it out and
      empty it. */
  method WriteCodewords(tree: HuffmanTree, t: Node, text: seq<char>, start: seq<bool>, treeBits: seq<bool>)
    returns (out: seq<bool>, bits: seq<bool>)
    requires tree.binaryMap == Some(Codes(t)) && AsciiTree(t)
    requires forall k :: 0 <= k < |text| ==> text[k] in Codes(t)
    requires |start| == 8 && treeBits == HuffmanNode.ToBits(t)
    ensures |out| >= 8 && |out| % 8 == 0 && out[..8] == start
    ensures out[8..] + bits == Payload(t, text)
  {
    var codes := Codes(t);
    out := start;
    bits := treeBits;
    assert out[8..] == [] && EncodeText(codes, text[..0]) == [];
    var i := 0;
    while i < |text|
      invariant 0 <= i <= |text|
      invariant |out| >= 8 && |out| % 8 == 0 && out[..8] == start
      invariant out[8..] + bits == Payload(t, text[..i])
    {
      var code := tree.GetCharacter(text[i]);
      PayloadSnoc(t, text, i);
      BufferStep(out, bits, code.value, Payload(t, text[..i]));
      bits := bits + code.value;
      if |bits| % 8 == 0 {
        out := out + ToBytes(bits);
        bits := [];
      }
      i := i + 1;
    }
    assert text[..i] == text;
  }

  lemma PrependNothing(r: Result<seq<char>>)
    ensures Prepend([], r) == r
  {
    if r.Ok? {
      assert [] + r.value == r.value;
    }
  }

  /** One call of process_stream in decompress_file's loop. */
  lemma DecodeStep(t: Node, data: seq<bool>, text: seq<char>, c: char, rest: seq<bool>)
    requires data != [] && Walk(t, data) == Ok((c, rest)) && |rest| < |data|
    ensures Prepend(text, DecodeAll(t, data)) == Prepend(text + [c], DecodeAll(t, rest))
  {
    match DecodeAll(t, rest)
    case Err(_) =>
    case Ok(more) =>
      assert text + ([c] + more) == (text + [c]) + more;
  }

  /** decompress_file: an empty file gives no text; otherwise read the
      padding, the tree and the data, trim the padding, and call
      process_stream until no data is left, collecting the symbols. The
      source's loop never ends when a call reads no bit; here it stops with
      NoProgress. */
  method Decompress(bits: seq<bool>) returns (r: Result<seq<char>>)
    ensures r == DecompressSpec(bits)
  {
    if bits == [] {
      return Ok([]);
    }
    var made := HuffmanTree.FromBitArray(bits);
    if made.Err? {
      return Err(made.error);
    }
    var tree := made.value;
    var t := tree.root.value;
    var data := tree.GetData();
    var text: seq<char> := [];
    assert DecompressSpec(bits) == DecodeAll(t, data);
    PrependNothing(DecodeAll(t, data));
    while data != []
      invariant tree.root == Some(t)
      invariant DecompressSpec(bits) == Prepend(text, DecodeAll(t, data))
      decreases |data|
    {
      var step := tree.ProcessStream(data);
      if step.Err? {
        return Err(step.error);
      }
      var c, rest := step.value.0, step.value.1;
      if |rest| >= |data| {
        return Err(NoProgress);
      }
      DecodeStep(t, data, text, c, rest);
      text := text + [c];
      data := rest;
    }
    assert text + [] == text;
    return Ok(text);
  }

  // ---------------------------------------------------------------------
  // Properties of the container

  /** An empty text compresses to nothing and nothing decompresses to an
      empty text; otherwise the output is whole bytes and the header byte
      holds 8 - (stream length mod 8), which lies in 1..8. */
  lemma CompressShape(text: seq<char>)
    requires AsciiText(text)
    ensures CompressSpec(text) == [] <==> text == []
    ensures |CompressSpec(text)| % 8 == 0
    ensures text != [] ==>
      |CompressSpec(text)| >= 8
      && Value(CompressSpec(text)[..8]) == 8 - |Stream(text)| % 8
      && 1 <= Value(CompressSpec(text)[..8]) <= 8
    ensures DecompressSpec([]) == Ok([])
  {
    RootShape(text);
    if text != [] {
      ContainerLayout(text);
    }
  }

  /** The container of a non-empty text: the header byte, then the
      zero-filled stream. */
  lemma ContainerLayout(text: seq<char>)
    requires AsciiText(text) && text != []
    ensures CompressSpec(text) == Header(|Stream(text)|) + ToBytes(Stream(text))
    ensures |CompressSpec(text)| >= 8 && |CompressSpec(text)| % 8 == 0
    ensures CompressSpec(text)[..8] == Header(|Stream(text)|)
  {
    RootShape(text);
    HeaderThenBytes(Header(|Stream(text)|), ToBytes(Stream(text)));
  }

  lemma HeaderThenBytes(h: seq<bool>, body: seq<bool>)
    requires |h| == 8 && |body| % 8 == 0
    ensures |h + body| >= 8 && |h + body| % 8 == 0
    ensures (h + body)[..8] == h && (h + body)[8..] == body
  {
    SameResidue(8, |body|);
  }

  /** Reading a header byte followed by a serialised tree and data gives the
      header's value, the tree with its counts cleared, and the data. */
  lemma ReadTree(h: seq<bool>, root: Node, data: seq<bool>)
    requires |h| == 8 && AsciiTree(root)
    ensures ReadContainer(h + (HuffmanNode.ToBits(root) + data)) == Ok((Value(h), Reset(root), data))
  {
    var bits := h + (HuffmanNode.ToBits(root) + data);
    assert bits[..8] == h && bits[8..] == HuffmanNode.ToBits(root) + data;
    FromBitsToBits(root, data);
  }

  /** The zero-filled stream is the tree bits, then the codewords and the
      fill. */
  lemma StreamBytes(treeBits: seq<bool>, encoded: seq<bool>)
    ensures ToBytes(treeBits + encoded) ==
      treeBits + (encoded + Zeros((8 - |treeBits + encoded| % 8) % 8))
  {
  }

  /** Reading back a container written for a tree and a codeword string:
      the parsed tree has its counts cleared, which decoding ignores, and the
      data is the codewords followed by the zero-fill, less the header's
      padding. */
  lemma ReadBack(root: Node, encoded: seq<bool>, stream: seq<bool>)
    requires AsciiTree(root) && stream == HuffmanNode.ToBits(root) + encoded
    ensures var n := |stream|;
      DecompressSpec(Header(n) + ToBytes(stream)) ==
        DecodeAll(root, TrimPadding(encoded + Zeros((8 - n % 8) % 8), 8 - n % 8))
  {
    var treeBits := HuffmanNode.ToBits(root);
    var data := encoded + Zeros((8 - |stream| % 8) % 8);
    StreamBytes(treeBits, encoded);
    ReadTree(Header(|stream|), root, data);
    DecodeAllReset(root, TrimPadding(data, 8 - |stream| % 8));
  }

  /** Round trip: an ASCII text with at least two distinct characters whose
      stream does not end on a byte boundary decompresses to itself. */
  lemma RoundTrip(text: seq<char>)
    requires AsciiText(text)
    requires |FirstSeen([], text)| >= 2
    requires |Stream(text)| % 8 != 0
    ensures DecompressSpec(CompressSpec(text)) == Ok(text)
  {
    DistinctCount(text);
    RootShape(text);
    ContainerLayout(text);
    StreamFacts(text);
    TreeRoundTrip(HuffmanRoot(text).value, text);
  }

  /** The round trip for a given internal tree. */
  lemma TreeRoundTrip(root: Node, text: seq<char>)
    requires AsciiTree(root) && root.Internal? && text != []
    requires forall k :: 0 <= k < |text| ==> text[k] in Codes(root)
    requires |Payload(root, text)| % 8 != 0
    ensures DecompressSpec(Header(|Payload(root, text)|) + ToBytes(Payload(root, text))) == Ok(text)
  {
    var encoded := EncodeText(Codes(root), text);
    var n := |Payload(root, text)|;
    PayloadIs(root, text);
    ReadBack(root, EncodeText(Codes(root), text), Payload(root, text));
    FillIsPadding(n);
    EncodedNonEmpty(root, text);
    TrimFill(encoded, 8 - n % 8);
    DecodeEncode(root, text);
  }

  /** Trimming a padding as long as the zero-fill gives back what was
      filled, when that is not empty. */
  lemma TrimFill(encoded: seq<bool>, p: nat)
    requires 0 < p && encoded != []
    ensures TrimPadding(encoded + Zeros(p), p) == encoded
  {
    assert (encoded + Zeros(p))[..|encoded|] == encoded;
  }

  /** Below an internal root a non-empty text has a non-empty encoding. */
  lemma EncodedNonEmpty(root: Node, text: seq<char>)
    requires root.Internal? && text != []
    requires forall k :: 0 <= k < |text| ==> text[k] in Codes(root)
    ensures |EncodeText(Codes(root), text)| >= 1
  {
    CodesShape(root);
    assert text[0] in Codes(root);
  }

  /** A stream that ends on a byte boundary gets the header 8, so reading
      back drops 8 codeword bits: when the codewords take at most 8 bits,
      nothing at all is decoded (TreeAligned states the general case). */
  lemma PaddingEight(text: seq<char>)
    requires AsciiText(text)
    requires |FirstSeen([], text)| >= 2
    requires |Stream(text)| % 8 == 0
    ensures |CompressSpec(text)| >= 8 && Value(CompressSpec(text)[..8]) == 8
    ensures |Codewords(text)| <= 8 ==> DecompressSpec(CompressSpec(text)) == Ok([])
  {
    KeyedText(text);
    AlignedHeader(text);
    if |Codewords(text)| <= 8 {
      AlignedShort(text);
    }
  }

  /** A text with keys is not empty. */
  lemma KeyedText(text: seq<char>)
    requires |FirstSeen([], text)| >= 2
    ensures text != []
  {
  }

  /** An aligned stream gets header 8. */
  lemma AlignedHeader(text: seq<char>)
    requires AsciiText(text) && text != [] && |Stream(text)| % 8 == 0
    ensures |CompressSpec(text)| >= 8 && Value(CompressSpec(text)[..8]) == 8
  {
    ContainerLayout(text);
  }

  /** An aligned stream of at most 8 codeword bits decompresses to nothing. */
  lemma AlignedShort(text: seq<char>)
    requires AsciiText(text) && text != []
    requires |Stream(text)| % 8 == 0 && |Codewords(text)| <= 8
    ensures DecompressSpec(CompressSpec(text)) == Ok([])
  {
    RootShape(text);
    ContainerLayout(text);
    StreamFacts(text);
    ShortAligned(HuffmanRoot(text).value, Codewords(text), Stream(text));
  }

  lemma ShortAligned(root: Node, encoded: seq<bool>, stream: seq<bool>)
    requires AsciiTree(root) && stream == HuffmanNode.ToBits(root) + encoded && |stream| % 8 == 0
    requires |encoded| <= 8
    ensures DecompressSpec(Header(|stream|) + ToBytes(stream)) == Ok([])
  {
    TreeAligned(root, encoded, stream);
  }

  /** The payload is the tree bits followed by the codewords. */
  lemma PayloadIs(root: Node, text: seq<char>)
    requires AsciiTree(root)
    requires forall k :: 0 <= k < |text| ==> text[k] in Codes(root)
    ensures Payload(root, text) == HuffmanNode.ToBits(root) + EncodeText(Codes(root), text)
  {
  }

  /** Reading back, with any tree, a stream of its bits and some codewords
      that ends on a byte boundary: the header says 8, so the decoder sees the
      codewords less their last 8 bits. */
  lemma TreeAligned(root: Node, encoded: seq<bool>, stream: seq<bool>)
    requires AsciiTree(root) && stream == HuffmanNode.ToBits(root) + encoded && |stream| % 8 == 0
    ensures DecompressSpec(Header(|stream|) + ToBytes(stream)) ==
      DecodeAll(root, if |encoded| <= 8 then [] else encoded[..|encoded| - 8])
  {
    ReadBack(root, encoded, stream);
    AlignedTrim(encoded, |stream|);
    SameDecoding(Header(|stream|) + ToBytes(stream), root,
      TrimPadding(encoded + Zeros((8 - |stream| % 8) % 8), 8 - |stream| % 8),
      if |encoded| <= 8 then [] else encoded[..|encoded| - 8]);
  }

  /** Decoding equal data gives equal results. */
  lemma SameDecoding(out: seq<bool>, root: Node, d1: seq<bool>, d2: seq<bool>)
    requires DecompressSpec(out) == DecodeAll(root, d1) && d1 == d2
    ensures DecompressSpec(out) == DecodeAll(root, d2)
  {
  }

  /** On a byte boundary there is no zero-fill and the padding is 8. */
  lemma AlignedTrim(encoded: seq<bool>, n: nat)
    requires n % 8 == 0
    ensures TrimPadding(encoded + Zeros((8 - n % 8) % 8), 8 - n % 8) ==
      if |encoded| <= 8 then [] else encoded[..|encoded| - 8]
  {
    assert (8 - n % 8) % 8 == 0 && 8 - n % 8 == 8;
    assert encoded + Zeros(0) == encoded;
    TrimEight(encoded);
  }

  /** A padding of 8 drops the last 8 bits, or everything when there are
      no more than 8. */
  lemma TrimEight(data: seq<bool>)
    ensures TrimPadding(data, 8) == if |data| <= 8 then [] else data[..|data| - 8]
  {
  }

  /** A text with a single distinct character gets a leaf root, whose
      codeword is empty: the stream is the 9 tree bits, the header is 7, and
      the text decompresses to nothing. */
  lemma SingleSymbol(text: seq<char>)
    requires AsciiText(text)
    requires |FirstSeen([], text)| == 1
    ensures |Stream(text)| == 9
    ensures |CompressSpec(text)| >= 8 && Value(CompressSpec(text)[..8]) == 7
    ensures DecompressSpec(CompressSpec(text)) == Ok([])
  {
    DistinctCount(text);
    RootShape(text);
    var root := HuffmanRoot(text).value;
    assert root.Leaf?;
    StreamFacts(text);
    TreeLeaf(root, text);
    assert |Stream(text)| == 9;
    ContainerLayout(text);
    assert Header(9) == CompressSpec(text)[..8];
  }

  /** A leaf root's container holds only the tree bits. */
  lemma TreeLeaf(root: Node, text: seq<char>)
    requires AsciiTree(root) && root.Leaf?
    requires forall k :: 0 <= k < |text| ==> text[k] in Codes(root)
    ensures |Payload(root, text)| == 9
    ensures DecompressSpec(Header(|Payload(root, text)|) + ToBytes(Payload(root, text))) == Ok([])
  {
    LeafPayload(root, text);
    PayloadIs(root, text);
    ReadBack(root, EncodeText(Codes(root), text), Payload(root, text));
    assert TrimPadding([] + Zeros(7), 7) == [];
  }

  /** Below a leaf root every codeword is empty. */
  lemma LeafPayload(root: Node, text: seq<char>)
    requires AsciiTree(root) && root.Leaf?
    requires forall k :: 0 <= k < |text| ==> text[k] in Codes(root)
    ensures EncodeText(Codes(root), text) == [] && |Payload(root, text)| == 9
  {
    CodesShape(root);
    EmptyCodewords(Codes(root), text);
  }

  /** The zero-fill of a stream that does not end on a byte boundary is
      as long as the padding. */
  lemma FillIsPadding(n: nat)
    requires n % 8 != 0
    ensures (8 - n % 8) % 8 == 8 - n % 8
  {
    var r := n % 8;
    assert 0 < 8 - r < 8;
  }

  /** Codewords that are all empty encode to nothing. */
  lemma {:induction false} EmptyCodewords(codes: map<char, seq<bool>>, text: seq<char>)
    requires forall k :: 0 <= k < |text| ==> text[k] in codes && codes[text[k]] == []
    ensures EncodeText(codes, text) == []
  {
    if text != [] {
      EmptyCodewords(codes, text[1..]);
    }
  }
}
