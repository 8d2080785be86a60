/** Bit strings as sequences of booleans, most significant bit first, as a
    bitstring.BitArray reads and writes them. */
module BitString {

  function Pow2(n: nat): (r: nat)
    ensures r >= 1
  {
    if n == 0 then 1 else 2 * Pow2(n - 1)
  }

  /** `n` zero bits. */
  function Zeros(n: nat): (r: seq<bool>)
    ensures |r| == n
    ensures forall i :: 0 <= i < n ==> !r[i]
  {
    if n == 0 then [] else Zeros(n - 1) + [false]
  }

  /** The unsigned big-endian value of a bit string (BitArray.uint). */
  function Value(b: seq<bool>): (r: nat)
    ensures r < Pow2(|b|)
  {
    if |b| == 0 then 0
    else 2 * Value(b[..|b| - 1]) + (if b[|b| - 1] then 1 else 0)
  }

  /** The `width`-bit big-endian encoding of `v`. */
  function Encode(v: nat, width: nat): (r: seq<bool>)
    requires v < Pow2(width)
    ensures |r| == width
    ensures Value(r) == v
  {
    if width == 0 then []
    else
      var r := Encode(v / 2, width - 1) + [v % 2 == 1];
      assert r[..width - 1] == Encode(v / 2, width - 1);
      r
  }

  /** The single byte holding `v` (int.to_bytes(1) read back as bits). */
  function Byte(v: nat): (r: seq<bool>)
    requires v < 256
    ensures |r| == 8 && Value(r) == v
  {
    Encode(v, 8)
  }

  /** Encoding the value of a bit string gives the bit string back. */
  lemma {:induction false} EncodeValue(b: seq<bool>)
    ensures Encode(Value(b), |b|) == b
  {
    if |b| > 0 {
      var init, bit := b[..|b| - 1], b[|b| - 1];
      assert b == init + [bit];
      EncodeValue(init);
      calc {
        Encode(Value(b), |b|);
        { assert Value(b) == 2 * Value(init) + (if bit then 1 else 0);
          EncodeSnoc(Value(init), |b|, bit); }
        Encode(Value(init), |init|) + [bit];
        init + [bit];
      }
    }
  }

  /** Appending a bit doubles the value and adds the bit; encoding the result
      in one more bit appends that bit to the encoding. */
  lemma EncodeSnoc(x: nat, w: nat, bit: bool)
    requires 0 < w && x < Pow2(w - 1)
    ensures var v := 2 * x + (if bit then 1 else 0);
      v < Pow2(w) && Encode(v, w) == Encode(x, w - 1) + [bit]
  {
    var v := 2 * x + (if bit then 1 else 0);
    assert Pow2(w) == 2 * Pow2(w - 1);
    HalveBit(x, bit);
    assert Encode(v, w) == Encode(v / 2, w - 1) + [v % 2 == 1];
  }

  /** Halving undoes the doubling, and the remainder is the appended bit. */
  lemma HalveBit(x: nat, bit: bool)
    ensures var v := 2 * x + (if bit then 1 else 0);
      v / 2 == x && (v % 2 == 1 <==> bit)
  {
  }

  /** Two bit strings of one width with the same value are equal. */
  lemma ValueInjective(a: seq<bool>, b: seq<bool>)
    requires |a| == |b| && Value(a) == Value(b)
    ensures a == b
  {
    EncodeValue(a);
    EncodeValue(b);
  }

  /** BitArray.tobytes(): the bits zero-filled on the right up to a whole
      number of bytes. */
  function ToBytes(b: seq<bool>): (r: seq<bool>)
    ensures |r| % 8 == 0
    ensures |b| <= |r| < |b| + 8
    ensures r[..|b|] == b
    ensures |b| % 8 == 0 ==> r == b
  {
    FillLength(|b|);
    var r := b + Zeros((8 - |b| % 8) % 8);
    assert r[..|b|] == b;
    r
  }

  /** The fill tobytes adds brings a length to a multiple of eight, and is
      empty when the length already is one. */
  lemma FillLength(n: nat)
    ensures var fill := (8 - n % 8) % 8;
      0 <= fill < 8 && (n + fill) % 8 == 0 && (n % 8 == 0 ==> fill == 0)
  {
  }

  /** The bits tobytes adds are zeros. */
  lemma ToBytesZeroFill(b: seq<bool>)
    ensures forall i :: |b| <= i < |ToBytes(b)| ==> !ToBytes(b)[i]
  {
    var z := Zeros((8 - |b| % 8) % 8);
    assert forall i :: |b| <= i < |ToBytes(b)| ==> ToBytes(b)[i] == z[i - |b|];
  }

  /** Writing whole bytes first and the rest afterwards gives the same bytes
      as writing everything at once. */
  lemma {:induction false} ToBytesAppend(a: seq<bool>, b: seq<bool>)
    requires |a| % 8 == 0
    ensures a + ToBytes(b) == ToBytes(a + b)
  {
    assert (|a| + |b|) % 8 == |b| % 8;
    assert a + (b + Zeros((8 - |b| % 8) % 8)) == (a + b) + Zeros((8 - |b| % 8) % 8);
  }
}
