/** Buffer reconstruction: the `Int32Array` pasted by the user becomes the
    `Uint8Array` handed to the DICOM decoder. Each signed 32-bit sample
    contributes the four bytes of its two's-complement representation, least
    significant byte first (the host is taken to be little-endian, as the
    `Int32Array` buffer view is on every platform the tool targets). */
module Int32Bytes {

  /** A signed 32-bit integer, the element type of an `Int32Array`. */
  type Int32 = x: int | -0x8000_0000 <= x < 0x8000_0000

  /** An unsigned 8-bit integer, the element type of a `Uint8Array`. */
  type Byte = x: int | 0 <= x < 0x100

  /** The unsigned 32-bit word that holds the two's-complement bits of `x`. */
  function Word(x: Int32): (w: nat)
    ensures w < 0x1_0000_0000
    ensures (w - x) % 0x1_0000_0000 == 0
  {
    if x < 0 then x + 0x1_0000_0000 else x
  }

  /** `w` shifted right by `8 * k` bits. */
  function ShiftRight8(w: nat, k: nat): nat
  {
    if k == 0 then w else ShiftRight8(w, k - 1) / 0x100
  }

  /** Bits 8k .. 8k+7 of the two's-complement representation of `x`. */
  function Octet(x: Int32, k: nat): Byte
    requires k < 4
  {
    ShiftRight8(Word(x), k) % 0x100
  }

  /** Splitting off the low byte of a number is unique. */
  lemma LowByte(w: nat, r: int, q: int)
    requires 0 <= r < 0x100 && w == r + 0x100 * q
    ensures w % 0x100 == r && w / 0x100 == q
  {
  }

  /** Little-endian weight of four bytes read as one unsigned word. */
  function LittleEndianWord(b: seq<Byte>): nat
    requires |b| == 4
  {
    b[0] as int + 0x100 * b[1] as int + 0x1_0000 * b[2] as int + 0x100_0000 * b[3] as int
  }

  /** The four bytes that `new Uint8Array(new Int32Array([x]).buffer)` holds. */
  function EncodeInt32(x: Int32): (b: seq<Byte>)
    ensures |b| == 4
    ensures forall k :: 0 <= k < 4 ==> b[k] == Octet(x, k)
    ensures LittleEndianWord(b) == Word(x)
  {
    var w0 := Word(x);
    var w1 := w0 / 0x100;
    var w2 := w1 / 0x100;
    var w3 := w2 / 0x100;
    assert w3 < 0x100 && w3 % 0x100 == w3;
    assert ShiftRight8(w0, 1) == w1;
    assert ShiftRight8(w0, 2) == w2;
    assert ShiftRight8(w0, 3) == w3;
    [w0 % 0x100, w1 % 0x100, w2 % 0x100, w3]
  }

  /** Reads four little-endian bytes back as a signed 32-bit integer. */
  function DecodeInt32(b: seq<Byte>): (x: Int32)
    requires |b| == 4
    ensures Word(x) == LittleEndianWord(b)
  {
    var w := LittleEndianWord(b);
    if w < 0x8000_0000 then w else w - 0x1_0000_0000
  }

  /** Decoding the four bytes of a sample gives the sample back. */
  lemma DecodeEncode(x: Int32)
    ensures DecodeInt32(EncodeInt32(x)) == x
  {
    var y := DecodeInt32(EncodeInt32(x));
    assert Word(y) == Word(x);
  }

  /** Every four bytes are the encoding of exactly one sample. */
  lemma EncodeDecode(b: seq<Byte>)
    requires |b| == 4
    ensures EncodeInt32(DecodeInt32(b)) == b
  {
    var w := LittleEndianWord(b);
    var e := EncodeInt32(DecodeInt32(b));
    assert LittleEndianWord(e) == w;
    DigitsUnique(e, b);
  }

  /** Base-256 digits are unique: equal little-endian words mean equal bytes. */
  lemma DigitsUnique(a: seq<Byte>, b: seq<Byte>)
    requires |a| == 4 && |b| == 4
    requires LittleEndianWord(a) == LittleEndianWord(b)
    ensures a == b
  {
    var w := LittleEndianWord(a);
    var qa := a[1] as int + 0x100 * a[2] as int + 0x1_0000 * a[3] as int;
    var qb := b[1] as int + 0x100 * b[2] as int + 0x1_0000 * b[3] as int;
    LowByte(w, a[0], qa);
    LowByte(w, b[0], qb);
    var ra := a[2] as int + 0x100 * a[3] as int;
    var rb := b[2] as int + 0x100 * b[3] as int;
    LowByte(qa, a[1], ra);
    LowByte(qa, b[1], rb);
    LowByte(ra, a[2], a[3]);
    LowByte(ra, b[2], b[3]);
  }

  /** The byte buffer built from `samples`: their encodings, in input order.
      Slot `[4i, 4i+4)` holds exactly the bytes of `samples[i]`. */
  function Reconstruct(samples: seq<Int32>): (buf: seq<Byte>)
    ensures |buf| == 4 * |samples|
    ensures forall i :: 0 <= i < |samples| ==> buf[4 * i .. 4 * i + 4] == EncodeInt32(samples[i])
  {
    if samples == [] then []
    else
      var rest := Reconstruct(samples[1..]);
      var buf := EncodeInt32(samples[0]) + rest;
      assert forall i :: 1 <= i < |samples| ==> buf[4 * i .. 4 * i + 4] == rest[4 * (i - 1) .. 4 * (i - 1) + 4];
      buf
  }

  /** Byte `4i + k` of the buffer is bits `8k .. 8k+7` of sample `i`. */
  lemma ByteLayout(samples: seq<Int32>, i: nat, k: nat)
    requires i < |samples| && k < 4
    ensures 4 * i + k < |Reconstruct(samples)|
    ensures Reconstruct(samples)[4 * i + k] == Octet(samples[i], k)
  {
    var buf := Reconstruct(samples);
    assert buf[4 * i .. 4 * i + 4][k] == buf[4 * i + k];
  }

  /** Reconstructing a sequence extended by one sample appends its four bytes. */
  lemma {:induction false} ReconstructAppend(samples: seq<Int32>, x: Int32)
    ensures Reconstruct(samples + [x]) == Reconstruct(samples) + EncodeInt32(x)
    decreases |samples|
  {
    if samples == [] {
      assert samples + [x] == [x];
    } else {
      assert (samples + [x])[1..] == samples[1..] + [x];
      ReconstructAppend(samples[1..], x);
    }
  }

  /** Groups a buffer of whole words back into signed 32-bit samples. */
  function Deconstruct(buf: seq<Byte>): (samples: seq<Int32>)
    requires |buf| % 4 == 0
    ensures 4 * |samples| == |buf|
    ensures forall i :: 0 <= i < |samples| ==> Word(samples[i]) == LittleEndianWord(buf[4 * i .. 4 * i + 4])
  {
    if buf == [] then []
    else
      var rest := Deconstruct(buf[4..]);
      var samples := [DecodeInt32(buf[..4])] + rest;
      assert forall i :: 1 <= i < |samples| ==> buf[4 * i .. 4 * i + 4] == buf[4..][4 * (i - 1) .. 4 * (i - 1) + 4];
      samples
  }

  /** Reassembling each four-byte group gives back the original samples. */
  lemma {:induction false} DeconstructReconstruct(samples: seq<Int32>)
    ensures Deconstruct(Reconstruct(samples)) == samples
  {
    if samples != [] {
      var buf := Reconstruct(samples);
      assert buf[..4] == EncodeInt32(samples[0]);
      assert buf[4..] == Reconstruct(samples[1..]);
      DecodeEncode(samples[0]);
      DeconstructReconstruct(samples[1..]);
    }
  }

  /** Every buffer of whole words is the reconstruction of exactly one sample
      sequence. */
  lemma {:induction false} ReconstructDeconstruct(buf: seq<Byte>)
    requires |buf| % 4 == 0
    ensures Reconstruct(Deconstruct(buf)) == buf
    decreases |buf|
  {
    if buf != [] {
      var samples := Deconstruct(buf);
      assert samples[1..] == Deconstruct(buf[4..]);
      EncodeDecode(buf[..4]);
      ReconstructDeconstruct(buf[4..]);
      assert buf == buf[..4] + buf[4..];
    }
  }

  /** The buffer as the source fills it: a zeroed `Uint8Array` of `4n` bytes
      into which each sample's bytes are set at offset `4 * index`. */
  method ReconstructBuffer(input: seq<Int32>) returns (data: seq<Byte>)
    ensures |data| == 4 * |input|
    ensures Deconstruct(data) == input
    ensures forall i, k :: 0 <= i < |input| && 0 <= k < 4 ==> data[4 * i + k] == Octet(input[i], k)
  {
    data := seq(4 * |input|, _ => 0);
    var index := 0;
    while index < |input|
      invariant 0 <= index <= |input|
      invariant |data| == 4 * |input|
      invariant data[..4 * index] == Reconstruct(input[..index])
      invariant forall j :: 4 * index <= j < |data| ==> data[j] == 0
    {
      var bytes := EncodeInt32(input[index]);
      ReconstructAppend(input[..index], input[index]);
      assert input[..index + 1] == input[..index] + [input[index]];
      data := data[..4 * index] + bytes + data[4 * index + 4..];
      index := index + 1;
    }
    assert input[..index] == input;
    assert data == Reconstruct(input);
    DeconstructReconstruct(input);
    forall i, k | 0 <= i < |input| && 0 <= k < 4
      ensures data[4 * i + k] == Octet(input[i], k)
    {
      ByteLayout(input, i, k);
    }
  }

  /** The examples of the byte layout: `[1]`, `[-1]` and an empty sample. */
  lemma ReconstructExamples()
    ensures Reconstruct([]) == []
    ensures Reconstruct([1]) == [0x01, 0x00, 0x00, 0x00]
    ensures Reconstruct([-1]) == [0xFF, 0xFF, 0xFF, 0xFF]
    ensures Reconstruct([0x1234_5678]) == [0x78, 0x56, 0x34, 0x12]
  {
    assert Reconstruct([1]) == EncodeInt32(1) + Reconstruct([]);
    assert Reconstruct([-1]) == EncodeInt32(-1) + Reconstruct([]);
    assert Reconstruct([0x1234_5678]) == EncodeInt32(0x1234_5678) + Reconstruct([]);
  }
}
