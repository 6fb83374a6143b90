/** Byte-level building blocks shared by both codecs: the byte type, failure
    wrappers, unsigned little-endian fields, and the little-endian views of a
    byte buffer as 16-bit halves or 32-bit words (what the source obtains
    with memcpy on a little-endian machine). */
module Bytes {

  type byte = bv8

  const U32: nat := 0x1_0000_0000
  const U64: nat := 0x1_0000_0000_0000_0000

  datatype Option<+T> = None | Some(value: T)

  datatype Error =
    | FileTooSmall        // fewer than 8 bytes: no metadata-length prefix
    | InvalidHeaderSize   // the declared metadata length runs past the end of the file
    | TruncatedRecord     // a header, metadata block or payload is cut short
    | FrameCodecError     // the frame compressor failed or its output is unusable
    | BufferOverflow      // the decompressed frame does not fit the declared word count

  datatype Result<+T> = Ok(value: T) | Failure(error: Error)

  /** 256^n */
  function Pow256(n: nat): (p: nat)
    ensures p >= 1
  {
    if n == 0 then 1 else 256 * Pow256(n - 1)
  }

  lemma Pow256Values()
    ensures Pow256(2) == 0x1_0000
    ensures Pow256(4) == U32
    ensures Pow256(8) == U64
  {
    assert Pow256(1) == 256;
    assert Pow256(2) == 0x1_0000;
    assert Pow256(3) == 0x100_0000;
    assert Pow256(4) == U32;
    assert Pow256(5) == 0x100_0000_0000;
    assert Pow256(6) == 0x1_0000_0000_0000;
    assert Pow256(7) == 0x100_0000_0000_0000;
  }

  /** The unsigned value of a little-endian byte string. */
  function LeValue(s: seq<byte>): (v: nat)
    ensures v < Pow256(|s|)
  {
    if s == [] then 0 else s[0] as nat + 256 * LeValue(s[1..])
  }

  /** The byte whose unsigned value is x, built by counting up from zero so
      that no integer-to-bit-vector conversion is needed. */
  function ToByte(x: nat): (b: byte)
    requires x < 256
  {
    if x == 0 then 0 else ToByte(x - 1) + 1
  }

  /** Adding one to a byte below 255 adds one to its value. */
  lemma ByteSucc(b: byte)
    requires b != 255
    ensures (b + 1) as nat == b as nat + 1
  {
  }

  lemma {:induction false} ToByteValue(x: nat)
    requires x < 256
    ensures ToByte(x) as nat == x
  {
    if x > 0 {
      ToByteValue(x - 1);
      ByteSucc(ToByte(x - 1));
    }
  }

  lemma {:induction false} ToByteOfValue(b: byte)
    ensures ToByte(b as nat) == b
    decreases b as nat
  {
    if b != 0 {
      ByteSucc(b - 1);
      ToByteOfValue(b - 1);
    }
  }

  /** The n low-order bytes of v, least significant first; v must fit. */
  function LeBytes(v: nat, n: nat): (s: seq<byte>)
    requires v < Pow256(n)
    ensures |s| == n
  {
    if n == 0 then [] else [ToByte(v % 256)] + LeBytes(v / 256, n - 1)
  }

  /** Writing a field and reading it back gives the value written. */
  lemma {:induction false} LeValueOfLeBytes(v: nat, n: nat)
    requires v < Pow256(n)
    ensures LeValue(LeBytes(v, n)) == v
  {
    if n > 0 {
      assert v / 256 < Pow256(n - 1);
      LeValueOfLeBytes(v / 256, n - 1);
      var s := LeBytes(v, n);
      assert s[1..] == LeBytes(v / 256, n - 1);
      ToByteValue(v % 256);
    }
  }

  /** Reading a field and writing it back gives the bytes read. */
  lemma {:induction false} LeBytesOfLeValue(s: seq<byte>)
    ensures LeBytes(LeValue(s), |s|) == s
  {
    if s != [] {
      LeBytesOfLeValue(s[1..]);
      var v := LeValue(s);
      DivModByte(s[0] as nat, LeValue(s[1..]));
      ToByteOfValue(s[0]);
    }
  }

  lemma DivModByte(b: nat, r: nat)
    requires b < 256
    ensures (b + 256 * r) % 256 == b && (b + 256 * r) / 256 == r
  {
  }

  /** A little-endian unsigned field of n bytes at offset k. */
  function FieldAt(s: seq<byte>, k: nat, n: nat): nat
    requires k + n <= |s|
  {
    LeValue(s[k..k + n])
  }

  // ---------------------------------------------------------------------
  // 32-bit words

  function Word(b0: byte, b1: byte, b2: byte, b3: byte): bv32 {
    (b0 as bv32) | ((b1 as bv32) << 8) | ((b2 as bv32) << 16) | ((b3 as bv32) << 24)
  }

  /** Byte k (0 = least significant) of a word. */
  function WordByte(w: bv32, k: nat): byte
    requires k < 4
  {
    if k == 0 then (w & 0xFF) as bv8
    else if k == 1 then ((w >> 8) & 0xFF) as bv8
    else if k == 2 then ((w >> 16) & 0xFF) as bv8
    else ((w >> 24) & 0xFF) as bv8
  }

  lemma WordBytes(b0: byte, b1: byte, b2: byte, b3: byte)
    ensures WordByte(Word(b0, b1, b2, b3), 0) == b0
    ensures WordByte(Word(b0, b1, b2, b3), 1) == b1
    ensures WordByte(Word(b0, b1, b2, b3), 2) == b2
    ensures WordByte(Word(b0, b1, b2, b3), 3) == b3
  {
  }

  lemma WordOfBytes(w: bv32)
    ensures Word(WordByte(w, 0), WordByte(w, 1), WordByte(w, 2), WordByte(w, 3)) == w
  {
  }

  /** A byte buffer viewed as little-endian 32-bit words; a trailing partial
      word is dropped. */
  function WordsOf(b: seq<byte>): (ws: seq<bv32>)
    ensures |ws| == |b| / 4
  {
    seq(|b| / 4, i requires 0 <= i < |b| / 4 => Word(b[4 * i], b[4 * i + 1], b[4 * i + 2], b[4 * i + 3]))
  }

  /** The little-endian bytes of a word array. */
  function BytesOfWords(ws: seq<bv32>): (b: seq<byte>)
    ensures |b| == 4 * |ws|
  {
    seq(4 * |ws|, j requires 0 <= j < 4 * |ws| => WordByte(ws[j / 4], j % 4))
  }

  lemma WordIndex(i: nat, k: nat)
    requires k < 4
    ensures (4 * i + k) / 4 == i && (4 * i + k) % 4 == k
  {
  }

  lemma BytesOfWordsAt(ws: seq<bv32>, i: nat)
    requires i < |ws|
    ensures BytesOfWords(ws)[4 * i] == WordByte(ws[i], 0)
    ensures BytesOfWords(ws)[4 * i + 1] == WordByte(ws[i], 1)
    ensures BytesOfWords(ws)[4 * i + 2] == WordByte(ws[i], 2)
    ensures BytesOfWords(ws)[4 * i + 3] == WordByte(ws[i], 3)
  {
    WordIndex(i, 0);
    WordIndex(i, 1);
    WordIndex(i, 2);
    WordIndex(i, 3);
  }

  lemma WordsOfBytesOfWords(ws: seq<bv32>)
    ensures WordsOf(BytesOfWords(ws)) == ws
  {
    var b := BytesOfWords(ws);
    forall i | 0 <= i < |ws|
      ensures WordsOf(b)[i] == ws[i]
    {
      WordOfWordBytes(b, ws, i);
    }
  }

  lemma WordOfWordBytes(b: seq<byte>, ws: seq<bv32>, i: nat)
    requires b == BytesOfWords(ws) && i < |ws|
    ensures WordsOf(b)[i] == ws[i]
  {
    var w := ws[i];
    BytesOfWordsAt(ws, i);
    var b0, b1, b2, b3 := b[4 * i], b[4 * i + 1], b[4 * i + 2], b[4 * i + 3];
    assert WordsOf(b)[i] == Word(b0, b1, b2, b3);
    assert b0 == WordByte(w, 0) && b1 == WordByte(w, 1) && b2 == WordByte(w, 2) && b3 == WordByte(w, 3);
    WordOfBytes(w);
  }

  /** Viewing bytes as words and back keeps every whole word and drops the
      trailing partial one. */
  lemma BytesOfWordsOf(b: seq<byte>)
    ensures BytesOfWords(WordsOf(b)) == b[..4 * (|b| / 4)]
  {
    var ws := WordsOf(b);
    forall j | 0 <= j < 4 * (|b| / 4)
      ensures BytesOfWords(ws)[j] == b[j]
    {
      var i := j / 4;
      WordBytes(b[4 * i], b[4 * i + 1], b[4 * i + 2], b[4 * i + 3]);
    }
  }

  // ---------------------------------------------------------------------
  // 16-bit halves

  function Half(b0: byte, b1: byte): bv16 {
    (b0 as bv16) | ((b1 as bv16) << 8)
  }

  function HalfByte(h: bv16, k: nat): byte
    requires k < 2
  {
    if k == 0 then (h & 0xFF) as bv8 else (h >> 8) as bv8
  }

  /** A byte buffer viewed as little-endian 16-bit values; an odd trailing
      byte is dropped. */
  function HalvesOf(b: seq<byte>): (hs: seq<bv16>)
    ensures |hs| == |b| / 2
  {
    seq(|b| / 2, i requires 0 <= i < |b| / 2 => Half(b[2 * i], b[2 * i + 1]))
  }

  /** The little-endian bytes of an array of 16-bit values. */
  function BytesOfHalves(hs: seq<bv16>): (b: seq<byte>)
    ensures |b| == 2 * |hs|
  {
    seq(2 * |hs|, j requires 0 <= j < 2 * |hs| => HalfByte(hs[j / 2], j % 2))
  }

  lemma HalvesOfBytesOfHalves(hs: seq<bv16>)
    ensures HalvesOf(BytesOfHalves(hs)) == hs
  {
    forall i | 0 <= i < |hs|
      ensures HalvesOf(BytesOfHalves(hs))[i] == hs[i]
    {
      HalfOfHalfBytes(hs, i);
    }
  }

  lemma HalfOfHalfBytes(hs: seq<bv16>, i: nat)
    requires i < |hs|
    ensures HalvesOf(BytesOfHalves(hs))[i] == hs[i]
  {
    var b := BytesOfHalves(hs);
    var h, b0, b1, r := hs[i], b[2 * i], b[2 * i + 1], HalvesOf(b)[i];
    HalfIndex(i);
    assert b0 == HalfByte(h, 0) && b1 == HalfByte(h, 1);
    assert r == Half(b0, b1);
    HalfByteFacts(h, b0, b1);
    HalfFacts(b0, b1, r);
    HalfJoin(h, b0, b1, r);
  }

  lemma HalfIndex(i: nat)
    ensures (2 * i) / 2 == i && (2 * i) % 2 == 0
    ensures (2 * i + 1) / 2 == i && (2 * i + 1) % 2 == 1
  {
  }

  lemma HalfByteFacts(h: bv16, b0: byte, b1: byte)
    requires b0 == HalfByte(h, 0) && b1 == HalfByte(h, 1)
    ensures b0 == (h & 0xFF) as bv8 && b1 == (h >> 8) as bv8
  {
  }

  lemma HalfFacts(b0: byte, b1: byte, r: bv16)
    requires r == Half(b0, b1)
    ensures r == (b0 as bv16) | ((b1 as bv16) << 8)
  {
  }

  /** The two bytes of a 16-bit value put back together give the value. */
  lemma HalfJoin(h: bv16, b0: byte, b1: byte, r: bv16)
    requires b0 == (h & 0xFF) as bv8 && b1 == (h >> 8) as bv8
    requires r == (b0 as bv16) | ((b1 as bv16) << 8)
    ensures r == h
  {
  }

  /** n zero bytes: the fill of a freshly allocated std::vector. */
  function Zeros(n: nat): (z: seq<byte>)
    ensures |z| == n && forall i :: 0 <= i < n ==> z[i] == 0
  {
    seq(n, _ => 0)
  }
}
