/** The lossy codec's archive (LLMCodec::compress / LLMCodec::decompress in
    advcodec.cpp). The file's metadata region is stored verbatim; its
    tensor region, read as floats, is either narrowed to half width and
    run-length coded (method 0), or quantized to one byte per float,
    delta coded and run-length coded (method 1). The archive is a 32-byte
    header, the metadata region, the payload length as a uint64_t, and the
    payload.

    The quantizer and its inverse use floating-point arithmetic and are
    parameters here; the run-length coder's literal cap is a parameter too,
    255 as in the source or 254 for the corrected coder. */
module AdvCodec {
  import opened Bytes
  import opened Container
  import HalfFloat
  import VarByteDelta
  import Rle

  /** What quantize_8bit returns: one code per float, and the ends of the
      range it mapped onto 0..255, as float bit patterns. */
  datatype Quantized = Quantized(codes: seq<byte>, min: bv32, max: bv32)

  const HeaderSize: nat := 32
  /** compression_method: half-width floats. */
  const Float16Method: nat := 0
  /** compression_method: 8-bit quantization. */
  const QuantizedMethod: nat := 1

  /** The 32-byte archive header. json_header_size is L, not 8 + L. */
  datatype Header = Header(
    originalSize: nat,
    jsonHeaderSize: nat,
    numTensors: nat,
    compressionMethod: nat,
    minValue: bv32,
    maxValue: bv32)

  /** Every field holds its value without truncation. */
  predicate HeaderFits(h: Header) {
    h.originalSize < U64 && h.jsonHeaderSize < U64 && h.numTensors < U32 && h.compressionMethod < U32
  }

  /** The header as written: two uint64_t, two uint32_t and two floats,
      little-endian, with no padding. */
  function EncodeHeader(h: Header): (s: seq<byte>)
    ensures |s| == HeaderSize
  {
    Le64(h.originalSize) + Le64(h.jsonHeaderSize) + Le32(h.numTensors) + Le32(h.compressionMethod)
      + BytesOfWords([h.minValue, h.maxValue])
  }

  /** The header as read back. */
  function DecodeHeader(s: seq<byte>): (h: Header)
    requires |s| == HeaderSize
    ensures HeaderFits(h)
  {
    Pow256Values();
    Header(FieldAt(s, 0, 8), FieldAt(s, 8, 8), FieldAt(s, 16, 4), FieldAt(s, 20, 4),
           WordsOf(s[24..])[0], WordsOf(s[24..])[1])
  }

  /** Reading back a header gives the header written, whenever its fields
      fit their widths. */
  lemma HeaderRoundTrip(h: Header)
    requires HeaderFits(h)
    ensures DecodeHeader(EncodeHeader(h)) == h
  {
    var s := EncodeHeader(h);
    HeaderFields(h, s);
    assert DecodeHeader(s).originalSize == h.originalSize;
    assert DecodeHeader(s).jsonHeaderSize == h.jsonHeaderSize;
    assert DecodeHeader(s).numTensors == h.numTensors;
    assert DecodeHeader(s).compressionMethod == h.compressionMethod;
    assert DecodeHeader(s).minValue == h.minValue;
    assert DecodeHeader(s).maxValue == h.maxValue;
  }

  /** The header with each integer field cut to its width. */
  function Truncated(h: Header): (t: Header)
    ensures HeaderFits(t)
  {
    Header(Truncate(h.originalSize, U64), Truncate(h.jsonHeaderSize, U64), Truncate(h.numTensors, U32),
           Truncate(h.compressionMethod, U32), h.minValue, h.maxValue)
  }

  /** In general a header reads back with each integer field truncated
      to its width. */
  lemma HeaderTruncates(h: Header)
    ensures DecodeHeader(EncodeHeader(h)) == Truncated(h)
  {
    var t := Truncated(h);
    Le64Truncate(h.originalSize);
    Le64Truncate(h.jsonHeaderSize);
    Le32Truncate(h.numTensors);
    Le32Truncate(h.compressionMethod);
    assert EncodeHeader(h) == EncodeHeader(t);
    HeaderRoundTrip(t);
  }

  lemma HeaderFields(h: Header, s: seq<byte>)
    requires HeaderFits(h) && s == EncodeHeader(h)
    ensures FieldAt(s, 0, 8) == h.originalSize && FieldAt(s, 8, 8) == h.jsonHeaderSize
    ensures FieldAt(s, 16, 4) == h.numTensors && FieldAt(s, 20, 4) == h.compressionMethod
    ensures WordsOf(s[24..]) == [h.minValue, h.maxValue]
  {
    Le64Value(h.originalSize);
    Le64Value(h.jsonHeaderSize);
    Le32Value(h.numTensors);
    Le32Value(h.compressionMethod);
    WordsOfBytesOfWords([h.minValue, h.maxValue]);
    HeaderPieces(s, Le64(h.originalSize), Le64(h.jsonHeaderSize), Le32(h.numTensors), Le32(h.compressionMethod),
                 BytesOfWords([h.minValue, h.maxValue]));
  }

  /** The fields of a header, read from the pieces it was made of. */
  lemma HeaderPieces(s: seq<byte>, a: seq<byte>, b: seq<byte>, c: seq<byte>, d: seq<byte>, e: seq<byte>)
    requires |a| == 8 && |b| == 8 && |c| == 4 && |d| == 4 && |e| == 8 && s == a + b + c + d + e
    ensures FieldAt(s, 0, 8) == LeValue(a) && FieldAt(s, 8, 8) == LeValue(b)
    ensures FieldAt(s, 16, 4) == LeValue(c) && FieldAt(s, 20, 4) == LeValue(d)
    ensures s[24..] == e
  {
    FieldSlices(a, b, c, d, e, s);
  }

  // ---------------------------------------------------------------------
  // Byte conversions for the run-length coder, which works on integer bytes

  function ToRle(s: seq<byte>): (t: seq<Rle.byte>)
    ensures |t| == |s|
  {
    seq(|s|, i requires 0 <= i < |s| => s[i] as int as Rle.byte)
  }

  function FromRle(t: seq<Rle.byte>): (s: seq<byte>)
    ensures |s| == |t|
  {
    seq(|t|, i requires 0 <= i < |t| => ToByte(t[i] as nat))
  }

  /** The two conversions are inverse. */
  lemma FromRleToRle(s: seq<byte>)
    ensures FromRle(ToRle(s)) == s
  {
    forall i | 0 <= i < |s|
      ensures FromRle(ToRle(s))[i] == s[i]
    {
      ToByteOfValue(s[i]);
    }
  }

  lemma ToRleFromRle(t: seq<Rle.byte>)
    ensures ToRle(FromRle(t)) == t
  {
    forall i | 0 <= i < |t|
      ensures ToRle(FromRle(t))[i] == t[i]
    {
      ToByteValue(t[i] as nat);
    }
  }

  /** compress_rle on bytes. */
  function RleCompressed(d: seq<byte>, litCap: nat): seq<byte>
    requires 1 <= litCap <= 255
  {
    FromRle(Rle.Serialize(Rle.Records(ToRle(d), 0, litCap)))
  }

  /** decompress_rle on bytes. */
  function RleDecompressed(c: seq<byte>): seq<byte> {
    FromRle(Rle.Decode(ToRle(c)))
  }

  /** The run-length round trip holds for d: the literal cap is the
      corrected one, or no literal of d fills the source's cap. */
  predicate RleSafe(d: seq<byte>, litCap: nat)
    requires 1 <= litCap <= 255
  {
    litCap <= Rle.FixedLiteralCap || Rle.NoFullLiteral(Rle.Records(ToRle(d), 0, litCap))
  }

  /** The run-length coder on bytes is undone by its decoder whenever the
      round trip holds, and its output is at most twice its input. */
  lemma RleRoundTrip(d: seq<byte>, litCap: nat)
    requires 1 <= litCap <= 255
    ensures RleSafe(d, litCap) ==> RleDecompressed(RleCompressed(d, litCap)) == d
    ensures |RleCompressed(d, litCap)| <= 2 * |d|
  {
    var rs := Rle.Records(ToRle(d), 0, litCap);
    Rle.SerializedSize(ToRle(d), 0, litCap);
    if RleSafe(d, litCap) {
      if litCap <= Rle.FixedLiteralCap {
        NoFullLiteralUnderFixedCap(ToRle(d), litCap);
      }
      Rle.RoundTrip(ToRle(d), litCap);
      ToRleFromRle(Rle.Serialize(rs));
      FromRleToRle(d);
    }
  }

  lemma NoFullLiteralUnderFixedCap(d: seq<Rle.byte>, litCap: nat)
    requires 1 <= litCap <= Rle.FixedLiteralCap
    ensures Rle.NoFullLiteral(Rle.Records(d, 0, litCap))
  {
    Rle.RecordsWellFormed(d, 0, litCap);
    var rs := Rle.Records(d, 0, litCap);
    forall k | 0 <= k < |rs| && rs[k].Literal?
      ensures |rs[k].bytes| < 255
    {
      assert Rle.WellFormed(rs[k], litCap);
    }
  }

  // ---------------------------------------------------------------------
  // The half-width path

  /** Every float narrowed by f32_to_f16. */
  function Narrowed(floats: seq<bv32>): (hs: seq<bv16>)
    ensures |hs| == |floats|
  {
    seq(|floats|, i requires 0 <= i < |floats| => HalfFloat.F32ToF16(floats[i]))
  }

  /** Every half widened by f16_to_f32. */
  function Widened(hs: seq<bv16>): (floats: seq<bv32>)
    ensures |floats| == |hs|
  {
    seq(|hs|, i requires 0 <= i < |hs| => HalfFloat.F16ToF32(hs[i]))
  }

  /** Every float with its 13 low mantissa bits cleared. */
  function Masked(floats: seq<bv32>): (r: seq<bv32>)
    ensures |r| == |floats|
  {
    seq(|floats|, i requires 0 <= i < |floats| => floats[i] & 0xFFFF_E000)
  }

  /** Floats whose exponents lie in the half's normal range come back from
      the half-width path with their 13 low mantissa bits cleared. */
  lemma WidenedNarrowed(floats: seq<bv32>)
    requires forall i :: 0 <= i < |floats| ==> 113 <= HalfFloat.Exp32(floats[i]) <= 142
    ensures Widened(Narrowed(floats)) == Masked(floats)
  {
    forall i | 0 <= i < |floats|
      ensures Widened(Narrowed(floats))[i] == Masked(floats)[i]
    {
      WidenedNarrowedAt(floats, i, floats[i]);
    }
  }

  lemma WidenedNarrowedAt(floats: seq<bv32>, i: nat, x: bv32)
    requires i < |floats| && x == floats[i] && 113 <= HalfFloat.Exp32(x) <= 142
    ensures Widened(Narrowed(floats))[i] == Masked(floats)[i]
  {
    HalfFloat.NarrowWiden(x);
  }

  /** The loop of compress that narrows each float. */
  method NarrowAll(floats: seq<bv32>) returns (halves: seq<bv16>)
    ensures halves == Narrowed(floats)
  {
    halves := [];
    var i := 0;
    while i < |floats|
      invariant i <= |floats|
      invariant halves == Narrowed(floats)[..i]
    {
      halves := halves + [HalfFloat.F32ToF16(floats[i])];
      i := i + 1;
    }
  }

  /** The loop of decompress that widens each half. */
  method WidenAll(halves: seq<bv16>) returns (floats: seq<bv32>)
    ensures floats == Widened(halves)
  {
    floats := [];
    var i := 0;
    while i < |halves|
      invariant i <= |halves|
      invariant floats == Widened(halves)[..i]
    {
      floats := floats + [HalfFloat.F16ToF32(halves[i])];
      i := i + 1;
    }
  }

  // ---------------------------------------------------------------------
  // The archive

  /** The archive: header, metadata region, payload length, payload. */
  function Pack(h: Header, metadata: seq<byte>, payload: seq<byte>): (archive: seq<byte>)
    ensures |archive| == HeaderSize + |metadata| + 8 + |payload|
  {
    EncodeHeader(h) + metadata + Le64(|payload|) + payload
  }

  /** What decompress reads from an archive. */
  datatype Unpacked = Unpacked(header: Header, metadata: seq<byte>, payload: seq<byte>)

  /** The reads of decompress: the header, 8 + json_header_size bytes of
      metadata (a 64-bit sum that wraps), the payload length and the payload; an
      archive too short for any of them is rejected. */
  function Unpack(archive: seq<byte>): (r: Result<Unpacked>)
    ensures r.Failure? ==> r.error == TruncatedRecord
    ensures r.Ok? ==> |archive| >= HeaderSize + |r.value.metadata| + 8 + |r.value.payload|
  {
    if |archive| < HeaderSize then Failure(TruncatedRecord)
    else
      var h := DecodeHeader(archive[..HeaderSize]);
      var m := Add64(8, h.jsonHeaderSize);
      if |archive| < HeaderSize + m + 8 then Failure(TruncatedRecord)
      else
        var n := FieldAt(archive, HeaderSize + m, 8);
        if |archive| < HeaderSize + m + 8 + n then Failure(TruncatedRecord)
        else
          Ok(Unpacked(h, archive[HeaderSize..HeaderSize + m],
                      archive[HeaderSize + m + 8..HeaderSize + m + 8 + n]))
  }

  /** Reading an archive gives back what was packed into it, the header
      with its fields truncated, whenever the metadata region has the
      announced length and the lengths fit 64 bits. */
  lemma UnpackPack(h: Header, metadata: seq<byte>, payload: seq<byte>)
    requires h.jsonHeaderSize < U64 - 8
    requires |metadata| == 8 + h.jsonHeaderSize && |payload| < U64
    ensures Unpack(Pack(h, metadata, payload)) == Ok(Unpacked(Truncated(h), metadata, payload))
  {
    var a := Pack(h, metadata, payload);
    PackPieces(a, EncodeHeader(h), metadata, Le64(|payload|), payload);
    HeaderTruncates(h);
    Le64Value(|payload|);
    UnpackOf(a, Truncated(h), metadata, payload);
  }

  /** The reads of decompress find what lies where they look. */
  lemma UnpackOf(a: seq<byte>, t: Header, m: seq<byte>, p: seq<byte>)
    requires |a| == HeaderSize + |m| + 8 + |p|
    requires DecodeHeader(a[..HeaderSize]) == t && Add64(8, t.jsonHeaderSize) == |m|
    requires a[HeaderSize..HeaderSize + |m|] == m
    requires FieldAt(a, HeaderSize + |m|, 8) == |p|
    requires a[HeaderSize + |m| + 8..HeaderSize + |m| + 8 + |p|] == p
    ensures Unpack(a) == Ok(Unpacked(t, m, p))
  {
    var n := FieldAt(a, HeaderSize + |m|, 8);
    assert !(|a| < HeaderSize + |m| + 8 + n);
  }

  lemma PackPieces(a: seq<byte>, e: seq<byte>, m: seq<byte>, l: seq<byte>, p: seq<byte>)
    requires |e| == HeaderSize && |l| == 8 && a == e + m + l + p
    ensures a[..HeaderSize] == e
    ensures a[HeaderSize..HeaderSize + |m|] == m
    ensures FieldAt(a, HeaderSize + |m|, 8) == LeValue(l)
    ensures a[HeaderSize + |m| + 8..HeaderSize + |m| + 8 + |p|] == p
  {
    assert a[HeaderSize + |m|..HeaderSize + |m| + 8] == l;
  }

  /** The bytes each method hands to compress_rle: the delta-coded 8-bit
      codes, or the narrowed halves, two little-endian bytes each. */
  function Staged(floats: seq<bv32>, use8bit: bool, quantize: seq<bv32> -> Quantized): (pre: seq<byte>)
    ensures use8bit ==> |pre| == |quantize(floats).codes|
    ensures !use8bit ==> |pre| == 2 * |floats| && HalvesOf(pre) == Narrowed(floats)
  {
    if use8bit then VarByteDelta.Encoded(quantize(floats).codes)
    else
      HalvesOfBytesOfHalves(Narrowed(floats));
      BytesOfHalves(Narrowed(floats))
  }

  /** The payload of each method: the staged bytes run-length coded. The
      payload is at most twice the staged bytes, and decoding it gives them
      back whenever the run-length round trip holds. */
  function Payload(floats: seq<bv32>, use8bit: bool, quantize: seq<bv32> -> Quantized, litCap: nat): (r: seq<byte>)
    requires 1 <= litCap <= 255
    ensures |r| <= 2 * |Staged(floats, use8bit, quantize)|
    ensures RleSafe(Staged(floats, use8bit, quantize), litCap)
            ==> RleDecompressed(r) == Staged(floats, use8bit, quantize)
  {
    RleRoundTrip(Staged(floats, use8bit, quantize), litCap);
    RleCompressed(Staged(floats, use8bit, quantize), litCap)
  }

  /** The header compress fills in: the file's size, L, the float count,
      the method, and the quantizer's range on the 8-bit path only. */
  function HeaderFor(file: seq<byte>, use8bit: bool, quantize: seq<bv32> -> Quantized): (h: Header)
    requires Fits(file)
    ensures h.originalSize == |file| && h.jsonHeaderSize == DeclaredLength(file)
    ensures h.numTensors == (|file| - 8 - DeclaredLength(file)) / 4
    ensures h.compressionMethod == QuantizedMethod <==> use8bit
    ensures !use8bit ==> h.compressionMethod == Float16Method && h.minValue == 0 && h.maxValue == 0
  {
    var floats := Floats(Cut(file));
    Header(|file|, DeclaredLength(file), |floats|,
           if use8bit then QuantizedMethod else Float16Method,
           if use8bit then quantize(floats).min else 0,
           if use8bit then quantize(floats).max else 0)
  }

  /** compress: a file shorter than 8 bytes is rejected; the bounds of the
      metadata region are not checked, so the file must hold the metadata
      it announces. */
  function Compressed(file: seq<byte>, use8bit: bool, quantize: seq<bv32> -> Quantized, litCap: nat)
    : (r: Result<seq<byte>>)
    requires 8 <= |file| ==> Fits(file)
    requires 1 <= litCap <= 255
    ensures r.Failure? <==> |file| < 8
    ensures r.Failure? ==> r.error == FileTooSmall
  {
    if |file| < 8 then Failure(FileTooSmall)
    else
      Ok(Pack(HeaderFor(file, use8bit, quantize), Cut(file).metadata,
              Payload(Floats(Cut(file)), use8bit, quantize, litCap)))
  }

  /** The tensor bytes decompress rebuilds from a payload. */
  function TensorBytes(h: Header, payload: seq<byte>, dequantize: Quantized -> seq<bv32>): (t: seq<byte>)
    ensures |t| % 4 == 0
    ensures h.compressionMethod != QuantizedMethod ==> |t| == 4 * (|RleDecompressed(payload)| / 2)
  {
    if h.compressionMethod == QuantizedMethod then
      BytesOfWords(dequantize(Quantized(VarByteDelta.Decoded(RleDecompressed(payload)), h.minValue, h.maxValue)))
    else
      BytesOfWords(Widened(HalvesOf(RleDecompressed(payload))))
  }

  /** decompress: the metadata region verbatim, then the tensor bytes. */
  function Decompressed(archive: seq<byte>, dequantize: Quantized -> seq<bv32>): (r: Result<seq<byte>>)
    ensures r.Failure? ==> r.error == TruncatedRecord
    ensures r.Ok? <==> Unpack(archive).Ok?
    ensures r.Ok? ==> |Unpack(archive).value.metadata| <= |r.value|
                      && r.value[..|Unpack(archive).value.metadata|] == Unpack(archive).value.metadata
  {
    match Unpack(archive)
    case Failure(e) => Failure(e)
    case Ok(u) => Ok(u.metadata + TensorBytes(u.header, u.payload, dequantize))
  }

  // ---------------------------------------------------------------------
  // The loops of the source

  /** compress, with the file already read. */
  method Compress(file: seq<byte>, use8bit: bool, quantize: seq<bv32> -> Quantized, litCap: nat)
    returns (r: Result<seq<byte>>)
    requires 8 <= |file| ==> Fits(file)
    requires 1 <= litCap <= 255
    ensures r == Compressed(file, use8bit, quantize, litCap)
  {
    if |file| < 8 {
      return Failure(FileTooSmall);
    }
    var parts := Cut(file);
    var floats := Floats(parts);
    var payload: seq<byte>;
    var minValue: bv32, maxValue: bv32 := 0, 0;
    if use8bit {
      var quantized := quantize(floats);
      minValue, maxValue := quantized.min, quantized.max;
      var deltaEncoded := VarByteDelta.DeltaEncodeVarbyte(quantized.codes);
      var compressed := Rle.CompressRle(ToRle(deltaEncoded), litCap);
      payload := FromRle(compressed);
    } else {
      var halves := NarrowAll(floats);
      var compressed := Rle.CompressRle(ToRle(BytesOfHalves(halves)), litCap);
      payload := FromRle(compressed);
    }
    var h := Header(|file|, DeclaredLength(file), |floats|,
                    if use8bit then QuantizedMethod else Float16Method, minValue, maxValue);
    r := Ok(Pack(h, parts.metadata, payload));
  }

  /** decompress, with the archive already read. */
  method Decompress(archive: seq<byte>, dequantize: Quantized -> seq<bv32>) returns (r: Result<seq<byte>>)
    ensures r == Decompressed(archive, dequantize)
  {
    var unpacked := Unpack(archive);
    if unpacked.Failure? {
      return Failure(unpacked.error);
    }
    var u := unpacked.value;
    var tensorBytes: seq<byte>;
    if u.header.compressionMethod == QuantizedMethod {
      var deltaEncoded := Rle.DecompressRle(ToRle(u.payload));
      var quantized := VarByteDelta.DeltaDecodeVarbyte(FromRle(deltaEncoded));
      var floats := dequantize(Quantized(quantized, u.header.minValue, u.header.maxValue));
      tensorBytes := BytesOfWords(floats);
    } else {
      var f16Bytes := Rle.DecompressRle(ToRle(u.payload));
      var floats := WidenAll(HalvesOf(FromRle(f16Bytes)));
      tensorBytes := BytesOfWords(floats);
    }
    r := Ok(u.metadata + tensorBytes);
  }

  // ---------------------------------------------------------------------
  // End to end

  /** The header of a compressed file records the file's size, L, the
      float count (truncated to 32 bits), the method, and the quantizer's
      range (zero on the half-width path). */
  lemma ArchiveHeader(file: seq<byte>, use8bit: bool, quantize: seq<bv32> -> Quantized, litCap: nat)
    requires Fits(file) && 1 <= litCap <= 255
    ensures var h := DecodeHeader(Compressed(file, use8bit, quantize, litCap).value[..HeaderSize]);
            && h.originalSize == |file| % U64
            && h.jsonHeaderSize == DeclaredLength(file)
            && h.numTensors == (|Cut(file).tensor| / 4) % U32
            && h.compressionMethod == (if use8bit then 1 else 0)
            && h.minValue == (if use8bit then quantize(Floats(Cut(file))).min else 0)
            && h.maxValue == (if use8bit then quantize(Floats(Cut(file))).max else 0)
  {
    var h := HeaderFor(file, use8bit, quantize);
    var floats := Floats(Cut(file));
    var a := Compressed(file, use8bit, quantize, litCap).value;
    PackPieces(a, EncodeHeader(h), Cut(file).metadata, Le64(|Payload(floats, use8bit, quantize, litCap)|),
               Payload(floats, use8bit, quantize, litCap));
    HeaderTruncates(h);
    TruncateIsMod(|file|, U64);
    TruncateIsMod(|Cut(file).tensor| / 4, U32);
  }

  /** Every archive compress writes is read back by decompress as the
      metadata region followed by the tensor bytes its method rebuilds. */
  lemma ArchiveUnpacks(file: seq<byte>, use8bit: bool, quantize: seq<bv32> -> Quantized, litCap: nat)
    requires Fits(file) && |file| < U64 && 1 <= litCap <= 255
    requires use8bit ==> |quantize(Floats(Cut(file))).codes| == |Floats(Cut(file))|
    ensures Unpack(Compressed(file, use8bit, quantize, litCap).value)
         == Ok(Unpacked(Truncated(HeaderFor(file, use8bit, quantize)), Cut(file).metadata,
                        Payload(Floats(Cut(file)), use8bit, quantize, litCap)))
  {
    var floats := Floats(Cut(file));
    if use8bit {
      RleRoundTrip(VarByteDelta.Encoded(quantize(floats).codes), litCap);
    } else {
      RleRoundTrip(BytesOfHalves(Narrowed(floats)), litCap);
    }
    UnpackPack(HeaderFor(file, use8bit, quantize), Cut(file).metadata,
               Payload(floats, use8bit, quantize, litCap));
  }

  /** The half-width path: decompress gives back the metadata region
      verbatim and every whole float of the tensor region narrowed and
      widened again, provided the run-length round trip holds (always,
      with the corrected literal cap). */
  lemma RoundTripFloat16(file: seq<byte>, quantize: seq<bv32> -> Quantized,
                         dequantize: Quantized -> seq<bv32>, litCap: nat)
    requires Fits(file) && |file| < U64 && 1 <= litCap <= 255
    requires RleSafe(BytesOfHalves(Narrowed(Floats(Cut(file)))), litCap)
    ensures Decompressed(Compressed(file, false, quantize, litCap).value, dequantize)
         == Ok(Cut(file).metadata + BytesOfWords(Widened(Narrowed(Floats(Cut(file))))))
  {
    ArchiveUnpacks(file, false, quantize, litCap);
    Float16Tensor(Truncated(HeaderFor(file, false, quantize)), Payload(Floats(Cut(file)), false, quantize, litCap),
                  dequantize, Narrowed(Floats(Cut(file))), litCap);
  }

  /** A half-width payload rebuilds the widened halves. */
  lemma Float16Tensor(h: Header, payload: seq<byte>, dequantize: Quantized -> seq<bv32>, hs: seq<bv16>, litCap: nat)
    requires 1 <= litCap <= 255 && h.compressionMethod == Float16Method
    requires payload == RleCompressed(BytesOfHalves(hs), litCap) && RleSafe(BytesOfHalves(hs), litCap)
    ensures TensorBytes(h, payload, dequantize) == BytesOfWords(Widened(hs))
  {
    RleRoundTrip(BytesOfHalves(hs), litCap);
    HalvesOfBytesOfHalves(hs);
  }

  /** The quantized path: decompress gives back the metadata region
      verbatim and the dequantized codes of the tensor region's floats,
      provided no two neighbouring codes differ by more than 127 and the
      run-length round trip holds. */
  lemma RoundTripQuantized(file: seq<byte>, quantize: seq<bv32> -> Quantized,
                           dequantize: Quantized -> seq<bv32>, litCap: nat)
    requires Fits(file) && |file| < U64 && 1 <= litCap <= 255
    requires |quantize(Floats(Cut(file))).codes| == |Floats(Cut(file))|
    requires VarByteDelta.SmallSteps(quantize(Floats(Cut(file))).codes)
    requires RleSafe(VarByteDelta.Encoded(quantize(Floats(Cut(file))).codes), litCap)
    ensures Decompressed(Compressed(file, true, quantize, litCap).value, dequantize)
         == Ok(Cut(file).metadata + BytesOfWords(dequantize(quantize(Floats(Cut(file))))))
  {
    ArchiveUnpacks(file, true, quantize, litCap);
    QuantizedTensor(Truncated(HeaderFor(file, true, quantize)), Payload(Floats(Cut(file)), true, quantize, litCap),
                    dequantize, quantize(Floats(Cut(file))), litCap);
  }

  /** A quantized payload rebuilds the dequantized codes. */
  lemma QuantizedTensor(h: Header, payload: seq<byte>, dequantize: Quantized -> seq<bv32>, q: Quantized, litCap: nat)
    requires 1 <= litCap <= 255 && h.compressionMethod == QuantizedMethod
    requires h.minValue == q.min && h.maxValue == q.max
    requires payload == RleCompressed(VarByteDelta.Encoded(q.codes), litCap)
    requires RleSafe(VarByteDelta.Encoded(q.codes), litCap) && VarByteDelta.SmallSteps(q.codes)
    ensures TensorBytes(h, payload, dequantize) == BytesOfWords(dequantize(q))
  {
    RleRoundTrip(VarByteDelta.Encoded(q.codes), litCap);
    VarByteDelta.RoundTripIff(q.codes);
  }

  /** With the corrected literal cap the half-width round trip holds for
      every file, and its length is the file's rounded down to whole
      floats. */
  lemma FixedRoundTripFloat16(file: seq<byte>, quantize: seq<bv32> -> Quantized,
                              dequantize: Quantized -> seq<bv32>)
    requires Fits(file) && |file| < U64
    ensures Decompressed(Compressed(file, false, quantize, Rle.FixedLiteralCap).value, dequantize).Ok?
    ensures |Decompressed(Compressed(file, false, quantize, Rle.FixedLiteralCap).value, dequantize).value|
         == |file| - |Cut(file).tensor| % 4
  {
    RoundTripFloat16(file, quantize, dequantize, Rle.FixedLiteralCap);
  }
}
