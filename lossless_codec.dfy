/** The lossless codec's archive (OptimizedLLMCodec::compress_lossless /
    decompress_lossless in codec_4.cpp). The file is split at 8 + L as
    checked; the tensor region, read as 32-bit words, is XOR coded and
    handed to a frame compressor as one block. The archive is a 32-byte
    header, the metadata region, a 16-byte block header and the
    compressed block.

    The frame compressor and decompressor (ZSTD) are parameters: `comp`
    maps bytes to a frame, an empty result standing for a failure as in the
    source, and `dec` maps a frame to its content, None for a malformed
    frame. */
module LosslessCodec {
  import opened Bytes
  import opened Container
  import Chain
  import InPlaceDelta

  const HeaderSize: nat := 32
  const BlockHeaderSize: nat := 16

  /** The 32-byte archive header. Unlike the lossy codec's header,
      json_header_size is the size of the whole metadata region, 8 + L. */
  datatype Header = Header(
    originalSize: nat,
    jsonHeaderSize: nat,
    numFloats: nat,
    numBlocks: nat,
    compressedTensorSize: nat)

  /** The header of the one block: its compressed and its original size. */
  datatype BlockHeader = BlockHeader(compressedSize: nat, originalSize: nat)

  /** Every field holds its value without truncation. */
  predicate HeaderFits(h: Header) {
    h.originalSize < U64 && h.jsonHeaderSize < U64 && h.numFloats < U32 && h.numBlocks < U32
    && h.compressedTensorSize < U64
  }

  predicate BlockHeaderFits(b: BlockHeader) {
    b.compressedSize < U64 && b.originalSize < U64
  }

  // ---------------------------------------------------------------------
  // Headers

  /** The header as written: uint64_t, uint64_t, uint32_t, uint32_t,
      uint64_t, little-endian; the layout has no padding. */
  function EncodeHeader(h: Header): (s: seq<byte>)
    ensures |s| == HeaderSize
  {
    Le64(h.originalSize) + Le64(h.jsonHeaderSize) + Le32(h.numFloats) + Le32(h.numBlocks)
      + Le64(h.compressedTensorSize)
  }

  function DecodeHeader(s: seq<byte>): (h: Header)
    requires |s| == HeaderSize
    ensures HeaderFits(h)
  {
    Pow256Values();
    Header(FieldAt(s, 0, 8), FieldAt(s, 8, 8), FieldAt(s, 16, 4), FieldAt(s, 20, 4), FieldAt(s, 24, 8))
  }

  /** Reading back a header gives the header written, whenever its fields
      fit their widths. */
  lemma HeaderRoundTrip(h: Header)
    requires HeaderFits(h)
    ensures DecodeHeader(EncodeHeader(h)) == h
  {
    var s := EncodeHeader(h);
    HeaderFields(h, s);
    assert DecodeHeader(s).originalSize == h.originalSize;
    assert DecodeHeader(s).jsonHeaderSize == h.jsonHeaderSize;
    assert DecodeHeader(s).numFloats == h.numFloats;
    assert DecodeHeader(s).numBlocks == h.numBlocks;
    assert DecodeHeader(s).compressedTensorSize == h.compressedTensorSize;
  }

  lemma HeaderFields(h: Header, s: seq<byte>)
    requires HeaderFits(h) && s == EncodeHeader(h)
    ensures FieldAt(s, 0, 8) == h.originalSize && FieldAt(s, 8, 8) == h.jsonHeaderSize
    ensures FieldAt(s, 16, 4) == h.numFloats && FieldAt(s, 20, 4) == h.numBlocks
    ensures FieldAt(s, 24, 8) == h.compressedTensorSize
  {
    Le64Value(h.originalSize);
    Le64Value(h.jsonHeaderSize);
    Le32Value(h.numFloats);
    Le32Value(h.numBlocks);
    Le64Value(h.compressedTensorSize);
    FieldSlices(Le64(h.originalSize), Le64(h.jsonHeaderSize), Le32(h.numFloats), Le32(h.numBlocks),
                Le64(h.compressedTensorSize), s);
    assert s[24..32] == s[24..];
  }

  /** The header with each field cut to its width. */
  function Truncated(h: Header): (t: Header)
    ensures HeaderFits(t)
  {
    Header(Truncate(h.originalSize, U64), Truncate(h.jsonHeaderSize, U64), Truncate(h.numFloats, U32),
           Truncate(h.numBlocks, U32), Truncate(h.compressedTensorSize, U64))
  }

  /** In general a header reads back with each field truncated to its
      width. */
  lemma HeaderTruncates(h: Header)
    ensures DecodeHeader(EncodeHeader(h)) == Truncated(h)
  {
    var t := Truncated(h);
    Le64Truncate(h.originalSize);
    Le64Truncate(h.jsonHeaderSize);
    Le32Truncate(h.numFloats);
    Le32Truncate(h.numBlocks);
    Le64Truncate(h.compressedTensorSize);
    assert EncodeHeader(h) == EncodeHeader(t);
    HeaderRoundTrip(t);
  }

  /** The block header as written: two uint64_t, little-endian. */
  function EncodeBlockHeader(b: BlockHeader): (s: seq<byte>)
    ensures |s| == BlockHeaderSize
  {
    Le64(b.compressedSize) + Le64(b.originalSize)
  }

  function DecodeBlockHeader(s: seq<byte>): (b: BlockHeader)
    requires |s| == BlockHeaderSize
    ensures BlockHeaderFits(b)
  {
    Pow256Values();
    BlockHeader(FieldAt(s, 0, 8), FieldAt(s, 8, 8))
  }

  function BlockTruncated(b: BlockHeader): (t: BlockHeader)
    ensures BlockHeaderFits(t)
  {
    BlockHeader(Truncate(b.compressedSize, U64), Truncate(b.originalSize, U64))
  }

  /** A block header reads back with each field truncated to 64 bits, and
      unchanged when both fit. */
  lemma BlockHeaderTruncates(b: BlockHeader)
    ensures DecodeBlockHeader(EncodeBlockHeader(b)) == BlockTruncated(b)
    ensures BlockHeaderFits(b) ==> DecodeBlockHeader(EncodeBlockHeader(b)) == b
  {
    var s := EncodeBlockHeader(b);
    Le64Value(b.compressedSize);
    Le64Value(b.originalSize);
    assert s[0..8] == Le64(b.compressedSize) && s[8..16] == Le64(b.originalSize);
  }

  // ---------------------------------------------------------------------
  // The archive

  /** The archive: header, metadata region, block header, block. */
  function Pack(h: Header, metadata: seq<byte>, b: BlockHeader, block: seq<byte>): (archive: seq<byte>)
    ensures |archive| == HeaderSize + |metadata| + BlockHeaderSize + |block|
  {
    EncodeHeader(h) + metadata + EncodeBlockHeader(b) + block
  }

  /** What decompress_lossless reads from an archive. */
  datatype Unpacked = Unpacked(header: Header, metadata: seq<byte>, blockHeader: BlockHeader, block: seq<byte>)

  /** The reads of decompress_lossless: the header, json_header_size bytes
      of metadata, the block header and compressed_size bytes of block; an
      archive too short for any of them is rejected. The header's
      original_size, num_blocks and compressed_tensor_size are not used. */
  function Unpack(archive: seq<byte>): (r: Result<Unpacked>)
    ensures r.Failure? ==> r.error == TruncatedRecord
    ensures r.Ok? ==> |archive| >= HeaderSize + |r.value.metadata| + BlockHeaderSize + |r.value.block|
    ensures r.Ok? ==> |r.value.metadata| == r.value.header.jsonHeaderSize
                      && |r.value.block| == r.value.blockHeader.compressedSize
  {
    if |archive| < HeaderSize then Failure(TruncatedRecord)
    else
      var h := DecodeHeader(archive[..HeaderSize]);
      var m := HeaderSize + h.jsonHeaderSize;
      if |archive| < m + BlockHeaderSize then Failure(TruncatedRecord)
      else
        var b := DecodeBlockHeader(archive[m..m + BlockHeaderSize]);
        if |archive| < m + BlockHeaderSize + b.compressedSize then Failure(TruncatedRecord)
        else
          Ok(Unpacked(h, archive[HeaderSize..m], b,
                      archive[m + BlockHeaderSize..m + BlockHeaderSize + b.compressedSize]))
  }

  /** Reading an archive gives back what was packed into it, the headers
      with their fields truncated, whenever the metadata and the block have
      the lengths their headers announce. */
  lemma UnpackPack(h: Header, metadata: seq<byte>, b: BlockHeader, block: seq<byte>)
    requires |metadata| == h.jsonHeaderSize < U64
    requires |block| == b.compressedSize < U64
    ensures Unpack(Pack(h, metadata, b, block)) == Ok(Unpacked(Truncated(h), metadata, BlockTruncated(b), block))
  {
    var a := Pack(h, metadata, b, block);
    PackPieces(a, EncodeHeader(h), metadata, EncodeBlockHeader(b), block);
    HeaderTruncates(h);
    BlockHeaderTruncates(b);
    UnpackOf(a, Truncated(h), metadata, BlockTruncated(b), block);
  }

  /** The reads of decompress_lossless find what lies where they look. */
  lemma UnpackOf(a: seq<byte>, t: Header, m: seq<byte>, b: BlockHeader, p: seq<byte>)
    requires |a| == HeaderSize + |m| + BlockHeaderSize + |p|
    requires DecodeHeader(a[..HeaderSize]) == t && t.jsonHeaderSize == |m|
    requires a[HeaderSize..HeaderSize + |m|] == m
    requires DecodeBlockHeader(a[HeaderSize + |m|..HeaderSize + |m| + BlockHeaderSize]) == b
    requires b.compressedSize == |p|
    requires a[HeaderSize + |m| + BlockHeaderSize..HeaderSize + |m| + BlockHeaderSize + |p|] == p
    ensures Unpack(a) == Ok(Unpacked(t, m, b, p))
  {
  }

  lemma PackPieces(a: seq<byte>, e: seq<byte>, m: seq<byte>, l: seq<byte>, p: seq<byte>)
    requires |e| == HeaderSize && |l| == BlockHeaderSize && a == e + m + l + p
    ensures a[..HeaderSize] == e
    ensures a[HeaderSize..HeaderSize + |m|] == m
    ensures a[HeaderSize + |m|..HeaderSize + |m| + BlockHeaderSize] == l
    ensures a[HeaderSize + |m| + BlockHeaderSize..HeaderSize + |m| + BlockHeaderSize + |p|] == p
  {
  }

  // ---------------------------------------------------------------------
  // compress_lossless

  /** The bytes compress_lossless hands to the frame compressor: the
      tensor region's whole words, XOR coded. */
  function FrameInput(p: Parts): (x: seq<byte>)
    ensures |x| == 4 * (|p.tensor| / 4)
  {
    BytesOfWords(Chain.Differenced(Floats(p), InPlaceDelta.XorStep))
  }

  /** The header compress_lossless fills in for a block of the given size. */
  function HeaderFor(file: seq<byte>, p: Parts, block: seq<byte>): (h: Header)
    ensures h.originalSize == |file| && h.jsonHeaderSize == |p.metadata| && h.numFloats == |p.tensor| / 4
    ensures h.numBlocks == 1 && h.compressedTensorSize == |block| + BlockHeaderSize
  {
    Header(|file|, |p.metadata|, |Floats(p)|, 1, |block| + BlockHeaderSize)
  }

  /** The cut compress_lossless makes: as written, with the wrapping 64-bit
      bound check of Container.SplitAsWritten, or with the intended check. */
  function Cutting(file: seq<byte>, asWritten: bool): (r: Result<Parts>)
    ensures r == Failure(FileTooSmall) <==> |file| < 8
    ensures r.Ok? ==> r.value.metadata + r.value.tensor == file
    ensures asWritten && r.Ok? ==> |r.value.metadata| == Add64(8, DeclaredLength(file))
    ensures !asWritten && r.Ok? ==> |r.value.metadata| == 8 + DeclaredLength(file)
  {
    if asWritten then SplitAsWritten(file) else Split(file)
  }

  /** compress_lossless: a file shorter than 8 bytes, a file whose metadata
      fails the bound check and a failed frame compression are rejected;
      otherwise the archive holds the headers, the metadata region and the
      frame. With asWritten the bound check wraps as at codec_4.cpp:199,
      and a file announcing 2^64 - 8 bytes or more of metadata can pass it. */
  function Compressed(file: seq<byte>, comp: seq<byte> -> seq<byte>, asWritten: bool): (r: Result<seq<byte>>)
    ensures r == Failure(FileTooSmall) <==> |file| < 8
    ensures !asWritten ==> (r == Failure(InvalidHeaderSize) <==> 8 <= |file| && !Fits(file))
    ensures asWritten ==> (r == Failure(InvalidHeaderSize) <==> 8 <= |file| && Add64(8, DeclaredLength(file)) > |file|)
    ensures !asWritten ==> (r == Failure(FrameCodecError) <==> Fits(file) && comp(FrameInput(Cut(file))) == [])
    ensures !asWritten ==> (r.Ok? <==> Fits(file) && comp(FrameInput(Cut(file))) != [])
    ensures r == Failure(FrameCodecError)
        <==> Cutting(file, asWritten).Ok? && comp(FrameInput(Cutting(file, asWritten).value)) == []
    ensures r.Ok? <==> Cutting(file, asWritten).Ok? && comp(FrameInput(Cutting(file, asWritten).value)) != []
  {
    match Cutting(file, asWritten)
    case Failure(e) => Failure(e)
    case Ok(p) =>
      var block := comp(FrameInput(p));
      if |block| == 0 then Failure(FrameCodecError)
      else Ok(Pack(HeaderFor(file, p, block), p.metadata, BlockHeader(|block|, 4 * |Floats(p)|), block))
  }

  /** compress_lossless, with the file already read: the words are XOR
      coded in place. */
  method Compress(file: seq<byte>, comp: seq<byte> -> seq<byte>, asWritten: bool) returns (r: Result<seq<byte>>)
    ensures r == Compressed(file, comp, asWritten)
  {
    var split := if asWritten then SplitAsWritten(file) else Split(file);
    if split.Failure? {
      return Failure(split.error);
    }
    var p := split.value;
    var words := Floats(p);
    var u32 := new bv32[|words|](i requires 0 <= i < |words| => words[i]);
    assert u32[..] == words;
    InPlaceDelta.XorDeltaEncodeInplaceU32(u32);
    var block := comp(BytesOfWords(u32[..]));
    if |block| == 0 {
      return Failure(FrameCodecError);
    }
    var h := Header(|file|, |p.metadata|, |words|, 1, |block| + BlockHeaderSize);
    var bh := BlockHeader(|block|, 4 * u32.Length);
    r := Ok(EncodeHeader(h) + p.metadata + EncodeBlockHeader(bh) + block);
  }

  /** Below the wrap the two bound checks compress alike. */
  lemma CompressedAgrees(file: seq<byte>, comp: seq<byte> -> seq<byte>)
    requires 8 <= |file| ==> DeclaredLength(file) < U64 - 8
    ensures Compressed(file, comp, true) == Compressed(file, comp, false)
  {
    SplitAsWrittenAgrees(file);
  }

  /** The 8-byte file F8 FF .. FF is rejected by the intended check, and as
      written it is compressed whenever its 8 bytes, taken as tensor data,
      compress: the archive records an empty metadata region. */
  lemma WrapCompressed(comp: seq<byte> -> seq<byte>)
    requires |comp(FrameInput(Parts([], WrappingFile())))| < U64
    ensures Compressed(WrappingFile(), comp, false) == Failure(InvalidHeaderSize)
    ensures Compressed(WrappingFile(), comp, true).Ok? <==> comp(FrameInput(Parts([], WrappingFile()))) != []
    ensures Compressed(WrappingFile(), comp, true).Ok? ==>
              Unpack(Compressed(WrappingFile(), comp, true).value).Ok?
              && Unpack(Compressed(WrappingFile(), comp, true).value).value.metadata == []
  {
    WrapAccepted();
    var p := Parts([], WrappingFile());
    assert Cutting(WrappingFile(), true) == Ok(p);
    assert Cutting(WrappingFile(), false) == Failure(InvalidHeaderSize);
    var block := comp(FrameInput(p));
    if block != [] {
      UnpackPack(HeaderFor(WrappingFile(), p, block), [], BlockHeader(|block|, 4 * |Floats(p)|), block);
    }
  }

  // ---------------------------------------------------------------------
  // decompress_lossless

  /** What zstd_decompress returns for a block and a buffer of capacity
      bytes: the frame's content followed by zeros up to the capacity, or
      nothing when the frame is malformed or its content does not fit. */
  function Frame(dec: seq<byte> -> Option<seq<byte>>, block: seq<byte>, capacity: nat): (r: Option<seq<byte>>)
    ensures r.Some? <==> dec(block).Some? && |dec(block).value| <= capacity
    ensures r.Some? ==> |r.value| == capacity && r.value[..|dec(block).value|] == dec(block).value
  {
    match dec(block)
    case None => None
    case Some(x) =>
      if |x| <= capacity then
        assert (x + Zeros(capacity - |x|))[..|x|] == x;
        Some(x + Zeros(capacity - |x|))
      else None
  }

  /** The tensor bytes rebuilt from a decompressed buffer: the buffer is
      copied into num_floats zeroed words, XOR decoded, and written out. A
      buffer longer than the words is rejected: the copy would run past
      their end. */
  function Rebuilt(buffer: seq<byte>, numFloats: nat): (r: Result<seq<byte>>)
    ensures r.Failure? <==> |buffer| > 4 * numFloats
    ensures r.Failure? ==> r.error == BufferOverflow
    ensures r.Ok? ==> |r.value| == 4 * numFloats
  {
    if |buffer| > 4 * numFloats then Failure(BufferOverflow)
    else
      var words := WordsOf(buffer + Zeros(4 * numFloats - |buffer|));
      Ok(BytesOfWords(Chain.Accumulated(words, InPlaceDelta.XorStep)))
  }

  /** The tensor bytes decompress_lossless rebuilds from the block. With
      rejectEmpty, as in the source, an empty buffer is taken for a failed
      decompression, though zstd_decompress returns an empty buffer on
      success whenever the block's original size is 0; without it, only a
      failed decompression is rejected. */
  function Restored(u: Unpacked, dec: seq<byte> -> Option<seq<byte>>, rejectEmpty: bool): (r: Result<seq<byte>>)
    ensures r.Ok? ==> |r.value| == 4 * u.header.numFloats
  {
    match Frame(dec, u.block, u.blockHeader.originalSize)
    case None => Failure(FrameCodecError)
    case Some(buffer) =>
      if rejectEmpty && |buffer| == 0 then Failure(FrameCodecError)
      else Rebuilt(buffer, u.header.numFloats)
  }

  /** decompress_lossless: the metadata region verbatim, then the tensor
      bytes. */
  function Decompressed(archive: seq<byte>, dec: seq<byte> -> Option<seq<byte>>, rejectEmpty: bool)
    : (r: Result<seq<byte>>)
    ensures r.Ok? ==> Unpack(archive).Ok? && |Unpack(archive).value.metadata| <= |r.value|
                      && r.value[..|Unpack(archive).value.metadata|] == Unpack(archive).value.metadata
    ensures r.Ok? ==> |r.value| == |Unpack(archive).value.metadata| + 4 * Unpack(archive).value.header.numFloats
  {
    match Unpack(archive)
    case Failure(e) => Failure(e)
    case Ok(u) =>
      match Restored(u, dec, rejectEmpty)
      case Failure(e) => Failure(e)
      case Ok(t) =>
        assert (u.metadata + t)[..|u.metadata|] == u.metadata;
        Ok(u.metadata + t)
  }

  /** The two readings differ only on an empty buffer. */
  lemma RejectEmptyOnly(u: Unpacked, dec: seq<byte> -> Option<seq<byte>>)
    ensures Restored(u, dec, true) != Restored(u, dec, false)
        <==> Frame(dec, u.block, u.blockHeader.originalSize) == Some([])
  {
  }

  /** decompress_lossless, with the archive already read. */
  method Decompress(archive: seq<byte>, dec: seq<byte> -> Option<seq<byte>>, rejectEmpty: bool)
    returns (r: Result<seq<byte>>)
    ensures r == Decompressed(archive, dec, rejectEmpty)
  {
    var unpacked := Unpack(archive);
    if unpacked.Failure? {
      return Failure(unpacked.error);
    }
    var u := unpacked.value;
    var tensor := Restore(u, dec, rejectEmpty);
    if tensor.Failure? {
      return Failure(tensor.error);
    }
    r := Ok(u.metadata + tensor.value);
  }

  /** The block decompressed and XOR decoded in place. */
  method Restore(u: Unpacked, dec: seq<byte> -> Option<seq<byte>>, rejectEmpty: bool) returns (r: Result<seq<byte>>)
    ensures r == Restored(u, dec, rejectEmpty)
  {
    var frame := Frame(dec, u.block, u.blockHeader.originalSize);
    if frame.None? {
      return Failure(FrameCodecError);
    }
    var buffer := frame.value;
    if rejectEmpty && |buffer| == 0 {
      return Failure(FrameCodecError);
    }
    var n := u.header.numFloats;
    if |buffer| > 4 * n {
      return Failure(BufferOverflow);
    }
    var words := WordsOf(buffer + Zeros(4 * n - |buffer|));
    var u32 := new bv32[n](i requires 0 <= i < n => words[i]);
    assert u32[..] == words;
    InPlaceDelta.XorDeltaDecodeInplaceU32(u32);
    r := Ok(BytesOfWords(u32[..]));
  }

  // ---------------------------------------------------------------------
  // End to end

  /** Every archive compress_lossless writes is read back as the header
      recording the file's size, 8 + L, the float count truncated to 32
      bits and one block; the metadata region; the block header recording
      the frame's size and 4 bytes per float; and the frame. */
  lemma ArchiveUnpacks(file: seq<byte>, comp: seq<byte> -> seq<byte>)
    requires Fits(file) && |file| < U64
    requires comp(FrameInput(Cut(file))) != [] && |comp(FrameInput(Cut(file)))| + BlockHeaderSize < U64
    ensures Unpack(Compressed(file, comp, false).value)
         == Ok(Unpacked(Header(|file|, |Cut(file).metadata|, Truncate(|Cut(file).tensor| / 4, U32), 1,
                               |comp(FrameInput(Cut(file)))| + BlockHeaderSize),
                        Cut(file).metadata,
                        BlockHeader(|comp(FrameInput(Cut(file)))|, 4 * (|Cut(file).tensor| / 4)),
                        comp(FrameInput(Cut(file)))))
  {
    var p := Cut(file);
    var block := comp(FrameInput(p));
    UnpackPack(HeaderFor(file, p, block), p.metadata, BlockHeader(|block|, 4 * |Floats(p)|), block);
  }

  /** The frame codec is inverse on the one input that matters: the frame
      compressor succeeds on the XOR coded words, and decompressing its
      frame gives them back. */
  predicate FrameRoundTrips(file: seq<byte>, comp: seq<byte> -> seq<byte>, dec: seq<byte> -> Option<seq<byte>>)
    requires Fits(file)
  {
    comp(FrameInput(Cut(file))) != [] && |comp(FrameInput(Cut(file)))| + BlockHeaderSize < U64
    && dec(comp(FrameInput(Cut(file)))) == Some(FrameInput(Cut(file)))
  }

  /** The lossless round trip: whenever the frame codec round-trips and the
      float count fits its 32-bit field, decompression gives back the file
      with its length rounded down to the last whole float: the metadata
      region verbatim and every whole word of the tensor region. */
  lemma RoundTrip(file: seq<byte>, comp: seq<byte> -> seq<byte>, dec: seq<byte> -> Option<seq<byte>>)
    requires Fits(file) && |file| < U64 && |Cut(file).tensor| / 4 < U32
    requires FrameRoundTrips(file, comp, dec)
    ensures Compressed(file, comp, false).Ok?
    ensures Decompressed(Compressed(file, comp, false).value, dec, false) == Ok(file[..|file| - |Cut(file).tensor| % 4])
  {
    RestoresWords(file, comp, dec);
    DecompressedOf(Compressed(file, comp, false).value, dec, false, Unpack(Compressed(file, comp, false).value).value,
                   BytesOfWords(Floats(Cut(file))));
    RoundedDown(file);
  }

  /** The block of a compressed file is rebuilt into the tensor region's
      whole words. */
  lemma RestoresWords(file: seq<byte>, comp: seq<byte> -> seq<byte>, dec: seq<byte> -> Option<seq<byte>>)
    requires Fits(file) && |file| < U64 && |Cut(file).tensor| / 4 < U32
    requires FrameRoundTrips(file, comp, dec)
    ensures Compressed(file, comp, false).Ok? && Unpack(Compressed(file, comp, false).value).Ok?
    ensures Unpack(Compressed(file, comp, false).value).value.metadata == Cut(file).metadata
    ensures Restored(Unpack(Compressed(file, comp, false).value).value, dec, false) == Ok(BytesOfWords(Floats(Cut(file))))
  {
    var p := Cut(file);
    var x := FrameInput(p);
    ArchiveUnpacks(file, comp);
    FrameTensor(x, comp(x), dec, Floats(p));
  }

  /** decompress_lossless joins what it reads and what it rebuilds. */
  lemma DecompressedOf(a: seq<byte>, dec: seq<byte> -> Option<seq<byte>>, rejectEmpty: bool, u: Unpacked,
                       t: seq<byte>)
    requires Unpack(a) == Ok(u) && Restored(u, dec, rejectEmpty) == Ok(t)
    ensures Decompressed(a, dec, rejectEmpty) == Ok(u.metadata + t)
  {
  }

  /** A frame that decompresses to exactly its recorded size comes back
      unpadded. */
  lemma FrameWhole(x: seq<byte>, block: seq<byte>, dec: seq<byte> -> Option<seq<byte>>)
    requires dec(block) == Some(x)
    ensures Frame(dec, block, |x|) == Some(x)
  {
    assert x + Zeros(0) == x;
  }

  /** A round-tripping frame of XOR coded words rebuilds the words. */
  lemma FrameTensor(x: seq<byte>, block: seq<byte>, dec: seq<byte> -> Option<seq<byte>>, ws: seq<bv32>)
    requires x == BytesOfWords(Chain.Differenced(ws, InPlaceDelta.XorStep)) && dec(block) == Some(x)
    ensures Frame(dec, block, 4 * |ws|) == Some(x)
    ensures Rebuilt(x, |ws|) == Ok(BytesOfWords(ws))
  {
    FrameWhole(x, block, dec);
    WordsOfBytesOfWords(Chain.Differenced(ws, InPlaceDelta.XorStep));
    InPlaceDelta.XorRoundTrip(ws);
  }

  /** As written, a file whose tensor region holds no whole float compresses
      but does not decompress: its block's original size is 0, so the
      buffer is empty and is taken for a failure. Without that check the
      metadata region comes back. */
  lemma EmptyTensorRejected(file: seq<byte>, comp: seq<byte> -> seq<byte>, dec: seq<byte> -> Option<seq<byte>>)
    requires Fits(file) && |file| < U64 && |Cut(file).tensor| < 4
    requires FrameRoundTrips(file, comp, dec)
    ensures Compressed(file, comp, false).Ok?
    ensures Compressed(file, comp, true) == Compressed(file, comp, false)
    ensures Decompressed(Compressed(file, comp, true).value, dec, true) == Failure(FrameCodecError)
    ensures Decompressed(Compressed(file, comp, false).value, dec, false) == Ok(Cut(file).metadata)
  {
    CompressedAgrees(file, comp);
    RoundTrip(file, comp, dec);
    assert file[..|file| - |Cut(file).tensor| % 4] == Cut(file).metadata;
    EmptyFrame(file, comp, dec);
  }

  lemma EmptyFrame(file: seq<byte>, comp: seq<byte> -> seq<byte>, dec: seq<byte> -> Option<seq<byte>>)
    requires Fits(file) && |file| < U64 && |Cut(file).tensor| < 4
    requires FrameRoundTrips(file, comp, dec)
    ensures Decompressed(Compressed(file, comp, false).value, dec, true) == Failure(FrameCodecError)
  {
    RestoresWords(file, comp, dec);
    ArchiveUnpacks(file, comp);
    EmptyFrameRejected(Unpack(Compressed(file, comp, false).value).value, dec);
  }

  /** A successful decompression into a buffer of capacity 0 is taken for
      a failure as written. */
  lemma EmptyFrameRejected(u: Unpacked, dec: seq<byte> -> Option<seq<byte>>)
    requires Frame(dec, u.block, u.blockHeader.originalSize).Some? && u.blockHeader.originalSize == 0
    ensures Restored(u, dec, true) == Failure(FrameCodecError)
  {
  }

  /** As written, the round trip holds whenever the tensor region holds at
      least one whole float. */
  lemma RoundTripAsWritten(file: seq<byte>, comp: seq<byte> -> seq<byte>, dec: seq<byte> -> Option<seq<byte>>)
    requires Fits(file) && |file| < U64 && 4 <= |Cut(file).tensor| && |Cut(file).tensor| / 4 < U32
    requires FrameRoundTrips(file, comp, dec)
    ensures Decompressed(Compressed(file, comp, true).value, dec, true) == Ok(file[..|file| - |Cut(file).tensor| % 4])
  {
    CompressedAgrees(file, comp);
    RoundTrip(file, comp, dec);
    ArchiveUnpacks(file, comp);
    RejectEmptyOnly(Unpack(Compressed(file, comp, false).value).value, dec);
  }

  /** A float count of 2^32 or more is truncated in the header, so the
      block's buffer is larger than the words decompression copies it into,
      and decompression is rejected. */
  lemma TooManyFloats(file: seq<byte>, comp: seq<byte> -> seq<byte>, dec: seq<byte> -> Option<seq<byte>>,
                      asWritten: bool, rejectEmpty: bool)
    requires Fits(file) && |file| < U64 && |Cut(file).tensor| / 4 >= U32
    requires FrameRoundTrips(file, comp, dec)
    ensures Decompressed(Compressed(file, comp, asWritten).value, dec, rejectEmpty) == Failure(BufferOverflow)
  {
    CompressedAgrees(file, comp);
    Overflows(file, comp, dec, rejectEmpty);
  }

  lemma Overflows(file: seq<byte>, comp: seq<byte> -> seq<byte>, dec: seq<byte> -> Option<seq<byte>>,
                  rejectEmpty: bool)
    requires Fits(file) && |file| < U64 && |Cut(file).tensor| / 4 >= U32
    requires FrameRoundTrips(file, comp, dec)
    ensures Decompressed(Compressed(file, comp, false).value, dec, rejectEmpty) == Failure(BufferOverflow)
  {
    var p := Cut(file);
    var x := FrameInput(p);
    var archive := Compressed(file, comp, false).value;
    ArchiveUnpacks(file, comp);
    var u := Unpack(archive).value;
    FrameWhole(x, comp(x), dec);
    assert u.header.numFloats < |Floats(p)|;
    RestoredOverflows(u, dec, rejectEmpty, x);
    DecompressedFails(archive, dec, rejectEmpty, u, BufferOverflow);
  }

  lemma RestoredOverflows(u: Unpacked, dec: seq<byte> -> Option<seq<byte>>, rejectEmpty: bool, x: seq<byte>)
    requires Frame(dec, u.block, u.blockHeader.originalSize) == Some(x) && |x| > 4 * u.header.numFloats
    ensures Restored(u, dec, rejectEmpty) == Failure(BufferOverflow)
  {
  }

  /** decompress_lossless fails with what the rebuilding fails with. */
  lemma DecompressedFails(a: seq<byte>, dec: seq<byte> -> Option<seq<byte>>, rejectEmpty: bool, u: Unpacked,
                          e: Error)
    requires Unpack(a) == Ok(u) && Restored(u, dec, rejectEmpty) == Failure(e)
    ensures Decompressed(a, dec, rejectEmpty) == Failure(e)
  {
  }
}
