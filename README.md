# Tensor archive codecs, modelled in Dafny

This project models the byte- and bit-level core of two codecs. Both compress
tensor files laid out as an 8-byte little-endian length L, then L bytes of
JSON metadata, then a tensor region of float32 values.

- `LLMCodec` (src/advcodec.cpp) is the lossy codec. It narrows each float to
  half width, or it hands the floats to an 8-bit quantizer and then to a
  sign-magnitude byte delta. Either result then goes through a byte-oriented
  run-length coder. The archive holds a 32-byte header, the metadata region,
  the payload length and the payload.
- `OptimizedLLMCodec` (src/codec_4.cpp) is the lossless codec. It reads the
  tensor region as 32-bit words, XOR-chains them in place and hands them to a
  frame compressor as one block. The archive holds a 32-byte header, the
  metadata region, a 16-byte block header and the block.

Files are byte sequences (`seq<bv8>`), floats are their raw binary32 bit
patterns (`bv32`) and halves are binary16 patterns (`bv16`). Each stage is a
specification function. Each loop of the source is a method proved equal to
that function: a `seq` method where the source grows a vector, and an
`array` method where it rewrites a vector in place. The pipelines are
functions composed of the stages, and each pipeline also has a method form
that calls the loop methods.

Modules:
- `Bytes`: bytes, little-endian values, words, halves, and `Option`/`Result`.
- `Container`: the file split and the header fields, with 64-bit and 32-bit
  truncation written out.
- `HalfFloat`: both files' half-width converters.
- `Chain`: generic differencing and accumulation along a sequence.
- `VarByteDelta`: the sign-magnitude byte delta.
- `Rle`: the run-length coder.
- `InPlaceDelta`: the XOR chain and the 16-bit wrapping delta.
- `AdvCodec` and `LosslessCodec`: the two archives.

The frame compressor (ZSTD) and the quantizer are function parameters. A
compressor returning an empty sequence stands for its failure, as in the
source. The round trips assume that the frame decompressor gives back the
compressor's input on the one input that matters.

The run-length decoder is meant to invert the encoder. As written it does
not for every input: see "Findings". The model follows the code, and it also
proves the round trip for the corrected literal cap.

## Model

| member | source | states |
|---|---|---|
| HalfFloat.F32ToF16 | src/advcodec.cpp:27-39 | Copies the sign. A biased exponent ≤ 112 gives signed zero. An exponent ≥ 143 (Inf and NaN included) gives signed infinity (exponent 31, mantissa 0). Otherwise it gives exponent E-112 and the top 10 mantissa bits. |
| HalfFloat.F16ToF32 | src/advcodec.cpp:41-64 | Copies the sign. Exponent 0 gives signed zero whatever the mantissa. Exponent 31 gives signed infinity with the mantissa dropped. Otherwise it rebiases by +112 and places the mantissa in bits 22..13, with the low 13 bits zero. |
| HalfFloat.Float32ToFloat16 | src/codec_4.cpp:85-100 | Copies the sign. Flushes exponents ≤ 112 to signed zero and ≥ 143 to signed infinity. Otherwise it rebiases and truncates the mantissa to 10 bits. |
| HalfFloat.Float16ToFloat32 | src/codec_4.cpp:102-127 | Exponent 0 with mantissa 0 keeps the sign. Exponent 0 with a nonzero mantissa gives +0.0, dropping the sign. Exponent 31 keeps the NaN payload in bits 22..13. Otherwise it rebiases by +112. |
| HalfFloat.NarrowingsAgree | src/codec_4.cpp:85-100 | float32_to_float16 and f32_to_f16 agree on every 32-bit pattern. |
| HalfFloat.WideningsAgreeIff | src/codec_4.cpp:102-127 | The two widenings agree exactly when the half is neither a negative subnormal nor a NaN with a payload (both directions). |
| HalfFloat.NarrowWiden | src/advcodec.cpp:27-64 | For 113 ≤ E ≤ 142, widening the narrowed float gives the float with its 13 low mantissa bits cleared. |
| HalfFloat.NarrowWidenLossless | src/codec_4.cpp:85-127 | The same holds for the lossless codec's converters. |
| HalfFloat.NarrowWidenOutOfRange | src/advcodec.cpp:27-64 | For E ≤ 112 the round trip gives signed zero; for E ≥ 143 it gives signed infinity. |
| HalfFloat.WidenNarrow | src/advcodec.cpp:27-64 | A half with exponent 1..30 survives widening and narrowing back exactly. |
| HalfFloat.WidenNarrowLossless | src/codec_4.cpp:85-127 | The same holds for the lossless codec's converters. |
| HalfFloat.WidenNarrowSpecial | src/codec_4.cpp:102-127 | Exponent 0 and 31 halves come back as signed zero or signed infinity in the lossy codec. In the lossless codec's file a subnormal loses its sign and a NaN loses its payload. |
| HalfFloat.ExactExamples | src/advcodec.cpp:27-64 | 0.5, 2.0 and -1.0 survive narrowing and widening, and 1.0 narrows to 0x3C00. |
| VarByteDelta.StepCode | src/advcodec.cpp:106-112 | Bit 7 of a code is set exactly when the value went down. The low seven bits are the step size masked to seven bits. |
| VarByteDelta.StepDecode | src/advcodec.cpp:127-131 | The low seven bits are subtracted when bit 7 is set and added otherwise, wrapping modulo 256. |
| VarByteDelta.StepRoundTripIff | src/advcodec.cpp:106-131 | One step decodes back exactly when its size is at most 127 (both directions). |
| VarByteDelta.Encoded | src/advcodec.cpp:97-116 | Same length. The first byte is kept. Byte i has bit 7 set iff d[i] < d[i-1], and its low bits are the step size masked to seven bits. |
| VarByteDelta.DecodedAt | src/advcodec.cpp:124-133 | Each decoded byte applies its code to the byte decoded just before it. |
| VarByteDelta.RoundTripIff | src/advcodec.cpp:97-136 | decode(encode(d)) == d exactly when every adjacent step is at most 127 (both directions). |
| VarByteDelta.StepOf128Lost | src/advcodec.cpp:106-131 | A rise or fall of 128 is coded with magnitude 0 and decodes as no change. |
| VarByteDelta.DeltaEncodeVarbyte | src/advcodec.cpp:97-116 | The push_back loop computes Encoded(data); empty input gives empty output. |
| VarByteDelta.DeltaDecodeVarbyte | src/advcodec.cpp:118-136 | The push_back loop computes Decoded(encoded). |
| Rle.RunFrom | src/advcodec.cpp:145-150 | The run length counted from r stays between r and the cap and within the data. |
| Rle.RunUniform | src/advcodec.cpp:145-150 | Every byte the run scan covers equals the first. |
| Rle.LiteralStops | src/advcodec.cpp:162-172 | A literal ends only at the end of the data, at the cap, or where a run of four starts. No run of four starts inside it. |
| Rle.RecordAt | src/advcodec.cpp:145-178 | The record emitted at i is a run of 4..255 or a literal of 1..cap bytes, and it lies within the data. |
| Rle.RecordCount | src/advcodec.cpp:143-179 | The outer loop of compress_rle emits at most one record per input byte, and at least one for a non-empty input. |
| Rle.SerializedRecord | src/advcodec.cpp:152-177 | A well-formed record's first byte is 0xFF exactly when it is a run or a 255-byte literal, and its bytes are at most twice the bytes it covers. |
| Rle.RecordsWellFormed | src/advcodec.cpp:143-179 | Every record compress_rle emits is well formed. |
| Rle.RecordsExpand | src/advcodec.cpp:143-179 | The emitted records expand, in order, to exactly the input. |
| Rle.SerializedSize | src/advcodec.cpp:139-182 | The output is at most twice as long as the input. |
| Rle.DecodeBound | src/advcodec.cpp:184-207 | What decompress_rle's loop decodes is at most 85 times its input: a 3-byte run record stands for at most 255 bytes and a literal for fewer bytes than it takes. Its three branches are stated by Rle.DecodeRunStep, Rle.DecodeLiteralStep and Rle.DecodeStop. |
| Rle.RoundTrip | src/advcodec.cpp:139-207 | decompress_rle(compress_rle(d)) == d whenever no literal reaches 255 bytes. |
| Rle.FixedRoundTrip | src/advcodec.cpp:162-177 | With literals capped at 254 the round trip holds for every input. |
| Rle.FullLiteralMisread | src/advcodec.cpp:162-194 | A 255-byte alternating input becomes one literal with length byte 0xFF. The decoder reads it as a run and returns a different first byte. |
| Rle.TruncatedLiteralStops | src/advcodec.cpp:196-202 | A literal length running past the end stops decoding, and what was decoded before it is the result. |
| Rle.TrailingMarkerStops | src/advcodec.cpp:190-202 | A trailing 0xFF with fewer than two bytes after it is read as a literal of 255 bytes and stops decoding. |
| Rle.ScanRun | src/advcodec.cpp:145-150 | The run_length and peek_run loops compute RunFrom. |
| Rle.ScanLiteral | src/advcodec.cpp:160-172 | The lit_length loop computes LitFrom. |
| Rle.NextRecord | src/advcodec.cpp:145-178 | One pass of the outer loop emits the serialized record at i and advances past it. |
| Rle.CompressRle | src/advcodec.cpp:139-182 | compress_rle writes the serialized records of its input. |
| Rle.DecompressRle | src/advcodec.cpp:184-207 | decompress_rle computes Decode. |
| Chain.Differenced | src/codec_4.cpp:37-42 | Element 0 is kept and every later element becomes the code of its predecessor and itself; the same length. Chain.RoundTripIff is its partner. |
| Chain.Accumulated | src/codec_4.cpp:44-49 | Element 0 is kept and the length is the same; each later element applies its code to the element rebuilt just before it (Chain.AccumulatedAt). |
| InPlaceDelta.XorStep | src/codec_4.cpp:37-49 | XORing the result with the predecessor gives the word back. |
| InPlaceDelta.XorRoundTrip | src/codec_4.cpp:37-49 | XOR decoding undoes XOR encoding for every word sequence, and the converse. |
| InPlaceDelta.XorDeltaEncodeInplaceU32 | src/codec_4.cpp:37-42 | The descending loop leaves word 0 and sets word i to old[i] ^ old[i-1]. Vectors of at most one word are unchanged. |
| InPlaceDelta.XorDeltaDecodeInplaceU32 | src/codec_4.cpp:44-49 | The ascending loop rebuilds each word from the already rebuilt predecessor. |
| InPlaceDelta.DiffStep | src/codec_4.cpp:134-135 | The code is the difference from the predecessor modulo 2^16. |
| InPlaceDelta.SumStep | src/codec_4.cpp:144-145 | The int16-reinterpreted code added to the predecessor, modulo 2^16. |
| InPlaceDelta.WrapRoundTrip | src/codec_4.cpp:130-147 | delta_decode_inplace inverts delta_encode_inplace for every uint16 sequence, and the converse. |
| InPlaceDelta.DeltaEncodeInplace | src/codec_4.cpp:130-137 | The descending loop sets value i to (old[i] - old[i-1]) mod 2^16 and keeps value 0. |
| InPlaceDelta.DeltaDecodeInplace | src/codec_4.cpp:140-147 | The ascending loop rebuilds each value from the rebuilt predecessor. |
| Container.Truncate | src/codec_4.cpp:227 | A value cut to a narrower unsigned field is below the field's bound and unchanged when it fits. |
| Container.TruncateIsMod | src/codec_4.cpp:227 | The truncation is reduction modulo the field's bound. |
| Container.Le64Value | src/codec_4.cpp:224-231 | A uint64_t field reads back as its value modulo 2^64. |
| Container.Le32Value | src/codec_4.cpp:224-231 | A uint32_t field reads back as its value modulo 2^32. |
| Container.Add64 | src/codec_4.cpp:199 | `8 + header_size` in 64-bit unsigned arithmetic: below 2^64 it is the sum. |
| Container.Add64IsMod | src/codec_4.cpp:199 | The 64-bit sum is the sum modulo 2^64. |
| Container.Cut | src/advcodec.cpp:229-235 | The two regions join back to the file. The metadata region is 8 + L bytes and starts with its own length prefix. |
| Container.Split | src/codec_4.cpp:196-203 | Fails with FileTooSmall iff the file is shorter than 8 bytes. Otherwise it fails with InvalidHeaderSize iff 8 + L exceeds the file. Otherwise the cut joins back to the file. |
| Container.Join | src/codec_4.cpp:289-290 | The two regions put back together have both regions' bytes; Container.SplitJoin makes it the inverse of Split. |
| Container.SplitJoin | src/codec_4.cpp:196-203 | Splitting and joining are inverse in both directions. |
| Container.Floats | src/codec_4.cpp:204-207 | num_floats is the tensor length divided by 4, rounded down. |
| Container.RoundedDown | src/codec_4.cpp:204-207 | Writing the floats back gives the file rounded down to the last whole tensor word, with the metadata untouched. |
| Container.SplitAsWritten | src/codec_4.cpp:196-203 | The check as written: FileTooSmall iff the file is shorter than 8 bytes, and InvalidHeaderSize iff the wrapped 64-bit sum 8 + L exceeds the file's length. Otherwise the cut is made where the wrapped sum points: the metadata region is Add64(8, L) bytes, and the two regions join back to the file. |
| Container.SplitAsWrittenAgrees | src/codec_4.cpp:196-203 | Below the wrap, the check as written is the intended one. |
| Container.WrappingLength | src/codec_4.cpp:198 | The 8-byte file F8 FF .. FF announces 2^64 - 8 bytes of metadata. |
| Container.WrapAccepted | src/codec_4.cpp:199-202 | That file is accepted as written, with empty metadata, and rejected by the intended check. |
| AdvCodec.HeaderRoundTrip | src/advcodec.cpp:17-24 | A header whose fields fit their widths reads back unchanged. |
| AdvCodec.HeaderTruncates | src/advcodec.cpp:273-281 | Any header reads back with its integer fields truncated to their widths. |
| AdvCodec.RleRoundTrip | src/advcodec.cpp:139-207 | On bytes, the RLE round trip holds when safe (always, under the corrected cap), and the output is at most twice the input. |
| AdvCodec.WidenedNarrowed | src/advcodec.cpp:258-344 | Floats in the half's normal range come back from the half-width path with their 13 low mantissa bits cleared. |
| AdvCodec.NarrowAll | src/advcodec.cpp:258-261 | The narrowing loop narrows every float. |
| AdvCodec.WidenAll | src/advcodec.cpp:341-344 | The widening loop widens every half. |
| AdvCodec.Pack | src/advcodec.cpp:281-286 | The archive is the 32-byte header, the metadata region, an 8-byte payload length and the payload; AdvCodec.UnpackPack reads it back. |
| AdvCodec.Staged | src/advcodec.cpp:246-264 | The bytes handed to compress_rle: one delta-coded byte per quantized code, or two bytes per float whose halves read back as the narrowed floats. |
| AdvCodec.Payload | src/advcodec.cpp:244-266 | The payload is at most twice the staged bytes, and decompress_rle gives them back whenever the run-length round trip holds. |
| AdvCodec.HeaderFor | src/advcodec.cpp:273-279 | The header records the file size, L, the float count, method 1 exactly for the 8-bit path, and a zero range on the half-width path. |
| AdvCodec.TensorBytes | src/advcodec.cpp:325-348 | Method 1 rebuilds the dequantized codes and any other method the widened halves. The output is whole floats, two decoded bytes per float on the half-width path with an odd byte dropped. |
| AdvCodec.Unpack | src/advcodec.cpp:312-322 | Fails only with TruncatedRecord. A success lies within the archive. |
| AdvCodec.UnpackPack | src/advcodec.cpp:273-322 | Reading a packed archive gives back the truncated header, the metadata and the payload. |
| AdvCodec.Compressed | src/advcodec.cpp:229-286 | Fails, with FileTooSmall, exactly when the file is shorter than 8 bytes. |
| AdvCodec.Decompressed | src/advcodec.cpp:306-355 | Fails only with TruncatedRecord, and exactly when the reads fail. The output starts with the metadata region read. |
| AdvCodec.Compress | src/advcodec.cpp:210-304 | compress, built from the loop methods, computes Compressed. |
| AdvCodec.Decompress | src/advcodec.cpp:306-355 | decompress, built from the loop methods, computes Decompressed. |
| AdvCodec.ArchiveHeader | src/advcodec.cpp:273-281 | The header records the file size mod 2^64, L, the float count mod 2^32, the method (1 or 0), and the quantizer range or zeros. |
| AdvCodec.ArchiveUnpacks | src/advcodec.cpp:273-322 | decompress reads back the truncated header, the metadata region and the payload compress wrote. |
| AdvCodec.Float16Tensor | src/advcodec.cpp:335-348 | A half-width payload rebuilds the widened halves. |
| AdvCodec.QuantizedTensor | src/advcodec.cpp:327-334 | A quantized payload rebuilds the dequantized codes. |
| AdvCodec.RoundTripFloat16 | src/advcodec.cpp:256-348 | Half-width path: the output is the metadata verbatim plus every whole float narrowed and widened, provided the RLE round trip is safe. |
| AdvCodec.RoundTripQuantized | src/advcodec.cpp:246-334 | Quantized path: the output is the metadata verbatim plus the dequantized codes, provided no step exceeds 127 and RLE is safe. |
| AdvCodec.FixedRoundTripFloat16 | src/advcodec.cpp:256-348 | With the corrected cap the half-width round trip always succeeds, with the file's length rounded down to whole floats. |
| LosslessCodec.HeaderRoundTrip | src/codec_4.cpp:24-30 | A header whose fields fit their widths reads back unchanged. |
| LosslessCodec.HeaderTruncates | src/codec_4.cpp:224-231 | Any header reads back with each field truncated to its width. |
| LosslessCodec.BlockHeaderTruncates | src/codec_4.cpp:32-35 | A block header reads back truncated to 64 bits, and unchanged when it fits. |
| LosslessCodec.Pack | src/codec_4.cpp:231-238 | The archive is the 32-byte header, the metadata region, the 16-byte block header and the block; LosslessCodec.UnpackPack reads it back. |
| LosslessCodec.Unpack | src/codec_4.cpp:264-273 | Fails only with TruncatedRecord. A success has json_header_size metadata bytes and compressed_size block bytes. |
| LosslessCodec.UnpackPack | src/codec_4.cpp:224-273 | Reading a packed archive gives back the truncated headers, the metadata and the block. |
| LosslessCodec.FrameInput | src/codec_4.cpp:204-215 | The frame compressor is given 4 bytes per whole tensor word. |
| LosslessCodec.HeaderFor | src/codec_4.cpp:224-229 | The header records the file size, the metadata region's size, the tensor region's whole-word count, one block, and the block's size plus 16. |
| LosslessCodec.Cutting | src/codec_4.cpp:196-203 | With asWritten the wrapping bound check of line 199, otherwise the intended one. FileTooSmall iff fewer than 8 bytes, and a cut joins back to the file. The metadata region is Add64(8, L) bytes as written and 8 + L bytes corrected. |
| LosslessCodec.Compressed | src/codec_4.cpp:196-238 | FileTooSmall iff fewer than 8 bytes. InvalidHeaderSize iff 8 + L, wrapped to 64 bits as written or exact when corrected, exceeds the file. FrameCodecError iff the cut succeeds and the frame compressor fails. Otherwise success. |
| LosslessCodec.Compress | src/codec_4.cpp:183-256 | compress_lossless, with the in-place XOR loop, computes Compressed under either bound check. |
| LosslessCodec.CompressedAgrees | src/codec_4.cpp:199 | Below the wrap, compressing with the check as written and with the intended check gives the same result. |
| LosslessCodec.WrapCompressed | src/codec_4.cpp:196-238 | The 8-byte file F8 FF .. FF is rejected with InvalidHeaderSize by the intended check. As written it compresses whenever its 8 bytes compress, into an archive whose metadata region is empty. |
| LosslessCodec.Frame | src/codec_4.cpp:73-82 | zstd_decompress succeeds iff the frame decodes to at most the capacity. The buffer then has exactly capacity bytes and starts with the frame's content. |
| LosslessCodec.Rebuilt | src/codec_4.cpp:280-285 | Fails with BufferOverflow iff the buffer exceeds 4·num_floats bytes. Otherwise it gives 4·num_floats bytes. |
| LosslessCodec.Restored | src/codec_4.cpp:277-285 | The rebuilt tensor has 4·num_floats bytes. |
| LosslessCodec.Decompressed | src/codec_4.cpp:258-303 | The output is the metadata region read, followed by 4·num_floats tensor bytes. |
| LosslessCodec.RejectEmptyOnly | src/codec_4.cpp:277-278 | Rejecting an empty buffer changes the outcome exactly when decompression succeeded with an empty buffer. |
| LosslessCodec.Decompress | src/codec_4.cpp:258-303 | decompress_lossless computes Decompressed. |
| LosslessCodec.Restore | src/codec_4.cpp:277-285 | The in-place XOR decode of the buffer computes Restored. |
| LosslessCodec.ArchiveUnpacks | src/codec_4.cpp:224-238 | The archive reads back with original_size = file size, json_header_size = 8 + L, num_floats truncated to 32 bits, num_blocks = 1, compressed_tensor_size = frame + 16, and the block header (frame size, 4·num_floats). |
| LosslessCodec.FrameTensor | src/codec_4.cpp:277-285 | A round-tripping frame of XOR-coded words rebuilds exactly those words. |
| LosslessCodec.RoundTrip | src/codec_4.cpp:183-290 | With the empty-buffer check corrected, decompression gives back the file rounded down to whole tensor words, whenever the frame codec round-trips and the float count fits 32 bits. |
| LosslessCodec.RoundTripAsWritten | src/codec_4.cpp:258-290 | With both the bound check and the empty-buffer check as written, the same holds when the tensor region has at least one whole word. |
| LosslessCodec.EmptyTensorRejected | src/codec_4.cpp:277-278 | As written, a file with no whole tensor word compresses but fails to decompress. Corrected, its metadata comes back. |
| LosslessCodec.EmptyFrameRejected | src/codec_4.cpp:277-278 | A successful decompression into a zero-capacity buffer is taken for a failure as written. |
| LosslessCodec.TooManyFloats | src/codec_4.cpp:227-281 | A float count of 2^32 or more is truncated in the header, so decompression fails with BufferOverflow, under either bound check and either empty-buffer check. |

## Left out

- File streams, `seekg`/`tellg`, console output, timing and `main` are left out. Files are byte sequences that are already read, and output is the returned sequence.
- ZSTD (`zstd_compress_mt`, `zstd_decompress`, `compress_block`, `decompress_block`) is foreign code. The compressor is the parameter `comp`, and frame decoding is the parameter `dec`. Compression level, worker count, long-distance matching and window size do not change the contract and are not modelled. `compress_block` and `decompress_block` are never called.
- `std::thread::hardware_concurrency` and the worker count are concurrency inside ZSTD and are not modelled.
- `quantize_8bit` / `dequantize_8bit` use floating-point arithmetic. They are the parameters `quantize` and `dequantize`, and the quantized round trip is stated up to them. AdvCodec.ArchiveUnpacks and AdvCodec.RoundTripQuantized require that `quantize` gives one code per float, as `quantize_8bit` does.
- Short reads of a truncated archive leave the C++ buffers partly filled and the stream failed. Both decompressors here reject such an archive with TruncatedRecord instead.
- Headers are written as explicit little-endian fields. The structs' native layout, which has no padding, is assumed to match.
- The memcpy of the tensor region copies `tensor_bytes.size()` bytes into `num_floats` words. When the region is not a whole number of words, that copy runs up to 3 bytes past the words' end (src/advcodec.cpp:239, src/codec_4.cpp:207). The model keeps the whole words only.
- advcodec's decompress copies an odd-length half-width buffer into `size / 2` halves, one byte past their end (src/advcodec.cpp:339). The model drops the odd byte.
- codec_4's decompress copies a decompressed buffer larger than `4·num_floats` bytes past the words' end (src/codec_4.cpp:281). The model turns this into a BufferOverflow failure.
- AdvCodec.Compressed: requires that the file hold the metadata it announces. advcodec's compress checks only the 8-byte minimum (src/advcodec.cpp:229) before slicing at 8 + L. For a longer L the slice is undefined behaviour.
- AdvCodec.UnpackPack: assumes L < 2^64 - 8 and a payload shorter than 2^64 bytes, so that no field wraps.
- LosslessCodec.ArchiveUnpacks: assumes a file shorter than 2^64 bytes and a frame shorter than 2^64 - 16 bytes, so that only num_floats can be truncated.
- LosslessCodec.RoundTrip: assumes `dec(comp(x)) == Some(x)` for the one input x that compress_lossless passes to ZSTD, not for every input.

## Findings

| source | as written | input that shows it | evidently intended | confidence | as-written member | corrected member |
|---|---|---|---|---|---|---|
| src/advcodec.cpp:162 | Literals are capped at 255 bytes, so a full literal's length byte is 0xFF. The decoder takes that byte for the run marker. | 255 bytes alternating 1, 2: the output starts 0xFF, 1, 2, which decodes as one copy of 2 followed by garbage | Cap literals at 254 bytes, so that decompress_rle inverts compress_rle | not executed | Rle.FullLiteralMisread | Rle.FixedRoundTrip |
| src/codec_4.cpp:277-278 | An empty decompressed buffer is treated as a failure. zstd_decompress returns an empty buffer on success whenever the block's original size is 0. | A file whose tensor region holds fewer than 4 bytes, e.g. the 8-byte file with L = 0: it compresses, but decompression fails | Fail only when decompression reports an error, and write the metadata region back | not executed | LosslessCodec.EmptyTensorRejected | LosslessCodec.RoundTrip |
| src/codec_4.cpp:199 | `8 + header_size` is a 64-bit unsigned sum, which wraps when L ≥ 2^64 - 8 | The 8-byte file F8 FF FF FF FF FF FF FF: L = 2^64 - 8 passes the check, and the whole file is taken as tensor data with empty metadata | Reject every file whose announced metadata runs past its end | not executed | LosslessCodec.WrapCompressed | Container.Split |
