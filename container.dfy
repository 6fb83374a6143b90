/** The tensor file both codecs take apart and put back together: an
    unsigned little-endian 64-bit length L, then L bytes of metadata (the
    two together form the "metadata region", copied to the archive
    verbatim), then the tensor region, read as little-endian 32-bit floats.
    Also the fixed-width little-endian fields of the archive headers. */
module Container {
  import opened Bytes

  // ---------------------------------------------------------------------
  // Header fields

  /** x cut to a field whose values are below m: what a conversion to a
      narrower unsigned type keeps. */
  function Truncate(x: nat, m: nat): (r: nat)
    requires 0 < m
    ensures r < m && (x < m ==> r == x)
  {
    if x < m then x else x % m
  }

  lemma TruncateIsMod(x: nat, m: nat)
    requires 0 < m
    ensures Truncate(x, m) == x % m
  {
  }

  /** A uint64_t field: the value is reduced to 64 bits, as a size_t stored
      in a uint64_t would be on a 64-bit machine. */
  function Le64(x: nat): (s: seq<byte>)
    ensures |s| == 8
  {
    Pow256Values();
    LeBytes(Truncate(x, U64), 8)
  }

  /** A uint32_t field: the value is truncated to its low 32 bits, as the
      implicit conversion from size_t does. */
  function Le32(x: nat): (s: seq<byte>)
    ensures |s| == 4
  {
    Pow256Values();
    LeBytes(Truncate(x, U32), 4)
  }

  /** A field reads back as the value written, truncated to the field's
      width. */
  lemma Le64Value(x: nat)
    ensures LeValue(Le64(x)) == Truncate(x, U64)
  {
    Pow256Values();
    LeValueOfLeBytes(Truncate(x, U64), 8);
  }

  lemma Le32Value(x: nat)
    ensures LeValue(Le32(x)) == Truncate(x, U32)
  {
    Pow256Values();
    LeValueOfLeBytes(Truncate(x, U32), 4);
  }

  /** Only the truncated value is written. */
  lemma Le64Truncate(x: nat)
    ensures Le64(Truncate(x, U64)) == Le64(x)
  {
  }

  lemma Le32Truncate(x: nat)
    ensures Le32(Truncate(x, U32)) == Le32(x)
  {
  }

  /** The sum of two uint64_t values in 64-bit unsigned arithmetic: it
      wraps at most once. */
  function Add64(a: nat, b: nat): (r: nat)
    requires a < U64 && b < U64
    ensures r < U64 && (a + b < U64 ==> r == a + b)
  {
    if a + b < U64 then a + b else a + b - U64
  }

  lemma Add64IsMod(a: nat, b: nat)
    requires a < U64 && b < U64
    ensures Add64(a, b) == (a + b) % U64
  {
  }

  /** Both archive headers begin with two 8-byte and two 4-byte fields. */
  lemma FieldSlices(a: seq<byte>, b: seq<byte>, c: seq<byte>, d: seq<byte>, e: seq<byte>, s: seq<byte>)
    requires |a| == 8 && |b| == 8 && |c| == 4 && |d| == 4 && s == a + b + c + d + e
    ensures s[0..8] == a && s[8..16] == b && s[16..20] == c && s[20..24] == d && s[24..] == e
  {
  }

  // ---------------------------------------------------------------------
  // The split

  /** L, the metadata length announced by the file's first 8 bytes. */
  function DeclaredLength(file: seq<byte>): (n: nat)
    requires 8 <= |file|
    ensures n < U64
  {
    Pow256Values();
    LeValue(file[..8])
  }

  /** The file has its length prefix, and the metadata it announces ends
      within the file. */
  predicate Fits(file: seq<byte>) {
    8 <= |file| && 8 + DeclaredLength(file) <= |file|
  }

  /** A file cut in two: the metadata region (prefix and metadata) and the
      tensor region. */
  datatype Parts = Parts(metadata: seq<byte>, tensor: seq<byte>)

  /** The metadata region starts with its own length prefix, and that prefix
      accounts for every byte after it. */
  predicate SelfDescribing(metadata: seq<byte>) {
    8 <= |metadata| && 8 + LeValue(metadata[..8]) == |metadata|
  }

  /** The cut both codecs make at 8 + L. The lossy codec makes it without
      checking that it lies within the file, so its callers must. */
  function Cut(file: seq<byte>): (p: Parts)
    requires Fits(file)
    ensures p.metadata + p.tensor == file
    ensures |p.metadata| == 8 + DeclaredLength(file)
    ensures SelfDescribing(p.metadata)
  {
    var m := 8 + DeclaredLength(file);
    assert file[..m][..8] == file[..8];
    Parts(file[..m], file[m..])
  }

  /** The validating split of the lossless codec, with the bound check it
      means to make: a file shorter than 8 bytes and a file whose metadata
      would run past its end are rejected, and every other file is cut. */
  function Split(file: seq<byte>): (r: Result<Parts>)
    ensures r.Ok? <==> Fits(file)
    ensures r == Failure(FileTooSmall) <==> |file| < 8
    ensures r.Failure? ==> r.error == FileTooSmall || r.error == InvalidHeaderSize
    ensures r.Ok? ==> r.value.metadata + r.value.tensor == file
    ensures r.Ok? ==> |r.value.metadata| == 8 + DeclaredLength(file) && SelfDescribing(r.value.metadata)
  {
    if |file| < 8 then Failure(FileTooSmall)
    else if 8 + DeclaredLength(file) > |file| then Failure(InvalidHeaderSize)
    else Ok(Cut(file))
  }

  /** Putting the two regions back together. */
  function Join(p: Parts): (file: seq<byte>)
    ensures |file| == |p.metadata| + |p.tensor|
  {
    p.metadata + p.tensor
  }

  /** Splitting and joining are inverse: a split file joins back to itself,
      and any self-describing metadata region followed by any tensor region
      splits back into the same two parts. */
  lemma SplitJoin(file: seq<byte>, p: Parts)
    ensures Split(file) == Ok(p) ==> Join(p) == file
    ensures SelfDescribing(p.metadata) ==> Split(Join(p)) == Ok(p)
  {
    if SelfDescribing(p.metadata) {
      var f := Join(p);
      assert f[..8] == p.metadata[..8];
      assert f[..|p.metadata|] == p.metadata;
      assert f[|p.metadata|..] == p.tensor;
    }
  }

  /** The tensor region as float bit patterns: num_floats = |tensor| / 4
      whole words, a trailing partial word dropped. */
  function Floats(p: Parts): (ws: seq<bv32>)
    ensures |ws| == |p.tensor| / 4
  {
    WordsOf(p.tensor)
  }

  /** Writing the floats back gives the file with its length rounded down
      to the last whole word of the tensor region; the metadata region is
      untouched. */
  lemma RoundedDown(file: seq<byte>)
    requires Fits(file)
    ensures Join(Parts(Cut(file).metadata, BytesOfWords(Floats(Cut(file)))))
            == file[..|file| - |Cut(file).tensor| % 4]
    ensures |file| - |Cut(file).tensor| % 4 >= 8 + DeclaredLength(file)
  {
    var p := Cut(file);
    BytesOfWordsOf(p.tensor);
    var n := |p.tensor| - |p.tensor| % 4;
    assert n == 4 * (|p.tensor| / 4);
    assert p.metadata + p.tensor[..n] == file[..|p.metadata| + n];
  }

  // ---------------------------------------------------------------------
  // The bound check as written

  /** compress_lossless's check as written: `8 + header_size` is a 64-bit
      unsigned sum, which wraps to 0..7 when L is 2^64 - 8 or more, and the
      cut is made wherever the wrapped sum points. */
  function SplitAsWritten(file: seq<byte>): (r: Result<Parts>)
    ensures r == Failure(FileTooSmall) <==> |file| < 8
    ensures r == Failure(InvalidHeaderSize) <==> 8 <= |file| && Add64(8, DeclaredLength(file)) > |file|
    ensures r.Ok? <==> 8 <= |file| && Add64(8, DeclaredLength(file)) <= |file|
    ensures r.Ok? ==> r.value.metadata + r.value.tensor == file
    ensures r.Ok? ==> |r.value.metadata| == Add64(8, DeclaredLength(file))
  {
    if |file| < 8 then Failure(FileTooSmall)
    else
      var end := Add64(8, DeclaredLength(file));
      if end > |file| then Failure(InvalidHeaderSize)
      else Ok(Parts(file[..end], file[end..]))
  }

  /** Below the wrap the check as written is the intended one. */
  lemma SplitAsWrittenAgrees(file: seq<byte>)
    requires 8 <= |file| ==> DeclaredLength(file) < U64 - 8
    ensures SplitAsWritten(file) == Split(file)
  {
  }

  /** An 8-byte file announcing 2^64 - 8 bytes of metadata. */
  function WrappingFile(): (file: seq<byte>)
    ensures |file| == 8
  {
    [0xF8, 0xFF, 0xFF, 0xFF, 0xFF, 0xFF, 0xFF, 0xFF]
  }

  /** The wrapping file announces 2^64 - 8 bytes of metadata. */
  lemma WrappingLength()
    ensures DeclaredLength(WrappingFile()) == U64 - 8
  {
    var f := WrappingFile();
    assert f[..8] == f;
    assert LeValue(f[7..]) == 0xFF;
    assert LeValue(f[6..]) == 0xFFFF;
    assert LeValue(f[5..]) == 0xFF_FFFF;
    assert LeValue(f[4..]) == 0xFFFF_FFFF;
    assert LeValue(f[3..]) == 0xFF_FFFF_FFFF;
    assert LeValue(f[2..]) == 0xFFFF_FFFF_FFFF;
    assert LeValue(f[1..]) == 0xFF_FFFF_FFFF_FFFF;
  }

  /** The wrapping file announces far more metadata than it holds, yet the
      check as written accepts it, with an empty metadata region and all 8
      bytes taken as tensor data; the intended check rejects it. */
  lemma WrapAccepted()
    ensures !Fits(WrappingFile())
    ensures SplitAsWritten(WrappingFile()) == Ok(Parts([], WrappingFile()))
    ensures Split(WrappingFile()) == Failure(InvalidHeaderSize)
  {
    var f := WrappingFile();
    WrappingLength();
    assert Add64(8, DeclaredLength(f)) == 0;
    assert f[..0] == [] && f[0..] == f;
  }
}
