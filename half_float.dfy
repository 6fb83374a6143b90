/** The two half-width float converters: f32_to_f16 / f16_to_f32 of the lossy
    codec and float32_to_float16 / float16_to_float32 of the lossless codec's
    file. A float is handled as its raw IEEE 754 binary32 bit pattern and a
    half as its binary16 pattern (1 sign bit, 5 exponent bits with bias 15, 10
    mantissa bits). Both narrowings truncate the mantissa and flush every
    exponent outside the half range to signed zero or signed infinity; the two
    widenings differ on subnormal and NaN halves. */
module HalfFloat {

  // Fields of a binary32 pattern. The converters' contracts below spell the
  // fields out as the same bit expressions (sign x >> 31 or x >> 15, biased
  // exponent (x >> 23) & 0xFF or (x >> 10) & 0x1F, mantissa x & 0x7F_FFFF or
  // x & 0x3FF), which the solver handles far more cheaply than calls.
  function Sign32(b: bv32): bv32 { b >> 31 }
  function Exp32(b: bv32): bv32 { (b >> 23) & 0xFF }
  function Mant32(b: bv32): bv32 { b & 0x7F_FFFF }

  // Fields of a binary16 pattern.
  function Sign16(h: bv16): bv16 { h >> 15 }
  function Exp16(h: bv16): bv16 { (h >> 10) & 0x1F }
  function Mant16(h: bv16): bv16 { h & 0x3FF }

  // ---------------------------------------------------------------------
  // Lossy codec (advcodec)

  /** f32_to_f16: the sign is copied; a rebiased exponent of 0 or less
      (biased binary32 exponent up to 112) gives signed zero, one of 31 or
      more (143 and up, Inf and NaN included) gives signed infinity, and
      otherwise the exponent is rebiased and the top 10 mantissa bits are
      kept. */
  function F32ToF16(bits: bv32): (h: bv16)
    ensures (h >> 15) as bv32 == (bits >> 31)
    ensures ((h >> 10) & 0x1F) as bv32 ==
              if ((bits >> 23) & 0xFF) <= 112 then 0 else if ((bits >> 23) & 0xFF) >= 143 then 31 else ((bits >> 23) & 0xFF) - 112
    ensures (h & 0x3FF) as bv32 ==
              if ((bits >> 23) & 0xFF) <= 112 || ((bits >> 23) & 0xFF) >= 143 then 0 else (bits & 0x7F_FFFF) >> 13
  {
    var sign: bv32 := (bits >> 16) & 0x8000;
    var biased: bv32 := (bits >> 23) & 0xFF;
    var mantissa: bv32 := (bits >> 13) & 0x3FF;
    if biased <= 127 - 15 then sign as bv16
    else if biased >= 127 + 16 then (sign | 0x7C00) as bv16
    else (sign | ((biased - 127 + 15) << 10) | mantissa) as bv16
  }

  /** f16_to_f32: the sign is copied; exponent 0 gives signed zero whatever
      the mantissa, exponent 31 gives signed infinity with the mantissa
      dropped, and otherwise the exponent is rebiased and the mantissa is
      placed in the top 10 mantissa bits. */
  function F16ToF32(value: bv16): (b: bv32)
    ensures (b >> 31) == (value >> 15) as bv32
    ensures ((b >> 23) & 0xFF) ==
              if ((value >> 10) & 0x1F) == 0 then 0 else if ((value >> 10) & 0x1F) == 31 then 0xFF else ((value >> 10) & 0x1F) as bv32 + 112
    ensures (b & 0x7F_FFFF) ==
              if ((value >> 10) & 0x1F) == 0 || ((value >> 10) & 0x1F) == 31 then 0 else ((value & 0x3FF) as bv32) << 13
  {
    var sign: bv32 := ((value & 0x8000) as bv32) << 16;
    var exponent: bv32 := ((value >> 10) & 0x1F) as bv32;
    var mantissa: bv32 := (value & 0x3FF) as bv32;
    if exponent == 0 then sign
    else if exponent == 31 then sign | 0x7F80_0000
    else
      var rebiased := exponent - 15 + 127;
      sign | (rebiased << 23) | (mantissa << 13)
  }

  // ---------------------------------------------------------------------
  // Lossless codec's file (codec_4)

  /** float32_to_float16: the same cut-offs as F32ToF16, written with the
      unbiased exponent (-15 and 16) and a full-width mantissa shifted down. */
  function Float32ToFloat16(value: bv32): (h: bv16)
    ensures (h >> 15) as bv32 == (value >> 31)
    ensures ((h >> 10) & 0x1F) as bv32 ==
              if ((value >> 23) & 0xFF) <= 112 then 0 else if ((value >> 23) & 0xFF) >= 143 then 31 else ((value >> 23) & 0xFF) - 112
    ensures (h & 0x3FF) as bv32 ==
              if ((value >> 23) & 0xFF) <= 112 || ((value >> 23) & 0xFF) >= 143 then 0 else (value & 0x7F_FFFF) >> 13
  {
    var sign: bv32 := (value >> 16) & 0x8000;
    var biased: bv32 := (value >> 23) & 0xFF;
    var mantissa: bv32 := value & 0x7F_FFFF;
    if biased <= 127 - 15 then sign as bv16
    else if biased >= 127 + 16 then (sign | 0x7C00) as bv16
    else
      var rebiased := biased - 127 + 15;
      (sign | (rebiased << 10) | (mantissa >> 13)) as bv16
  }

  /** float16_to_float32: exponent 0 with mantissa 0 gives signed zero, a
      subnormal half gives +0.0 (its sign is dropped), exponent 31 keeps the
      mantissa as a NaN payload, and otherwise the exponent is rebiased. */
  function Float16ToFloat32(f16: bv16): (b: bv32)
    ensures (b >> 31) == if ((f16 >> 10) & 0x1F) == 0 && (f16 & 0x3FF) != 0 then 0 else (f16 >> 15) as bv32
    ensures ((b >> 23) & 0xFF) ==
              if ((f16 >> 10) & 0x1F) == 0 then 0 else if ((f16 >> 10) & 0x1F) == 31 then 0xFF else ((f16 >> 10) & 0x1F) as bv32 + 112
    ensures (b & 0x7F_FFFF) == if ((f16 >> 10) & 0x1F) == 0 then 0 else ((f16 & 0x3FF) as bv32) << 13
  {
    var sign: bv32 := ((f16 & 0x8000) as bv32) << 16;
    var exp: bv32 := ((f16 >> 10) & 0x1F) as bv32;
    var mantissa: bv32 := (f16 & 0x3FF) as bv32;
    if exp == 0 then
      if mantissa == 0 then sign else 0
    else if exp == 31 then sign | 0x7F80_0000 | (mantissa << 13)
    else
      var rebiased := exp - 15 + 127;
      sign | (rebiased << 23) | (mantissa << 13)
  }

  // ---------------------------------------------------------------------
  // The converters' contracts as plain facts about two named values. These
  // lemmas, and the *Core lemmas below, repeat the converters' ensures
  // clauses; they define nothing new. Each proof below first states these
  // facts and then hands them to a Core lemma that mentions no function at
  // all and derives the result's three fields; MaskedFields or SameFields16
  // then assembles the fields into the whole pattern. Each step is a small
  // bit-vector problem on its own, where the whole would not be.

  lemma F32ToF16Contract(bits: bv32, h: bv16)
    requires h == F32ToF16(bits)
    ensures (h >> 15) as bv32 == (bits >> 31)
    ensures ((h >> 10) & 0x1F) as bv32 ==
              if ((bits >> 23) & 0xFF) <= 112 then 0 else if ((bits >> 23) & 0xFF) >= 143 then 31 else ((bits >> 23) & 0xFF) - 112
    ensures (h & 0x3FF) as bv32 ==
              if ((bits >> 23) & 0xFF) <= 112 || ((bits >> 23) & 0xFF) >= 143 then 0 else (bits & 0x7F_FFFF) >> 13
  {
  }

  lemma F16ToF32Contract(h: bv16, b: bv32)
    requires b == F16ToF32(h)
    ensures (b >> 31) == (h >> 15) as bv32
    ensures ((b >> 23) & 0xFF) ==
              if ((h >> 10) & 0x1F) == 0 then 0 else if ((h >> 10) & 0x1F) == 31 then 0xFF else ((h >> 10) & 0x1F) as bv32 + 112
    ensures (b & 0x7F_FFFF) ==
              if ((h >> 10) & 0x1F) == 0 || ((h >> 10) & 0x1F) == 31 then 0 else ((h & 0x3FF) as bv32) << 13
  {
  }

  lemma Float32ToFloat16Contract(bits: bv32, h: bv16)
    requires h == Float32ToFloat16(bits)
    ensures (h >> 15) as bv32 == (bits >> 31)
    ensures ((h >> 10) & 0x1F) as bv32 ==
              if ((bits >> 23) & 0xFF) <= 112 then 0 else if ((bits >> 23) & 0xFF) >= 143 then 31 else ((bits >> 23) & 0xFF) - 112
    ensures (h & 0x3FF) as bv32 ==
              if ((bits >> 23) & 0xFF) <= 112 || ((bits >> 23) & 0xFF) >= 143 then 0 else (bits & 0x7F_FFFF) >> 13
  {
  }

  lemma Float16ToFloat32Contract(h: bv16, b: bv32)
    requires b == Float16ToFloat32(h)
    ensures (b >> 31) == if ((h >> 10) & 0x1F) == 0 && (h & 0x3FF) != 0 then 0 else (h >> 15) as bv32
    ensures ((b >> 23) & 0xFF) ==
              if ((h >> 10) & 0x1F) == 0 then 0 else if ((h >> 10) & 0x1F) == 31 then 0xFF else ((h >> 10) & 0x1F) as bv32 + 112
    ensures (b & 0x7F_FFFF) == if ((h >> 10) & 0x1F) == 0 then 0 else ((h & 0x3FF) as bv32) << 13
  {
  }

  /** A pattern whose sign and exponent are those of bits and whose mantissa
      is bits' mantissa with the low 13 bits cleared is bits masked by
      0xFFFF_E000. */
  lemma MaskedFields(bits: bv32, b: bv32)
    requires b >> 31 == bits >> 31 && (b >> 23) & 0xFF == (bits >> 23) & 0xFF
    requires b & 0x7F_FFFF == ((bits & 0x7F_FFFF) >> 13) << 13
    ensures b == bits & 0xFFFF_E000
  {
  }

  /** A binary16 pattern is determined by its three fields. */
  lemma SameFields16(a: bv16, h: bv16)
    requires a >> 15 == h >> 15 && (a >> 10) & 0x1F == (h >> 10) & 0x1F && a & 0x3FF == h & 0x3FF
    ensures a == h
  {
  }

  // ---------------------------------------------------------------------
  // Relations between the converters

  /** The two narrowings agree on every 32-bit pattern. */
  lemma NarrowingsAgree(bits: bv32)
    ensures F32ToF16(bits) == Float32ToFloat16(bits)
  {
  }

  /** The two widenings agree except on a negative subnormal half (the lossy
      codec keeps -0.0, the other gives +0.0) and on a NaN half (only the
      lossless codec's file keeps the payload). */
  lemma WideningsAgreeIff(h: bv16)
    ensures F16ToF32(h) == Float16ToFloat32(h) <==>
              !(Exp16(h) == 0 && Mant16(h) != 0 && Sign16(h) == 1) && !(Exp16(h) == 31 && Mant16(h) != 0)
  {
    var b1, b2 := F16ToF32(h), Float16ToFloat32(h);
    F16ToF32Contract(h, b1);
    Float16ToFloat32Contract(h, b2);
    WideningsAgreeCore(h, b1, b2);
  }

  lemma WideningsAgreeCore(h: bv16, b1: bv32, b2: bv32)
    requires (b1 >> 31) == (h >> 15) as bv32
    requires ((b1 >> 23) & 0xFF) ==
              if ((h >> 10) & 0x1F) == 0 then 0 else if ((h >> 10) & 0x1F) == 31 then 0xFF else ((h >> 10) & 0x1F) as bv32 + 112
    requires (b1 & 0x7F_FFFF) ==
              if ((h >> 10) & 0x1F) == 0 || ((h >> 10) & 0x1F) == 31 then 0 else ((h & 0x3FF) as bv32) << 13
    requires (b2 >> 31) == if ((h >> 10) & 0x1F) == 0 && (h & 0x3FF) != 0 then 0 else (h >> 15) as bv32
    requires ((b2 >> 23) & 0xFF) ==
              if ((h >> 10) & 0x1F) == 0 then 0 else if ((h >> 10) & 0x1F) == 31 then 0xFF else ((h >> 10) & 0x1F) as bv32 + 112
    requires (b2 & 0x7F_FFFF) == if ((h >> 10) & 0x1F) == 0 then 0 else ((h & 0x3FF) as bv32) << 13
    ensures b1 == b2 <==>
              !((h >> 10) & 0x1F == 0 && h & 0x3FF != 0 && h >> 15 == 1) && !((h >> 10) & 0x1F == 31 && h & 0x3FF != 0)
  {
  }

  /** Narrowing a float in the half's normal range and widening it back
      clears exactly the 13 low mantissa bits. */
  lemma NarrowWiden(bits: bv32)
    requires 113 <= Exp32(bits) <= 142
    ensures F16ToF32(F32ToF16(bits)) == bits & 0xFFFF_E000
  {
    var h := F32ToF16(bits);
    var b := F16ToF32(h);
    F32ToF16Contract(bits, h);
    F16ToF32Contract(h, b);
    NarrowWidenCoreLossy(bits, h, b);
    MaskedFields(bits, b);
  }

  lemma NarrowWidenCoreLossy(bits: bv32, h: bv16, b: bv32)
    requires 113 <= (bits >> 23) & 0xFF <= 142
    requires (h >> 15) as bv32 == (bits >> 31)
    requires ((h >> 10) & 0x1F) as bv32 ==
              if ((bits >> 23) & 0xFF) <= 112 then 0 else if ((bits >> 23) & 0xFF) >= 143 then 31 else ((bits >> 23) & 0xFF) - 112
    requires (h & 0x3FF) as bv32 ==
              if ((bits >> 23) & 0xFF) <= 112 || ((bits >> 23) & 0xFF) >= 143 then 0 else (bits & 0x7F_FFFF) >> 13
    requires (b >> 31) == (h >> 15) as bv32
    requires ((b >> 23) & 0xFF) ==
              if ((h >> 10) & 0x1F) == 0 then 0 else if ((h >> 10) & 0x1F) == 31 then 0xFF else ((h >> 10) & 0x1F) as bv32 + 112
    requires (b & 0x7F_FFFF) ==
              if ((h >> 10) & 0x1F) == 0 || ((h >> 10) & 0x1F) == 31 then 0 else ((h & 0x3FF) as bv32) << 13
    ensures b >> 31 == bits >> 31
    ensures (b >> 23) & 0xFF == (bits >> 23) & 0xFF
    ensures b & 0x7F_FFFF == ((bits & 0x7F_FFFF) >> 13) << 13
  {
  }

  /** The same holds in the lossless codec's file. */
  lemma NarrowWidenLossless(bits: bv32)
    requires 113 <= Exp32(bits) <= 142
    ensures Float16ToFloat32(Float32ToFloat16(bits)) == bits & 0xFFFF_E000
  {
    var h := Float32ToFloat16(bits);
    var b := Float16ToFloat32(h);
    Float32ToFloat16Contract(bits, h);
    Float16ToFloat32Contract(h, b);
    NarrowWidenCoreLossless(bits, h, b);
    MaskedFields(bits, b);
  }

  lemma NarrowWidenCoreLossless(bits: bv32, h: bv16, b: bv32)
    requires 113 <= (bits >> 23) & 0xFF <= 142
    requires (h >> 15) as bv32 == (bits >> 31)
    requires ((h >> 10) & 0x1F) as bv32 ==
              if ((bits >> 23) & 0xFF) <= 112 then 0 else if ((bits >> 23) & 0xFF) >= 143 then 31 else ((bits >> 23) & 0xFF) - 112
    requires (h & 0x3FF) as bv32 ==
              if ((bits >> 23) & 0xFF) <= 112 || ((bits >> 23) & 0xFF) >= 143 then 0 else (bits & 0x7F_FFFF) >> 13
    requires (b >> 31) == if ((h >> 10) & 0x1F) == 0 && (h & 0x3FF) != 0 then 0 else (h >> 15) as bv32
    requires ((b >> 23) & 0xFF) ==
              if ((h >> 10) & 0x1F) == 0 then 0 else if ((h >> 10) & 0x1F) == 31 then 0xFF else ((h >> 10) & 0x1F) as bv32 + 112
    requires (b & 0x7F_FFFF) == if ((h >> 10) & 0x1F) == 0 then 0 else ((h & 0x3FF) as bv32) << 13
    ensures b >> 31 == bits >> 31
    ensures (b >> 23) & 0xFF == (bits >> 23) & 0xFF
    ensures b & 0x7F_FFFF == ((bits & 0x7F_FFFF) >> 13) << 13
  {
  }

  /** Widening a normal half and narrowing it back is exact. */
  lemma WidenNarrow(h: bv16)
    requires 0 < Exp16(h) < 31
    ensures F32ToF16(F16ToF32(h)) == h
  {
    var b := F16ToF32(h);
    var h2 := F32ToF16(b);
    F16ToF32Contract(h, b);
    F32ToF16Contract(b, h2);
    WidenNarrowCoreLossy(h, b, h2);
    SameFields16(h2, h);
  }

  lemma WidenNarrowCoreLossy(h: bv16, b: bv32, h2: bv16)
    requires 0 < (h >> 10) & 0x1F < 31
    requires (b >> 31) == (h >> 15) as bv32
    requires ((b >> 23) & 0xFF) ==
              if ((h >> 10) & 0x1F) == 0 then 0 else if ((h >> 10) & 0x1F) == 31 then 0xFF else ((h >> 10) & 0x1F) as bv32 + 112
    requires (b & 0x7F_FFFF) ==
              if ((h >> 10) & 0x1F) == 0 || ((h >> 10) & 0x1F) == 31 then 0 else ((h & 0x3FF) as bv32) << 13
    requires (h2 >> 15) as bv32 == (b >> 31)
    requires ((h2 >> 10) & 0x1F) as bv32 ==
              if ((b >> 23) & 0xFF) <= 112 then 0 else if ((b >> 23) & 0xFF) >= 143 then 31 else ((b >> 23) & 0xFF) - 112
    requires (h2 & 0x3FF) as bv32 ==
              if ((b >> 23) & 0xFF) <= 112 || ((b >> 23) & 0xFF) >= 143 then 0 else (b & 0x7F_FFFF) >> 13
    ensures h2 >> 15 == h >> 15
    ensures (h2 >> 10) & 0x1F == (h >> 10) & 0x1F
    ensures h2 & 0x3FF == h & 0x3FF
  {
  }

  /** The same holds in the lossless codec's file. */
  lemma WidenNarrowLossless(h: bv16)
    requires 0 < Exp16(h) < 31
    ensures Float32ToFloat16(Float16ToFloat32(h)) == h
  {
    var b := Float16ToFloat32(h);
    var h2 := Float32ToFloat16(b);
    Float16ToFloat32Contract(h, b);
    Float32ToFloat16Contract(b, h2);
    WidenNarrowCoreLossless(h, b, h2);
    SameFields16(h2, h);
  }

  lemma WidenNarrowCoreLossless(h: bv16, b: bv32, h2: bv16)
    requires 0 < (h >> 10) & 0x1F < 31
    requires (b >> 31) == if ((h >> 10) & 0x1F) == 0 && (h & 0x3FF) != 0 then 0 else (h >> 15) as bv32
    requires ((b >> 23) & 0xFF) ==
              if ((h >> 10) & 0x1F) == 0 then 0 else if ((h >> 10) & 0x1F) == 31 then 0xFF else ((h >> 10) & 0x1F) as bv32 + 112
    requires (b & 0x7F_FFFF) == if ((h >> 10) & 0x1F) == 0 then 0 else ((h & 0x3FF) as bv32) << 13
    requires (h2 >> 15) as bv32 == (b >> 31)
    requires ((h2 >> 10) & 0x1F) as bv32 ==
              if ((b >> 23) & 0xFF) <= 112 then 0 else if ((b >> 23) & 0xFF) >= 143 then 31 else ((b >> 23) & 0xFF) - 112
    requires (h2 & 0x3FF) as bv32 ==
              if ((b >> 23) & 0xFF) <= 112 || ((b >> 23) & 0xFF) >= 143 then 0 else (b & 0x7F_FFFF) >> 13
    ensures h2 >> 15 == h >> 15
    ensures (h2 >> 10) & 0x1F == (h >> 10) & 0x1F
    ensures h2 & 0x3FF == h & 0x3FF
  {
  }

  /** Outside the normal range the round trip gives a signed zero or a
      signed infinity. */
  lemma NarrowWidenOutOfRange(bits: bv32)
    ensures Exp32(bits) <= 112 ==> F16ToF32(F32ToF16(bits)) == bits & 0x8000_0000
    ensures Exp32(bits) >= 143 ==> F16ToF32(F32ToF16(bits)) == (bits & 0x8000_0000) | 0x7F80_0000
  {
  }

  /** On the other halves the lossy codec's round trip keeps only the sign
      (exponent 0) or gives signed infinity (exponent 31); the lossless
      codec's file loses a subnormal's sign and a NaN's payload. */
  lemma WidenNarrowSpecial(h: bv16)
    ensures Exp16(h) == 0 ==> F32ToF16(F16ToF32(h)) == h & 0x8000
    ensures Exp16(h) == 31 ==> F32ToF16(F16ToF32(h)) == (h & 0x8000) | 0x7C00
    ensures Exp16(h) == 0 ==> Float32ToFloat16(Float16ToFloat32(h)) == (if Mant16(h) == 0 then h else 0)
    ensures Exp16(h) == 31 ==> Float32ToFloat16(Float16ToFloat32(h)) == (h & 0x8000) | 0x7C00
  {
  }

  /** Values with a short mantissa survive exactly: 0.5, 2.0 and -1.0. */
  lemma ExactExamples()
    ensures F16ToF32(F32ToF16(0x3F00_0000)) == 0x3F00_0000
    ensures F16ToF32(F32ToF16(0x4000_0000)) == 0x4000_0000
    ensures F16ToF32(F32ToF16(0xBF80_0000)) == 0xBF80_0000
    ensures F32ToF16(0x3F80_0000) == 0x3C00
  {
  }
}
