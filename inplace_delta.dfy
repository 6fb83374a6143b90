/** The lossless codec's residual transforms, which overwrite a vector in
    place: the XOR chain on 32-bit words (xor_delta_encode_inplace_u32 /
    xor_delta_decode_inplace_u32) and the wrapping difference on 16-bit
    values (delta_encode_inplace / delta_decode_inplace). Encoding walks
    from the last element down to element 1, so each step still sees the
    original predecessor; decoding walks up from element 1, so each step
    sees the predecessor it has just rebuilt. */
module InPlaceDelta {
  import Chain

  // ---------------------------------------------------------------------
  // XOR chain on 32-bit words

  /** One XOR step, in the source's operand order `data[i] ^= data[i - 1]`:
      it both codes a word against its predecessor and rebuilds it. */
  function XorStep(prev: bv32, x: bv32): (r: bv32)
    ensures r ^ prev == x
  {
    x ^ prev
  }

  lemma XorStepCancels(a: bv32, b: bv32)
    ensures XorStep(a, XorStep(a, b)) == b
  {
    var c := XorStep(a, b);
    var r := XorStep(a, c);
    XorCancel(a, b, c, r);
  }

  lemma XorCancel(a: bv32, b: bv32, c: bv32, r: bv32)
    requires c ^ a == b && r ^ a == c
    ensures r == b
  {
  }

  /** XOR decoding undoes XOR encoding for every word sequence, and XOR
      encoding undoes XOR decoding. */
  lemma XorRoundTrip(s: seq<bv32>)
    ensures Chain.Accumulated(Chain.Differenced(s, XorStep), XorStep) == s
    ensures Chain.Differenced(Chain.Accumulated(s, XorStep), XorStep) == s
  {
    forall a, b
      ensures XorStep(a, XorStep(a, b)) == b
    {
      XorStepCancels(a, b);
    }
    Chain.RoundTrip(s, XorStep, XorStep);
    Chain.InverseRoundTrip(s, XorStep, XorStep);
  }

  /** xor_delta_encode_inplace_u32: a vector of at most one word is left
      alone; otherwise word i becomes old[i] ^ old[i-1] for i from the last
      index down to 1. */
  method XorDeltaEncodeInplaceU32(data: array<bv32>)
    modifies data
    ensures data[..] == Chain.Differenced(old(data[..]), XorStep)
  {
    if data.Length <= 1 {
      return;
    }
    ghost var s := data[..];
    var i := data.Length - 1;
    while i > 0
      invariant 0 <= i < data.Length
      invariant data[..i + 1] == s[..i + 1]
      invariant forall j :: i < j < data.Length ==> data[j] == XorStep(s[j - 1], s[j])
    {
      data[i] := XorStep(data[i - 1], data[i]);
      i := i - 1;
    }
  }

  /** xor_delta_decode_inplace_u32: word i becomes word i ^ the already
      rebuilt word i-1, for i from 1 up to the last index. */
  method XorDeltaDecodeInplaceU32(data: array<bv32>)
    modifies data
    ensures data[..] == Chain.Accumulated(old(data[..]), XorStep)
  {
    if data.Length <= 1 {
      return;
    }
    ghost var e := data[..];
    var i := 1;
    while i < data.Length
      invariant 1 <= i <= data.Length
      invariant data[..i] == Chain.Accumulated(e, XorStep)[..i]
      invariant forall j :: i <= j < data.Length ==> data[j] == e[j]
    {
      Chain.AccumulatedAt(e, XorStep, i);
      data[i] := XorStep(data[i - 1], data[i]);
      i := i + 1;
    }
  }

  // ---------------------------------------------------------------------
  // Wrapping difference on 16-bit values

  const U16: int := 0x1_0000

  /** A uint16_t. The source computes these steps in int32 and casts back,
      so they are modelled on integers with the wrap-around written out. */
  newtype u16 = x: int | 0 <= x < 0x1_0000

  /** The code of one 16-bit step: the source subtracts the predecessor in
      int32 and casts the difference to uint16, keeping it modulo 2^16
      (Dafny's % never yields a negative remainder, as the cast does not). */
  function DiffStep(prev: u16, cur: u16): (d: u16)
    ensures (prev as int + d as int) % U16 == cur as int
  {
    ((cur as int - prev as int) % U16) as u16
  }

  /** The value of a 16-bit pattern read as int16. */
  function Signed16(x: u16): (v: int)
    ensures -0x8000 <= v < 0x8000
    ensures (v - x as int) % U16 == 0
  {
    if x < 0x8000 then x as int else x as int - U16
  }

  /** Rebuilding one 16-bit value: the source adds the code, reinterpreted
      as int16, to the predecessor in int32 and casts the sum to uint16. */
  function SumStep(prev: u16, d: u16): (cur: u16)
    ensures (cur as int - prev as int) % U16 == d as int
  {
    ((prev as int + Signed16(d)) % U16) as u16
  }

  lemma SumUndoesDiff(a: u16, b: u16)
    ensures SumStep(a, DiffStep(a, b)) == b
  {
  }

  lemma DiffUndoesSum(a: u16, b: u16)
    ensures DiffStep(a, SumStep(a, b)) == b
  {
  }

  /** delta_decode_inplace undoes delta_encode_inplace for every sequence
      of 16-bit values, and the other way round, since both wrap modulo
      2^16. */
  lemma WrapRoundTrip(s: seq<u16>)
    ensures Chain.Accumulated(Chain.Differenced(s, DiffStep), SumStep) == s
    ensures Chain.Differenced(Chain.Accumulated(s, SumStep), DiffStep) == s
  {
    forall a, b
      ensures SumStep(a, DiffStep(a, b)) == b && DiffStep(a, SumStep(a, b)) == b
    {
      SumUndoesDiff(a, b);
      DiffUndoesSum(a, b);
    }
    Chain.RoundTrip(s, DiffStep, SumStep);
    Chain.InverseRoundTrip(s, DiffStep, SumStep);
  }

  /** delta_encode_inplace: from the last index down to 1, value i becomes
      the wrapped difference from value i-1. */
  method DeltaEncodeInplace(data: array<u16>)
    modifies data
    ensures data[..] == Chain.Differenced(old(data[..]), DiffStep)
  {
    if data.Length <= 1 {
      return;
    }
    ghost var s := data[..];
    var i := data.Length - 1;
    while i > 0
      invariant 0 <= i < data.Length
      invariant data[..i + 1] == s[..i + 1]
      invariant forall j :: i < j < data.Length ==> data[j] == DiffStep(s[j - 1], s[j])
    {
      data[i] := DiffStep(data[i - 1], data[i]);
      i := i - 1;
    }
  }

  /** delta_decode_inplace: from index 1 up, value i becomes the wrapped sum
      of the rebuilt value i-1 and code i. */
  method DeltaDecodeInplace(data: array<u16>)
    modifies data
    ensures data[..] == Chain.Accumulated(old(data[..]), SumStep)
  {
    if data.Length <= 1 {
      return;
    }
    ghost var e := data[..];
    var i := 1;
    while i < data.Length
      invariant 1 <= i <= data.Length
      invariant data[..i] == Chain.Accumulated(e, SumStep)[..i]
      invariant forall j :: i <= j < data.Length ==> data[j] == e[j]
    {
      Chain.AccumulatedAt(e, SumStep, i);
      data[i] := SumStep(data[i - 1], data[i]);
      i := i + 1;
    }
  }
}
