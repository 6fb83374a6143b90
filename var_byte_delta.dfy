/** The sign-magnitude byte delta of the lossy codec (delta_encode_varbyte /
    delta_decode_varbyte): the first byte is kept, every later byte becomes a
    code whose bit 7 says the value went down and whose low seven bits hold
    the size of the step. A step of 128 or more does not fit in seven bits. */
module VarByteDelta {
  import opened Bytes
  import Chain

  /** The size of the step from prev to cur. The source subtracts the two
      bytes as int and takes std::abs, which is at most 255 and survives the
      uint8_t cast; the larger byte minus the smaller is the same number. */
  function StepSize(prev: byte, cur: byte): (n: byte)
    ensures cur < prev ==> n == prev - cur
    ensures !(cur < prev) ==> n == cur - prev
  {
    if cur < prev then prev - cur else cur - prev
  }

  /** The code written for the step from prev to cur: bit 7 says the value
      went down, the low seven bits are the step size masked to seven bits. */
  function StepCode(prev: byte, cur: byte): (code: byte)
    ensures code & 0x80 != 0 <==> cur < prev
    ensures code & 0x7F == StepSize(prev, cur) & 0x7F
  {
    var signBit: byte := if cur < prev then 0x80 else 0x00;
    signBit | (StepSize(prev, cur) & 0x7F)
  }

  /** The value decoded from the previous value and a code: the low seven
      bits are subtracted when bit 7 is set and added otherwise. The source
      adds the signed step as int and casts the sum back to uint8_t, which
      wraps modulo 256 exactly as byte arithmetic does. */
  function StepDecode(prev: byte, code: byte): (cur: byte)
    ensures code & 0x80 != 0 ==> cur == prev - (code & 0x7F)
    ensures code & 0x80 == 0 ==> cur == prev + (code & 0x7F)
  {
    if code & 0x80 != 0 then prev - (code & 0x7F) else prev + (code & 0x7F)
  }

  /** One step survives encoding exactly when it is at most 127 either way. */
  lemma StepRoundTripIff(prev: byte, cur: byte)
    ensures StepDecode(prev, StepCode(prev, cur)) == cur <==> StepSize(prev, cur) <= 127
  {
    var n := StepSize(prev, cur);
    var code := StepCode(prev, cur);
    var r := StepDecode(prev, code);
    StepSizeFacts(prev, cur, n);
    StepCodeFacts(prev, cur, n, code);
    StepDecodeFacts(prev, code, r);
    if cur < prev {
      StepDownCase(prev, cur, n, code, r);
    } else {
      StepUpCase(prev, cur, n, code, r);
    }
  }

  // The three lemmas below restate the contracts above about named values,
  // and the case lemmas after them reason about those values alone, with no
  // function in sight: this keeps the solver's bit-vector work small.

  lemma StepSizeFacts(prev: byte, cur: byte, n: byte)
    requires n == StepSize(prev, cur)
    ensures cur < prev ==> n == prev - cur
    ensures !(cur < prev) ==> n == cur - prev
  {
  }

  lemma StepCodeFacts(prev: byte, cur: byte, n: byte, code: byte)
    requires n == StepSize(prev, cur) && code == StepCode(prev, cur)
    ensures code & 0x80 != 0 <==> cur < prev
    ensures code & 0x7F == n & 0x7F
  {
  }

  lemma StepDecodeFacts(prev: byte, code: byte, r: byte)
    requires r == StepDecode(prev, code)
    ensures code & 0x80 != 0 ==> r == prev - (code & 0x7F)
    ensures code & 0x80 == 0 ==> r == prev + (code & 0x7F)
  {
  }

  lemma StepDownCase(prev: byte, cur: byte, n: byte, code: byte, r: byte)
    requires cur < prev
    requires cur < prev ==> n == prev - cur
    requires !(cur < prev) ==> n == cur - prev
    requires code & 0x80 != 0 <==> cur < prev
    requires code & 0x7F == n & 0x7F
    requires code & 0x80 != 0 ==> r == prev - (code & 0x7F)
    requires code & 0x80 == 0 ==> r == prev + (code & 0x7F)
    ensures r == cur <==> n <= 127
  {
    StepDownArith(prev, cur, n, code & 0x7F, r);
  }

  lemma StepUpCase(prev: byte, cur: byte, n: byte, code: byte, r: byte)
    requires !(cur < prev)
    requires cur < prev ==> n == prev - cur
    requires !(cur < prev) ==> n == cur - prev
    requires code & 0x80 != 0 <==> cur < prev
    requires code & 0x7F == n & 0x7F
    requires code & 0x80 != 0 ==> r == prev - (code & 0x7F)
    requires code & 0x80 == 0 ==> r == prev + (code & 0x7F)
    ensures r == cur <==> n <= 127
  {
    StepUpArith(prev, cur, n, code & 0x7F, r);
  }

  /** A fall of n comes back exactly when masking n to seven bits keeps it. */
  lemma StepDownArith(prev: byte, cur: byte, n: byte, m: byte, r: byte)
    requires cur < prev && n == prev - cur && m == n & 0x7F && r == prev - m
    ensures r == cur <==> n <= 127
  {
  }

  /** A rise of n comes back exactly when masking n to seven bits keeps it. */
  lemma StepUpArith(prev: byte, cur: byte, n: byte, m: byte, r: byte)
    requires !(cur < prev) && n == cur - prev && m == n & 0x7F && r == prev + m
    ensures r == cur <==> n <= 127
  {
  }

  // ---------------------------------------------------------------------
  // Whole buffers

  /** The encoding of a buffer: empty stays empty, the first byte is kept and
      byte i codes the step from d[i-1] to d[i]. */
  function Encoded(d: seq<byte>): (e: seq<byte>)
    ensures |e| == |d|
    ensures |d| > 0 ==> e[0] == d[0]
    ensures forall i :: 1 <= i < |d| ==> (e[i] & 0x80 != 0 <==> d[i] < d[i - 1])
    ensures forall i :: 1 <= i < |d| ==> e[i] & 0x7F == StepSize(d[i - 1], d[i]) & 0x7F
  {
    Chain.Differenced(d, StepCode)
  }

  /** The decoding of a buffer: each code is applied to the last value
      decoded so far. */
  function Decoded(e: seq<byte>): (d: seq<byte>)
    ensures |d| == |e|
    ensures |e| > 0 ==> d[0] == e[0]
  {
    Chain.Accumulated(e, StepDecode)
  }

  /** Every decoded byte after the first applies its code to the byte
      decoded just before it. */
  lemma DecodedAt(e: seq<byte>, i: nat)
    requires 1 <= i < |e|
    ensures Decoded(e)[i] == StepDecode(Decoded(e)[i - 1], e[i])
  {
    Chain.AccumulatedAt(e, StepDecode, i);
  }

  /** Every adjacent pair of bytes differs by at most 127. */
  predicate SmallSteps(d: seq<byte>) {
    forall i :: 1 <= i < |d| ==> StepSize(d[i - 1], d[i]) <= 127
  }

  /** Decoding undoes encoding exactly when no adjacent step exceeds 127. */
  lemma RoundTripIff(d: seq<byte>)
    ensures Decoded(Encoded(d)) == d <==> SmallSteps(d)
  {
    Chain.RoundTripIff(d, StepCode, StepDecode);
    UndoesAlongIff(d);
  }

  /** Decoding undoes every step of d exactly when every step is small. */
  lemma UndoesAlongIff(d: seq<byte>)
    ensures Chain.UndoesAlong(d, StepCode, StepDecode) <==> SmallSteps(d)
  {
    if SmallSteps(d) {
      forall i | 1 <= i < |d|
        ensures StepDecode(d[i - 1], StepCode(d[i - 1], d[i])) == d[i]
      {
        StepRoundTripIff(d[i - 1], d[i]);
      }
    } else {
      var i :| 1 <= i < |d| && StepSize(d[i - 1], d[i]) > 127;
      StepRoundTripIff(d[i - 1], d[i]);
    }
  }

  /** A rise of 128 is coded as magnitude 0 and comes back as no change; so
      does a fall of 128. */
  lemma StepOf128Lost()
    ensures Encoded([10, 138]) == [10, 0x00]
    ensures Decoded(Encoded([10, 138])) == [10, 10]
    ensures Encoded([138, 10]) == [138, 0x80]
    ensures Decoded(Encoded([138, 10])) == [138, 138]
  {
    assert StepCode(10, 138) == 0x00;
    assert StepCode(138, 10) == 0x80;
    DecodedAt([10, 0x00], 1);
    DecodedAt([138, 0x80], 1);
  }

  // ---------------------------------------------------------------------
  // The loops of the source

  /** delta_encode_varbyte: pushes the first byte and then one code per step. */
  method DeltaEncodeVarbyte(data: seq<byte>) returns (encoded: seq<byte>)
    ensures encoded == Encoded(data)
  {
    if |data| == 0 {
      return [];
    }
    encoded := [data[0]];
    var i := 1;
    while i < |data|
      invariant 1 <= i <= |data|
      invariant encoded == Encoded(data)[..i]
    {
      encoded := encoded + [StepCode(data[i - 1], data[i])];
      i := i + 1;
    }
  }

  /** delta_decode_varbyte: pushes the first byte and then applies each code
      to the back of the output. */
  method DeltaDecodeVarbyte(encoded: seq<byte>) returns (decoded: seq<byte>)
    ensures decoded == Decoded(encoded)
  {
    if |encoded| == 0 {
      return [];
    }
    decoded := [encoded[0]];
    var i := 1;
    while i < |encoded|
      invariant 1 <= i <= |encoded|
      invariant decoded == Decoded(encoded)[..i]
    {
      DecodedAt(encoded, i);
      decoded := decoded + [StepDecode(decoded[|decoded| - 1], encoded[i])];
      i := i + 1;
    }
  }
}
