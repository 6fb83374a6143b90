/** The byte-oriented run-length coder of the lossy codec (compress_rle /
    decompress_rle). The output is a string of records: a run record
    [0xFF, n, v] stands for n copies of v, and a literal record [k, k bytes]
    for those bytes. The encoder emits a run for 4 to 255 equal bytes and
    otherwise gathers bytes into a literal until a run of four starts or the
    literal holds its maximum. The decoder recognises a run record by its
    first byte 0xFF, so a literal of 255 bytes, whose length byte is also
    0xFF, is misread; the maximum literal length is therefore a parameter
    here: 255 as in the source, 254 for the corrected coder. */
module Rle {
  /** A uint8_t, as the integer it holds. This is the same byte as
      Bytes.byte (a bv8), held as an integer because the coder only counts
      and compares bytes, which the solver handles faster on integers;
      AdvCodec.ToRle and AdvCodec.FromRle convert between the two. */
  newtype byte = x: int | 0 <= x < 256

  /** The literal cap of compress_rle as written. */
  const SourceLiteralCap: nat := 255
  /** The largest literal cap whose length byte cannot be taken for a run
      marker. */
  const FixedLiteralCap: nat := 254
  /** compress_rle caps a run at 255 bytes. */
  const RunCap: nat := 255
  /** A run of at least four equal bytes is worth a run record. */
  const MinRun: nat := 4
  /** The first byte of a run record. */
  const Marker: byte := 0xFF

  datatype Record =
    | Run(count: nat, value: byte)
    | Literal(bytes: seq<byte>)

  /** n copies of v. */
  function Repeat(v: byte, n: nat): (s: seq<byte>)
    ensures |s| == n && forall k :: 0 <= k < n ==> s[k] == v
  {
    seq(n, _ => v)
  }

  /** The bytes a record stands for. */
  function Expand(r: Record): seq<byte> {
    match r
    case Run(n, v) => Repeat(v, n)
    case Literal(bs) => bs
  }

  /** How many input bytes a record covers. */
  function Size(r: Record): (n: nat)
    ensures n == |Expand(r)|
  {
    match r
    case Run(n, _) => n
    case Literal(bs) => |bs|
  }

  function ExpandAll(rs: seq<Record>): seq<byte> {
    if rs == [] then [] else Expand(rs[0]) + ExpandAll(rs[1..])
  }

  /** The bytes written for a record; counts are cast to uint8_t. */
  function SerializeRecord(r: Record): seq<byte> {
    match r
    case Run(n, v) => [Marker, (n % 256) as byte, v]
    case Literal(bs) => [(|bs| % 256) as byte] + bs
  }

  function Serialize(rs: seq<Record>): seq<byte> {
    if rs == [] then [] else SerializeRecord(rs[0]) + Serialize(rs[1..])
  }

  /** The records compress_rle can emit with a given literal cap. */
  predicate WellFormed(r: Record, litCap: nat) {
    match r
    case Run(n, _) => MinRun <= n <= RunCap
    case Literal(bs) => 1 <= |bs| <= litCap
  }

  predicate AllWellFormed(rs: seq<Record>, litCap: nat) {
    forall k :: 0 <= k < |rs| ==> WellFormed(rs[k], litCap)
  }

  /** No literal record holds 255 bytes. */
  predicate NoFullLiteral(rs: seq<Record>) {
    forall k :: 0 <= k < |rs| && rs[k].Literal? ==> |rs[k].bytes| < 255
  }

  // ---------------------------------------------------------------------
  // The encoder, as the loops of compress_rle compute it

  /** The length of the run of bytes equal to d[i] starting at i, counted up
      from r and capped at cap: the `run_length` loop (cap 255) and the
      `peek_run` loop (cap 4). */
  function RunFrom(d: seq<byte>, i: nat, r: nat, cap: nat): (n: nat)
    requires i < |d| && 1 <= r <= cap && i + r <= |d|
    ensures r <= n <= cap && i + n <= |d|
    decreases |d| - r
  {
    if i + r < |d| && d[i + r] == d[i] && r < cap then RunFrom(d, i, r + 1, cap) else r
  }

  /** Bytes i to i + n - 1 all equal d[i]. */
  predicate Uniform(d: seq<byte>, i: nat, n: nat)
    requires i + n <= |d|
  {
    forall k :: i <= k < i + n ==> d[k] == d[i]
  }

  /** Every byte the run scan counts equals d[i]. */
  lemma {:induction false} RunUniform(d: seq<byte>, i: nat, r: nat, cap: nat)
    requires i < |d| && 1 <= r <= cap && i + r <= |d| && Uniform(d, i, r)
    ensures Uniform(d, i, RunFrom(d, i, r, cap))
    decreases |d| - r
  {
    if i + r < |d| && d[i + r] == d[i] && r < cap {
      assert Uniform(d, i, r + 1);
      RunUniform(d, i, r + 1, cap);
    }
  }

  /** The run scan stops only at its cap, at the end of the data, or at a
      byte that differs from d[i]. */
  lemma {:induction false} RunMaximal(d: seq<byte>, i: nat, r: nat, cap: nat)
    requires i < |d| && 1 <= r <= cap && i + r <= |d|
    ensures var n := RunFrom(d, i, r, cap);
            n == cap || i + n == |d| || d[i + n] != d[i]
    decreases |d| - r
  {
    if i + r < |d| && d[i + r] == d[i] && r < cap {
      RunMaximal(d, i, r + 1, cap);
    }
  }

  /** A scan capped at 4 sees a run of four exactly when the scan capped
      at 255 does. */
  lemma {:induction false} PeekAgrees(d: seq<byte>, i: nat, r: nat)
    requires i < |d| && 1 <= r <= MinRun && i + r <= |d|
    ensures RunFrom(d, i, r, MinRun) >= MinRun <==> RunFrom(d, i, r, RunCap) >= MinRun
    decreases |d| - r
  {
    if i + r < |d| && d[i + r] == d[i] && r < MinRun {
      PeekAgrees(d, i, r + 1);
    }
  }

  /** The length of the literal that starts with lit bytes already taken
      and continues at i: the `lit_length` loop, which stops at the end of
      the data, at the cap, or where a run of four starts. */
  function LitFrom(d: seq<byte>, i: nat, lit: nat, cap: nat): (k: nat)
    requires i <= |d| && lit <= cap
    ensures lit <= k <= cap && i + (k - lit) <= |d|
    decreases |d| - i
  {
    if i < |d| && lit < cap && RunFrom(d, i, 1, MinRun) < MinRun then LitFrom(d, i + 1, lit + 1, cap) else lit
  }

  /** The literal scan stops only at the end of the data, at the cap, or
      where a run of four starts, and no run of four starts inside it. */
  lemma {:induction false} LiteralStops(d: seq<byte>, i: nat, lit: nat, cap: nat)
    requires i <= |d| && lit <= cap
    ensures var end := i + (LitFrom(d, i, lit, cap) - lit);
            end == |d| || LitFrom(d, i, lit, cap) == cap || RunFrom(d, end, 1, MinRun) >= MinRun
    ensures forall j :: i <= j < i + (LitFrom(d, i, lit, cap) - lit) ==> RunFrom(d, j, 1, MinRun) < MinRun
    decreases |d| - i
  {
    if i < |d| && lit < cap && RunFrom(d, i, 1, MinRun) < MinRun {
      LiteralStops(d, i + 1, lit + 1, cap);
    }
  }

  /** Where no run of four starts, the literal takes at least one byte. */
  lemma LiteralNonEmpty(d: seq<byte>, i: nat, litCap: nat)
    requires i < |d| && 1 <= litCap && RunFrom(d, i, 1, RunCap) < MinRun
    ensures LitFrom(d, i, 0, litCap) >= 1
  {
    PeekAgrees(d, i, 1);
  }

  /** The record compress_rle emits at i: a run record when the run there
      reaches four, otherwise a literal record. */
  function RecordAt(d: seq<byte>, i: nat, litCap: nat): (r: Record)
    requires i < |d| && 1 <= litCap <= 255
    ensures WellFormed(r, litCap) && i + Size(r) <= |d|
  {
    if RunFrom(d, i, 1, RunCap) >= MinRun then Run(RunFrom(d, i, 1, RunCap), d[i])
    else
      LiteralNonEmpty(d, i, litCap);
      Literal(d[i..i + LitFrom(d, i, 0, litCap)])
  }

  /** The records compress_rle emits for d[i..]. */
  function Records(d: seq<byte>, i: nat, litCap: nat): seq<Record>
    requires i <= |d| && 1 <= litCap <= 255
    decreases |d| - i
  {
    if i == |d| then []
    else [RecordAt(d, i, litCap)] + Records(d, i + Size(RecordAt(d, i, litCap)), litCap)
  }

  lemma RecordsCons(d: seq<byte>, i: nat, litCap: nat)
    requires i < |d| && 1 <= litCap <= 255
    ensures Records(d, i, litCap)
         == [RecordAt(d, i, litCap)] + Records(d, i + Size(RecordAt(d, i, litCap)), litCap)
  {
  }

  /** Every record compress_rle emits is well formed. */
  lemma {:induction false} RecordsWellFormed(d: seq<byte>, i: nat, litCap: nat)
    requires i <= |d| && 1 <= litCap <= 255
    ensures AllWellFormed(Records(d, i, litCap), litCap)
    decreases |d| - i
  {
    if i < |d| {
      RecordsWellFormedAt(d, i, litCap, RecordAt(d, i, litCap));
    }
  }

  lemma {:induction false} RecordsWellFormedAt(d: seq<byte>, i: nat, litCap: nat, r: Record)
    requires i < |d| && 1 <= litCap <= 255 && r == RecordAt(d, i, litCap)
    ensures AllWellFormed(Records(d, i, litCap), litCap)
    decreases |d| - i, 0
  {
    RecordsWellFormed(d, i + Size(r), litCap);
    ConsWellFormed(Records(d, i, litCap), r, Records(d, i + Size(r), litCap), litCap);
  }

  lemma ConsWellFormed(rs: seq<Record>, r: Record, tail: seq<Record>, litCap: nat)
    requires rs == [r] + tail && WellFormed(r, litCap) && AllWellFormed(tail, litCap)
    ensures AllWellFormed(rs, litCap)
  {
    forall k | 0 <= k < |rs|
      ensures WellFormed(rs[k], litCap)
    {
      if k > 0 {
        assert rs[k] == tail[k - 1];
      }
    }
  }

  /** A record expands to the bytes it was cut from. */
  lemma RecordExpands(d: seq<byte>, i: nat, litCap: nat, r: Record)
    requires i < |d| && 1 <= litCap <= 255 && r == RecordAt(d, i, litCap)
    ensures Expand(r) == d[i..i + Size(r)]
  {
    if r.Run? {
      RunUniform(d, i, 1, RunCap);
    }
  }

  /** The records emitted from i on expand to the data from i on. */
  predicate Covers(d: seq<byte>, i: nat, litCap: nat)
    requires i <= |d| && 1 <= litCap <= 255
  {
    ExpandAll(Records(d, i, litCap)) == d[i..]
  }

  /** Every byte of the input is covered, in order: the records expand to
      exactly the data. */
  lemma {:induction false} RecordsExpand(d: seq<byte>, i: nat, litCap: nat)
    requires i <= |d| && 1 <= litCap <= 255
    ensures Covers(d, i, litCap)
    decreases |d| - i, 1
  {
    if i < |d| {
      RecordsExpandAt(d, i, litCap, RecordAt(d, i, litCap));
    }
  }

  lemma {:induction false} RecordsExpandAt(d: seq<byte>, i: nat, litCap: nat, r: Record)
    requires i < |d| && 1 <= litCap <= 255 && r == RecordAt(d, i, litCap)
    ensures Covers(d, i, litCap)
    decreases |d| - i, 0
  {
    RecordsExpand(d, i + Size(r), litCap);
    RecordExpands(d, i, litCap, r);
    RecordsCons(d, i, litCap);
    ExpandStep(Records(d, i, litCap), r, Records(d, i + Size(r), litCap), d, i, Size(r));
  }

  lemma ExpandStep(rs: seq<Record>, rec: Record, tail: seq<Record>, d: seq<byte>, i: nat, k: nat)
    requires i + k <= |d|
    requires rs == [rec] + tail && Expand(rec) == d[i..i + k] && ExpandAll(tail) == d[i + k..]
    ensures ExpandAll(rs) == d[i..]
  {
    assert rs[1..] == tail;
    SliceSplit(d, i, k);
  }

  lemma SliceSplit<T>(d: seq<T>, i: nat, n: nat)
    requires i + n <= |d|
    ensures d[i..] == d[i..i + n] + d[i + n..]
  {
  }

  lemma AppendAssoc<T>(a: seq<T>, b: seq<T>, c: seq<T>)
    ensures (a + b) + c == a + (b + c)
  {
  }

  lemma ExpandAllCons(rs: seq<Record>)
    requires rs != []
    ensures ExpandAll(rs) == Expand(rs[0]) + ExpandAll(rs[1..])
  {
  }

  /** The bytes compress_rle writes from i on: those of the record at i,
      then those for the rest. */
  lemma SerializeStep(d: seq<byte>, i: nat, litCap: nat)
    requires i < |d| && 1 <= litCap <= 255
    ensures Serialize(Records(d, i, litCap))
         == SerializeRecord(RecordAt(d, i, litCap)) + Serialize(Records(d, i + Size(RecordAt(d, i, litCap)), litCap))
  {
    RecordsCons(d, i, litCap);
    SerializePrepend(RecordAt(d, i, litCap), Records(d, i + Size(RecordAt(d, i, litCap)), litCap));
  }

  /** compress_rle at most doubles its input: a run record covers at
      least four bytes with three, a literal of k bytes costs k + 1. */
  lemma SerializedSize(d: seq<byte>, i: nat, litCap: nat)
    requires i <= |d| && 1 <= litCap <= 255
    ensures |Serialize(Records(d, i, litCap))| <= 2 * (|d| - i)
  {
    SizeBoundFrom(d, i, litCap);
  }

  predicate SizeBound(d: seq<byte>, i: nat, litCap: nat)
    requires i <= |d| && 1 <= litCap <= 255
  {
    |Serialize(Records(d, i, litCap))| <= 2 * (|d| - i)
  }

  lemma {:induction false} SizeBoundFrom(d: seq<byte>, i: nat, litCap: nat)
    requires i <= |d| && 1 <= litCap <= 255
    ensures SizeBound(d, i, litCap)
    decreases |d| - i
  {
    if i < |d| {
      var r := RecordAt(d, i, litCap);
      SizeBoundFrom(d, i + Size(r), litCap);
      SerializeStep(d, i, litCap);
    }
  }

  lemma SerializePrepend(r: Record, rs: seq<Record>)
    ensures Serialize([r] + rs) == SerializeRecord(r) + Serialize(rs)
  {
    assert ([r] + rs)[1..] == rs;
  }

  // ---------------------------------------------------------------------
  // The decoder

  /** decompress_rle on the input from some record boundary on: a 0xFF with
      two bytes after it is a run record; any other first byte is a literal
      length, and a literal that runs past the end stops decoding. */
  function Decode(c: seq<byte>): seq<byte>
    decreases |c|
  {
    if |c| == 0 then []
    else if c[0] == Marker && 2 < |c| then Repeat(c[2], c[1] as nat) + Decode(c[3..])
    else if c[0] as nat < |c| then c[1..1 + c[0] as nat] + Decode(c[1 + c[0] as nat..])
    else []
  }

  lemma DecodeRunStep(c: seq<byte>)
    requires |c| > 2 && c[0] == Marker
    ensures Decode(c) == Repeat(c[2], c[1] as nat) + Decode(c[3..])
  {
  }

  lemma DecodeLiteralStep(c: seq<byte>)
    requires |c| > 0 && !(c[0] == Marker && |c| > 2) && c[0] as nat < |c|
    ensures Decode(c) == c[1..1 + c[0] as nat] + Decode(c[1 + c[0] as nat..])
  {
  }

  lemma DecodeStop(c: seq<byte>)
    requires |c| > 0 && !(c[0] == Marker && |c| > 2) && c[0] as nat >= |c|
    ensures Decode(c) == []
  {
  }

  /** Decoding the bytes of a well-formed record that is not a 255-byte
      literal yields its expansion and resumes right after it. */
  lemma DecodeRecord(r: Record, t: seq<byte>)
    requires WellFormed(r, 255) && !(r.Literal? && |r.bytes| == 255)
    ensures Decode(SerializeRecord(r) + t) == Expand(r) + Decode(t)
  {
    var c := SerializeRecord(r) + t;
    match r
    case Run(n, v) =>
      assert c[0] == Marker && c[1] as nat == n && c[2] == v;
      DecodeRunStep(c);
      assert c[3..] == t;
    case Literal(bs) =>
      assert c[0] as nat == |bs|;
      DecodeLiteralStep(c);
      assert c[1..1 + |bs|] == bs;
      assert c[1 + |bs|..] == t;
  }

  /** Decoding a string of such records yields their expansions and then
      whatever the bytes after them decode to. */
  lemma {:induction false} DecodeRecords(rs: seq<Record>, t: seq<byte>)
    requires AllWellFormed(rs, 255) && NoFullLiteral(rs)
    ensures Decode(Serialize(rs) + t) == ExpandAll(rs) + Decode(t)
  {
    if rs != [] {
      TailRecords(rs);
      DecodeRecords(rs[1..], t);
      DecodeRecordsStep(rs, t);
    } else {
      assert Serialize(rs) + t == t;
    }
  }

  /** The records after the first one are as well formed as all of them. */
  lemma TailRecords(rs: seq<Record>)
    requires rs != [] && AllWellFormed(rs, 255) && NoFullLiteral(rs)
    ensures AllWellFormed(rs[1..], 255) && NoFullLiteral(rs[1..])
    ensures WellFormed(rs[0], 255) && !(rs[0].Literal? && |rs[0].bytes| == 255)
  {
    var tail := rs[1..];
    forall k | 0 <= k < |tail|
      ensures WellFormed(tail[k], 255)
      ensures tail[k].Literal? ==> |tail[k].bytes| < 255
    {
      assert tail[k] == rs[k + 1];
    }
  }

  lemma DecodeRecordsStep(rs: seq<Record>, t: seq<byte>)
    requires rs != [] && WellFormed(rs[0], 255) && !(rs[0].Literal? && |rs[0].bytes| == 255)
    requires Decode(Serialize(rs[1..]) + t) == ExpandAll(rs[1..]) + Decode(t)
    ensures Decode(Serialize(rs) + t) == ExpandAll(rs) + Decode(t)
  {
    SerializeCons(rs, t);
    DecodeRecord(rs[0], Serialize(rs[1..]) + t);
    ExpandAllCons(rs);
    Regroup(Decode(Serialize(rs) + t), Expand(rs[0]), Decode(Serialize(rs[1..]) + t),
            ExpandAll(rs[1..]), Decode(t), ExpandAll(rs));
  }

  lemma SerializeCons(rs: seq<Record>, t: seq<byte>)
    requires rs != []
    ensures Decode(Serialize(rs) + t) == Decode(SerializeRecord(rs[0]) + (Serialize(rs[1..]) + t))
  {
    assert Serialize(rs) + t == SerializeRecord(rs[0]) + (Serialize(rs[1..]) + t);
  }

  lemma Regroup(whole: seq<byte>, head: seq<byte>, rest: seq<byte>, body: seq<byte>, tail: seq<byte>, all: seq<byte>)
    requires whole == head + rest && rest == body + tail && all == head + body
    ensures whole == all + tail
  {
  }

  /** decompress_rle undoes compress_rle whenever no literal reaches 255
      bytes. */
  lemma RoundTrip(d: seq<byte>, litCap: nat)
    requires 1 <= litCap <= 255
    ensures NoFullLiteral(Records(d, 0, litCap)) ==> Decode(Serialize(Records(d, 0, litCap))) == d
  {
    if NoFullLiteral(Records(d, 0, litCap)) {
      RecordsWellFormed(d, 0, litCap);
      WellFormedUnderCap(Records(d, 0, litCap), litCap);
      DecodeRecords(Records(d, 0, litCap), []);
      RecordsExpand(d, 0, litCap);
      assert Serialize(Records(d, 0, litCap)) + [] == Serialize(Records(d, 0, litCap));
      assert d[0..] == d;
    }
  }

  lemma WellFormedUnderCap(rs: seq<Record>, litCap: nat)
    requires litCap <= 255 && AllWellFormed(rs, litCap)
    ensures AllWellFormed(rs, 255)
  {
    forall k | 0 <= k < |rs|
      ensures WellFormed(rs[k], 255)
    {
      assert WellFormed(rs[k], litCap);
    }
  }

  /** With literals capped at 254 bytes no literal is full, so the round
      trip holds for every input. */
  lemma FixedRoundTrip(d: seq<byte>)
    ensures Decode(Serialize(Records(d, 0, FixedLiteralCap))) == d
  {
    RecordsWellFormed(d, 0, FixedLiteralCap);
    var rs := Records(d, 0, FixedLiteralCap);
    forall k | 0 <= k < |rs| && rs[k].Literal?
      ensures |rs[k].bytes| < 255
    {
      assert WellFormed(rs[k], FixedLiteralCap);
    }
    RoundTrip(d, FixedLiteralCap);
  }

  // ---------------------------------------------------------------------
  // The 255-byte literal

  /** 255 bytes alternating 1, 2: no two neighbours are equal. */
  function Alternating(): (d: seq<byte>)
    ensures |d| == 255
  {
    seq(255, i => if i % 2 == 0 then 1 else 2)
  }

  lemma {:induction false} AlternatingLiteral(j: nat)
    requires j <= 255
    ensures LitFrom(Alternating(), j, j, SourceLiteralCap) == 255
    decreases 255 - j
  {
    var d := Alternating();
    if j < 255 {
      if j + 1 < 255 {
        assert d[j + 1] != d[j];
      }
      assert RunFrom(d, j, 1, MinRun) == 1;
      AlternatingLiteral(j + 1);
    }
  }

  /** The source's coder turns the alternating input into one literal of
      255 bytes, whose length byte 0xFF the decoder reads as a run of one
      copy of 2: the first byte comes back as 2 instead of 1. */
  lemma FullLiteralMisread()
    ensures Records(Alternating(), 0, SourceLiteralCap) == [Literal(Alternating())]
    ensures Serialize(Records(Alternating(), 0, SourceLiteralCap)) == [Marker] + Alternating()
    ensures Decode(Serialize(Records(Alternating(), 0, SourceLiteralCap)))[0] == 2
    ensures Decode(Serialize(Records(Alternating(), 0, SourceLiteralCap))) != Alternating()
  {
    var d := Alternating();
    assert d[1] != d[0];
    assert RunFrom(d, 0, 1, RunCap) == 1;
    AlternatingLiteral(0);
    assert d[0..255] == d;
    assert RecordAt(d, 0, SourceLiteralCap) == Literal(d);
    RecordsCons(d, 0, SourceLiteralCap);
    var rs := Records(d, 0, SourceLiteralCap);
    assert rs == [Literal(d)];
    var c := Serialize(rs);
    assert c == SerializeRecord(Literal(d)) + Serialize([]);
    assert c == [Marker] + d;
    assert c[1] == 1 && c[2] == 2;
    DecodeRunStep(c);
  }

  /** A literal length that runs past the end stops decoding: what was
      decoded before it is the whole result. */
  lemma TruncatedLiteralStops(rs: seq<Record>, t: seq<byte>)
    requires AllWellFormed(rs, 255) && NoFullLiteral(rs)
    requires |t| > 0 && !(t[0] == Marker && |t| > 2) && t[0] as nat >= |t|
    ensures Decode(Serialize(rs) + t) == ExpandAll(rs)
  {
    DecodeRecords(rs, t);
    DecodeStop(t);
    assert ExpandAll(rs) + [] == ExpandAll(rs);
  }

  /** A trailing 0xFF with fewer than two bytes after it is taken for a
      literal of 255 bytes, which runs past the end, and stops decoding. */
  lemma TrailingMarkerStops(rs: seq<Record>, x: byte)
    requires AllWellFormed(rs, 255) && NoFullLiteral(rs)
    ensures Decode(Serialize(rs) + [Marker]) == ExpandAll(rs)
    ensures Decode(Serialize(rs) + [Marker, x]) == ExpandAll(rs)
  {
    TruncatedLiteralStops(rs, [Marker]);
    TruncatedLiteralStops(rs, [Marker, x]);
  }

  // ---------------------------------------------------------------------
  // The loops of the source

  /** The `run_length` and `peek_run` loops of compress_rle: counts the
      bytes equal to data[i] from i on, up to cap. */
  method ScanRun(data: seq<byte>, i: nat, cap: nat) returns (n: nat)
    requires i < |data| && 1 <= cap
    ensures n == RunFrom(data, i, 1, cap)
  {
    n := 1;
    while i + n < |data| && data[i + n] == data[i] && n < cap
      invariant 1 <= n <= cap && i + n <= |data|
      invariant RunFrom(data, i, n, cap) == RunFrom(data, i, 1, cap)
      decreases |data| - n
    {
      n := n + 1;
    }
  }

  /** The `lit_length` loop of compress_rle: takes bytes from start on
      until the data ends, the literal is full, or a run of four starts. */
  method ScanLiteral(data: seq<byte>, start: nat, litCap: nat) returns (litLength: nat)
    requires start <= |data| && 1 <= litCap
    ensures litLength == LitFrom(data, start, 0, litCap)
  {
    litLength := 0;
    var i := start;
    while i < |data| && litLength < litCap
      invariant start <= i <= |data| && i == start + litLength && litLength <= litCap
      invariant LitFrom(data, i, litLength, litCap) == LitFrom(data, start, 0, litCap)
      decreases |data| - i
    {
      var peekRun := ScanRun(data, i, MinRun);
      if peekRun >= MinRun {
        break;
      }
      litLength := litLength + 1;
      i := i + 1;
    }
  }

  /** One pass of the outer loop of compress_rle at i: the bytes of the
      record emitted there and the position after it. */
  method NextRecord(data: seq<byte>, i: nat, litCap: nat) returns (record: seq<byte>, next: nat)
    requires i < |data| && 1 <= litCap <= 255
    ensures record == SerializeRecord(RecordAt(data, i, litCap))
    ensures next == i + Size(RecordAt(data, i, litCap))
  {
    var runLength := ScanRun(data, i, RunCap);
    if runLength >= MinRun {
      record := [Marker, (runLength % 256) as byte, data[i]];
      next := i + runLength;
    } else {
      var litLength := ScanLiteral(data, i, litCap);
      record := [(litLength % 256) as byte] + data[i..i + litLength];
      next := i + litLength;
    }
  }

  /** compress_rle, with the literal cap as a parameter (255 in the
      source). */
  method CompressRle(data: seq<byte>, litCap: nat) returns (compressed: seq<byte>)
    requires 1 <= litCap <= 255
    ensures compressed == Serialize(Records(data, 0, litCap))
  {
    compressed := [];
    var i := 0;
    while i < |data|
      invariant i <= |data|
      invariant compressed + Serialize(Records(data, i, litCap)) == Serialize(Records(data, 0, litCap))
      decreases |data| - i
    {
      var record, next := NextRecord(data, i, litCap);
      SerializeStep(data, i, litCap);
      Extend(compressed, record, Serialize(Records(data, i, litCap)),
             Serialize(Records(data, next, litCap)), Serialize(Records(data, 0, litCap)));
      compressed := compressed + record;
      i := next;
    }
    assert compressed + [] == compressed;
  }

  lemma Extend(done: seq<byte>, piece: seq<byte>, rest: seq<byte>, next: seq<byte>, total: seq<byte>)
    requires done + rest == total && rest == piece + next
    ensures (done + piece) + next == total
  {
  }

  /** decompress_rle: reads records until the input ends or a literal
      runs past it. */
  method DecompressRle(compressed: seq<byte>) returns (data: seq<byte>)
    ensures data == Decode(compressed)
  {
    data := [];
    var i := 0;
    while i < |compressed|
      invariant i <= |compressed| && DecodedUpTo(compressed, i, data)
      decreases |compressed| - i
    {
      if compressed[i] == Marker && i + 2 < |compressed| {
        ResumeAfterRun(compressed, i, data);
        var length := compressed[i + 1];
        var value := compressed[i + 2];
        data := data + Repeat(value, length as nat);
        i := i + 3;
      } else {
        var length := compressed[i];
        if i + length as nat < |compressed| {
          ResumeAfterLiteral(compressed, i, data);
          data := data + compressed[i + 1..i + 1 + length as nat];
          i := i + length as nat + 1;
        } else {
          StopAtLiteral(compressed, i, data);
          return;
        }
      }
    }
    DecodedAll(compressed, data);
  }

  /** data is what decompress_rle has produced on reaching position i of c:
      followed by the decoding of the rest, it is the decoding of c. */
  predicate DecodedUpTo(c: seq<byte>, i: nat, data: seq<byte>)
    requires i <= |c|
  {
    data + Decode(c[i..]) == Decode(c)
  }

  /** A run record at i: decoding goes on three bytes later. */
  lemma ResumeAfterRun(c: seq<byte>, i: nat, data: seq<byte>)
    requires i + 2 < |c| && c[i] == Marker && DecodedUpTo(c, i, data)
    ensures DecodedUpTo(c, i + 3, data + Repeat(c[i + 2], c[i + 1] as nat))
  {
    DecodeRunAt(c, i);
    AppendAssoc(data, Repeat(c[i + 2], c[i + 1] as nat), Decode(c[i + 3..]));
  }

  /** A literal record at i that ends before the input does: decoding goes
      on after its bytes. */
  lemma ResumeAfterLiteral(c: seq<byte>, i: nat, data: seq<byte>)
    requires i < |c| && !(c[i] == Marker && i + 2 < |c|) && i + c[i] as nat < |c|
    requires DecodedUpTo(c, i, data)
    ensures DecodedUpTo(c, i + c[i] as nat + 1, data + c[i + 1..i + 1 + c[i] as nat])
  {
    DecodeLiteralAt(c, i);
    AppendAssoc(data, c[i + 1..i + 1 + c[i] as nat], Decode(c[i + 1 + c[i] as nat..]));
  }

  /** A literal record at i that runs past the end: what was decoded so far
      is the result. */
  lemma StopAtLiteral(c: seq<byte>, i: nat, data: seq<byte>)
    requires i < |c| && !(c[i] == Marker && i + 2 < |c|) && i + c[i] as nat >= |c|
    requires DecodedUpTo(c, i, data)
    ensures data == Decode(c)
  {
    DecodeStopAt(c, i);
    assert data + [] == data;
  }

  /** At the end of the input what was decoded is the result. */
  lemma DecodedAll(c: seq<byte>, data: seq<byte>)
    requires DecodedUpTo(c, |c|, data)
    ensures data == Decode(c)
  {
    assert data + [] == data;
  }

  lemma DecodeRunAt(c: seq<byte>, i: nat)
    requires i + 2 < |c| && c[i] == Marker
    ensures Decode(c[i..]) == Repeat(c[i + 2], c[i + 1] as nat) + Decode(c[i + 3..])
  {
    DecodeRunStep(c[i..]);
    assert c[i..][3..] == c[i + 3..];
  }

  lemma DecodeLiteralAt(c: seq<byte>, i: nat)
    requires i < |c| && !(c[i] == Marker && i + 2 < |c|) && i + c[i] as nat < |c|
    ensures Decode(c[i..]) == c[i + 1..i + 1 + c[i] as nat] + Decode(c[i + 1 + c[i] as nat..])
  {
    var t := c[i..];
    DecodeLiteralStep(t);
    assert t[1..1 + c[i] as nat] == c[i + 1..i + 1 + c[i] as nat];
    assert t[1 + c[i] as nat..] == c[i + 1 + c[i] as nat..];
  }

  lemma DecodeStopAt(c: seq<byte>, i: nat)
    requires i < |c| && !(c[i] == Marker && i + 2 < |c|) && i + c[i] as nat >= |c|
    ensures Decode(c[i..]) == []
  {
    DecodeStop(c[i..]);
  }

  /** A record's first byte is the run marker exactly when it is a run or a
      255-byte literal, so the decoder can tell the two kinds apart unless a
      literal fills the cap; and its bytes are at most twice the bytes it
      covers. */
  lemma SerializedRecord(r: Record)
    requires WellFormed(r, RunCap)
    ensures SerializeRecord(r)[0] == Marker <==> r.Run? || |r.bytes| == 255
    ensures |SerializeRecord(r)| <= 2 * Size(r)
  {
  }

  /** The outer loop emits at most one record per input byte, and at least
      one while input remains. */
  lemma RecordCount(d: seq<byte>, i: nat, litCap: nat)
    requires i <= |d| && 1 <= litCap <= 255
    ensures |Records(d, i, litCap)| <= |d| - i
    ensures i < |d| ==> 1 <= |Records(d, i, litCap)|
  {
    RecordsWellFormed(d, i, litCap);
    RecordsExpand(d, i, litCap);
    CountBound(Records(d, i, litCap), litCap);
  }

  /** Well-formed records each cover at least one byte. */
  lemma {:induction false} CountBound(rs: seq<Record>, litCap: nat)
    requires AllWellFormed(rs, litCap)
    ensures |rs| <= |ExpandAll(rs)|
  {
    if rs != [] {
      assert AllWellFormed(rs[1..], litCap) by {
        forall k | 0 <= k < |rs| - 1
          ensures WellFormed(rs[1..][k], litCap)
        {
          assert rs[1..][k] == rs[k + 1];
        }
      }
      CountBound(rs[1..], litCap);
      assert WellFormed(rs[0], litCap);
    }
  }

  /** What the decoder produces is at most 85 times its input: a 3-byte run
      record stands for at most 255 bytes, and a literal for fewer bytes
      than it takes. */
  lemma {:induction false} DecodeBound(c: seq<byte>)
    ensures |Decode(c)| <= 85 * |c|
    decreases |c|
  {
    if |c| > 0 {
      if c[0] == Marker && 2 < |c| {
        DecodeBound(c[3..]);
      } else if c[0] as nat < |c| {
        DecodeBound(c[1 + c[0] as nat..]);
      }
    }
  }
}
