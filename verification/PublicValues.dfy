/** The public values of the block and aggregation proofs: their bincode layout on the proving side
    and the relayer's hand-written decoder on the other. */
module PublicValues {
  import opened Bytes
  import opened Bincode

  type Address = s: seq<byte> | |s| == 20 witness seq(20, _ => 0)

  datatype BlevmOutput = BlevmOutput(
    blobCommitment: Hash,
    headerHash: Hash,
    prevHeaderHash: Hash,
    height: u64,
    gasUsed: u64,
    beneficiary: Address,
    stateRoot: Hash,
    celestiaHeaderHash: Hash)

  datatype BlevmAggOutput = BlevmAggOutput(
    newestHeaderHash: Hash,
    oldestHeaderHash: Hash,
    celestiaHeaderHashes: seq<Hash>,
    newestStateRoot: Hash,
    newestHeight: u64)

  // ----- block outputs -----

  const OUTPUT_TYPE: Ty := Struct([Raw(32), Raw(32), Raw(32), U64, U64, Raw(20), Raw(32), Raw(32)])

  function OutputVal(o: BlevmOutput): Val {
    Record([Blob(o.blobCommitment), Blob(o.headerHash), Blob(o.prevHeaderHash), Num(o.height), Num(o.gasUsed),
            Blob(o.beneficiary), Blob(o.stateRoot), Blob(o.celestiaHeaderHash)])
  }

  function OutputOf(v: Val): BlevmOutput
    requires HasType(v, OUTPUT_TYPE)
  {
    var f := v.vals;
    assert forall i :: 0 <= i < 8 ==> HasType(f[i], OUTPUT_TYPE.fields[i]);
    BlevmOutput(f[0].bytes, f[1].bytes, f[2].bytes, f[3].n, f[4].n, f[5].bytes, f[6].bytes, f[7].bytes)
  }

  /** What the block program commits. */
  function EncodeOutput(o: BlevmOutput): seq<byte> { Encode(OutputVal(o)) }

  /** What the aggregator's buffer reads back; trailing bytes are ignored. */
  function ParseOutput(s: seq<byte>): Option<BlevmOutput> {
    var d := Decode(OUTPUT_TYPE, s);
    if d.None? then None else EncodeOfDecode(OUTPUT_TYPE, s); Some(OutputOf(d.value.0))
  }

  /** The bytes of a block output: its fields in the order of the struct, the two numbers as eight
      little-endian bytes. */
  lemma OutputLayout(o: BlevmOutput)
    ensures EncodeOutput(o) ==
            o.blobCommitment + (o.headerHash + (o.prevHeaderHash + (LE8(o.height) + (LE8(o.gasUsed)
              + (o.beneficiary + (o.stateRoot + o.celestiaHeaderHash))))))
  {
    var a, b, c := Blob(o.blobCommitment), Blob(o.headerHash), Blob(o.prevHeaderHash);
    var five := [Num(o.height), Num(o.gasUsed), Blob(o.beneficiary), Blob(o.stateRoot), Blob(o.celestiaHeaderHash)];
    assert OutputVal(o).vals == [a] + ([b] + ([c] + five));
    EncodeAllCons(a, [b] + ([c] + five));
    EncodeAllCons(b, [c] + five);
    EncodeAllCons(c, five);
    EncodeFive(Num(o.height), Num(o.gasUsed), Blob(o.beneficiary), Blob(o.stateRoot), Blob(o.celestiaHeaderHash));
  }

  lemma ParseOfEncodeOutput(o: BlevmOutput, rest: seq<byte>)
    ensures ParseOutput(EncodeOutput(o) + rest) == Some(o)
  {
    var v := OutputVal(o);
    assert HasType(v, OUTPUT_TYPE) by {
      assert forall i :: 0 <= i < 8 ==> HasType(v.vals[i], OUTPUT_TYPE.fields[i]);
    }
    DecodeOfEncode(v, OUTPUT_TYPE, rest);
  }

  // ----- aggregate outputs -----

  function BlobsOf(hs: seq<Hash>): (vs: seq<Val>)
    ensures |vs| == |hs| && forall i :: 0 <= i < |hs| ==> vs[i] == Blob(hs[i])
  {
    seq(|hs|, i requires 0 <= i < |hs| => Blob(hs[i]))
  }

  /** What the aggregation program commits. */
  function EncodeAgg(o: BlevmAggOutput): seq<byte> {
    Encode(Record([Blob(o.newestHeaderHash), Blob(o.oldestHeaderHash), List(BlobsOf(o.celestiaHeaderHashes)),
                   Blob(o.newestStateRoot), Num(o.newestHeight)]))
  }

  function Concat(hs: seq<Hash>): (s: seq<byte>)
    ensures |s| == 32 * |hs|
  {
    if hs == [] then [] else hs[0] + Concat(hs[1..])
  }

  lemma {:induction false} EncodeBlobs(hs: seq<Hash>)
    ensures EncodeAll(BlobsOf(hs)) == Concat(hs)
  {
    if hs != [] {
      EncodeBlobs(hs[1..]);
      assert BlobsOf(hs) == [Blob(hs[0])] + BlobsOf(hs[1..]);
      EncodeAllCons(Blob(hs[0]), BlobsOf(hs[1..]));
    }
  }

  lemma EncodeFive(a: Val, b: Val, c: Val, d: Val, e: Val)
    ensures EncodeAll([a, b, c, d, e]) == Encode(a) + (Encode(b) + (Encode(c) + (Encode(d) + Encode(e))))
  {
    assert [a, b, c, d, e] == [a] + [b, c, d, e] && [b, c, d, e] == [b] + [c, d, e];
    assert [c, d, e] == [c] + [d, e] && [d, e] == [d] + [e] && [e] == [e] + [];
    EncodeAllCons(a, [b, c, d, e]);
    EncodeAllCons(b, [c, d, e]);
    EncodeAllCons(c, [d, e]);
    EncodeAllCons(d, [e]);
    EncodeAllCons(e, []);
    assert EncodeAll([]) == [] && Encode(e) + [] == Encode(e);
  }

  /** Two hashes, a length prefix, that many hashes, the state root, the height. */
  function Layout(o: BlevmAggOutput): seq<byte> {
    o.newestHeaderHash + (o.oldestHeaderHash
      + ((LE(|o.celestiaHeaderHashes|, 8) + Concat(o.celestiaHeaderHashes))
         + (o.newestStateRoot + LE8(o.newestHeight))))
  }

  lemma AggLayout(o: BlevmAggOutput)
    ensures EncodeAgg(o) == Layout(o)
  {
    EncodeBlobs(o.celestiaHeaderHashes);
    EncodeFive(Blob(o.newestHeaderHash), Blob(o.oldestHeaderHash), List(BlobsOf(o.celestiaHeaderHashes)),
               Blob(o.newestStateRoot), Num(o.newestHeight));
  }

  // ----- the relayer's decoder -----

  datatype Decoded = Decoded(out: BlevmAggOutput) | ReadError | SliceOutOfRange

  /** n consecutive hashes starting at offset `at`. */
  function HashesAt(data: seq<byte>, at: nat, n: nat): (hs: seq<Hash>)
    requires at + 32 * n <= |data|
    ensures |hs| == n
  {
    if n == 0 then [] else HashesAt(data, at, n - 1) + [data[at + 32 * (n - 1)..at + 32 * n]]
  }

  function HashCount(data: seq<byte>): u64
    requires |data| >= 72
  {
    FromLE8(data[64..72])
  }

  /** The inputs the decoder accepts: long enough for the hashes it announces and a state root. */
  predicate Decodable(data: seq<byte>) {
    |data| >= 72 && 72 + 32 * HashCount(data) + 32 <= |data|
  }

  /** The fields it reads. The height comes from the last eight bytes. */
  function Fields(data: seq<byte>): BlevmAggOutput
    requires Decodable(data)
  {
    var end := 72 + 32 * HashCount(data);
    BlevmAggOutput(data[0..32], data[32..64], HashesAt(data, 72, HashCount(data)), data[end..end + 32],
                   FromLE8(data[|data| - 8..]))
  }

  method DecodePublicValues(data: seq<byte>) returns (r: Decoded)
    ensures |data| < 64 ==> r == ReadError
    ensures r.Decoded? <==> Decodable(data)
    ensures |data| >= 64 && !Decodable(data) ==> r == SliceOutOfRange
    ensures r.Decoded? ==> r.out == Fields(data)
  {
    if |data| < 32 {
      return ReadError;
    }
    var newestHeaderHash := data[0..32];
    if |data| < 64 {
      return ReadError;
    }
    var oldestHeaderHash := data[32..64];
    if |data| < 72 {
      return SliceOutOfRange;
    }
    var length := FromLE8(data[64..72]);
    var hashes: seq<Hash> := [];
    var currentIndex := 72;
    var i := 0;
    while i < length
      invariant 0 <= i <= length
      invariant currentIndex == 72 + 32 * i <= |data|
      invariant hashes == HashesAt(data, 72, i)
    {
      if |data| < currentIndex + 32 {
        return SliceOutOfRange;
      }
      hashes := hashes + [data[currentIndex..currentIndex + 32]];
      currentIndex := currentIndex + 32;
      i := i + 1;
    }
    if |data| < currentIndex + 32 {
      return SliceOutOfRange;
    }
    r := Decoded(BlevmAggOutput(newestHeaderHash, oldestHeaderHash, hashes,
                                data[currentIndex..currentIndex + 32], FromLE8(data[|data| - 8..])));
  }

  lemma {:induction false} ConcatAppend(hs: seq<Hash>, h: Hash)
    ensures Concat(hs + [h]) == Concat(hs) + h
  {
    if hs == [] {
      assert [] + [h] == [h] && [h][1..] == [];
      assert Concat([h]) == h + Concat([]);
    } else {
      assert (hs + [h])[1..] == hs[1..] + [h];
      ConcatAppend(hs[1..], h);
      ConcatAssociative(hs[0], Concat(hs[1..]), h);
    }
  }

  /** The hashes cut out of a stretch of data concatenate to that stretch. */
  lemma {:induction false} ConcatHashesAt(data: seq<byte>, at: nat, n: nat)
    requires at + 32 * n <= |data|
    ensures Concat(HashesAt(data, at, n)) == data[at..at + 32 * n]
    decreases n
  {
    if n > 0 {
      ConcatHashesAt(data, at, n - 1);
      ConcatAppend(HashesAt(data, at, n - 1), data[at + 32 * (n - 1)..at + 32 * n]);
      assert data[at..at + 32 * n] == data[at..at + 32 * (n - 1)] + data[at + 32 * (n - 1)..at + 32 * n];
    }
  }

  /** Cutting a concatenation of hashes gives the hashes back. */
  lemma {:induction false} HashesAtConcat(data: seq<byte>, at: nat, hs: seq<Hash>)
    requires at + 32 * |hs| <= |data| && data[at..at + 32 * |hs|] == Concat(hs)
    ensures HashesAt(data, at, |hs|) == hs
    decreases |hs|
  {
    if hs != [] {
      var n := |hs|;
      var front, last := hs[..n - 1], hs[n - 1];
      assert hs == front + [last];
      ConcatAppend(front, last);
      var stretch := data[at..at + 32 * n];
      assert stretch[..32 * (n - 1)] == Concat(front) && stretch[32 * (n - 1)..] == last;
      assert data[at..at + 32 * (n - 1)] == stretch[..32 * (n - 1)];
      assert data[at + 32 * (n - 1)..at + 32 * n] == stretch[32 * (n - 1)..];
      HashesAtConcat(data, at, front);
    }
  }

  /** Where the pieces of a concatenation are found. */
  lemma CutPieces(a: seq<byte>, b: seq<byte>, c: seq<byte>, d: seq<byte>, e: seq<byte>, f: seq<byte>, data: seq<byte>)
    requires data == a + (b + ((c + d) + (e + f)))
    requires |a| == 32 && |b| == 32 && |c| == 8 && |e| == 32 && |f| == 8
    ensures |data| == 112 + |d|
    ensures data[0..32] == a && data[32..64] == b && data[64..72] == c && data[72..72 + |d|] == d
    ensures data[72 + |d|..104 + |d|] == e && data[104 + |d|..] == f
  {
    var tail := data[64..];
    assert tail == (c + d) + (e + f);
    var n := 8 + |d|;
    assert tail[..n] == c + d && tail[n..] == e + f;
    assert data[64..72] == tail[..n][..8] && data[72..72 + |d|] == tail[..n][8..];
    assert data[72 + |d|..104 + |d|] == tail[n..][..32] && data[104 + |d|..] == tail[n..][32..];
  }

  lemma JoinPieces(data: seq<byte>, k: nat)
    requires |data| == 112 + k
    ensures data == data[0..32] + (data[32..64] + ((data[64..72] + data[72..72 + k])
                    + (data[72 + k..104 + k] + data[104 + k..])))
  {
    assert data[72 + k..] == data[72 + k..104 + k] + data[104 + k..];
    assert data[64..72 + k] == data[64..72] + data[72..72 + k];
    assert data[64..] == data[64..72 + k] + data[72 + k..];
    assert data[32..] == data[32..64] + data[64..];
    assert data == data[0..32] + data[32..];
  }

  lemma FieldsFromPieces(o: BlevmAggOutput, data: seq<byte>, n: u64)
    requires |o.celestiaHeaderHashes| == n && |data| == 112 + 32 * n
    requires data[0..32] == o.newestHeaderHash && data[32..64] == o.oldestHeaderHash && data[64..72] == LE8(n)
    requires data[72..72 + 32 * n] == Concat(o.celestiaHeaderHashes)
    requires data[72 + 32 * n..104 + 32 * n] == o.newestStateRoot && data[104 + 32 * n..] == LE8(o.newestHeight)
    ensures Decodable(data) && Fields(data) == o
  {
    LE8RoundTrip(n);
    LE8RoundTrip(o.newestHeight);
    HashesAtConcat(data, 72, o.celestiaHeaderHashes);
    assert |data| - 8 == 104 + 32 * n;
  }

  lemma DecodeOfLayout(o: BlevmAggOutput, data: seq<byte>)
    requires |o.celestiaHeaderHashes| < TWO64 && data == Layout(o)
    ensures Decodable(data) && Fields(data) == o
    ensures |data| == 112 + 32 * |o.celestiaHeaderHashes|
  {
    var n := |o.celestiaHeaderHashes|;
    CutPieces(o.newestHeaderHash, o.oldestHeaderHash, LE(n, 8), Concat(o.celestiaHeaderHashes),
              o.newestStateRoot, LE8(o.newestHeight), data);
    FieldsFromPieces(o, data, n);
  }

  /** The relayer decodes every aggregate output the prover encodes, with no slice out of range. */
  lemma DecodeOfEncodeAgg(o: BlevmAggOutput)
    requires |o.celestiaHeaderHashes| < TWO64
    ensures Decodable(EncodeAgg(o)) && Fields(EncodeAgg(o)) == o
    ensures |EncodeAgg(o)| == 112 + 32 * |o.celestiaHeaderHashes|
  {
    AggLayout(o);
    DecodeOfLayout(o, EncodeAgg(o));
  }

  lemma LayoutFromPieces(o: BlevmAggOutput, data: seq<byte>, k: nat)
    requires |data| == 112 + k && o.newestHeaderHash == data[0..32] && o.oldestHeaderHash == data[32..64]
    requires LE(|o.celestiaHeaderHashes|, 8) == data[64..72] && Concat(o.celestiaHeaderHashes) == data[72..72 + k]
    requires o.newestStateRoot == data[72 + k..104 + k] && LE8(o.newestHeight) == data[104 + k..]
    ensures data == Layout(o)
  {
    JoinPieces(data, k);
  }

  lemma LayoutOfDecode(data: seq<byte>)
    requires Decodable(data) && |data| == 112 + 32 * HashCount(data)
    ensures data == Layout(Fields(data))
  {
    var n: nat := HashCount(data);
    LEOfFromLE(data[64..72]);
    ConcatHashesAt(data, 72, n);
    assert |data| - 8 == 104 + 32 * n;
    LEOfFromLE(data[|data| - 8..]);
    LayoutFromPieces(Fields(data), data, 32 * n);
  }

  /** Conversely, a decoded input is the encoding of what is decoded if and only if it has exactly
      the announced length: the decoder lets shorter and longer inputs through. */
  lemma EncodeOfDecodeAgg(data: seq<byte>)
    requires Decodable(data)
    ensures data == EncodeAgg(Fields(data)) <==> |data| == 112 + 32 * HashCount(data)
  {
    DecodeOfEncodeAgg(Fields(data));
    if |data| == 112 + 32 * HashCount(data) {
      LayoutOfDecode(data);
      AggLayout(Fields(data));
    }
  }

  /** For instance, 104 bytes with no hashes announced are decoded: the height is the last eight bytes
      of the state root, and re-encoding gives eight bytes more. */
  lemma ShortInputDecodes(data: seq<byte>)
    requires |data| == 104 && HashCount(data) == 0
    ensures Decodable(data) && data != EncodeAgg(Fields(data))
    ensures LE8(Fields(data).newestHeight) == Fields(data).newestStateRoot[24..]
  {
    EncodeOfDecodeAgg(data);
    LEOfFromLE(data[96..]);
    assert data[72..104][24..] == data[96..];
  }

  /** Such an input: 104 zero bytes. */
  lemma ShortInputExists(data: seq<byte>)
    requires data == seq(104, _ => 0)
    ensures HashCount(data) == 0
  {
    LE8RoundTrip(0);
    assert data[64..72] == LE8(0);
  }
}
