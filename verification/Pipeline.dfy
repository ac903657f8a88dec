/** From a client's trusted height to its next header: the prover's height loop and bounded lookups,
    the block range proof, the relayer's header, and the client's update. */
module Pipeline {
  import opened Bytes
  import opened Bincode
  import opened PublicValues
  import opened Aggregation
  import opened Keys
  import opened ClientStore
  import ClientWrites
  import Indexer
  import LightClient
  import Mpt
  import opened Membership

  datatype LookupReply = Found(inclusionHeight: u64, commitment: seq<byte>) | BlockNotFound | LookupFailed

  datatype BlockInput = BlockInput(inclusionHeight: u64, clientInput: seq<byte>, rollupBlock: seq<byte>)

  /** The services a request talks to. `lookup(h, k)` is the indexer's answer to the k-th query for
      height h; `prove` yields the public values of a block proof under the key `vkey`. */
  datatype World = World(
    lookup: (u64, nat) -> LookupReply,
    clientInput: u64 -> Option<seq<byte>>,
    blob: (u64, seq<byte>) -> Option<seq<byte>>,
    prove: BlockInput -> Option<seq<byte>>,
    vkey: VKey,
    check: ProofCheck)

  const MAX_RETRIES: nat := 10

  // ----- bounded lookups -----

  /** The answer of the first query, from the k-th on, that is not "not found"; none when ten
      retries are used up or a query fails otherwise. */
  function ResolvedFrom(w: World, h: u64, k: nat): Option<(u64, seq<byte>)>
    decreases MAX_RETRIES + 1 - k
  {
    match w.lookup(h, k)
    case Found(at, c) => Some((at, c))
    case BlockNotFound => if k < MAX_RETRIES then ResolvedFrom(w, h, k + 1) else None
    case LookupFailed => None
  }

  /** One of the first eleven queries finds the block, and all before it say "not found". */
  ghost predicate ResolvesTo(w: World, h: u64, at: u64, c: seq<byte>) {
    exists k: nat :: k <= 10 && (forall j: nat :: j < k ==> w.lookup(h, j).BlockNotFound?) && w.lookup(h, k) == Found(at, c)
  }

  lemma {:induction false} ResolvedFromExact(w: World, h: u64, k: nat, at: u64, c: seq<byte>)
    requires k <= 10 && forall j: nat :: j < k ==> w.lookup(h, j).BlockNotFound?
    ensures ResolvedFrom(w, h, k) == Some((at, c)) <==> ResolvesTo(w, h, at, c)
    decreases 10 - k
  {
    if ResolvesTo(w, h, at, c) {
      var i: nat :| i <= 10 && (forall j: nat :: j < i ==> w.lookup(h, j).BlockNotFound?) && w.lookup(h, i) == Found(at, c);
      assert i >= k;
    }
    if w.lookup(h, k).BlockNotFound? && k < 10 {
      ResolvedFromExact(w, h, k + 1, at, c);
    }
  }

  method Resolve(w: World, h: u64) returns (r: Option<(u64, seq<byte>)>, queries: nat)
    ensures r == ResolvedFrom(w, h, 0)
    ensures 1 <= queries <= 11
    ensures forall k :: 0 <= k < queries - 1 ==> w.lookup(h, k).BlockNotFound?
    ensures r.Some? ==> w.lookup(h, queries - 1) == Found(r.value.0, r.value.1)
    ensures r.None? ==> w.lookup(h, queries - 1).LookupFailed? || (queries == 11 && w.lookup(h, 10).BlockNotFound?)
  {
    var retries := 0;
    queries := 0;
    while true
      invariant 0 <= retries <= MAX_RETRIES && queries == retries
      invariant ResolvedFrom(w, h, 0) == ResolvedFrom(w, h, retries)
      invariant forall k :: 0 <= k < retries ==> w.lookup(h, k).BlockNotFound?
      decreases MAX_RETRIES - retries
    {
      var reply := w.lookup(h, queries);
      queries := queries + 1;
      if reply.Found? {
        return Some((reply.inclusionHeight, reply.commitment)), queries;
      }
      if reply.LookupFailed? || retries == MAX_RETRIES {
        return None, queries;
      }
      retries := retries + 1;
    }
  }

  /** The prover input for one height. A commitment that is not 32 bytes long, a missing client
      input or a missing blob makes the source panic. */
  function InputFor(w: World, h: u64): Option<BlockInput> {
    var at := ResolvedFrom(w, h, 0);
    if at.None? || w.clientInput(h).None? || |at.value.1| != 32 || w.blob(at.value.0, at.value.1).None? then None
    else Some(BlockInput(at.value.0, w.clientInput(h).value, w.blob(at.value.0, at.value.1).value))
  }

  /** What an input holds, in terms of the services alone: the Celestia height at which the indexer
      finds the block, the executor's input for the height itself, and the blob with the indexed
      commitment at that Celestia height. */
  ghost predicate BuiltFrom(w: World, h: u64, i: BlockInput) {
    exists c :: ResolvesTo(w, h, i.inclusionHeight, c) && |c| == 32
      && w.clientInput(h) == Some(i.clientInput) && w.blob(i.inclusionHeight, c) == Some(i.rollupBlock)
  }

  lemma InputForExact(w: World, h: u64, i: BlockInput)
    ensures InputFor(w, h) == Some(i) <==> BuiltFrom(w, h, i)
  {
    var r := ResolvedFrom(w, h, 0);
    if r.Some? { ResolvedFromExact(w, h, 0, r.value.0, r.value.1); }
    if BuiltFrom(w, h, i) {
      var c :| ResolvesTo(w, h, i.inclusionHeight, c) && |c| == 32
        && w.clientInput(h) == Some(i.clientInput) && w.blob(i.inclusionHeight, c) == Some(i.rollupBlock);
      ResolvedFromExact(w, h, 0, i.inclusionHeight, c);
    }
  }

  // ----- proving a range -----

  predicate AllProven(w: World, inputs: seq<BlockInput>) {
    forall i :: 0 <= i < |inputs| ==> w.prove(inputs[i]).Some?
  }

  function ProofsOf(w: World, inputs: seq<BlockInput>): (pvs: seq<seq<byte>>)
    requires AllProven(w, inputs)
    ensures |pvs| == |inputs| && forall i :: 0 <= i < |inputs| ==> pvs[i] == w.prove(inputs[i]).value
  {
    seq(|inputs|, i requires 0 <= i < |inputs| => w.prove(inputs[i]).value)
  }

  /** What the aggregation program needs to commit. */
  ghost predicate Aggregates(w: World, pvs: seq<seq<byte>>) {
    (forall i :: 0 <= i < |pvs| ==> w.check(w.vkey, pvs[i])) && AllParse(pvs) && Accepted(Outputs(pvs))
  }

  /** prove_block_range: at least two blocks, every proof generated, and the aggregation commits. */
  method ProveBlockRange(w: World, inputs: seq<BlockInput>) returns (r: Option<seq<byte>>)
    ensures r.Some? <==> |inputs| >= 2 && AllProven(w, inputs) && Aggregates(w, ProofsOf(w, inputs))
    ensures r.Some? ==> r.value == EncodeAgg(AggregateOf(Outputs(ProofsOf(w, inputs))))
  {
    if |inputs| < 2 {
      return None;
    }
    var pvs: seq<seq<byte>> := [];
    for i := 0 to |inputs|
      invariant |pvs| == i
      invariant forall j :: 0 <= j < i ==> w.prove(inputs[j]) == Some(pvs[j])
    {
      var proof := w.prove(inputs[i]);
      if proof.None? {
        return None;
      }
      pvs := pvs + [proof.value];
    }
    assert pvs == ProofsOf(w, inputs);
    var agg := Aggregate(seq(|pvs|, i => w.vkey), pvs, w.check);
    r := if agg.None? then None else Some(EncodeAgg(agg.value));
  }

  datatype Transition = Response(publicValues: seq<byte>) | NotAhead | Failed

  /** Every height above the trusted one, up to the latest, has a prover input. */
  ghost predicate AllInputs(w: World, trusted: u64, latest: u64) {
    forall h: u64 :: trusted < h <= latest ==> InputFor(w, h).Some?
  }

  /** The inputs of trusted + 1 .. latest, in order. */
  ghost function InputsOf(w: World, trusted: u64, latest: u64): (ins: seq<BlockInput>)
    requires trusted < latest && AllInputs(w, trusted, latest)
    ensures |ins| == latest - trusted
    ensures forall i :: 0 <= i < |ins| ==> InputFor(w, trusted + 1 + i) == Some(ins[i])
  {
    seq(latest - trusted, i requires 0 <= i < latest - trusted => InputFor(w, trusted + 1 + i).value)
  }

  /** The services can build an input for the height. */
  ghost predicate HasInput(w: World, h: u64) {
    exists i :: BuiltFrom(w, h, i)
  }

  /** The inputs of a range are what the services build, height by height. */
  lemma InputsExact(w: World, trusted: u64, latest: u64)
    requires trusted < latest
    ensures AllInputs(w, trusted, latest) <==> forall h: u64 :: trusted < h <= latest ==> HasInput(w, h)
    ensures AllInputs(w, trusted, latest) ==>
              forall i :: 0 <= i < latest - trusted ==> BuiltFrom(w, trusted + 1 + i, InputsOf(w, trusted, latest)[i])
  {
    forall h: u64 ensures InputFor(w, h).Some? <==> HasInput(w, h) {
      if InputFor(w, h).Some? { InputForExact(w, h, InputFor(w, h).value); }
      if HasInput(w, h) {
        var i :| BuiltFrom(w, h, i);
        InputForExact(w, h, i);
      }
    }
    if AllInputs(w, trusted, latest) {
      forall i | 0 <= i < latest - trusted ensures BuiltFrom(w, trusted + 1 + i, InputsOf(w, trusted, latest)[i]) {
        InputForExact(w, trusted + 1 + i, InputsOf(w, trusted, latest)[i]);
      }
    }
  }

  lemma MissingInput(w: World, trusted: u64, latest: u64, h: u64)
    requires trusted < h <= latest && InputFor(w, h).None?
    ensures !AllInputs(w, trusted, latest)
    ensures exists x: u64 :: trusted < x <= latest && !HasInput(w, x)
  {
    InputsExact(w, trusted, latest);
  }

  /** Collects the inputs for trusted + 1 .. latest; None as soon as one is missing. */
  method CollectInputs(w: World, trusted: u64, latest: u64) returns (r: Option<seq<BlockInput>>)
    requires trusted < latest
    ensures r.Some? <==> AllInputs(w, trusted, latest)
    ensures r.Some? ==> r.value == InputsOf(w, trusted, latest)
    ensures r.Some? <==> forall h: u64 :: trusted < h <= latest ==> HasInput(w, h)
    ensures r.Some? ==> |r.value| == latest - trusted && forall i :: 0 <= i < |r.value| ==> BuiltFrom(w, trusted + 1 + i, r.value[i])
  {
    var inputs: seq<BlockInput> := [];
    var height := trusted + 1;
    while height <= latest
      invariant trusted + 1 <= height <= latest + 1 && |inputs| == height - trusted - 1
      invariant forall i :: 0 <= i < |inputs| ==> InputFor(w, trusted + 1 + i) == Some(inputs[i])
      invariant forall h: u64 :: trusted < h < height ==> InputFor(w, h).Some?
    {
      var at, queries := Resolve(w, height);
      if at.None? {
        MissingInput(w, trusted, latest, height);
        return None;
      }
      var clientInput := w.clientInput(height);
      if clientInput.None? || |at.value.1| != 32 {
        MissingInput(w, trusted, latest, height);
        return None;
      }
      var rollupBlock := w.blob(at.value.0, at.value.1);
      if rollupBlock.None? {
        MissingInput(w, trusted, latest, height);
        return None;
      }
      inputs := inputs + [BlockInput(at.value.0, clientInput.value, rollupBlock.value)];
      height := height + 1;
    }
    InputsExact(w, trusted, latest);
    r := Some(inputs);
  }

  /** At least two heights to prove, an input and a proof for each, and the aggregation commits. */
  ghost predicate Provable(w: World, trusted: u64, latest: u64) {
    && trusted + 2 <= latest && AllInputs(w, trusted, latest)
    && AllProven(w, InputsOf(w, trusted, latest)) && Aggregates(w, ProofsOf(w, InputsOf(w, trusted, latest)))
  }

  ghost function RangeOutputs(w: World, trusted: u64, latest: u64): (os: seq<BlevmOutput>)
    requires Provable(w, trusted, latest)
    ensures |os| == latest - trusted && Accepted(os)
  {
    Outputs(ProofsOf(w, InputsOf(w, trusted, latest)))
  }

  /** The public values are the aggregate of the proofs of these inputs, which the services build for
      trusted + 1 .. latest, in order. */
  ghost predicate Answers(w: World, trusted: u64, latest: u64, ins: seq<BlockInput>, publicValues: seq<byte>) {
    && |ins| == latest - trusted && (forall i :: 0 <= i < |ins| ==> BuiltFrom(w, trusted + 1 + i, ins[i]))
    && AllProven(w, ins) && Aggregates(w, ProofsOf(w, ins))
    && publicValues == EncodeAgg(AggregateOf(Outputs(ProofsOf(w, ins))))
  }

  lemma RangeAnswers(w: World, trusted: u64, latest: u64, publicValues: seq<byte>)
    requires Provable(w, trusted, latest) && publicValues == EncodeAgg(AggregateOf(RangeOutputs(w, trusted, latest)))
    ensures exists ins :: Answers(w, trusted, latest, ins, publicValues)
  {
    InputsExact(w, trusted, latest);
    assert Answers(w, trusted, latest, InputsOf(w, trusted, latest), publicValues);
  }

  /** The request succeeds exactly when the range is provable, and then answers with the aggregate
      of the block proofs of trusted + 1 .. latest in order. */
  method ProveStateTransition(w: World, trusted: u64, latest: u64) returns (r: Transition)
    ensures r.NotAhead? <==> latest <= trusted
    ensures r.Response? <==> Provable(w, trusted, latest)
    ensures r.Response? ==> r.publicValues == EncodeAgg(AggregateOf(RangeOutputs(w, trusted, latest)))
    ensures r.Response? ==> exists ins :: Answers(w, trusted, latest, ins, r.publicValues)
  {
    if latest <= trusted {
      return NotAhead;
    }
    var inputs := CollectInputs(w, trusted, latest);
    if inputs.None? {
      return Failed;
    }
    var proof := ProveBlockRange(w, inputs.value);
    if proof.None? {
      return Failed;
    }
    RangeAnswers(w, trusted, latest, proof.value);
    r := Response(proof.value);
  }

  // ----- sound proofs -----

  /** The rollup chain: the header at each height, and the header hash. */
  datatype Rollup = Rollup(header: u64 -> EvmHeader, hash: HeaderHasher)

  /** The output describes some known header, executed on top of some known parent. */
  ghost predicate Describes(c: Rollup, known: iset<EvmHeader>, o: BlevmOutput) {
    exists h, p :: h in known && p in known && Faithful(c.hash, o, h, p)
  }

  function ProvenOutput(w: World, i: BlockInput): Option<BlevmOutput> {
    var pv := w.prove(i);
    if pv.None? then None else ParseOutput(pv.value)
  }

  /** What block proofs guarantee: what is proven was executed. Which block it is, is left open. */
  ghost predicate SoundProofs(w: World, c: Rollup, known: iset<EvmHeader>) {
    forall i :: ProvenOutput(w, i).Some? ==> Describes(c, known, ProvenOutput(w, i).value)
  }

  /** The rollup's headers are numbered by height and linked by parent hash. */
  ghost predicate IsChain(c: Rollup, known: iset<EvmHeader>) {
    forall h: u64 :: ChainedAt(c, known, h)
  }

  ghost predicate ChainedAt(c: Rollup, known: iset<EvmHeader>, h: u64) {
    c.header(h) in known && c.header(h).number == h && (h > 0 ==> c.header(h).parentHash == c.hash(c.header(h - 1)))
  }

  ghost predicate NoCollision(hash: HeaderHasher, known: iset<EvmHeader>) {
    forall a, b :: a in known && b in known && hash(a) == hash(b) ==> a == b
  }

  ghost predicate SoundWorld(w: World, c: Rollup, known: iset<EvmHeader>) {
    SoundProofs(w, c, known) && IsChain(c, known) && NoCollision(c.hash, known)
  }

  /** The one block proof that is known to be for the rollup's block at its height. */
  ghost predicate Anchored(w: World, c: Rollup, trusted: u64, latest: u64, a: u64) {
    && Provable(w, trusted, latest) && trusted < a <= latest
    && RangeOutputs(w, trusted, latest)[a - trusted - 1].headerHash == c.hash(c.header(a))
  }

  lemma RangeDescribed(w: World, c: Rollup, known: iset<EvmHeader>, trusted: u64, latest: u64)
    requires SoundProofs(w, c, known) && Provable(w, trusted, latest)
    ensures forall i :: 0 <= i < latest - trusted ==> Describes(c, known, RangeOutputs(w, trusted, latest)[i])
  {
    var ins := InputsOf(w, trusted, latest);
    forall i | 0 <= i < latest - trusted ensures Describes(c, known, RangeOutputs(w, trusted, latest)[i]) {
      assert ProvenOutput(w, ins[i]) == Some(RangeOutputs(w, trusted, latest)[i]);
    }
  }

  ghost predicate AllKnown(hs: seq<EvmHeader>, known: iset<EvmHeader>) {
    forall i :: 0 <= i < |hs| ==> hs[i] in known
  }

  /** The headers a list of outputs describes, and their parents. */
  lemma {:induction false} DescribedHeaders(c: Rollup, known: iset<EvmHeader>, os: seq<BlevmOutput>)
    returns (hs: seq<EvmHeader>, ps: seq<EvmHeader>)
    requires forall i :: 0 <= i < |os| ==> Describes(c, known, os[i])
    ensures AllFaithful(c.hash, os, hs, ps) && AllKnown(hs, known) && AllKnown(ps, known)
    decreases |os|
  {
    if os == [] {
      hs, ps := [], [];
    } else {
      var n := |os| - 1;
      hs, ps := DescribedHeaders(c, known, os[..n]);
      assert Describes(c, known, os[n]);
      var h, p :| h in known && p in known && Faithful(c.hash, os[n], h, p);
      hs, ps := hs + [h], ps + [p];
    }
  }

  lemma KnownDoNotCollide(c: Rollup, known: iset<EvmHeader>, hs: seq<EvmHeader>, ps: seq<EvmHeader>)
    requires NoCollision(c.hash, known) && AllKnown(hs, known) && AllKnown(ps, known)
    ensures !HeaderCollision(c.hash, hs, ps)
  {
  }

  /** The parent hash of a rollup block leaves only the rollup's block before it. */
  lemma ParentIsRollups(c: Rollup, known: iset<EvmHeader>, o: BlevmOutput, h: EvmHeader, p: EvmHeader, k: u64)
    requires IsChain(c, known) && NoCollision(c.hash, known) && p in known && Faithful(c.hash, o, h, p)
    requires k > 0 && h == c.header(k)
    ensures p == c.header(k - 1)
  {
    assert ChainedAt(c, known, k) && ChainedAt(c, known, k - 1);
  }

  /** An accepted list of outputs that describe these known headers and parents, without collisions. */
  ghost predicate KnownList(c: Rollup, known: iset<EvmHeader>, os: seq<BlevmOutput>, hs: seq<EvmHeader>, ps: seq<EvmHeader>) {
    && Accepted(os) && AllFaithful(c.hash, os, hs, ps) && AllKnown(hs, known) && AllKnown(ps, known)
    && !HeaderCollision(c.hash, hs, ps)
  }

  lemma StepBelowAnchor(c: Rollup, known: iset<EvmHeader>, os: seq<BlevmOutput>, hs: seq<EvmHeader>, ps: seq<EvmHeader>, k: u64, i: nat)
    requires IsChain(c, known) && NoCollision(c.hash, known) && KnownList(c, known, os, hs, ps)
    requires 0 < i < |os| && k > 0 && hs[i] == c.header(k)
    ensures hs[i - 1] == c.header(k - 1)
  {
    ParentIsRollups(c, known, os[i], hs[i], ps[i], k);
    ConsecutiveHeights(c.hash, os, hs, ps, i);
  }

  /** The i-th header is the rollup's at height first + i. */
  ghost predicate RollupAt(c: Rollup, hs: seq<EvmHeader>, first: u64, i: nat) {
    i < |hs| && first + i < TWO64 && hs[i] == c.header(first + i)
  }

  lemma {:induction false} Descend(c: Rollup, hs: seq<EvmHeader>, first: u64, j: nat, i: nat)
    requires forall k: nat :: k > 0 && RollupAt(c, hs, first, k) ==> RollupAt(c, hs, first, k - 1)
    requires i <= j && RollupAt(c, hs, first, j)
    ensures RollupAt(c, hs, first, i)
    decreases j
  {
    if i < j { Descend(c, hs, first, j - 1, i); }
  }

  /** Below a rollup block every block of an accepted list is the rollup's. */
  lemma ChainBelowAnchor(c: Rollup, known: iset<EvmHeader>, os: seq<BlevmOutput>, hs: seq<EvmHeader>,
                         ps: seq<EvmHeader>, first: u64, j: nat, i: nat)
    requires IsChain(c, known) && NoCollision(c.hash, known) && KnownList(c, known, os, hs, ps)
    requires i <= j && RollupAt(c, hs, first, j)
    ensures RollupAt(c, hs, first, i)
  {
    forall k: nat | k > 0 && RollupAt(c, hs, first, k) ensures RollupAt(c, hs, first, k - 1) {
      StepBelowAnchor(c, known, os, hs, ps, first + k, k);
    }
    Descend(c, hs, first, j, i);
  }

  /** An output for a rollup block: its height, hash and state root are that block's. */
  ghost predicate IsRollupBlock(c: Rollup, o: BlevmOutput, h: u64) {
    o.height == h && o.headerHash == c.hash(c.header(h)) && o.stateRoot == c.header(h).stateRoot
  }

  lemma OutputOfRollup(c: Rollup, known: iset<EvmHeader>, o: BlevmOutput, h: EvmHeader, p: EvmHeader, k: u64)
    requires IsChain(c, known) && NoCollision(c.hash, known) && h in known && Faithful(c.hash, o, h, p)
    requires o.headerHash == c.hash(c.header(k))
    ensures h == c.header(k) && IsRollupBlock(c, o, k)
  {
    assert ChainedAt(c, known, k);
  }

  /** In an accepted list with one rollup block, through the hash chain: every block is at its height,
      and up to the anchor it is the rollup's block. */
  lemma AnchoredList(c: Rollup, known: iset<EvmHeader>, os: seq<BlevmOutput>, hs: seq<EvmHeader>, ps: seq<EvmHeader>, first: u64, j: nat, i: nat)
    requires IsChain(c, known) && NoCollision(c.hash, known) && KnownList(c, known, os, hs, ps)
    requires j < |os| && first + j < TWO64 && os[j].headerHash == c.hash(c.header(first + j)) && i < |os|
    ensures os[i].height == first + i
    ensures i <= j ==> IsRollupBlock(c, os[i], first + i)
  {
    OutputOfRollup(c, known, os[j], hs[j], ps[j], first + j);
    ConsecutiveHeights(c.hash, os, hs, ps, j);
    ConsecutiveHeights(c.hash, os, hs, ps, i);
    if i <= j {
      ChainBelowAnchor(c, known, os, hs, ps, first, j, i);
      assert Faithful(c.hash, os[i], hs[i], ps[i]);
    }
  }

  /** The same for the outputs of a provable range. */
  lemma AnchoredRange(w: World, c: Rollup, known: iset<EvmHeader>, trusted: u64, latest: u64, a: u64, i: nat)
    requires SoundWorld(w, c, known) && Anchored(w, c, trusted, latest, a) && i < latest - trusted
    ensures RangeOutputs(w, trusted, latest)[i].height == trusted + 1 + i
    ensures trusted + 1 + i <= a ==> IsRollupBlock(c, RangeOutputs(w, trusted, latest)[i], trusted + 1 + i)
  {
    var os := RangeOutputs(w, trusted, latest);
    RangeDescribed(w, c, known, trusted, latest);
    var hs, ps := DescribedHeaders(c, known, os);
    KnownDoNotCollide(c, known, hs, ps);
    AnchoredList(c, known, os, hs, ps, trusted + 1, a - trusted - 1, i);
  }

  /** A response carries the latest height, the rollup's hash of the first block after the trusted
      one and one Celestia hash per block, and the decoder reads them back. It carries the rollup's
      state root and header hash at the latest height when that block is the anchor. */
  lemma ResponseDescribesRange(w: World, c: Rollup, known: iset<EvmHeader>, trusted: u64, latest: u64, a: u64)
    requires SoundWorld(w, c, known) && Anchored(w, c, trusted, latest, a)
    ensures var pv := EncodeAgg(AggregateOf(RangeOutputs(w, trusted, latest)));
            && Decodable(pv)
            && Fields(pv).newestHeight == latest
            && Fields(pv).oldestHeaderHash == c.hash(c.header(trusted + 1))
            && |Fields(pv).celestiaHeaderHashes| == latest - trusted
            && (a == latest ==>
                  Fields(pv).newestStateRoot == c.header(latest).stateRoot && Fields(pv).newestHeaderHash == c.hash(c.header(latest)))
  {
    AnchoredRange(w, c, known, trusted, latest, a, 0);
    AnchoredRange(w, c, known, trusted, latest, a, latest - trusted - 1);
    DecodeOfEncodeAgg(AggregateOf(RangeOutputs(w, trusted, latest)));
  }

  // ----- the assumptions can be met -----

  /** A way to hash numbers, and the rollup in which a header's hash is that of its number. */
  type Numbering = u64 -> Hash

  ghost predicate Injective(num: Numbering) {
    forall m, n :: num(m) == num(n) ==> m == n
  }

  function PlainHeader(n: u64, num: Numbering): EvmHeader {
    EvmHeader(num(if n == 0 then 0 else n - 1), n, num(0), [])
  }

  function PlainOutput(n: u64, num: Numbering): BlevmOutput {
    BlevmOutput(num(0), num(n), num(if n == 0 then 0 else n - 1), n, 0, seq(20, _ => 0), num(0), num(0))
  }

  function NumberHash(n: nat, num: Numbering): Hash { if n < TWO64 then num(n) else num(0) }

  function PlainRollup(num: Numbering): Rollup {
    Rollup((h: u64) => PlainHeader(h, num), (h: EvmHeader) => NumberHash(h.number, num))
  }

  function PlainWorld(num: Numbering): World {
    World((h: u64, k: nat) => Found(h, num(0)), (h: u64) => Some([]), (h: u64, k: seq<byte>) => Some([]),
          (i: BlockInput) => if i.inclusionHeight == 0 then None else Some(EncodeOutput(PlainOutput(i.inclusionHeight, num))),
          [], (k: VKey, s: seq<byte>) => true)
  }

  ghost function PlainKnown(num: Numbering): iset<EvmHeader> { iset n: u64 :: PlainHeader(n, num) }

  lemma PlainParses(n: u64, num: Numbering)
    ensures ParseOutput(EncodeOutput(PlainOutput(n, num))) == Some(PlainOutput(n, num))
  {
    ParseOfEncodeOutput(PlainOutput(n, num), []);
    assert EncodeOutput(PlainOutput(n, num)) + [] == EncodeOutput(PlainOutput(n, num));
  }

  lemma PlainDescribed(n: u64, num: Numbering)
    requires n > 0
    ensures Describes(PlainRollup(num), PlainKnown(num), PlainOutput(n, num))
  {
    assert Faithful(PlainRollup(num).hash, PlainOutput(n, num), PlainHeader(n, num), PlainHeader(n - 1, num));
  }

  lemma PlainSound(num: Numbering)
    requires Injective(num)
    ensures SoundWorld(PlainWorld(num), PlainRollup(num), PlainKnown(num))
  {
    var w, c, known := PlainWorld(num), PlainRollup(num), PlainKnown(num);
    forall i | ProvenOutput(w, i).Some? ensures Describes(c, known, ProvenOutput(w, i).value) {
      PlainParses(i.inclusionHeight, num);
      PlainDescribed(i.inclusionHeight, num);
    }
  }

  lemma PlainInput(h: u64, num: Numbering)
    ensures InputFor(PlainWorld(num), h) == Some(BlockInput(h, [], []))
  {
    assert ResolvedFrom(PlainWorld(num), h, 0) == Some((h, num(0)));
  }

  lemma PlainRange(num: Numbering, trusted: u64, latest: u64)
    requires trusted + 2 <= latest
    ensures Provable(PlainWorld(num), trusted, latest)
    ensures forall i :: 0 <= i < latest - trusted ==> RangeOutputs(PlainWorld(num), trusted, latest)[i] == PlainOutput(trusted + 1 + i, num)
  {
    var w := PlainWorld(num);
    forall h: u64 ensures InputFor(w, h) == Some(BlockInput(h, [], [])) { PlainInput(h, num); }
    var ins := InputsOf(w, trusted, latest);
    forall i | 0 <= i < |ins| ensures ins[i] == BlockInput(trusted + 1 + i, [], []) {
      assert InputFor(w, trusted + 1 + i) == Some(ins[i]);
    }
    var pvs := ProofsOf(w, ins);
    forall i | 0 <= i < |pvs| ensures ParseOutput(pvs[i]) == Some(PlainOutput(trusted + 1 + i, num)) {
      PlainParses(trusted + 1 + i, num);
    }
  }

  /** For every range of two blocks or more there are sound proofs, anchored at the last block. */
  lemma AssumptionsCanBeMet(trusted: u64, latest: u64) returns (w: World, c: Rollup, known: iset<EvmHeader>)
    requires trusted + 2 <= latest
    ensures SoundWorld(w, c, known) && Anchored(w, c, trusted, latest, latest)
  {
    var num: Numbering := (n: u64) => BE(n, 32);
    forall m: u64, n: u64 | num(m) == num(n) ensures m == n {
      Pow256Eight();
      Pow256Monotone(8, 32);
      FromBEOfBE(m, 32);
      FromBEOfBE(n, 32);
    }
    w, c, known := PlainWorld(num), PlainRollup(num), PlainKnown(num);
    PlainSound(num);
    PlainRange(num, trusted, latest);
  }

  // ----- the indexer's limit -----

  /** Every lookup is answered over HTTP from some state of an index. */
  ghost predicate AnsweredByIndex(w: World) {
    forall h: u64, k: nat :: exists m :: w.lookup(h, k) == ReplyOf(Indexer.InclusionHeight(m, h))
  }

  /** What the prover makes of an HTTP reply. */
  function ReplyOf(r: Indexer.ApiReply): LookupReply {
    match r
    case Inclusion(h, c) => Found(h, c)
    case NotFound => BlockNotFound
    case _ => LookupFailed
  }

  lemma {:induction false} ResolvedIsFound(w: World, h: u64, k: nat)
    requires ResolvedFrom(w, h, k).Some?
    ensures exists j: nat :: w.lookup(h, j).Found?
    decreases MAX_RETRIES + 1 - k
  {
    if w.lookup(h, k).BlockNotFound? {
      ResolvedIsFound(w, h, k + 1);
    }
  }

  /** Block numbers are parsed into sixteen bits, so no range that ends at 65536 or above can be
      proven. */
  lemma RangesEndBelowLimit(w: World, trusted: u64, latest: u64)
    requires AnsweredByIndex(w) && Provable(w, trusted, latest)
    ensures latest < 0x1_0000
  {
    assert InputFor(w, latest).Some?;
    ResolvedIsFound(w, latest, 0);
    var k: nat :| w.lookup(latest, k).Found?;
    var m :| w.lookup(latest, k) == ReplyOf(Indexer.InclusionHeight(m, latest));
  }

  // ----- the relayer and the client -----

  /** The header a relayer builds from a response for `trusted` .. `latest`, with the client's
      latest height `now` as it reads it afterwards. */
  ghost predicate RelayedHeader(w: World, trusted: u64, latest: u64, now: u64, hd: LightClient.Header) {
    && Provable(w, trusted, latest)
    && hd.publicValues == EncodeAgg(AggregateOf(RangeOutputs(w, trusted, latest)))
    && hd.trustedHeight == ToI64(now) && Decodable(hd.publicValues)
    && hd.newestHeight == Fields(hd.publicValues).newestHeight
    && hd.newestStateRoot == Fields(hd.publicValues).newestStateRoot
  }

  /** getHeader: ask for a proof from the client's latest height on, read the client's latest height
      again, and wrap both in a header. `now` and `timestamp` are None when their query fails. */
  method GetHeader(w: World, proofOf: seq<byte> -> seq<byte>, trusted: u64, latest: u64, now: Option<u64>, timestamp: Option<int>)
    returns (r: Option<LightClient.Header>)
    ensures r.Some? <==> Provable(w, trusted, latest) && now.Some? && timestamp.Some?
    ensures r.Some? ==> RelayedHeader(w, trusted, latest, now.value, r.value) && r.value.timestamp == timestamp.value
                        && r.value.stateTransitionProof == proofOf(r.value.publicValues)
  {
    var resp := ProveStateTransition(w, trusted, latest);
    if !resp.Response? || now.None? {
      return None;
    }
    DecodeOfEncodeAgg(AggregateOf(RangeOutputs(w, trusted, latest)));
    var decoded := DecodePublicValues(resp.publicValues);
    if timestamp.None? {
      return None;
    }
    r := Some(LightClient.Header(proofOf(resp.publicValues), resp.publicValues, ToI64(now.value),
                                 decoded.out.newestStateRoot, decoded.out.newestHeight, timestamp.value));
  }

  /** A relayed header whose last block is the rollup's names the rollup's latest height and that
      block's state root. */
  lemma RelayedHeaderFaithful(w: World, c: Rollup, known: iset<EvmHeader>, trusted: u64, latest: u64, now: u64, hd: LightClient.Header)
    requires SoundWorld(w, c, known) && RelayedHeader(w, trusted, latest, now, hd) && Anchored(w, c, trusted, latest, latest)
    ensures hd.newestHeight == latest && hd.newestStateRoot == c.header(latest).stateRoot && latest >= trusted + 2
    ensures ToU64(hd.trustedHeight) == now
  {
    ResponseDescribesRange(w, c, known, trusted, latest, latest);
  }

  /** One relay round against a client whose latest height is still `now`, with a proof the verifier
      accepts: the client takes the header if and only if the proven range ends above `now`, and then
      it ends at the rollup's latest height with that block's state root. */
  lemma RelayRound(w: World, c: Rollup, known: iset<EvmHeader>, cdc: Codec, m: Store, m': Store, a: LightClient.Action,
                   trusted: u64, latest: u64, now: u64)
    requires Lawful(cdc) && Indexed(m, cdc) && SoundWorld(w, c, known) && Anchored(w, c, trusted, latest, latest)
    requires GetClientState(m, cdc).Some? && GetClientState(m, cdc).value.latestHeight == now
    requires GetConsensusState(m, cdc, Height(0, now)).Ok?
    requires a.Update? && a.msg.HeaderMessage? && RelayedHeader(w, trusted, latest, now, a.msg.header)
    requires LightClient.Verified(a.verifier, a.msg.header, GetClientState(m, cdc).value.stateTransitionVerifierKey,
                                  GetClientState(m, cdc).value.groth16Vk)
    requires m' == LightClient.Step(m, cdc, a)
    ensures LightClient.Accepts(m, cdc, a) <==> now < latest
    ensures now == trusted ==> trusted + 2 <= latest
    ensures now < latest ==>
              && GetClientState(m', cdc) == Some(GetClientState(m, cdc).value.(latestHeight := latest))
              && GetConsensusState(m', cdc, Height(0, latest)) ==
                 Ok(ConsensusState(a.msg.header.timestamp, c.header(latest).stateRoot))
    ensures now >= latest ==> m' == m
  {
    RelayedHeaderFaithful(w, c, known, trusted, latest, now, a.msg.header);
    if now < latest {
      LightClient.AcceptedStep(cdc, m, a, m');
    }
  }

  // ----- whole runs with relayed headers -----

  /** If the action submits a header, a relayer built it from sound block proofs, the last of them for
      the rollup's latest block. */
  ghost predicate Relayed(c: Rollup, a: LightClient.Action) {
    a.Update? && a.msg.HeaderMessage? ==>
      exists w, known, trusted, latest, now ::
        SoundWorld(w, c, known) && RelayedHeader(w, trusted, latest, now, a.msg.header) && Anchored(w, c, trusted, latest, latest)
  }

  ghost predicate AllRelayed(c: Rollup, acts: seq<LightClient.Action>) {
    forall i :: 0 <= i < |acts| ==> Relayed(c, acts[i])
  }

  /** Every state the client holds is the rollup's state at that height. */
  ghost predicate Tracks(c: Rollup, cdc: Codec, m: Store) {
    forall x :: GetConsensusState(m, cdc, x).Ok? ==>
      x.revision == 0 && GetConsensusState(m, cdc, x).value.stateRoot == c.header(x.height).stateRoot
  }

  lemma StepTracks(c: Rollup, cdc: Codec, m: Store, a: LightClient.Action, m': Store)
    requires Lawful(cdc) && Indexed(m, cdc) && Tracks(c, cdc, m) && Relayed(c, a) && m' == LightClient.Step(m, cdc, a)
    ensures Tracks(c, cdc, m')
  {
    if a.Prune? {
      ClientWrites.PruneKeepsIndex(m, m', cdc, a.blockTime);
      PruneTracks(c, cdc, m, m');
    } else if LightClient.Accepts(m, cdc, a) {
      RelayedIsFaithful(c, a);
      LightClient.AcceptedStep(cdc, m, a, m');
      UpdateTracks(c, cdc, m, GetClientState(m, cdc).value, a.msg.header, m');
    }
  }

  lemma RelayedIsFaithful(c: Rollup, a: LightClient.Action)
    requires Relayed(c, a) && a.Update? && a.msg.HeaderMessage?
    ensures a.msg.header.newestStateRoot == c.header(a.msg.header.newestHeight).stateRoot
  {
    var w, known, trusted, latest, now :|
      SoundWorld(w, c, known) && RelayedHeader(w, trusted, latest, now, a.msg.header) && Anchored(w, c, trusted, latest, latest);
    RelayedHeaderFaithful(w, c, known, trusted, latest, now, a.msg.header);
  }

  lemma UpdateTracks(c: Rollup, cdc: Codec, m: Store, cs: ClientState, hd: LightClient.Header, m': Store)
    requires Tracks(c, cdc, m) && LightClient.UpdatedBy(m, m', cdc, cs, hd)
    requires hd.newestStateRoot == c.header(hd.newestHeight).stateRoot
    ensures Tracks(c, cdc, m')
  {
  }

  lemma PruneTracks(c: Rollup, cdc: Codec, m: Store, m': Store)
    requires Tracks(c, cdc, m)
    requires forall x :: Stored(m', x) ==> GetConsensusState(m', cdc, x) == GetConsensusState(m, cdc, x)
    ensures Tracks(c, cdc, m')
  {
    forall x | GetConsensusState(m', cdc, x).Ok? ensures GetConsensusState(m, cdc, x) == GetConsensusState(m', cdc, x) {
      assert Stored(m', x);
    }
  }

  /** A client created at the rollup's state tracks the rollup in every run of relayed updates, in
      any order and with prunings in between. */
  lemma {:induction false} RunTracksRollup(c: Rollup, cdc: Codec, g: LightClient.Genesis, acts: seq<LightClient.Action>)
    requires Lawful(cdc) && AllRelayed(c, acts) && g.c.stateRoot == c.header(g.cs.latestHeight).stateRoot
    ensures Tracks(c, cdc, LightClient.Run(cdc, g, acts))
    decreases |acts|
  {
    if acts == [] {
      var m := LightClient.Run(cdc, g, acts);
      LightClient.InitializedFacts(m, cdc, g.cs, g.c, g.ctx);
      forall x | GetConsensusState(m, cdc, x).Ok? ensures x == LightClient.LatestHeight(g.cs) {
        assert Stored(m, x);
      }
    } else {
      var n := |acts| - 1;
      RunTracksRollup(c, cdc, g, acts[..n]);
      StepTracks(c, cdc, LightClient.Run(cdc, g, acts[..n]), acts[n], LightClient.Run(cdc, g, acts));
    }
  }

  /** Any two clients that track one rollup agree on membership: two proofs they accept at the same
      height for the same address and storage key carry the same value, or exhibit a collision. */
  lemma ClientsAgree(c: Rollup, cdc: Codec, g: LightClient.Genesis, acts: seq<LightClient.Action>,
                     g2: LightClient.Genesis, acts2: seq<LightClient.Action>, e: Env, f: Env, h: Height,
                     p: MptProof, v: seq<byte>, q: MptProof, w: seq<byte>)
    requires Lawful(cdc) && AllRelayed(c, acts) && AllRelayed(c, acts2)
    requires g.c.stateRoot == c.header(g.cs.latestHeight).stateRoot && g2.c.stateRoot == c.header(g2.cs.latestHeight).stateRoot
    requires e.keccak == f.keccak && e.decode == f.decode
    requires BalanceFits(p) && BalanceFits(q) && |v| < TWO64 && |w| < TWO64
    requires p.address == q.address && p.storageKey == q.storageKey
    requires VerifyMembership(e, LightClient.Run(cdc, g, acts), cdc, h, Some(p), v).Ok?
    requires VerifyMembership(f, LightClient.Run(cdc, g2, acts2), cdc, h, Some(q), w).Ok?
    ensures v == w || Mpt.Collide(e.keccak, Nodes(p), Nodes(q))
  {
    RunTracksRollup(c, cdc, g, acts);
    RunTracksRollup(c, cdc, g2, acts2);
    BindingUnderRoot(e, f, BytesToHash(c.header(h.height).stateRoot), p, v, q, w);
  }
}
