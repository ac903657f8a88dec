/** The Groth16 client's storage layer: consensus states, their metadata and the ordered index over
    a byte-keyed store. Reads are functions of the store's contents; writes are methods proved
    against functions on those contents. */
module ClientStore {
  import opened Bytes
  import opened Keys

  type Store = map<seq<byte>, seq<byte>>

  /** Times are nanoseconds since the Unix epoch. */
  datatype ConsensusState = ConsensusState(timestamp: int, stateRoot: seq<byte>)

  datatype ClientState = ClientState(
    latestHeight: u64,
    codeCommitment: seq<byte>,
    genesisStateRoot: seq<byte>,
    stateTransitionVerifierKey: string,
    stateMembershipVerifierKey: seq<byte>,
    groth16Vk: seq<byte>)

  /** The protobuf codec, as far as the client can see it. */
  datatype Codec = Codec(
    marshalConsensus: ConsensusState -> seq<byte>,
    unmarshalConsensus: seq<byte> -> Option<ConsensusState>,
    marshalClient: ClientState -> seq<byte>,
    unmarshalClient: seq<byte> -> Option<ClientState>)

  /** What the client relies on: encodings are non-empty and decode to what was encoded. */
  ghost predicate Lawful(cdc: Codec) {
    && (forall c :: |cdc.marshalConsensus(c)| > 0 && cdc.unmarshalConsensus(cdc.marshalConsensus(c)) == Some(c))
    && (forall c :: |cdc.marshalClient(c)| > 0 && cdc.unmarshalClient(cdc.marshalClient(c)) == Some(c))
  }

  datatype StoreError = NotFound | InvalidConsensus
  datatype Result<+T, +E> = Ok(value: T) | Err(error: E)

  /** Three weeks. */
  const UNBONDING_TIME: int := 3 * 7 * 24 * 3600 * 1_000_000_000

  /** True while the unbonding period has NOT yet passed: the comparison is `After(blockTime)`. */
  predicate IsExpired(c: ConsensusState, blockTime: int) {
    c.timestamp + UNBONDING_TIME > blockTime
  }

  // ----- reads -----

  function Lookup(m: Store, k: seq<byte>): seq<byte> {
    if k in m then m[k] else []
  }

  function GetConsensusState(m: Store, cdc: Codec, h: Height): Result<ConsensusState, StoreError> {
    var bz := Lookup(m, ConsensusStateKey(h));
    if bz == [] then Err(NotFound)
    else match cdc.unmarshalConsensus(bz)
      case None => Err(InvalidConsensus)
      case Some(c) => Ok(c)
  }

  /** A client state that is stored but does not decode makes the source panic; here it is None. */
  function GetClientState(m: Store, cdc: Codec): Option<ClientState> {
    var bz := Lookup(m, ClientStateKey());
    if bz == [] then None else cdc.unmarshalClient(bz)
  }

  function GetStateUnder(m: Store, cdc: Codec, key: seq<byte>): Option<ConsensusState> {
    var bz := Lookup(m, key);
    if bz == [] then None else cdc.unmarshalConsensus(bz)
  }

  /** A stored time shorter than eight bytes makes the source panic; here it is None. */
  function GetProcessedTime(m: Store, h: Height): Option<u64> {
    var bz := Lookup(m, ProcessedTimeKey(h));
    if |bz| < 8 then None else EightBytesFit(bz[..8]); Some(FromBE(bz[..8]))
  }

  function GetProcessedHeight(m: Store, h: Height): Option<Height> {
    var bz := Lookup(m, ProcessedHeightKey(h));
    if bz == [] then None else ParseHeight(bz)
  }

  /** Keys of the index whose height bytes are at least `start`, as an ascending iterator. */
  function IndexFrom(m: Store, start: seq<byte>): (ks: seq<seq<byte>>)
    ensures forall i :: 0 <= i < |ks| ==> ks[i] in m && ITERATION_PREFIX <= ks[i]
  {
    InOrder(set k | k in m && ITERATION_PREFIX <= k && LexLe(start, k[|ITERATION_PREFIX|..]))
  }

  /** Keys of the index whose height bytes are below `end`. A reverse iterator starts at the last. */
  function IndexBelow(m: Store, end: seq<byte>): (ks: seq<seq<byte>>)
    ensures forall i :: 0 <= i < |ks| ==> ks[i] in m && ITERATION_PREFIX <= ks[i]
  {
    InOrder(set k | k in m && ITERATION_PREFIX <= k && LexLt(k[|ITERATION_PREFIX|..], end))
  }

  /** All keys of the index, ascending. */
  function IndexKeys(m: Store): (ks: seq<seq<byte>>)
    ensures forall i :: 0 <= i < |ks| ==> ks[i] in m && ITERATION_PREFIX <= ks[i]
  {
    InOrder(set k | k in m && ITERATION_PREFIX <= k)
  }

  function GetNextConsensusState(m: Store, cdc: Codec, h: Height): Option<ConsensusState> {
    var ks := IndexFrom(m, BigEndianHeightBytes(h));
    if ks == [] then None
    else if m[ks[0]] == ConsensusStateKey(h) then
      if |ks| == 1 then None else GetStateUnder(m, cdc, m[ks[1]])
    else GetStateUnder(m, cdc, m[ks[0]])
  }

  function GetPreviousConsensusState(m: Store, cdc: Codec, h: Height): Option<ConsensusState> {
    var ks := IndexBelow(m, BigEndianHeightBytes(h));
    if ks == [] then None else GetStateUnder(m, cdc, m[ks[|ks| - 1]])
  }

  // ----- the store seen slot by slot -----

  function At(m: Store, s: Slot): Option<seq<byte>> {
    if KeyOf(s) in m then Some(m[KeyOf(s)]) else None
  }

  function Put(m: Store, s: Slot, v: seq<byte>): Store {
    m[KeyOf(s) := v]
  }

  lemma PutAt(m: Store, s: Slot, v: seq<byte>)
    ensures forall t :: At(Put(m, s, v), t) == if t == s then Some(v) else At(m, t)
  {
    forall t ensures At(Put(m, s, v), t) == if t == s then Some(v) else At(m, t) {
      if KeyOf(t) == KeyOf(s) { KeySpaceInjective(t, s); }
    }
  }

  lemma NotAnIndexKey(s: Slot)
    requires !s.IterationSlot?
    ensures !(ITERATION_PREFIX <= KeyOf(s))
  {
    assert ITERATION_PREFIX[0] == 105;
    assert KeyOf(s)[0] == 99;
  }

  // ----- the index invariant -----

  ghost predicate Stored(m: Store, h: Height) {
    At(m, ConsensusSlot(h)).Some?
  }

  /** A height's consensus state, both metadata entries and index entry are present together or
      absent together; the index entry names the consensus key; the state decodes. */
  ghost predicate HeightConsistent(m: Store, cdc: Codec, h: Height) {
    && At(m, ProcessedTimeSlot(h)).Some? == Stored(m, h)
    && At(m, ProcessedHeightSlot(h)).Some? == Stored(m, h)
    && At(m, IterationSlot(h)).Some? == Stored(m, h)
    && (Stored(m, h) ==> At(m, IterationSlot(h)).value == ConsensusStateKey(h))
    && (Stored(m, h) ==> GetConsensusState(m, cdc, h).Ok?)
  }

  /** Everything under the index prefix is the index key of some height. */
  ghost predicate IndexWellFormed(m: Store) {
    forall k :: k in m && ITERATION_PREFIX <= k ==> IterationShaped(k) && IterationKey(HeightFromIterationKey(k)) == k
  }

  ghost predicate Indexed(m: Store, cdc: Codec) {
    (forall h :: HeightConsistent(m, cdc, h)) && IndexWellFormed(m)
  }

  /** The state stored at a height that has one. */
  ghost function StateAt(m: Store, cdc: Codec, h: Height): ConsensusState
    requires GetConsensusState(m, cdc, h).Ok?
  {
    GetConsensusState(m, cdc, h).value
  }

  lemma StateUnderConsensusKey(m: Store, cdc: Codec, h: Height)
    requires GetConsensusState(m, cdc, h).Ok?
    ensures GetStateUnder(m, cdc, ConsensusStateKey(h)) == Some(StateAt(m, cdc, h))
  {
  }

  /** Index keys and stored heights correspond one to one. */
  lemma IndexKeyIsStored(m: Store, cdc: Codec, k: seq<byte>)
    requires Indexed(m, cdc) && k in m && ITERATION_PREFIX <= k
    ensures IterationShaped(k)
    ensures var h := HeightFromIterationKey(k);
            k == IterationKey(h) && Stored(m, h) && m[k] == ConsensusStateKey(h)
  {
    var h := HeightFromIterationKey(k);
    assert KeyOf(IterationSlot(h)) == k;
    assert HeightConsistent(m, cdc, h);
  }

  // ----- neighbour queries -----

  /** n is the least stored height above h. */
  ghost predicate IsNext(m: Store, h: Height, n: Height) {
    Stored(m, n) && Before(h, n) && forall x :: Stored(m, x) && Before(h, x) ==> x == n || Before(n, x)
  }

  /** p is the greatest stored height below h. */
  ghost predicate IsPrevious(m: Store, h: Height, p: Height) {
    Stored(m, p) && Before(p, h) && forall x :: Stored(m, x) && Before(x, h) ==> x == p || Before(x, p)
  }

  ghost predicate AscendingHeights(hs: seq<Height>) {
    forall i, j :: 0 <= i < j < |hs| ==> Before(hs[i], hs[j])
  }

  /** An iterator's keys name these heights, in this order. */
  ghost predicate Names(m: Store, ks: seq<seq<byte>>, hs: seq<Height>) {
    && |hs| == |ks|
    && forall i :: 0 <= i < |ks| ==> ks[i] in m && ks[i] == IterationKey(hs[i]) && m[ks[i]] == ConsensusStateKey(hs[i])
  }

  /** The heights an ascending list of index keys names. */
  lemma NamedHeights(m: Store, cdc: Codec, ks: seq<seq<byte>>) returns (hs: seq<Height>)
    requires Indexed(m, cdc) && Ascending(ks)
    requires forall i :: 0 <= i < |ks| ==> ks[i] in m && ITERATION_PREFIX <= ks[i]
    ensures Names(m, ks, hs) && AscendingHeights(hs)
    ensures forall i :: 0 <= i < |ks| ==> IterationShaped(ks[i]) && HeightFromIterationKey(ks[i]) == hs[i]
    ensures forall x :: x in hs <==> IterationKey(x) in ks
    ensures forall i :: 0 <= i < |hs| ==> Stored(m, hs[i]) && GetConsensusState(m, cdc, hs[i]).Ok?
  {
    forall i | 0 <= i < |ks| ensures IterationShaped(ks[i]) { IndexKeyIsStored(m, cdc, ks[i]); }
    hs := seq(|ks|, i requires 0 <= i < |ks| => HeightFromIterationKey(ks[i]));
    forall i | 0 <= i < |ks|
      ensures ks[i] == IterationKey(hs[i]) && m[ks[i]] == ConsensusStateKey(hs[i])
      ensures Stored(m, hs[i]) && GetConsensusState(m, cdc, hs[i]).Ok?
    {
      IndexKeyIsStored(m, cdc, ks[i]);
      assert HeightConsistent(m, cdc, hs[i]);
    }
    forall i, j | 0 <= i < j < |hs| ensures Before(hs[i], hs[j]) { IterationKeyOrder(hs[i], hs[j]); }
    forall x ensures x in hs <==> IterationKey(x) in ks { IterationKeyInverse(x); }
  }

  lemma IndexedKey(m: Store, cdc: Codec, x: Height)
    requires Indexed(m, cdc)
    ensures IterationKey(x) in m <==> Stored(m, x)
    ensures ITERATION_PREFIX <= IterationKey(x)
    ensures IterationKey(x)[|ITERATION_PREFIX|..] == BigEndianHeightBytes(x)
  {
    assert KeyOf(IterationSlot(x)) == IterationKey(x) && HeightConsistent(m, cdc, x);
  }

  lemma HeightBytesInjective(a: Height, b: Height)
    requires BigEndianHeightBytes(a) == BigEndianHeightBytes(b)
    ensures a == b
  {
    assert IterationKey(a) == IterationKey(b);
    IterationKeyInverse(a);
    IterationKeyInverse(b);
  }

  lemma FromHeights(m: Store, cdc: Codec, h: Height) returns (hs: seq<Height>)
    requires Indexed(m, cdc)
    ensures Names(m, IndexFrom(m, BigEndianHeightBytes(h)), hs) && AscendingHeights(hs)
    ensures forall x :: x in hs <==> Stored(m, x) && (x == h || Before(h, x))
    ensures forall i :: 0 <= i < |hs| ==> GetConsensusState(m, cdc, hs[i]).Ok?
  {
    var ks := IndexFrom(m, BigEndianHeightBytes(h));
    InOrderAscending(set k | k in m && ITERATION_PREFIX <= k && LexLe(BigEndianHeightBytes(h), k[|ITERATION_PREFIX|..]));
    hs := NamedHeights(m, cdc, ks);
    forall x ensures x in hs <==> Stored(m, x) && (x == h || Before(h, x)) {
      IndexedKey(m, cdc, x);
      IterationKeyOrder(h, x);
      if BigEndianHeightBytes(h) == BigEndianHeightBytes(x) { HeightBytesInjective(h, x); }
    }
  }

  lemma BelowHeights(m: Store, cdc: Codec, h: Height) returns (hs: seq<Height>)
    requires Indexed(m, cdc)
    ensures Names(m, IndexBelow(m, BigEndianHeightBytes(h)), hs) && AscendingHeights(hs)
    ensures forall x :: x in hs <==> Stored(m, x) && Before(x, h)
    ensures forall i :: 0 <= i < |hs| ==> GetConsensusState(m, cdc, hs[i]).Ok?
  {
    var ks := IndexBelow(m, BigEndianHeightBytes(h));
    InOrderAscending(set k | k in m && ITERATION_PREFIX <= k && LexLt(k[|ITERATION_PREFIX|..], BigEndianHeightBytes(h)));
    hs := NamedHeights(m, cdc, ks);
    forall x ensures x in hs <==> Stored(m, x) && Before(x, h) {
      IndexedKey(m, cdc, x);
      IterationKeyOrder(x, h);
    }
  }

  lemma SameConsensusKey(a: Height, b: Height)
    requires ConsensusStateKey(a) == ConsensusStateKey(b)
    ensures a == b
  {
    KeySpaceInjective(ConsensusSlot(a), ConsensusSlot(b));
  }

  /** Past h itself, the first height listed from h on is the least above h. */
  lemma FirstAboveIsNext(m: Store, h: Height, hs: seq<Height>, at: nat)
    requires AscendingHeights(hs) && forall x :: x in hs <==> Stored(m, x) && (x == h || Before(h, x))
    requires at == if hs != [] && hs[0] == h then 1 else 0
    ensures at < |hs| ==> IsNext(m, h, hs[at])
    ensures at >= |hs| ==> forall x :: Stored(m, x) ==> !Before(h, x)
  {
    if at < |hs| {
      assert hs[at] in hs;
    }
    forall x | Stored(m, x) && Before(h, x)
      ensures at < |hs| && (x == hs[at] || Before(hs[at], x))
    {
      assert x in hs;
      var j :| 0 <= j < |hs| && hs[j] == x;
    }
  }

  /** The stored height the forward query ends on, if any. */
  lemma NextWitness(m: Store, cdc: Codec, h: Height) returns (n: Option<Height>)
    requires Indexed(m, cdc)
    ensures n.None? ==> GetNextConsensusState(m, cdc, h) == None && forall x :: Stored(m, x) ==> !Before(h, x)
    ensures n.Some? ==> IsNext(m, h, n.value) && GetConsensusState(m, cdc, n.value).Ok?
                        && GetNextConsensusState(m, cdc, h) == Some(StateAt(m, cdc, n.value))
  {
    var hs := FromHeights(m, cdc, h);
    var at := if hs != [] && hs[0] == h then 1 else 0;
    FirstAboveIsNext(m, h, hs, at);
    assert hs != [] ==> (ConsensusStateKey(hs[0]) == ConsensusStateKey(h) <==> hs[0] == h) by {
      if hs != [] && ConsensusStateKey(hs[0]) == ConsensusStateKey(h) { SameConsensusKey(hs[0], h); }
    }
    if at < |hs| {
      n := Some(hs[at]);
      StateUnderConsensusKey(m, cdc, hs[at]);
    } else {
      n := None;
    }
  }

  lemma NextUnique(m: Store, h: Height, a: Height, b: Height)
    requires IsNext(m, h, a) && IsNext(m, h, b)
    ensures a == b
  {
  }

  lemma PreviousUnique(m: Store, h: Height, a: Height, b: Height)
    requires IsPrevious(m, h, a) && IsPrevious(m, h, b)
    ensures a == b
  {
  }

  /** The last height listed below h is the greatest below h. */
  lemma LastBelowIsPrevious(m: Store, h: Height, hs: seq<Height>)
    requires AscendingHeights(hs) && forall x :: x in hs <==> Stored(m, x) && Before(x, h)
    ensures hs != [] ==> IsPrevious(m, h, hs[|hs| - 1])
    ensures hs == [] ==> forall x :: Stored(m, x) ==> !Before(x, h)
  {
    if hs != [] {
      assert hs[|hs| - 1] in hs;
    }
    forall x | Stored(m, x) && Before(x, h)
      ensures hs != [] && (x == hs[|hs| - 1] || Before(x, hs[|hs| - 1]))
    {
      assert x in hs;
      var j :| 0 <= j < |hs| && hs[j] == x;
    }
  }

  lemma PreviousWitness(m: Store, cdc: Codec, h: Height) returns (p: Option<Height>)
    requires Indexed(m, cdc)
    ensures p.None? ==> GetPreviousConsensusState(m, cdc, h) == None && forall x :: Stored(m, x) ==> !Before(x, h)
    ensures p.Some? ==> IsPrevious(m, h, p.value) && GetConsensusState(m, cdc, p.value).Ok?
                        && GetPreviousConsensusState(m, cdc, h) == Some(StateAt(m, cdc, p.value))
  {
    var hs := BelowHeights(m, cdc, h);
    LastBelowIsPrevious(m, h, hs);
    if hs == [] {
      p := None;
    } else {
      p := Some(hs[|hs| - 1]);
      StateUnderConsensusKey(m, cdc, p.value);
    }
  }

  /** The forward query answers with the least stored height above h, found exactly when there is
      one, whether or not h itself is stored. */
  lemma NextConsensusStateCorrect(m: Store, cdc: Codec, h: Height, r: Option<ConsensusState>)
    requires Indexed(m, cdc) && r == GetNextConsensusState(m, cdc, h)
    ensures r.Some? <==> exists x :: Stored(m, x) && Before(h, x)
    ensures r.Some? ==> exists n :: IsNext(m, h, n)
    ensures forall n :: IsNext(m, h, n) ==> GetConsensusState(m, cdc, n).Ok? && r == Some(StateAt(m, cdc, n))
  {
    var w := NextWitness(m, cdc, h);
    NextDetermined(m, cdc, h, r, w);
  }

  lemma NextDetermined(m: Store, cdc: Codec, h: Height, r: Option<ConsensusState>, w: Option<Height>)
    requires w.None? ==> r == None && forall x :: Stored(m, x) ==> !Before(h, x)
    requires w.Some? ==> IsNext(m, h, w.value) && GetConsensusState(m, cdc, w.value).Ok? && r == Some(StateAt(m, cdc, w.value))
    ensures r.Some? <==> exists x :: Stored(m, x) && Before(h, x)
    ensures r.Some? ==> exists n :: IsNext(m, h, n)
    ensures forall n :: IsNext(m, h, n) ==> GetConsensusState(m, cdc, n).Ok? && r == Some(StateAt(m, cdc, n))
  {
    forall n | IsNext(m, h, n) ensures w == Some(n) { NextUnique(m, h, n, w.value); }
  }

  /** The backward query answers with the greatest stored height below h, found exactly when there
      is one. */
  lemma PreviousConsensusStateCorrect(m: Store, cdc: Codec, h: Height, r: Option<ConsensusState>)
    requires Indexed(m, cdc) && r == GetPreviousConsensusState(m, cdc, h)
    ensures r.Some? <==> exists x :: Stored(m, x) && Before(x, h)
    ensures r.Some? ==> exists p :: IsPrevious(m, h, p)
    ensures forall p :: IsPrevious(m, h, p) ==> GetConsensusState(m, cdc, p).Ok? && r == Some(StateAt(m, cdc, p))
  {
    var w := PreviousWitness(m, cdc, h);
    PreviousDetermined(m, cdc, h, r, w);
  }

  lemma PreviousDetermined(m: Store, cdc: Codec, h: Height, r: Option<ConsensusState>, w: Option<Height>)
    requires w.None? ==> r == None && forall x :: Stored(m, x) ==> !Before(x, h)
    requires w.Some? ==> IsPrevious(m, h, w.value) && GetConsensusState(m, cdc, w.value).Ok? && r == Some(StateAt(m, cdc, w.value))
    ensures r.Some? <==> exists x :: Stored(m, x) && Before(x, h)
    ensures r.Some? ==> exists p :: IsPrevious(m, h, p)
    ensures forall p :: IsPrevious(m, h, p) ==> GetConsensusState(m, cdc, p).Ok? && r == Some(StateAt(m, cdc, p))
  {
    forall p | IsPrevious(m, h, p) ensures w == Some(p) { PreviousUnique(m, h, p, w.value); }
  }
}
