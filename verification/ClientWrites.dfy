/** Writes to a client store: setting and pruning consensus states together with their metadata,
    and what each write keeps of the index invariant. */
module ClientWrites {
  import opened Bytes
  import opened Keys
  import opened ClientStore

  class KVStore {
    var data: Store

    constructor ()
      ensures data == map[]
    {
      data := map[];
    }

    method Set(k: seq<byte>, v: seq<byte>)
      modifies this
      ensures data == old(data)[k := v]
    {
      data := data[k := v];
    }

    method Delete(k: seq<byte>)
      modifies this
      ensures data == old(data) - {k}
    {
      data := data - {k};
    }
  }

  // ----- one height -----

  /** The four entries of a height, written in the order consensus state, processed time,
      processed height, index. */
  function PutHeight(m: Store, cdc: Codec, c: ConsensusState, h: Height, processedHeight: Height, processedTime: u64): Store {
    PutMetadata(Put(m, ConsensusSlot(h), cdc.marshalConsensus(c)), h, processedHeight, processedTime)
  }

  function PutMetadata(m: Store, h: Height, processedHeight: Height, processedTime: u64): Store {
    var m1 := Put(m, ProcessedTimeSlot(h), BE8(processedTime));
    var m2 := Put(m1, ProcessedHeightSlot(h), HeightString(processedHeight));
    Put(m2, IterationSlot(h), ConsensusStateKey(h))
  }

  function KeysOfHeight(h: Height): set<seq<byte>> {
    {ConsensusStateKey(h), ProcessedTimeKey(h), ProcessedHeightKey(h), IterationKey(h)}
  }

  function DropHeight(m: Store, h: Height): Store {
    m - KeysOfHeight(h)
  }

  function DropHeights(m: Store, hs: seq<Height>): Store {
    if hs == [] then m else DropHeights(DropHeight(m, hs[0]), hs[1..])
  }

  method SetConsensusState(store: KVStore, cdc: Codec, c: ConsensusState, h: Height)
    modifies store
    ensures store.data == Put(old(store.data), ConsensusSlot(h), cdc.marshalConsensus(c))
  {
    store.Set(ConsensusStateKey(h), cdc.marshalConsensus(c));
  }

  method SetClientState(store: KVStore, cdc: Codec, c: ClientState)
    modifies store
    ensures store.data == Put(old(store.data), ClientSlot, cdc.marshalClient(c))
  {
    store.Set(ClientStateKey(), cdc.marshalClient(c));
  }

  method SetConsensusMetadata(store: KVStore, h: Height, processedHeight: Height, processedTime: u64)
    modifies store
    ensures store.data == PutMetadata(old(store.data), h, processedHeight, processedTime)
  {
    store.Set(ProcessedTimeKey(h), BE8(processedTime));
    store.Set(ProcessedHeightKey(h), HeightString(processedHeight));
    store.Set(IterationKey(h), ConsensusStateKey(h));
  }

  method DeleteHeight(store: KVStore, h: Height)
    modifies store
    ensures store.data == DropHeight(old(store.data), h)
  {
    store.Delete(ConsensusStateKey(h));
    store.Delete(ProcessedTimeKey(h));
    store.Delete(ProcessedHeightKey(h));
    store.Delete(IterationKey(h));
  }

  // ----- what setting a height keeps -----

  /** m' is m with the four entries of h written, and nothing else changed in any slot. */
  ghost predicate HeightWritten(m: Store, m': Store, cdc: Codec, c: ConsensusState, h: Height, ph: Height, pt: u64) {
    forall t :: At(m', t) ==
      if t == ConsensusSlot(h) then Some(cdc.marshalConsensus(c))
      else if t == ProcessedTimeSlot(h) then Some(BE8(pt))
      else if t == ProcessedHeightSlot(h) then Some(HeightString(ph))
      else if t == IterationSlot(h) then Some(ConsensusStateKey(h))
      else At(m, t)
  }

  lemma PutHeightAt(m: Store, cdc: Codec, c: ConsensusState, h: Height, ph: Height, pt: u64)
    ensures HeightWritten(m, PutHeight(m, cdc, c, h, ph, pt), cdc, c, h, ph, pt)
  {
    var m0 := Put(m, ConsensusSlot(h), cdc.marshalConsensus(c));
    var m1 := Put(m0, ProcessedTimeSlot(h), BE8(pt));
    var m2 := Put(m1, ProcessedHeightSlot(h), HeightString(ph));
    PutAt(m, ConsensusSlot(h), cdc.marshalConsensus(c));
    PutAt(m0, ProcessedTimeSlot(h), BE8(pt));
    PutAt(m1, ProcessedHeightSlot(h), HeightString(ph));
    PutAt(m2, IterationSlot(h), ConsensusStateKey(h));
  }

  lemma LookupByAt(m: Store, s: Slot)
    ensures Lookup(m, KeyOf(s)) == if At(m, s).Some? then At(m, s).value else []
  {
  }

  /** The metadata written with a height reads back; every other height's metadata reads as before. */
  lemma MetadataReadsBack(m: Store, m': Store, cdc: Codec, c: ConsensusState, h: Height, ph: Height, pt: u64)
    requires HeightWritten(m, m', cdc, c, h, ph, pt)
    ensures GetProcessedTime(m', h) == Some(pt) && GetProcessedHeight(m', h) == Some(ph)
    ensures forall x :: x != h ==> GetProcessedTime(m', x) == GetProcessedTime(m, x) && GetProcessedHeight(m', x) == GetProcessedHeight(m, x)
  {
    forall x ensures Lookup(m', ProcessedTimeKey(x)) == if x == h then BE8(pt) else Lookup(m, ProcessedTimeKey(x)) {
      LookupByAt(m, ProcessedTimeSlot(x));
      LookupByAt(m', ProcessedTimeSlot(x));
    }
    forall x ensures Lookup(m', ProcessedHeightKey(x)) == if x == h then HeightString(ph) else Lookup(m, ProcessedHeightKey(x)) {
      LookupByAt(m, ProcessedHeightSlot(x));
      LookupByAt(m', ProcessedHeightSlot(x));
    }
    assert BE8(pt)[..8] == BE8(pt);
    BE8RoundTrip(pt);
    ParseOfHeightString(ph);
  }

  lemma GetByAt(m: Store, cdc: Codec, h: Height)
    ensures GetConsensusState(m, cdc, h) ==
            match At(m, ConsensusSlot(h))
            case None => Err(NotFound)
            case Some(bz) => if bz == [] then Err(NotFound)
                             else match cdc.unmarshalConsensus(bz)
                               case None => Err(InvalidConsensus)
                               case Some(c) => Ok(c)
  {
  }

  lemma PutKeepsIndexWellFormed(m: Store, s: Slot, v: seq<byte>)
    requires IndexWellFormed(m)
    ensures IndexWellFormed(Put(m, s, v))
  {
    if s.IterationSlot? {
      IterationKeyInverse(s.h);
    } else {
      NotAnIndexKey(s);
    }
  }

  lemma PutHeightKeepsWellFormed(m: Store, cdc: Codec, c: ConsensusState, h: Height, ph: Height, pt: u64)
    requires IndexWellFormed(m)
    ensures IndexWellFormed(PutHeight(m, cdc, c, h, ph, pt))
  {
    var m0 := Put(m, ConsensusSlot(h), cdc.marshalConsensus(c));
    var m1 := Put(m0, ProcessedTimeSlot(h), BE8(pt));
    var m2 := Put(m1, ProcessedHeightSlot(h), HeightString(ph));
    PutKeepsIndexWellFormed(m, ConsensusSlot(h), cdc.marshalConsensus(c));
    PutKeepsIndexWellFormed(m0, ProcessedTimeSlot(h), BE8(pt));
    PutKeepsIndexWellFormed(m1, ProcessedHeightSlot(h), HeightString(ph));
    PutKeepsIndexWellFormed(m2, IterationSlot(h), ConsensusStateKey(h));
  }

  lemma WrittenAtHeight(m: Store, m': Store, cdc: Codec, c: ConsensusState, h: Height, ph: Height, pt: u64, x: Height)
    requires HeightConsistent(m, cdc, x) && Lawful(cdc) && HeightWritten(m, m', cdc, c, h, ph, pt)
    ensures HeightConsistent(m', cdc, x)
    ensures Stored(m', x) <==> Stored(m, x) || x == h
    ensures GetConsensusState(m', cdc, x) == if x == h then Ok(c) else GetConsensusState(m, cdc, x)
  {
    GetByAt(m, cdc, x);
    GetByAt(m', cdc, x);
    assert At(m', ConsensusSlot(x)) == if x == h then Some(cdc.marshalConsensus(c)) else At(m, ConsensusSlot(x));
  }

  /** Writing a height: the invariant is kept, the written state reads back, every other height
      and the client state read as before. */
  lemma PutHeightKeepsIndex(m: Store, m': Store, cdc: Codec, c: ConsensusState, h: Height, ph: Height, pt: u64)
    requires Indexed(m, cdc) && Lawful(cdc) && m' == PutHeight(m, cdc, c, h, ph, pt)
    ensures Indexed(m', cdc)
    ensures GetConsensusState(m', cdc, h) == Ok(c)
    ensures forall x :: Stored(m', x) <==> Stored(m, x) || x == h
    ensures forall x :: x != h ==> GetConsensusState(m', cdc, x) == GetConsensusState(m, cdc, x)
    ensures GetClientState(m', cdc) == GetClientState(m, cdc)
  {
    PutHeightAt(m, cdc, c, h, ph, pt);
    PutHeightKeepsWellFormed(m, cdc, c, h, ph, pt);
    WrittenKeepsIndex(m, m', cdc, c, h, ph, pt);
  }

  lemma WrittenKeepsIndex(m: Store, m': Store, cdc: Codec, c: ConsensusState, h: Height, ph: Height, pt: u64)
    requires Indexed(m, cdc) && Lawful(cdc) && HeightWritten(m, m', cdc, c, h, ph, pt) && IndexWellFormed(m')
    ensures Indexed(m', cdc)
    ensures GetConsensusState(m', cdc, h) == Ok(c)
    ensures forall x :: Stored(m', x) <==> Stored(m, x) || x == h
    ensures forall x :: x != h ==> GetConsensusState(m', cdc, x) == GetConsensusState(m, cdc, x)
    ensures GetClientState(m', cdc) == GetClientState(m, cdc)
  {
    forall x
      ensures HeightConsistent(m', cdc, x)
      ensures Stored(m', x) <==> Stored(m, x) || x == h
      ensures GetConsensusState(m', cdc, x) == if x == h then Ok(c) else GetConsensusState(m, cdc, x)
    {
      WrittenAtHeight(m, m', cdc, c, h, ph, pt, x);
    }
    assert At(m', ClientSlot) == At(m, ClientSlot);
  }

  lemma PutClientKeepsIndex(m: Store, cdc: Codec, c: ClientState)
    requires Indexed(m, cdc) && Lawful(cdc)
    ensures var m' := Put(m, ClientSlot, cdc.marshalClient(c));
            && Indexed(m', cdc)
            && GetClientState(m', cdc) == Some(c)
            && (forall x :: Stored(m', x) <==> Stored(m, x))
            && (forall x :: GetConsensusState(m', cdc, x) == GetConsensusState(m, cdc, x))
  {
    var m' := Put(m, ClientSlot, cdc.marshalClient(c));
    PutAt(m, ClientSlot, cdc.marshalClient(c));
    forall x ensures GetConsensusState(m', cdc, x) == GetConsensusState(m, cdc, x) {
      GetByAt(m', cdc, x);
      GetByAt(m, cdc, x);
    }
    forall x ensures HeightConsistent(m', cdc, x) {
      assert HeightConsistent(m, cdc, x);
    }
    PutKeepsIndexWellFormed(m, ClientSlot, cdc.marshalClient(c));
  }

  // ----- pruning -----

  /** The heights an ascending iteration over the index hands to its callback. */
  function IndexHeights(m: Store): (hs: seq<Height>)
    requires IndexWellFormed(m)
  {
    var ks := IndexKeys(m);
    seq(|ks|, i requires 0 <= i < |ks| => HeightFromIterationKey(ks[i]))
  }

  /** The heights the prune callback selects along an iteration. It stops at the first height whose
      consensus state cannot be read. */
  function Selected(m: Store, cdc: Codec, blockTime: int, hs: seq<Height>): seq<Height> {
    if hs == [] then [] else
    var r := GetConsensusState(m, cdc, hs[0]);
    if r.Err? then []
    else (if IsExpired(r.value, blockTime) then [hs[0]] else []) + Selected(m, cdc, blockTime, hs[1..])
  }

  ghost predicate ExpiredAt(m: Store, cdc: Codec, blockTime: int, h: Height) {
    Stored(m, h) && GetConsensusState(m, cdc, h).Ok? && IsExpired(StateAt(m, cdc, h), blockTime)
  }

  /** One call of the callback: stop, skip the height or collect it. */
  lemma SelectedNext(m: Store, cdc: Codec, blockTime: int, hs: seq<Height>, i: nat, heights: seq<Height>)
    requires i < |hs| && Selected(m, cdc, blockTime, hs) == heights + Selected(m, cdc, blockTime, hs[i..])
    ensures var r := GetConsensusState(m, cdc, hs[i]);
            if r.Err? then Selected(m, cdc, blockTime, hs) == heights
            else Selected(m, cdc, blockTime, hs) ==
                 (if IsExpired(r.value, blockTime) then heights + [hs[i]] else heights) + Selected(m, cdc, blockTime, hs[i + 1..])
  {
    assert hs[i..][1..] == hs[i + 1..];
    assert [] + Selected(m, cdc, blockTime, hs[i + 1..]) == Selected(m, cdc, blockTime, hs[i + 1..]);
  }

  /** The collecting half: run the callback along the iteration. */
  method CollectExpired(m: Store, cdc: Codec, blockTime: int, hs: seq<Height>) returns (heights: seq<Height>)
    ensures heights == Selected(m, cdc, blockTime, hs)
  {
    heights := [];
    var i := 0;
    while i < |hs|
      invariant 0 <= i <= |hs|
      invariant Selected(m, cdc, blockTime, hs) == heights + Selected(m, cdc, blockTime, hs[i..])
    {
      SelectedNext(m, cdc, blockTime, hs, i, heights);
      var r := GetConsensusState(m, cdc, hs[i]);
      if r.Err? {
        return;
      }
      if IsExpired(r.value, blockTime) {
        heights := heights + [hs[i]];
      }
      i := i + 1;
    }
  }

  method DeleteHeights(store: KVStore, heights: seq<Height>)
    modifies store
    ensures store.data == DropHeights(old(store.data), heights)
  {
    var i := 0;
    while i < |heights|
      invariant 0 <= i <= |heights|
      invariant DropHeights(old(store.data), heights) == DropHeights(store.data, heights[i..])
    {
      assert heights[i..][1..] == heights[i + 1..];
      DeleteHeight(store, heights[i]);
      i := i + 1;
    }
  }

  function Pruned(m: Store, cdc: Codec, blockTime: int): Store
    requires IndexWellFormed(m)
  {
    DropHeights(m, Selected(m, cdc, blockTime, IndexHeights(m)))
  }

  /** An index key that is not a height would make the source slice out of range, so the index must
      be well formed. */
  method PruneAllExpiredConsensusStates(store: KVStore, cdc: Codec, blockTime: int)
    requires IndexWellFormed(store.data)
    modifies store
    ensures store.data == Pruned(old(store.data), cdc, blockTime)
  {
    var heights := CollectExpired(store.data, cdc, blockTime, IndexHeights(store.data));
    DeleteHeights(store, heights);
  }

  /** When every height on the way can be read, the selection is the expired heights. */
  lemma {:induction false} SelectedExact(m: Store, cdc: Codec, blockTime: int, hs: seq<Height>)
    requires forall i :: 0 <= i < |hs| ==> Stored(m, hs[i]) && GetConsensusState(m, cdc, hs[i]).Ok?
    ensures forall x :: x in Selected(m, cdc, blockTime, hs) <==> x in hs && ExpiredAt(m, cdc, blockTime, x)
  {
    if hs != [] {
      SelectedExact(m, cdc, blockTime, hs[1..]);
      assert hs == [hs[0]] + hs[1..];
    }
  }

  /** Under the invariant an iteration visits every stored height once, in ascending order, and
      every visited state can be read. */
  lemma IterationVisitsStored(m: Store, cdc: Codec)
    requires Indexed(m, cdc)
    ensures var hs := IndexHeights(m);
            && AscendingHeights(hs)
            && (forall x :: x in hs <==> Stored(m, x))
            && (forall i :: 0 <= i < |hs| ==> Stored(m, hs[i]) && GetConsensusState(m, cdc, hs[i]).Ok?)
  {
    InOrderAscending(set k | k in m && ITERATION_PREFIX <= k);
    var hs := NamedHeights(m, cdc, IndexKeys(m));
    assert hs == IndexHeights(m);
    forall x ensures x in hs <==> Stored(m, x) { IndexedKey(m, cdc, x); }
  }

  lemma {:induction false} DropHeightsKeys(m: Store, hs: seq<Height>)
    ensures forall k :: k in DropHeights(m, hs) <==> k in m && forall h :: h in hs ==> k !in KeysOfHeight(h)
    ensures forall k :: k in DropHeights(m, hs) ==> DropHeights(m, hs)[k] == m[k]
  {
    if hs != [] {
      DropHeightsKeys(DropHeight(m, hs[0]), hs[1..]);
      assert hs == [hs[0]] + hs[1..];
    }
  }

  /** m' is m without the keys of the heights IsExpired selects; every other key keeps its value. */
  ghost predicate ExpiredRemoved(m: Store, m': Store, cdc: Codec, blockTime: int) {
    && (forall k :: k in m' ==> k in m && m'[k] == m[k])
    && (forall k :: k in m ==> (k !in m' <==> exists h :: ExpiredAt(m, cdc, blockTime, h) && k in KeysOfHeight(h)))
  }

  /** Pruning is exact. */
  lemma PruneExact(m: Store, cdc: Codec, blockTime: int)
    requires Indexed(m, cdc)
    ensures ExpiredRemoved(m, Pruned(m, cdc, blockTime), cdc, blockTime)
  {
    IterationVisitsStored(m, cdc);
    SelectedExact(m, cdc, blockTime, IndexHeights(m));
    DropHeightsKeys(m, Selected(m, cdc, blockTime, IndexHeights(m)));
  }

  lemma KeyOfHeightSlot(s: Slot, h: Height)
    ensures KeyOf(s) in KeysOfHeight(h) <==> !s.ClientSlot? && s.h == h
  {
    if KeyOf(s) == ConsensusStateKey(h) { KeySpaceInjective(s, ConsensusSlot(h)); }
    if KeyOf(s) == ProcessedTimeKey(h) { KeySpaceInjective(s, ProcessedTimeSlot(h)); }
    if KeyOf(s) == ProcessedHeightKey(h) { KeySpaceInjective(s, ProcessedHeightSlot(h)); }
    if KeyOf(s) == IterationKey(h) { KeySpaceInjective(s, IterationSlot(h)); }
  }

  lemma RemovedAt(m: Store, m': Store, cdc: Codec, blockTime: int, s: Slot)
    requires ExpiredRemoved(m, m', cdc, blockTime)
    ensures At(m', s) == if !s.ClientSlot? && ExpiredAt(m, cdc, blockTime, s.h) then None else At(m, s)
  {
    var k := KeyOf(s);
    forall h ensures k in KeysOfHeight(h) <==> !s.ClientSlot? && s.h == h { KeyOfHeightSlot(s, h); }
  }

  lemma RemovedAtHeight(m: Store, m': Store, cdc: Codec, blockTime: int, x: Height)
    requires HeightConsistent(m, cdc, x) && ExpiredRemoved(m, m', cdc, blockTime)
    ensures HeightConsistent(m', cdc, x)
    ensures Stored(m', x) <==> Stored(m, x) && !ExpiredAt(m, cdc, blockTime, x)
    ensures Stored(m', x) ==> GetConsensusState(m', cdc, x) == GetConsensusState(m, cdc, x)
  {
    RemovedAt(m, m', cdc, blockTime, ConsensusSlot(x));
    RemovedAt(m, m', cdc, blockTime, ProcessedTimeSlot(x));
    RemovedAt(m, m', cdc, blockTime, ProcessedHeightSlot(x));
    RemovedAt(m, m', cdc, blockTime, IterationSlot(x));
    GetByAt(m, cdc, x);
    GetByAt(m', cdc, x);
  }

  /** Pruning keeps the invariant; what is not expired reads as before. */
  lemma PruneKeepsIndex(m: Store, m': Store, cdc: Codec, blockTime: int)
    requires Indexed(m, cdc) && m' == Pruned(m, cdc, blockTime)
    ensures Indexed(m', cdc)
    ensures forall x :: Stored(m', x) <==> Stored(m, x) && !ExpiredAt(m, cdc, blockTime, x)
    ensures forall x :: Stored(m', x) ==> GetConsensusState(m', cdc, x) == GetConsensusState(m, cdc, x)
    ensures GetClientState(m', cdc) == GetClientState(m, cdc)
  {
    PruneExact(m, cdc, blockTime);
    forall x
      ensures HeightConsistent(m', cdc, x)
      ensures Stored(m', x) <==> Stored(m, x) && !ExpiredAt(m, cdc, blockTime, x)
      ensures Stored(m', x) ==> GetConsensusState(m', cdc, x) == GetConsensusState(m, cdc, x)
    {
      RemovedAtHeight(m, m', cdc, blockTime, x);
    }
    RemovedAt(m, m', cdc, blockTime, ClientSlot);
    assert At(m', ClientSlot) == At(m, ClientSlot);
  }
}
