/** The EVM-to-Celestia indexer: its two buckets, the processing of one Celestia height, and the
    interleavings of the live loop with any number of backfill goroutines. */
module Indexer {
  import opened Bytes
  import opened Keys

  datatype Blob = Blob(data: seq<byte>, commitment: seq<byte>)

  /** The blobs of the rollup's namespace at each Celestia height, and the EVM block number a blob
      decodes to. A blob that is no rollup block, has no transaction, or whose first transaction is
      no beacon block decodes to nothing. */
  datatype Celestia = Celestia(blobs: u64 -> seq<Blob>, number: seq<byte> -> Option<u64>)

  type Bucket = map<seq<byte>, seq<byte>>

  /** One mapping written to the index: block number, Celestia height, blob commitment. */
  datatype Write = Write(number: u64, height: u64, commitment: seq<byte>)

  function Value(w: Write): seq<byte> { LE8(w.height) + w.commitment }

  function Put(m: Bucket, w: Write): Bucket { m[LE8(w.number) := Value(w)] }

  // ----- lookups -----

  datatype Lookup = NotIndexed | InvalidLength | Indexed(height: u64, commitment: seq<byte>)

  function GetMapping(m: Bucket, n: u64): Lookup {
    if LE8(n) !in m then NotIndexed
    else
      var v := m[LE8(n)];
      if |v| < 8 then InvalidLength else Indexed(FromLE8(v[..8]), v[8..])
  }

  /** The last write for a block number in a log of writes. */
  function LastWrite(log: seq<Write>, n: u64): Option<Write> {
    if log == [] then None
    else
      var w := log[|log| - 1];
      if w.number == n then Some(w) else LastWrite(log[..|log| - 1], n)
  }

  function Replay(log: seq<Write>): Bucket {
    if log == [] then map[] else Put(Replay(log[..|log| - 1]), log[|log| - 1])
  }

  /** A lookup answers with the last write for the number, through the little-endian coding. */
  lemma {:induction false} LookupIsLastWrite(log: seq<Write>, n: u64)
    ensures GetMapping(Replay(log), n) ==
            var w := LastWrite(log, n); if w.None? then NotIndexed else Indexed(w.value.height, w.value.commitment)
    decreases |log|
  {
    if log != [] {
      var w, front := log[|log| - 1], log[..|log| - 1];
      LookupIsLastWrite(front, n);
      if w.number == n {
        assert Value(w)[..8] == LE8(w.height) && Value(w)[8..] == w.commitment;
        LE8RoundTrip(w.height);
      } else if LE8(w.number) == LE8(n) {
        LE8Injective(w.number, n);
        assert false;
      }
    }
  }

  lemma {:induction false} LastWriteFound(log: seq<Write>, w: Write)
    requires w in log
    ensures LastWrite(log, w.number).Some?
    decreases |log|
  {
    if log[|log| - 1] != w { LastWriteFound(log[..|log| - 1], w); }
  }

  lemma {:induction false} LastWriteInLog(log: seq<Write>, n: u64)
    requires LastWrite(log, n).Some?
    ensures LastWrite(log, n).value in log && LastWrite(log, n).value.number == n
    decreases |log|
  {
    if log[|log| - 1].number != n { LastWriteInLog(log[..|log| - 1], n); }
  }

  /** The HTTP lookup parses block numbers into sixteen bits. */
  datatype ApiReply = BadRequest | NotFound | ServerError | Inclusion(height: u64, commitment: seq<byte>)

  function InclusionHeight(m: Bucket, n: u64): ApiReply {
    if n >= 0x1_0000 then BadRequest
    else match GetMapping(m, n)
      case NotIndexed => NotFound
      case InvalidLength => ServerError
      case Indexed(h, c) => Inclusion(h, c)
  }

  /** It answers for an indexed block exactly when the block number is below 65536, with the Celestia
      height and the commitment of the last write; other numbers are bad requests, and blocks that are
      not indexed are not found. */
  lemma ApiAnswersSmallNumbers(log: seq<Write>, n: u64)
    ensures InclusionHeight(Replay(log), n) ==
            var w := LastWrite(log, n);
            if n >= 65536 then BadRequest else if w.None? then NotFound else Inclusion(w.value.height, w.value.commitment)
  {
    LookupIsLastWrite(log, n);
  }

  // ----- processing one height, on its own -----

  /** The writes that processing some blobs at a height makes; `ok(i)` says whether the store of
      the i-th blob's mapping succeeds. A failed store is logged and skipped. */
  function WritesOf(c: Celestia, h: u64, blobs: seq<Blob>, ok: nat -> bool): seq<Write> {
    if blobs == [] then []
    else WritesOf(c, h, blobs[..|blobs| - 1], ok) + WriteOf(c, h, blobs[|blobs| - 1], ok(|blobs| - 1))
  }

  function WriteOf(c: Celestia, h: u64, b: Blob, ok: bool): seq<Write> {
    var n := c.number(b.data);
    if n.None? || !ok then [] else [Write(n.value, h, b.commitment)]
  }

  lemma ReplayAppend(log: seq<Write>, w: Write)
    ensures Replay(log + [w]) == Put(Replay(log), w)
  {
    assert (log + [w])[..|log|] == log;
  }

  lemma WritesNext(c: Celestia, h: u64, blobs: seq<Blob>, ok: nat -> bool, i: nat, log: seq<Write>)
    requires i < |blobs|
    ensures log + WritesOf(c, h, blobs[..i + 1], ok) == (log + WritesOf(c, h, blobs[..i], ok)) + WriteOf(c, h, blobs[i], ok(i))
  {
    assert blobs[..i + 1][..i] == blobs[..i];
  }

  class Database {
    var mappings: Bucket
    var lastProcessed: Option<seq<byte>>

    method StoreMapping(w: Write)
      modifies this`mappings
      ensures mappings == old(mappings)[LE8(w.number) := LE8(w.height) + w.commitment]
    {
      mappings := mappings[LE8(w.number) := LE8(w.height) + w.commitment];
    }

    method UpdateLastProcessedHeight(h: u64)
      modifies this`lastProcessed
      ensures lastProcessed == Some(Decimal(h))
    {
      lastProcessed := Some(Decimal(h));
    }

    method HandleBlob(c: Celestia, h: u64, b: Blob, ok: bool, ghost log: seq<Write>)
      requires mappings == Replay(log)
      modifies this`mappings
      ensures mappings == Replay(log + WriteOf(c, h, b, ok))
    {
      var n := c.number(b.data);
      assert log + [] == log;
      if n.Some? && ok {
        StoreMapping(Write(n.value, h, b.commitment));
        ReplayAppend(log, Write(n.value, h, b.commitment));
      }
    }

    /** `fetched` is None when the node does not answer; then nothing changes. `recorded` says
        whether the last processed height can be stored. */
    method ProcessHeight(c: Celestia, h: u64, fetched: Option<seq<Blob>>, ok: nat -> bool, recorded: bool, ghost log: seq<Write>)
      requires mappings == Replay(log)
      modifies this
      ensures mappings == if fetched.None? then old(mappings) else Replay(log + WritesOf(c, h, fetched.value, ok))
      ensures lastProcessed == if fetched.Some? && recorded then Some(Decimal(h)) else old(lastProcessed)
    {
      if fetched.None? {
        return;
      }
      var blobs := fetched.value;
      ghost var done := log;
      assert log + [] == log;
      for i := 0 to |blobs|
        invariant mappings == Replay(done) && done == log + WritesOf(c, h, blobs[..i], ok)
        invariant lastProcessed == old(lastProcessed)
      {
        HandleBlob(c, h, blobs[i], ok(i), done);
        WritesNext(c, h, blobs, ok, i, log);
        done := done + WriteOf(c, h, blobs[i], ok(i));
      }
      assert blobs[..|blobs|] == blobs;
      if recorded {
        UpdateLastProcessedHeight(h);
      }
    }
  }

  // ----- interleavings -----

  /** A goroutine between heights, or part-way through the blobs of one. */
  datatype Worker = Idle | Busy(height: u64, blobs: seq<Blob>, next: nat)

  /** The database, the workers, and the history of writes and of finished heights. */
  datatype State = State(
    mappings: Bucket,
    lastProcessed: Option<seq<byte>>,
    workers: map<nat, Worker>,
    log: seq<Write>,
    finished: seq<u64>)

  /** What happens in one atomic step. Workers are the live loop and the backfill goroutines; an
      idle worker may take up any height. A restart ends all workers, whatever they were doing, and
      keeps the database. */
  datatype Event =
    | Restart
    | Spawn(id: nat)
    | Fetch(id: nat, height: u64)
    | Handle(id: nat, stored: bool)
    | Finish(id: nat, stored: bool)

  const INITIAL: State := State(map[], None, map[], [], [])

  function Step(c: Celestia, s: State, e: Event): State {
    match e
    case Restart => s.(workers := map[])
    case Spawn(id) => if id in s.workers then s else s.(workers := s.workers[id := Idle])
    case Fetch(id, h) =>
      if id !in s.workers || s.workers[id].Busy? then s
      else s.(workers := s.workers[id := Busy(h, c.blobs(h), 0)])
    case Handle(id, stored) =>
      if id !in s.workers || s.workers[id].Idle? || s.workers[id].next >= |s.workers[id].blobs| then s
      else HandleNext(c, s, id, stored)
    case Finish(id, stored) =>
      if id !in s.workers || s.workers[id].Idle? || s.workers[id].next < |s.workers[id].blobs| then s
      else FinishHeight(s, id, stored)
  }

  /** Skip an undecodable blob, or store its mapping in one transaction. */
  function HandleNext(c: Celestia, s: State, id: nat, stored: bool): State
    requires id in s.workers && s.workers[id].Busy? && s.workers[id].next < |s.workers[id].blobs|
  {
    var w := s.workers[id];
    var writes := WriteOf(c, w.height, w.blobs[w.next], stored);
    State(if writes == [] then s.mappings else Put(s.mappings, writes[0]), s.lastProcessed,
          s.workers[id := w.(next := w.next + 1)], s.log + writes, s.finished)
  }

  /** Record the height as processed in one transaction. */
  function FinishHeight(s: State, id: nat, stored: bool): State
    requires id in s.workers && s.workers[id].Busy?
  {
    var s' := s.(workers := s.workers[id := Idle]);
    if !stored then s'
    else s'.(lastProcessed := Some(Decimal(s.workers[id].height)), finished := s.finished + [s.workers[id].height])
  }

  function RunFrom(c: Celestia, s: State, events: seq<Event>): State {
    if events == [] then s else Step(c, RunFrom(c, s, events[..|events| - 1]), events[|events| - 1])
  }

  function Run(c: Celestia, events: seq<Event>): State { RunFrom(c, INITIAL, events) }

  // ----- what every interleaving keeps -----

  /** A blob at this height decodes to this number and has this commitment. */
  ghost predicate Justified(c: Celestia, w: Write) {
    exists b :: b in c.blobs(w.height) && c.number(b.data) == Some(w.number) && b.commitment == w.commitment
  }

  ghost predicate WorkerSound(c: Celestia, w: Worker) {
    w.Busy? ==> w.blobs == c.blobs(w.height) && w.next <= |w.blobs|
  }

  /** The index is the replay of the writes so far, and every write is justified. */
  ghost predicate IndexSound(c: Celestia, mappings: Bucket, log: seq<Write>) {
    mappings == Replay(log) && forall i :: 0 <= i < |log| ==> Justified(c, log[i])
  }

  ghost predicate WorkersSound(c: Celestia, workers: map<nat, Worker>) {
    forall id :: id in workers ==> WorkerSound(c, workers[id])
  }

  /** The last processed height is the last one finished. */
  ghost predicate LastSound(last: Option<seq<byte>>, finished: seq<u64>) {
    last == if finished == [] then None else Some(Decimal(finished[|finished| - 1]))
  }

  ghost predicate Sound(c: Celestia, s: State) {
    IndexSound(c, s.mappings, s.log) && WorkersSound(c, s.workers) && LastSound(s.lastProcessed, s.finished)
  }

  lemma WriteKeepsIndexSound(c: Celestia, mappings: Bucket, log: seq<Write>, w: Write)
    requires IndexSound(c, mappings, log) && Justified(c, w)
    ensures IndexSound(c, Put(mappings, w), log + [w])
  {
    ReplayAppend(log, w);
  }

  lemma HandleKeepsSound(c: Celestia, s: State, id: nat, stored: bool)
    requires Sound(c, s) && id in s.workers && s.workers[id].Busy? && s.workers[id].next < |s.workers[id].blobs|
    ensures Sound(c, HandleNext(c, s, id, stored))
  {
    var w := s.workers[id];
    var b := w.blobs[w.next];
    var writes := WriteOf(c, w.height, b, stored);
    assert WorkerSound(c, w);
    assert b in c.blobs(w.height);
    if writes == [] {
      assert s.log + writes == s.log;
    } else {
      assert Justified(c, writes[0]);
      WriteKeepsIndexSound(c, s.mappings, s.log, writes[0]);
      assert writes == [writes[0]];
    }
  }

  lemma FinishKeepsSound(c: Celestia, s: State, id: nat, stored: bool)
    requires Sound(c, s) && id in s.workers && s.workers[id].Busy?
    ensures Sound(c, FinishHeight(s, id, stored))
  {
  }

  lemma StepKeepsSound(c: Celestia, s: State, e: Event)
    requires Sound(c, s)
    ensures Sound(c, Step(c, s, e))
  {
    if Step(c, s, e) != s {
      match e
      case Handle(id, stored) => HandleKeepsSound(c, s, id, stored);
      case Finish(id, stored) => FinishKeepsSound(c, s, id, stored);
      case _ =>
    }
  }

  /** In every interleaving, store errors included: the index is the replay of the writes so far,
      every write is justified by a blob at its height, and the last processed height is the last
      one finished. */
  lemma {:induction false} EveryRunSound(c: Celestia, events: seq<Event>)
    ensures Sound(c, Run(c, events))
    decreases |events|
  {
    if events != [] {
      EveryRunSound(c, events[..|events| - 1]);
      StepKeepsSound(c, Run(c, events[..|events| - 1]), events[|events| - 1]);
    }
  }

  /** So every answer of the index is justified. */
  lemma EveryAnswerJustified(c: Celestia, events: seq<Event>, n: u64)
    requires GetMapping(Run(c, events).mappings, n) != NotIndexed
    ensures GetMapping(Run(c, events).mappings, n).Indexed?
    ensures var a := GetMapping(Run(c, events).mappings, n); Justified(c, Write(n, a.height, a.commitment))
  {
    var s := Run(c, events);
    EveryRunSound(c, events);
    LookupIsLastWrite(s.log, n);
    LastWriteInLog(s.log, n);
    var w := LastWrite(s.log, n).value;
    var i :| 0 <= i < |s.log| && s.log[i] == w;
    assert Justified(c, s.log[i]);
    assert w == Write(n, w.height, w.commitment);
  }

  // ----- without store errors -----

  ghost predicate NoStoreErrors(events: seq<Event>) {
    forall i :: 0 <= i < |events| && events[i].Handle? ==> events[i].stored
  }

  /** The decodable blobs among the first k at a height have been written. */
  ghost predicate StoredUpTo(c: Celestia, log: seq<Write>, h: u64, k: nat)
    requires k <= |c.blobs(h)|
  {
    forall i :: 0 <= i < k ==> BlobStored(c, log, h, c.blobs(h)[i])
  }

  ghost predicate BlobStored(c: Celestia, log: seq<Write>, h: u64, b: Blob) {
    c.number(b.data).Some? ==> Write(c.number(b.data).value, h, b.commitment) in log
  }

  ghost predicate AllStored(c: Celestia, log: seq<Write>, h: u64) {
    StoredUpTo(c, log, h, |c.blobs(h)|)
  }

  ghost predicate Complete(c: Celestia, s: State) {
    && (forall id :: id in s.workers && s.workers[id].Busy? ==>
          s.workers[id].next <= |c.blobs(s.workers[id].height)| && StoredUpTo(c, s.log, s.workers[id].height, s.workers[id].next))
    && (forall i :: 0 <= i < |s.finished| ==> AllStored(c, s.log, s.finished[i]))
  }

  lemma StoredMonotone(c: Celestia, log: seq<Write>, more: seq<Write>, h: u64, k: nat)
    requires k <= |c.blobs(h)| && StoredUpTo(c, log, h, k)
    ensures StoredUpTo(c, log + more, h, k)
  {
    forall i | 0 <= i < k ensures BlobStored(c, log + more, h, c.blobs(h)[i]) {
      assert BlobStored(c, log, h, c.blobs(h)[i]);
    }
  }

  /** The worker that handled a blob has one more stored. */
  lemma StoredOneMore(c: Celestia, log: seq<Write>, h: u64, k: nat)
    requires k < |c.blobs(h)| && StoredUpTo(c, log, h, k)
    ensures StoredUpTo(c, log + WriteOf(c, h, c.blobs(h)[k], true), h, k + 1)
  {
    StoredMonotone(c, log, WriteOf(c, h, c.blobs(h)[k], true), h, k);
    assert BlobStored(c, log + WriteOf(c, h, c.blobs(h)[k], true), h, c.blobs(h)[k]);
  }

  lemma HandleKeepsComplete(c: Celestia, s: State, id: nat)
    requires Sound(c, s) && Complete(c, s)
    requires id in s.workers && s.workers[id].Busy? && s.workers[id].next < |s.workers[id].blobs|
    ensures Complete(c, HandleNext(c, s, id, true))
  {
    var w := s.workers[id];
    assert WorkerSound(c, w);
    var s' := HandleNext(c, s, id, true);
    var writes := WriteOf(c, w.height, w.blobs[w.next], true);
    StoredOneMore(c, s.log, w.height, w.next);
    forall j | j in s'.workers && s'.workers[j].Busy?
      ensures s'.workers[j].next <= |c.blobs(s'.workers[j].height)|
      ensures StoredUpTo(c, s'.log, s'.workers[j].height, s'.workers[j].next)
    {
      if j != id { StoredMonotone(c, s.log, writes, s.workers[j].height, s.workers[j].next); }
    }
    forall i | 0 <= i < |s'.finished| ensures AllStored(c, s'.log, s'.finished[i]) {
      assert AllStored(c, s.log, s.finished[i]);
      StoredMonotone(c, s.log, writes, s.finished[i], |c.blobs(s.finished[i])|);
    }
  }

  lemma FinishKeepsComplete(c: Celestia, s: State, id: nat, stored: bool)
    requires Sound(c, s) && Complete(c, s)
    requires id in s.workers && s.workers[id].Busy? && s.workers[id].next >= |s.workers[id].blobs|
    ensures Complete(c, FinishHeight(s, id, stored))
  {
    assert WorkerSound(c, s.workers[id]);
  }

  lemma StepKeepsComplete(c: Celestia, s: State, e: Event)
    requires Sound(c, s) && Complete(c, s) && (e.Handle? ==> e.stored)
    ensures Complete(c, Step(c, s, e))
  {
    if Step(c, s, e) != s {
      match e
      case Handle(id, _) => HandleKeepsComplete(c, s, id);
      case Finish(id, stored) => FinishKeepsComplete(c, s, id, stored);
      case _ =>
    }
  }

  lemma {:induction false} RunStaysComplete(c: Celestia, events: seq<Event>)
    requires NoStoreErrors(events)
    ensures Complete(c, Run(c, events))
    decreases |events|
  {
    if events != [] {
      var before := events[..|events| - 1];
      RunStaysComplete(c, before);
      EveryRunSound(c, before);
      StepKeepsComplete(c, Run(c, before), events[|events| - 1]);
    }
  }

  // ----- exactly what is stored -----

  /** This event makes this write: a successful store by a worker busy at the height, whose next
      blob decodes to the number and has the commitment. */
  ghost predicate Stores(c: Celestia, s: State, e: Event, w: Write) {
    && e.Handle? && e.stored && e.id in s.workers && s.workers[e.id].Busy?
    && var b := s.workers[e.id];
      && b.height == w.height && b.next < |b.blobs|
      && c.number(b.blobs[b.next].data) == Some(w.number) && b.blobs[b.next].commitment == w.commitment
  }

  ghost predicate StoredBy(c: Celestia, events: seq<Event>, i: int, w: Write) {
    0 <= i < |events| && Stores(c, Run(c, events[..i]), events[i], w)
  }

  lemma StepWrites(c: Celestia, s: State, e: Event, w: Write)
    ensures w in Step(c, s, e).log <==> w in s.log || Stores(c, s, e, w)
  {
  }

  lemma StoredByKept(c: Celestia, events: seq<Event>, n: nat, i: int, w: Write)
    requires n <= |events|
    ensures StoredBy(c, events[..n], i, w) <==> i < n && StoredBy(c, events, i, w)
  {
    if 0 <= i < n { assert events[..n][..i] == events[..i]; }
  }

  /** In every interleaving a write is in the log if and only if some event made it. */
  lemma {:induction false} LogExact(c: Celestia, events: seq<Event>, w: Write)
    ensures w in Run(c, events).log <==> exists i :: StoredBy(c, events, i, w)
    decreases |events|
  {
    if events != [] {
      var n := |events| - 1;
      LogExact(c, events[..n], w);
      StepWrites(c, Run(c, events[..n]), events[n], w);
      forall i ensures StoredBy(c, events[..n], i, w) <==> i < n && StoredBy(c, events, i, w) {
        StoredByKept(c, events, n, i, w);
      }
      assert StoredBy(c, events, n, w) <==> Stores(c, Run(c, events[..n]), events[n], w);
    }
  }

  /** This event records this height as processed: a successful update by a worker that has handled
      all blobs of the height. */
  ghost predicate Records(s: State, e: Event, h: u64) {
    && e.Finish? && e.stored && e.id in s.workers && s.workers[e.id].Busy?
    && s.workers[e.id].height == h && s.workers[e.id].next >= |s.workers[e.id].blobs|
  }

  ghost predicate RecordedBy(c: Celestia, events: seq<Event>, i: int, h: u64) {
    0 <= i < |events| && Records(Run(c, events[..i]), events[i], h)
  }

  /** Event i recorded the height, and no later event recorded any. */
  ghost predicate LastRecordedBy(c: Celestia, events: seq<Event>, i: int, h: u64) {
    RecordedBy(c, events, i, h) && forall j, x: u64 :: j > i ==> !RecordedBy(c, events, j, x)
  }

  lemma StepRecords(c: Celestia, s: State, e: Event, h: u64)
    ensures Records(s, e, h) ==> Step(c, s, e).lastProcessed == Some(Decimal(h))
    ensures (forall x: u64 :: !Records(s, e, x)) ==> Step(c, s, e).lastProcessed == s.lastProcessed
    ensures h in Step(c, s, e).finished <==> h in s.finished || Records(s, e, h)
  {
    if (forall x: u64 :: !Records(s, e, x)) && e.Finish? && e.id in s.workers && s.workers[e.id].Busy? {
      assert !Records(s, e, s.workers[e.id].height);
    }
  }

  lemma RecordedKept(c: Celestia, events: seq<Event>, n: nat, i: int, h: u64)
    requires n <= |events|
    ensures RecordedBy(c, events[..n], i, h) <==> i < n && RecordedBy(c, events, i, h)
  {
    if 0 <= i < n { assert events[..n][..i] == events[..i]; }
  }

  /** In every interleaving a height counts as finished if and only if some event recorded it. */
  lemma {:induction false} FinishedExact(c: Celestia, events: seq<Event>, h: u64)
    ensures h in Run(c, events).finished <==> exists i :: RecordedBy(c, events, i, h)
    decreases |events|
  {
    if events != [] {
      var n := |events| - 1;
      FinishedExact(c, events[..n], h);
      StepRecords(c, Run(c, events[..n]), events[n], h);
      forall i ensures RecordedBy(c, events[..n], i, h) <==> i < n && RecordedBy(c, events, i, h) {
        RecordedKept(c, events, n, i, h);
      }
      assert RecordedBy(c, events, n, h) <==> Records(Run(c, events[..n]), events[n], h);
    }
  }

  /** The last processed height is the one the last recording event recorded, in decimal, and there is
      none exactly when no event recorded any. */
  lemma {:induction false} LastProcessedExact(c: Celestia, events: seq<Event>)
    ensures forall i, h: u64 :: LastRecordedBy(c, events, i, h) ==> Run(c, events).lastProcessed == Some(Decimal(h))
    ensures Run(c, events).lastProcessed.None? <==> forall i, h: u64 :: !RecordedBy(c, events, i, h)
    decreases |events|
  {
    if events != [] {
      var n := |events| - 1;
      var s := Run(c, events[..n]);
      LastProcessedExact(c, events[..n]);
      forall i, h: u64 ensures RecordedBy(c, events[..n], i, h) <==> i < n && RecordedBy(c, events, i, h) {
        RecordedKept(c, events, n, i, h);
      }
      forall h: u64 ensures RecordedBy(c, events, n, h) <==> Records(s, events[n], h) {}
      if h: u64 :| Records(s, events[n], h) {
        StepRecords(c, s, events[n], h);
        assert RecordedBy(c, events, n, h);
      } else {
        StepRecords(c, s, events[n], 0);
        forall i, h: u64 | LastRecordedBy(c, events, i, h) ensures LastRecordedBy(c, events[..n], i, h) {}
      }
    }
  }

  /** Each decodable blob of the height was stored by some event. */
  ghost predicate EachBlobHandled(c: Celestia, events: seq<Event>, h: u64) {
    forall j :: 0 <= j < |c.blobs(h)| ==> BlobHandled(c, events, h, c.blobs(h)[j])
  }

  ghost predicate BlobHandled(c: Celestia, events: seq<Event>, h: u64, b: Blob) {
    c.number(b.data).Some? ==> exists i :: StoredBy(c, events, i, Write(c.number(b.data).value, h, b.commitment))
  }

  /** In every interleaving a height's decodable blobs are all stored if and only if each of them has
      its successful store event. A height recorded as processed has them all when no store fails. */
  lemma FinishedHeightsComplete(c: Celestia, events: seq<Event>, h: u64)
    ensures AllStored(c, Run(c, events).log, h) <==> EachBlobHandled(c, events, h)
    ensures NoStoreErrors(events) && h in Run(c, events).finished ==> AllStored(c, Run(c, events).log, h)
  {
    var log := Run(c, events).log;
    forall j | 0 <= j < |c.blobs(h)|
      ensures BlobStored(c, log, h, c.blobs(h)[j]) <==> BlobHandled(c, events, h, c.blobs(h)[j])
    {
      var b := c.blobs(h)[j];
      if c.number(b.data).Some? { LogExact(c, events, Write(c.number(b.data).value, h, b.commitment)); }
    }
    if NoStoreErrors(events) { RunStaysComplete(c, events); }
  }

  /** In every interleaving a block can be looked up if and only if some event stored a blob that
      decodes to it, at whatever height. */
  lemma IndexedExactly(c: Celestia, events: seq<Event>, n: u64)
    ensures GetMapping(Run(c, events).mappings, n).Indexed? <==>
            exists i, w: Write :: w.number == n && StoredBy(c, events, i, w)
  {
    var s := Run(c, events);
    EveryRunSound(c, events);
    LookupIsLastWrite(s.log, n);
    if LastWrite(s.log, n).Some? {
      LastWriteInLog(s.log, n);
      LogExact(c, events, LastWrite(s.log, n).value);
    }
    if i, w: Write :| w.number == n && StoredBy(c, events, i, w) {
      LogExact(c, events, w);
      LastWriteFound(s.log, w);
    }
  }

  /** The last processed height, as the indexer reads it back: zero when there is none. */
  function GetLastProcessedHeight(s: State): int {
    if s.lastProcessed.None? then 0 else ParseDecimal(s.lastProcessed.value)
  }

  /** It is the height of the last recording event, and zero when there was none. */
  lemma LastHeightRead(c: Celestia, events: seq<Event>)
    ensures forall i, h: u64 :: LastRecordedBy(c, events, i, h) ==> GetLastProcessedHeight(Run(c, events)) == h
    ensures (forall i, h: u64 :: !RecordedBy(c, events, i, h)) ==> GetLastProcessedHeight(Run(c, events)) == 0
  {
    LastProcessedExact(c, events);
    forall i, h: u64 | LastRecordedBy(c, events, i, h) ensures GetLastProcessedHeight(Run(c, events)) == h {
      ParseOfDecimal(h);
    }
  }

  /** Then every block in the last processed height can be looked up. */
  lemma LastProcessedIsIndexed(c: Celestia, events: seq<Event>, h: u64, b: Blob)
    requires NoStoreErrors(events) && Run(c, events).lastProcessed.Some?
    requires h == GetLastProcessedHeight(Run(c, events)) && b in c.blobs(h) && c.number(b.data).Some?
    ensures GetMapping(Run(c, events).mappings, c.number(b.data).value).Indexed?
  {
    EveryRunSound(c, events);
    RunStaysComplete(c, events);
    StoredIsIndexed(c, Run(c, events), h, b);
  }

  lemma StoredIsIndexed(c: Celestia, s: State, h: u64, b: Blob)
    requires Sound(c, s) && Complete(c, s) && s.lastProcessed.Some?
    requires h == GetLastProcessedHeight(s) && b in c.blobs(h) && c.number(b.data).Some?
    ensures GetMapping(s.mappings, c.number(b.data).value).Indexed?
  {
    var f := s.finished[|s.finished| - 1];
    assert h == f by { ParseOfDecimal(f); }
    assert AllStored(c, s.log, h);
    var i :| 0 <= i < |c.blobs(h)| && c.blobs(h)[i] == b;
    assert BlobStored(c, s.log, h, c.blobs(h)[i]);
    LastWriteFound(s.log, Write(c.number(b.data).value, h, b.commitment));
    LookupIsLastWrite(s.log, c.number(b.data).value);
  }

  // ----- one worker on its own -----

  function Handles(id: nat, ok: nat -> bool, k: nat): seq<Event> {
    if k == 0 then [] else Handles(id, ok, k - 1) + [Handle(id, ok(k - 1))]
  }

  lemma HandlesLast(c: Celestia, s: State, id: nat, ok: nat -> bool, k: nat)
    requires k > 0
    ensures RunFrom(c, s, Handles(id, ok, k)) == Step(c, RunFrom(c, s, Handles(id, ok, k - 1)), Handle(id, ok(k - 1)))
  {
    var events := Handles(id, ok, k);
    assert events[..|events| - 1] == Handles(id, ok, k - 1);
  }

  /** From s to s' worker id has handled the first k blobs at height h and nothing else happened. */
  ghost predicate WorkedUpTo(c: Celestia, s: State, s': State, id: nat, h: u64, ok: nat -> bool, k: nat)
    requires k <= |c.blobs(h)|
  {
    && s'.log == s.log + WritesOf(c, h, c.blobs(h)[..k], ok)
    && id in s'.workers && s'.workers[id] == Busy(h, c.blobs(h), k)
    && s'.lastProcessed == s.lastProcessed && s'.finished == s.finished
  }

  lemma NothingHandled(c: Celestia, s: State, id: nat, h: u64, ok: nat -> bool)
    requires id in s.workers && s.workers[id] == Busy(h, c.blobs(h), 0)
    ensures WorkedUpTo(c, s, s, id, h, ok, 0)
  {
    assert c.blobs(h)[..0] == [] && s.log + [] == s.log;
  }

  lemma HandleOne(c: Celestia, s: State, s1: State, s2: State, id: nat, h: u64, ok: nat -> bool, k: nat)
    requires 0 < k <= |c.blobs(h)| && WorkedUpTo(c, s, s1, id, h, ok, k - 1) && s2 == Step(c, s1, Handle(id, ok(k - 1)))
    ensures WorkedUpTo(c, s, s2, id, h, ok, k)
  {
    WritesNext(c, h, c.blobs(h), ok, k - 1, s.log);
  }

  /** A worker that is not interrupted leaves the same log as processing the height in one go. */
  lemma {:induction false} UninterruptedWork(c: Celestia, s: State, id: nat, h: u64, ok: nat -> bool, k: nat, s': State)
    requires id in s.workers && s.workers[id] == Busy(h, c.blobs(h), 0) && k <= |c.blobs(h)|
    requires s' == RunFrom(c, s, Handles(id, ok, k))
    ensures WorkedUpTo(c, s, s', id, h, ok, k)
    decreases k
  {
    if k == 0 {
      NothingHandled(c, s, id, h, ok);
    } else {
      var s1 := RunFrom(c, s, Handles(id, ok, k - 1));
      UninterruptedWork(c, s, id, h, ok, k - 1, s1);
      HandlesLast(c, s, id, ok, k);
      HandleOne(c, s, s1, s', id, h, ok, k);
    }
  }

  /** A store error is enough to lose a blob of a height that is then recorded as processed. */
  lemma StoreErrorLosesBlob(c: Celestia, h: u64, b: Blob, n: u64)
    requires c.blobs(h) == [b] && c.number(b.data) == Some(n)
    ensures var s := Run(c, [Spawn(0), Fetch(0, h), Handle(0, false), Finish(0, true)]);
            s.finished == [h] && GetMapping(s.mappings, n) == NotIndexed
  {
    var e1, e2, e3, e4 := Spawn(0), Fetch(0, h), Handle(0, false), Finish(0, true);
    assert [e1, e2, e3, e4][..3] == [e1, e2, e3] && [e1, e2, e3][..2] == [e1, e2] && [e1, e2][..1] == [e1] && [e1][..0] == [];
    assert RunFrom(c, INITIAL, []) == INITIAL;
    assert RunFrom(c, INITIAL, [e1]) == Step(c, INITIAL, e1);
    assert RunFrom(c, INITIAL, [e1, e2]) == Step(c, RunFrom(c, INITIAL, [e1]), e2);
    assert RunFrom(c, INITIAL, [e1, e2, e3]) == Step(c, RunFrom(c, INITIAL, [e1, e2]), e3);
  }
}
