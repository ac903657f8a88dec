/** The Groth16 light client as a state machine over its store: initialisation, header
    verification, updates and pruning, with the invariants every run keeps. */
module LightClient {
  import opened Bytes
  import opened Keys
  import opened ClientStore
  import opened ClientWrites

  datatype Header = Header(
    stateTransitionProof: seq<byte>,
    publicValues: seq<byte>,
    trustedHeight: i64,
    newestStateRoot: seq<byte>,
    newestHeight: u64,
    timestamp: int)

  datatype ClientMessage = HeaderMessage(header: Header) | OtherMessage

  /** The request to the remote verifier, and its answer at the time it is asked. */
  datatype VerifyRequest = VerifyRequest(proof: seq<byte>, publicInputs: seq<byte>, vkeyHash: string, groth16Vk: seq<byte>)
  datatype VerifyReply = RpcError | Reply(success: bool)
  type Verifier = VerifyRequest -> VerifyReply

  /** Height and time of the chain the client lives on. */
  datatype Context = Context(selfHeight: Height, blockTime: int)

  datatype ClientError =
    | InvalidConsensusType | InvalidClientType | InvalidHeader | NoTrustedState(cause: StoreError)
    | UnsupportedMessage | ProverUnreachable | ProofRejected

  function HeaderHeight(hd: Header): Height { Height(0, hd.newestHeight) }

  function TrustedHeight(hd: Header): Height { Height(0, ToU64(hd.trustedHeight)) }

  function LatestHeight(cs: ClientState): Height { Height(0, cs.latestHeight) }

  function Request(cs: ClientState, hd: Header): VerifyRequest {
    VerifyRequest(hd.stateTransitionProof, hd.publicValues, cs.stateTransitionVerifierKey, cs.groth16Vk)
  }

  /** The verifier's answer for the header's own proof and public values, under these keys. */
  ghost function Answer(verifier: Verifier, hd: Header, vkeyHash: string, groth16Vk: seq<byte>): VerifyReply {
    verifier(VerifyRequest(proof := hd.stateTransitionProof, publicInputs := hd.publicValues,
                           vkeyHash := vkeyHash, groth16Vk := groth16Vk))
  }

  /** Why an update that does not succeed is refused. */
  ghost function Refusal(cs: ClientState, msg: ClientMessage, verifier: Verifier): ClientError {
    if msg.OtherMessage? then UnsupportedMessage
    else if Answer(verifier, msg.header, cs.stateTransitionVerifierKey, cs.groth16Vk).RpcError? then ProverUnreachable
    else ProofRejected
  }

  ghost predicate Verified(verifier: Verifier, hd: Header, vkeyHash: string, groth16Vk: seq<byte>) {
    Answer(verifier, hd, vkeyHash, groth16Vk) == Reply(true)
  }

  /** What it is for a proof to prove public values under a program key and a Groth16 key. */
  type Statement = (seq<byte>, seq<byte>, string, seq<byte>) -> bool

  /** A verifier that answers yes exactly for what is proven. */
  ghost predicate Decides(verifier: Verifier, proves: Statement) {
    forall r :: verifier(r) == Reply(true) <==> proves(r.proof, r.publicInputs, r.vkeyHash, r.groth16Vk)
  }

  function NewState(hd: Header): ConsensusState { ConsensusState(hd.timestamp, hd.newestStateRoot) }

  // ----- checks -----

  function VerifyHeader(m: Store, cdc: Codec, hd: Header): Result<(), ClientError> {
    var trusted := GetConsensusState(m, cdc, TrustedHeight(hd));
    if trusted.Err? then Err(NoTrustedState(trusted.error))
    else if !Before(TrustedHeight(hd), HeaderHeight(hd)) then Err(InvalidHeader)
    else Ok(())
  }

  function VerifyClientMessage(m: Store, cdc: Codec, msg: ClientMessage): Result<(), ClientError> {
    match msg
    case HeaderMessage(hd) => VerifyHeader(m, cdc, hd)
    case OtherMessage => Err(InvalidClientType)
  }

  // ----- transitions -----

  function Initialized(m: Store, cdc: Codec, cs: ClientState, c: ConsensusState, ctx: Context): Store {
    Put(PutHeight(m, cdc, c, LatestHeight(cs), ctx.selfHeight, Wrap(ctx.blockTime)), ClientSlot, cdc.marshalClient(cs))
  }

  function Updated(m: Store, cdc: Codec, cs: ClientState, hd: Header, ctx: Context): Store {
    Put(PutHeight(m, cdc, NewState(hd), HeaderHeight(hd), ctx.selfHeight, Wrap(ctx.blockTime)),
        ClientSlot, cdc.marshalClient(cs.(latestHeight := hd.newestHeight)))
  }

  /** `initial` is None when the initial consensus state is not a Groth16 one. */
  method Initialize(store: KVStore, cdc: Codec, cs: ClientState, initial: Option<ConsensusState>, ctx: Context)
    returns (r: Result<(), ClientError>)
    modifies store
    ensures r.Ok? <==> initial.Some?
    ensures r.Err? ==> r.error == InvalidConsensusType
    ensures store.data == if r.Ok? then Initialized(old(store.data), cdc, cs, initial.value, ctx) else old(store.data)
  {
    if initial.None? {
      return Err(InvalidConsensusType);
    }
    SetConsensusState(store, cdc, initial.value, LatestHeight(cs));
    SetConsensusMetadata(store, LatestHeight(cs), ctx.selfHeight, Wrap(ctx.blockTime));
    SetClientState(store, cdc, cs);
    r := Ok(());
  }

  method UpdateState(store: KVStore, cdc: Codec, cs: ClientState, msg: ClientMessage, verifier: Verifier, ctx: Context)
    returns (r: Result<seq<Height>, ClientError>)
    modifies store
    ensures r.Ok? <==> msg.HeaderMessage? && Verified(verifier, msg.header, cs.stateTransitionVerifierKey, cs.groth16Vk)
    ensures forall proves :: Decides(verifier, proves) ==>
              (r.Ok? <==> msg.HeaderMessage? && proves(msg.header.stateTransitionProof, msg.header.publicValues,
                                                       cs.stateTransitionVerifierKey, cs.groth16Vk))
    ensures r.Ok? ==> r.value == [HeaderHeight(msg.header)]
    ensures r.Err? ==> r.error == Refusal(cs, msg, verifier)
    ensures store.data == if r.Ok? then Updated(old(store.data), cdc, cs, msg.header, ctx) else old(store.data)
  {
    if msg.OtherMessage? {
      return Err(UnsupportedMessage);
    }
    var hd := msg.header;
    var reply := verifier(Request(cs, hd));
    if reply.RpcError? {
      return Err(ProverUnreachable);
    }
    if !reply.success {
      return Err(ProofRejected);
    }
    SetConsensusState(store, cdc, NewState(hd), HeaderHeight(hd));
    SetConsensusMetadata(store, HeaderHeight(hd), ctx.selfHeight, Wrap(ctx.blockTime));
    var newClientState := ClientState(
      hd.newestHeight, cs.codeCommitment, cs.genesisStateRoot,
      cs.stateTransitionVerifierKey, cs.stateMembershipVerifierKey, cs.groth16Vk);
    SetClientState(store, cdc, newClientState);
    r := Ok([HeaderHeight(hd)]);
  }

  // ----- runs -----

  /** What happens to a client after it is created. A rejected update leaves the store alone: its
      transaction is rolled back. */
  datatype Action =
    | Update(msg: ClientMessage, verifier: Verifier, ctx: Context)
    | Prune(blockTime: int)

  predicate Accepts(m: Store, cdc: Codec, a: Action) {
    && a.Update?
    && a.msg.HeaderMessage?
    && GetClientState(m, cdc).Some?
    && VerifyClientMessage(m, cdc, a.msg).Ok?
    && a.verifier(Request(GetClientState(m, cdc).value, a.msg.header)) == Reply(true)
  }

  /** The same, spelled out: the client exists, the trusted height has a readable state, the header is
      above it, and its proof verifies under the client's keys. */
  ghost predicate Acceptable(m: Store, cdc: Codec, a: Action) {
    && a.Update? && a.msg.HeaderMessage? && GetClientState(m, cdc).Some?
    && var hd, cs := a.msg.header, GetClientState(m, cdc).value;
      && GetConsensusState(m, cdc, Height(0, ToU64(hd.trustedHeight))).Ok?
      && ToU64(hd.trustedHeight) < hd.newestHeight
      && Verified(a.verifier, hd, cs.stateTransitionVerifierKey, cs.groth16Vk)
  }

  lemma AcceptsExactly(m: Store, cdc: Codec, a: Action)
    ensures Accepts(m, cdc, a) <==> Acceptable(m, cdc, a)
  {
  }

  /** One update transaction: look up the client, verify the message, update the state. */
  method ProcessUpdate(store: KVStore, cdc: Codec, a: Action) returns (accepted: bool)
    requires a.Update? && IndexWellFormed(store.data)
    modifies store
    ensures accepted <==> Acceptable(old(store.data), cdc, a)
    ensures store.data == Step(old(store.data), cdc, a)
  {
    var client := GetClientState(store.data, cdc);
    if client.None? {
      return false;
    }
    var verdict := VerifyClientMessage(store.data, cdc, a.msg);
    if verdict.Err? {
      return false;
    }
    var r := UpdateState(store, cdc, client.value, a.msg, a.verifier, a.ctx);
    accepted := r.Ok?;
  }

  function Step(m: Store, cdc: Codec, a: Action): Store
    requires IndexWellFormed(m)
  {
    if a.Prune? then Pruned(m, cdc, a.blockTime)
    else if Accepts(m, cdc, a) then Updated(m, cdc, GetClientState(m, cdc).value, a.msg.header, a.ctx)
    else m
  }

  /** m' is m after accepting header hd for the client cs, seen through reads. */
  ghost predicate UpdatedBy(m: Store, m': Store, cdc: Codec, cs: ClientState, hd: Header) {
    && Indexed(m', cdc)
    && GetClientState(m', cdc) == Some(cs.(latestHeight := hd.newestHeight))
    && (forall x :: Stored(m', x) <==> Stored(m, x) || x == HeaderHeight(hd))
    && (forall x :: GetConsensusState(m', cdc, x) ==
                    if x == HeaderHeight(hd) then Ok(NewState(hd)) else GetConsensusState(m, cdc, x))
  }

  lemma UpdatedFacts(m: Store, m': Store, cdc: Codec, cs: ClientState, hd: Header, ctx: Context)
    requires Indexed(m, cdc) && Lawful(cdc) && m' == Updated(m, cdc, cs, hd, ctx)
    ensures UpdatedBy(m, m', cdc, cs, hd)
  {
    var m1 := PutHeight(m, cdc, NewState(hd), HeaderHeight(hd), ctx.selfHeight, Wrap(ctx.blockTime));
    PutHeightKeepsIndex(m, m1, cdc, NewState(hd), HeaderHeight(hd), ctx.selfHeight, Wrap(ctx.blockTime));
    PutClientKeepsIndex(m1, cdc, cs.(latestHeight := hd.newestHeight));
  }

  /** Writing the client state leaves all metadata alone. */
  lemma ClientKeepsMetadata(m: Store, cdc: Codec, cs: ClientState, h: Height)
    ensures var m' := Put(m, ClientSlot, cdc.marshalClient(cs));
            GetProcessedTime(m', h) == GetProcessedTime(m, h) && GetProcessedHeight(m', h) == GetProcessedHeight(m, h)
  {
    var m' := Put(m, ClientSlot, cdc.marshalClient(cs));
    PutAt(m, ClientSlot, cdc.marshalClient(cs));
    LookupByAt(m, ProcessedTimeSlot(h));
    LookupByAt(m', ProcessedTimeSlot(h));
    LookupByAt(m, ProcessedHeightSlot(h));
    LookupByAt(m', ProcessedHeightSlot(h));
  }

  /** An update records the host chain's height and time for the header's height, and a creation for
      the initial one. */
  lemma MetadataRecorded(m: Store, cdc: Codec, cs: ClientState, hd: Header, c: ConsensusState, ctx: Context)
    ensures var m' := Updated(m, cdc, cs, hd, ctx);
            && GetProcessedTime(m', Height(0, hd.newestHeight)) == Some(ctx.blockTime % TWO64)
            && GetProcessedHeight(m', Height(0, hd.newestHeight)) == Some(ctx.selfHeight)
    ensures var m' := Initialized(m, cdc, cs, c, ctx);
            && GetProcessedTime(m', Height(0, cs.latestHeight)) == Some(ctx.blockTime % TWO64)
            && GetProcessedHeight(m', Height(0, cs.latestHeight)) == Some(ctx.selfHeight)
  {
    RecordedAt(m, cdc, NewState(hd), HeaderHeight(hd), ctx, cs.(latestHeight := hd.newestHeight));
    RecordedAt(m, cdc, c, LatestHeight(cs), ctx, cs);
  }

  lemma RecordedAt(m: Store, cdc: Codec, c: ConsensusState, h: Height, ctx: Context, cs: ClientState)
    ensures var m' := Put(PutHeight(m, cdc, c, h, ctx.selfHeight, Wrap(ctx.blockTime)), ClientSlot, cdc.marshalClient(cs));
            GetProcessedTime(m', h) == Some(ctx.blockTime % TWO64) && GetProcessedHeight(m', h) == Some(ctx.selfHeight)
  {
    var m1 := PutHeight(m, cdc, c, h, ctx.selfHeight, Wrap(ctx.blockTime));
    PutHeightAt(m, cdc, c, h, ctx.selfHeight, Wrap(ctx.blockTime));
    MetadataReadsBack(m, m1, cdc, c, h, ctx.selfHeight, Wrap(ctx.blockTime));
    ClientKeepsMetadata(m1, cdc, cs, h);
  }

  lemma InitializedFacts(m': Store, cdc: Codec, cs: ClientState, c: ConsensusState, ctx: Context)
    requires Lawful(cdc) && m' == Initialized(map[], cdc, cs, c, ctx)
    ensures Indexed(m', cdc)
    ensures GetClientState(m', cdc) == Some(cs)
    ensures forall x :: Stored(m', x) <==> x == LatestHeight(cs)
    ensures GetConsensusState(m', cdc, LatestHeight(cs)) == Ok(c)
  {
    assert Indexed(map[], cdc);
    var m1 := PutHeight(map[], cdc, c, LatestHeight(cs), ctx.selfHeight, Wrap(ctx.blockTime));
    PutHeightKeepsIndex(map[], m1, cdc, c, LatestHeight(cs), ctx.selfHeight, Wrap(ctx.blockTime));
    PutClientKeepsIndex(m1, cdc, cs);
  }

  lemma StepKeepsIndex(m: Store, cdc: Codec, a: Action)
    requires Indexed(m, cdc) && Lawful(cdc)
    ensures Indexed(Step(m, cdc, a), cdc)
  {
    if a.Prune? {
      PruneKeepsIndex(m, Step(m, cdc, a), cdc, a.blockTime);
    } else if Accepts(m, cdc, a) {
      UpdatedFacts(m, Step(m, cdc, a), cdc, GetClientState(m, cdc).value, a.msg.header, a.ctx);
    }
  }

  /** A client's creation: its first store, and what it was created with. */
  datatype Genesis = Genesis(cs: ClientState, c: ConsensusState, ctx: Context)

  /** The store after creating a client and then taking these actions. In every run of creations,
      updates and prunings, index and consensus states agree at every height. */
  ghost function Run(cdc: Codec, g: Genesis, acts: seq<Action>): (m: Store)
    requires Lawful(cdc)
    ensures Indexed(m, cdc)
    decreases |acts|
  {
    if acts == [] then
      var m := Initialized(map[], cdc, g.cs, g.c, g.ctx);
      InitializedFacts(m, cdc, g.cs, g.c, g.ctx);
      m
    else
      var m := Run(cdc, g, acts[..|acts| - 1]);
      StepKeepsIndex(m, cdc, acts[|acts| - 1]);
      Step(m, cdc, acts[|acts| - 1])
  }

  // ----- the trust chain -----

  ghost predicate Unpruned(acts: seq<Action>) {
    forall i :: 0 <= i < |acts| ==> acts[i].Update?
  }

  /** Action i carries a header from trusted height t to h that the verifier accepted under the
      keys the client was created with, and the state stored at h is that header's. */
  ghost predicate Link(cdc: Codec, g: Genesis, acts: seq<Action>, m: Store, i: int, t: u64, h: u64) {
    && 0 <= i < |acts| && acts[i].Update? && acts[i].msg.HeaderMessage?
    && var hd := acts[i].msg.header;
      && hd.newestHeight == h && ToU64(hd.trustedHeight) == t && t < h
      && Verified(acts[i].verifier, hd, g.cs.stateTransitionVerifierKey, g.cs.groth16Vk)
      && GetConsensusState(m, cdc, Height(0, h)) == Ok(NewState(hd))
  }

  ghost predicate Linked(cdc: Codec, g: Genesis, acts: seq<Action>, m: Store, t: u64, h: u64) {
    t < h && exists i :: Link(cdc, g, acts, m, i, t, h)
  }

  /** A link is kept when more actions follow, as long as the state at its end stays. */
  lemma LinkedKept(cdc: Codec, g: Genesis, acts: seq<Action>, m: Store, a: Action, m': Store, t: u64, h: u64)
    requires Linked(cdc, g, acts, m, t, h)
    requires GetConsensusState(m', cdc, Height(0, h)) == GetConsensusState(m, cdc, Height(0, h))
    ensures Linked(cdc, g, acts + [a], m', t, h)
  {
    var i :| Link(cdc, g, acts, m, i, t, h);
    assert Link(cdc, g, acts + [a], m', i, t, h);
  }

  /** The client state differs from its creation value only in the latest height, which has a
      consensus state. */
  ghost predicate KeysKept(cdc: Codec, g: Genesis, m: Store) {
    && GetClientState(m, cdc).Some?
    && var cs := GetClientState(m, cdc).value;
      cs == g.cs.(latestHeight := cs.latestHeight) && Stored(m, LatestHeight(cs))
  }

  /** A stored height is the initial one or is linked to a smaller stored height. */
  ghost predicate HeightTrusted(cdc: Codec, g: Genesis, acts: seq<Action>, m: Store, x: Height) {
    Stored(m, x) ==>
      && x.revision == 0
      && g.cs.latestHeight <= x.height
      && (x != LatestHeight(g.cs) ==>
            exists t :: Linked(cdc, g, acts, m, t, x.height) && Stored(m, Height(0, t)))
  }

  ghost predicate Trusted(cdc: Codec, g: Genesis, acts: seq<Action>, m: Store) {
    && KeysKept(cdc, g, m)
    && Stored(m, LatestHeight(g.cs))
    && GetConsensusState(m, cdc, LatestHeight(g.cs)) == Ok(g.c)
    && forall x :: HeightTrusted(cdc, g, acts, m, x)
  }

  lemma TrustedIgnored(cdc: Codec, g: Genesis, acts: seq<Action>, m: Store, a: Action)
    requires Trusted(cdc, g, acts, m)
    ensures Trusted(cdc, g, acts + [a], m)
  {
    forall x ensures HeightTrusted(cdc, g, acts + [a], m, x) {
      assert HeightTrusted(cdc, g, acts, m, x);
      if Stored(m, x) && x != LatestHeight(g.cs) {
        var t: u64 :| Linked(cdc, g, acts, m, t, x.height) && Stored(m, Height(0, t));
        LinkedKept(cdc, g, acts, m, a, m, t, x.height);
      }
    }
  }

  lemma TrustedAccepted(cdc: Codec, g: Genesis, acts: seq<Action>, m: Store, a: Action, m': Store)
    requires Indexed(m, cdc) && Trusted(cdc, g, acts, m) && Accepts(m, cdc, a)
    requires UpdatedBy(m, m', cdc, GetClientState(m, cdc).value, a.msg.header)
    ensures Trusted(cdc, g, acts + [a], m')
  {
    var acts', hd := acts + [a], a.msg.header;
    assert HeightConsistent(m, cdc, TrustedHeight(hd));
    assert HeightTrusted(cdc, g, acts, m, TrustedHeight(hd));
    assert Link(cdc, g, acts', m', |acts|, ToU64(hd.trustedHeight), hd.newestHeight);
    forall x ensures HeightTrusted(cdc, g, acts', m', x) {
      assert HeightTrusted(cdc, g, acts, m, x);
      if x != HeaderHeight(hd) && Stored(m, x) && x != LatestHeight(g.cs) {
        var t: u64 :| Linked(cdc, g, acts, m, t, x.height) && Stored(m, Height(0, t));
        LinkedKept(cdc, g, acts, m, a, m', t, x.height);
      }
    }
  }

  lemma TrustedStep(cdc: Codec, g: Genesis, acts: seq<Action>, m: Store, a: Action, m': Store)
    requires Lawful(cdc) && Indexed(m, cdc) && Trusted(cdc, g, acts, m) && a.Update? && m' == Step(m, cdc, a)
    ensures Trusted(cdc, g, acts + [a], m')
  {
    if Accepts(m, cdc, a) {
      UpdatedFacts(m, m', cdc, GetClientState(m, cdc).value, a.msg.header, a.ctx);
      TrustedAccepted(cdc, g, acts, m, a, m');
    } else {
      TrustedIgnored(cdc, g, acts, m, a);
    }
  }

  lemma TrustedInitially(cdc: Codec, g: Genesis, m: Store)
    requires Lawful(cdc) && m == Initialized(map[], cdc, g.cs, g.c, g.ctx)
    ensures Trusted(cdc, g, [], m)
  {
    InitializedFacts(m, cdc, g.cs, g.c, g.ctx);
    forall x ensures HeightTrusted(cdc, g, [], m, x) {}
  }

  /** Over every unpruned run: the initial state is never overwritten, the keys never change, the
      latest height has a state, and every other stored height has an accepted link to a smaller
      stored one. */
  lemma {:induction false} TrustChain(cdc: Codec, g: Genesis, acts: seq<Action>)
    requires Lawful(cdc) && Unpruned(acts)
    ensures Trusted(cdc, g, acts, Run(cdc, g, acts))
    decreases |acts|
  {
    if acts == [] {
      TrustedInitially(cdc, g, Run(cdc, g, acts));
    } else {
      var n := |acts| - 1;
      TrustChain(cdc, g, acts[..n]);
      RunLast(cdc, g, acts, n);
      TrustedMore(cdc, g, acts, n, Run(cdc, g, acts[..n]), Run(cdc, g, acts));
    }
  }

  lemma RunLast(cdc: Codec, g: Genesis, acts: seq<Action>, n: nat)
    requires Lawful(cdc) && |acts| == n + 1
    ensures Indexed(Run(cdc, g, acts[..n]), cdc) && Run(cdc, g, acts) == Step(Run(cdc, g, acts[..n]), cdc, acts[n])
  {
  }

  lemma TrustedMore(cdc: Codec, g: Genesis, acts: seq<Action>, n: nat, m: Store, m': Store)
    requires Lawful(cdc) && |acts| == n + 1 && acts[n].Update? && Indexed(m, cdc) && m' == Step(m, cdc, acts[n])
    requires Trusted(cdc, g, acts[..n], m)
    ensures Trusted(cdc, g, acts, m')
  {
    assert acts[..n] + [acts[n]] == acts;
    TrustedStep(cdc, g, acts[..n], m, acts[n], m');
  }

  /** An ascending path of links that starts at the initial height. */
  ghost predicate TrustPath(cdc: Codec, g: Genesis, acts: seq<Action>, m: Store, path: seq<u64>) {
    && path != [] && path[0] == g.cs.latestHeight
    && (forall j :: 0 <= j < |path| ==> Stored(m, Height(0, path[j])))
    && forall j, k :: 0 <= j && k == j + 1 && k < |path| ==> Linked(cdc, g, acts, m, path[j], path[k])
  }

  /** The links of any stored height lead back to the height the client was created at. */
  lemma {:induction false} TrustPathExists(cdc: Codec, g: Genesis, acts: seq<Action>, m: Store, h: u64)
    returns (path: seq<u64>)
    requires Trusted(cdc, g, acts, m) && Stored(m, Height(0, h))
    ensures TrustPath(cdc, g, acts, m, path) && path[|path| - 1] == h
    decreases h
  {
    assert HeightTrusted(cdc, g, acts, m, Height(0, h));
    if h == g.cs.latestHeight {
      path := [h];
    } else {
      var t: u64 :| Linked(cdc, g, acts, m, t, h) && Stored(m, Height(0, t));
      var p := TrustPathExists(cdc, g, acts, m, t);
      path := p + [h];
      ExtendTrustPath(cdc, g, acts, m, p, h);
    }
  }

  lemma ExtendTrustPath(cdc: Codec, g: Genesis, acts: seq<Action>, m: Store, p: seq<u64>, h: u64)
    requires TrustPath(cdc, g, acts, m, p) && Linked(cdc, g, acts, m, p[|p| - 1], h)
    requires Stored(m, Height(0, h))
    ensures TrustPath(cdc, g, acts, m, p + [h])
  {
  }

  // ----- what was proven -----

  ghost predicate AllDecide(acts: seq<Action>, proves: Statement) {
    forall i :: 0 <= i < |acts| && acts[i].Update? ==> Decides(acts[i].verifier, proves)
  }

  /** Action i carries a proof of its public values under the keys the client was created with, from
      trusted height t to h, and the state at h is its header's. */
  ghost predicate ProvenLink(cdc: Codec, g: Genesis, acts: seq<Action>, proves: Statement, m: Store, i: int, t: u64, h: u64) {
    && 0 <= i < |acts| && acts[i].Update? && acts[i].msg.HeaderMessage?
    && var hd := acts[i].msg.header;
      && hd.newestHeight == h && ToU64(hd.trustedHeight) == t && t < h && Stored(m, Height(0, t))
      && proves(hd.stateTransitionProof, hd.publicValues, g.cs.stateTransitionVerifierKey, g.cs.groth16Vk)
      && GetConsensusState(m, cdc, Height(0, h)) == Ok(ConsensusState(hd.timestamp, hd.newestStateRoot))
  }

  /** With verifiers that decide what is proven, every stored height but the initial one has a proven
      link to a smaller stored height. */
  lemma LinksAreProven(cdc: Codec, g: Genesis, acts: seq<Action>, proves: Statement, h: u64) returns (i: int, t: u64)
    requires Lawful(cdc) && Unpruned(acts) && AllDecide(acts, proves)
    requires Stored(Run(cdc, g, acts), Height(0, h)) && h != g.cs.latestHeight
    ensures ProvenLink(cdc, g, acts, proves, Run(cdc, g, acts), i, t, h)
  {
    var m := Run(cdc, g, acts);
    TrustChain(cdc, g, acts);
    i, t := LinkOf(cdc, g, acts, m, h);
  }

  lemma LinkOf(cdc: Codec, g: Genesis, acts: seq<Action>, m: Store, h: u64) returns (i: int, t: u64)
    requires Trusted(cdc, g, acts, m) && Stored(m, Height(0, h)) && h != g.cs.latestHeight
    ensures Link(cdc, g, acts, m, i, t, h) && Stored(m, Height(0, t))
  {
    assert HeightTrusted(cdc, g, acts, m, Height(0, h));
    t :| Linked(cdc, g, acts, m, t, h) && Stored(m, Height(0, t));
    i :| Link(cdc, g, acts, m, i, t, h);
  }

  // ----- relayer discipline -----

  /** Every header names, when submitted, the client's latest height as its trusted height. */
  ghost predicate Disciplined(cdc: Codec, g: Genesis, acts: seq<Action>)
    requires Lawful(cdc)
  {
    forall i :: 0 <= i < |acts| && acts[i].Update? && acts[i].msg.HeaderMessage? ==>
      TrustsLatest(cdc, Run(cdc, g, acts[..i]), acts[i])
  }

  ghost predicate TrustsLatest(cdc: Codec, m: Store, a: Action)
    requires a.Update? && a.msg.HeaderMessage?
  {
    GetClientState(m, cdc).Some? ==> ToU64(a.msg.header.trustedHeight) == GetClientState(m, cdc).value.latestHeight
  }

  /** No stored height is above the latest one. */
  ghost predicate LatestIsGreatest(cdc: Codec, m: Store) {
    && GetClientState(m, cdc).Some?
    && forall x :: Stored(m, x) ==> x.revision == 0 && x.height <= GetClientState(m, cdc).value.latestHeight
  }

  /** From m to m' the latest height did not drop, it is the greatest stored in both, and every
      state stored in m reads the same in m'. */
  ghost predicate Grows(cdc: Codec, m: Store, m': Store) {
    && LatestIsGreatest(cdc, m) && LatestIsGreatest(cdc, m')
    && GetClientState(m, cdc).value.latestHeight <= GetClientState(m', cdc).value.latestHeight
    && (forall x :: Stored(m, x) ==> Stored(m', x) && GetConsensusState(m', cdc, x) == GetConsensusState(m, cdc, x))
  }

  lemma GrowsTransitive(cdc: Codec, a: Store, b: Store, c: Store)
    requires Grows(cdc, a, b) && Grows(cdc, b, c)
    ensures Grows(cdc, a, c)
  {
  }

  /** An accepted disciplined header raises the latest height. */
  lemma DisciplinedStep(cdc: Codec, m: Store, a: Action, m': Store)
    requires Lawful(cdc) && Indexed(m, cdc) && LatestIsGreatest(cdc, m) && m' == Step(m, cdc, a)
    requires a.Update? && (a.msg.HeaderMessage? ==> TrustsLatest(cdc, m, a))
    ensures Grows(cdc, m, m')
    ensures if Accepts(m, cdc, a) then
              GetClientState(m', cdc).value.latestHeight > GetClientState(m, cdc).value.latestHeight
            else m' == m
  {
    if Accepts(m, cdc, a) {
      UpdatedFacts(m, m', cdc, GetClientState(m, cdc).value, a.msg.header, a.ctx);
      AcceptedGrows(cdc, m, a, m');
    }
  }

  lemma AcceptedGrows(cdc: Codec, m: Store, a: Action, m': Store)
    requires LatestIsGreatest(cdc, m) && Accepts(m, cdc, a) && TrustsLatest(cdc, m, a)
    requires UpdatedBy(m, m', cdc, GetClientState(m, cdc).value, a.msg.header)
    ensures Grows(cdc, m, m')
    ensures GetClientState(m', cdc).value.latestHeight > GetClientState(m, cdc).value.latestHeight
  {
  }

  lemma DisciplinedPrefix(cdc: Codec, g: Genesis, acts: seq<Action>, n: nat)
    requires Lawful(cdc) && Disciplined(cdc, g, acts) && n <= |acts|
    ensures Disciplined(cdc, g, acts[..n])
  {
    var before := acts[..n];
    forall i | 0 <= i < n && before[i].Update? && before[i].msg.HeaderMessage?
      ensures TrustsLatest(cdc, Run(cdc, g, before[..i]), before[i])
    {
      assert before[..i] == acts[..i];
    }
  }

  /** In a disciplined run the latest height never drops, no stored state is ever overwritten, and
      the latest height is the greatest stored. Compare any moment k with the end of the run. */
  lemma {:induction false} DisciplinedRun(cdc: Codec, g: Genesis, acts: seq<Action>, k: nat)
    requires Lawful(cdc) && Unpruned(acts) && Disciplined(cdc, g, acts) && k <= |acts|
    ensures Grows(cdc, Run(cdc, g, acts[..k]), Run(cdc, g, acts))
    decreases |acts|
  {
    if acts == [] {
      InitializedFacts(Run(cdc, g, []), cdc, g.cs, g.c, g.ctx);
      assert acts[..k] == [];
    } else {
      var n := |acts| - 1;
      var at := if k <= n then k else n;
      DisciplinedPrefix(cdc, g, acts, n);
      DisciplinedRun(cdc, g, acts[..n], at);
      assert acts[..n][..at] == acts[..at];
      RunLast(cdc, g, acts, n);
      DisciplinedMore(cdc, Run(cdc, g, acts[..at]), Run(cdc, g, acts[..n]), acts[n], Run(cdc, g, acts));
      assert k > n ==> acts[..k] == acts;
    }
  }

  /** One more action, seen from an earlier store and from the end. */
  lemma DisciplinedMore(cdc: Codec, m0: Store, m: Store, a: Action, m': Store)
    requires Lawful(cdc) && Indexed(m, cdc) && Grows(cdc, m0, m) && m' == Step(m, cdc, a)
    requires a.Update? && (a.msg.HeaderMessage? ==> TrustsLatest(cdc, m, a))
    ensures Grows(cdc, m0, m') && Grows(cdc, m', m')
  {
    DisciplinedStep(cdc, m, a, m');
    GrowsTransitive(cdc, m0, m, m');
  }

  // ----- pruning the latest state -----

  /** The state at the latest height survives a prune if and only if the unbonding period, three weeks
      in nanoseconds, has passed since its timestamp. When it does not, every header that trusts the latest height is refused. */
  lemma LatestSurvivesPruneExactly(cdc: Codec, m: Store, m': Store, blockTime: int, c: ConsensusState)
    requires Indexed(m, cdc) && m' == Pruned(m, cdc, blockTime) && GetClientState(m, cdc).Some?
    requires GetConsensusState(m, cdc, LatestHeight(GetClientState(m, cdc).value)) == Ok(c)
    ensures GetClientState(m', cdc) == GetClientState(m, cdc)
    ensures Stored(m', LatestHeight(GetClientState(m, cdc).value)) <==> c.timestamp + 1_814_400_000_000_000 <= blockTime
    ensures c.timestamp + 1_814_400_000_000_000 > blockTime ==>
              forall hd :: TrustedHeight(hd) == LatestHeight(GetClientState(m, cdc).value) ==> VerifyHeader(m', cdc, hd).Err?
  {
    PruneKeepsIndex(m, m', cdc, blockTime);
    var latest := LatestHeight(GetClientState(m, cdc).value);
    assert Stored(m, latest);
    if !Stored(m', latest) { NotStoredUnreadable(m', cdc, latest); }
  }

  lemma NotStoredUnreadable(m: Store, cdc: Codec, h: Height)
    requires !Stored(m, h)
    ensures GetConsensusState(m, cdc, h).Err?
  {
    GetByAt(m, cdc, h);
  }

  /** The latest height of the client has no state. */
  ghost predicate LatestMissing(cdc: Codec, m: Store) {
    GetClientState(m, cdc).Some? && !Stored(m, LatestHeight(GetClientState(m, cdc).value))
  }

  /** From m to m' the client state stays and stored heights only disappear. */
  ghost predicate Shrinks(cdc: Codec, m: Store, m': Store) {
    GetClientState(m', cdc) == GetClientState(m, cdc) && forall x :: Stored(m', x) ==> Stored(m, x)
  }

  /** From store m on, every submitted header trusts the latest height at its time. */
  ghost predicate DisciplinedFrom(cdc: Codec, m: Store, acts: seq<Action>)
    requires Lawful(cdc) && Indexed(m, cdc)
    decreases |acts|
  {
    acts != [] ==>
      && (acts[0].Update? && acts[0].msg.HeaderMessage? ==> TrustsLatest(cdc, m, acts[0]))
      && DisciplinedFrom(cdc, After(cdc, m, acts[0]), acts[1..])
  }

  /** From store m on, no update is accepted, the client state stays and stored heights only
      disappear. */
  ghost predicate Frozen(cdc: Codec, m: Store, acts: seq<Action>)
    requires Lawful(cdc) && Indexed(m, cdc)
    decreases |acts|
  {
    acts != [] ==>
      && !Accepts(m, cdc, acts[0]) && Shrinks(cdc, m, After(cdc, m, acts[0]))
      && Frozen(cdc, After(cdc, m, acts[0]), acts[1..])
  }

  ghost function After(cdc: Codec, m: Store, a: Action): (m': Store)
    requires Lawful(cdc) && Indexed(m, cdc)
    ensures Indexed(m', cdc) && m' == Step(m, cdc, a)
  {
    StepKeepsIndex(m, cdc, a);
    Step(m, cdc, a)
  }

  lemma StepWithoutLatest(cdc: Codec, m: Store, a: Action, m': Store)
    requires Lawful(cdc) && LatestMissing(cdc, m) && Indexed(m, cdc) && m' == Step(m, cdc, a)
    requires a.Update? && a.msg.HeaderMessage? ==> TrustsLatest(cdc, m, a)
    ensures !Accepts(m, cdc, a) && Shrinks(cdc, m, m') && LatestMissing(cdc, m')
  {
    NotStoredUnreadable(m, cdc, LatestHeight(GetClientState(m, cdc).value));
    if a.Prune? {
      PruneKeepsIndex(m, m', cdc, a.blockTime);
    }
  }

  /** Once the state at the latest height is lost, a disciplined relayer gets nothing accepted any
      more, whatever follows. */
  lemma {:induction false} LostLatestIsFinal(cdc: Codec, m: Store, acts: seq<Action>)
    requires Lawful(cdc) && Indexed(m, cdc) && LatestMissing(cdc, m) && DisciplinedFrom(cdc, m, acts)
    ensures Frozen(cdc, m, acts)
    decreases |acts|
  {
    if acts != [] {
      var m' := After(cdc, m, acts[0]);
      StepWithoutLatest(cdc, m, acts[0], m');
      LostLatestIsFinal(cdc, m', acts[1..]);
    }
  }

  // ----- without the discipline -----

  /** An accepted action at the end of a run. */
  lemma AcceptedLast(cdc: Codec, g: Genesis, before: seq<Action>, a: Action)
    requires Lawful(cdc) && Accepts(Run(cdc, g, before), cdc, a)
    ensures UpdatedBy(Run(cdc, g, before), Run(cdc, g, before + [a]), cdc,
                      GetClientState(Run(cdc, g, before), cdc).value, a.msg.header)
  {
    assert (before + [a])[..|before|] == before;
    AcceptedStep(cdc, Run(cdc, g, before), a, Run(cdc, g, before + [a]));
  }

  lemma AcceptedStep(cdc: Codec, m: Store, a: Action, m': Store)
    requires Lawful(cdc) && Indexed(m, cdc) && Accepts(m, cdc, a) && m' == Step(m, cdc, a)
    ensures UpdatedBy(m, m', cdc, GetClientState(m, cdc).value, a.msg.header)
  {
    UpdatedFacts(m, m', cdc, GetClientState(m, cdc).value, a.msg.header, a.ctx);
  }

  /** What one accepted update does to the latest height and to stored states, exactly: it raises
      the one if and only if its height is above it, and keeps the others if and only if it does not
      replace one of them by a different state. */
  lemma AcceptedUpdateExact(cdc: Codec, m: Store, a: Action, m': Store)
    requires Lawful(cdc) && Indexed(m, cdc) && Accepts(m, cdc, a) && m' == Step(m, cdc, a)
    ensures GetClientState(m', cdc).Some?
    ensures (GetClientState(m', cdc).value.latestHeight > GetClientState(m, cdc).value.latestHeight) <==>
            (a.msg.header.newestHeight > GetClientState(m, cdc).value.latestHeight)
    ensures (forall x :: Stored(m, x) ==> GetConsensusState(m', cdc, x) == GetConsensusState(m, cdc, x)) <==>
            (Stored(m, HeaderHeight(a.msg.header)) ==>
               GetConsensusState(m, cdc, HeaderHeight(a.msg.header)) == Ok(NewState(a.msg.header)))
  {
    UpdatedFacts(m, m', cdc, GetClientState(m, cdc).value, a.msg.header, a.ctx);
    var n := HeaderHeight(a.msg.header);
    assert GetConsensusState(m', cdc, n) == Ok(NewState(a.msg.header));
  }

  /** a is an update from the height the client was created at to `newest`, with a good proof. */
  ghost predicate FromGenesis(g: Genesis, a: Action, newest: u64) {
    && a.Update? && a.msg.HeaderMessage?
    && TrustedHeight(a.msg.header) == LatestHeight(g.cs)
    && a.msg.header.newestHeight == newest && g.cs.latestHeight < newest
    && Verified(a.verifier, a.msg.header, g.cs.stateTransitionVerifierKey, g.cs.groth16Vk)
  }

  /** Two updates that both trust the initial height are both accepted, whatever their heights:
      the latest height is that of the second. */
  lemma SecondUpdateWins(cdc: Codec, g: Genesis, first: Action, second: Action, n1: u64, n2: u64)
    requires Lawful(cdc) && FromGenesis(g, first, n1) && FromGenesis(g, second, n2)
    ensures GetClientState(Run(cdc, g, [first]), cdc) == Some(g.cs.(latestHeight := n1))
    ensures GetClientState(Run(cdc, g, [first, second]), cdc) == Some(g.cs.(latestHeight := n2))
  {
    FirstLands(cdc, g, first);
    SecondAccepted(cdc, g, first, second, n1, n2, Run(cdc, g, []), Run(cdc, g, [first]));
    AcceptedLast(cdc, g, [first], second);
    assert [first] + [second] == [first, second];
  }

  lemma FirstLands(cdc: Codec, g: Genesis, a: Action)
    requires Lawful(cdc) && a.Update? && a.msg.HeaderMessage? && FromGenesis(g, a, a.msg.header.newestHeight)
    ensures UpdatedBy(Run(cdc, g, []), Run(cdc, g, [a]), cdc, g.cs, a.msg.header)
    ensures GetConsensusState(Run(cdc, g, []), cdc, LatestHeight(g.cs)).Ok?
  {
    FirstAccepted(cdc, g, a);
    AcceptedLast(cdc, g, [], a);
    assert [] + [a] == [a];
  }

  lemma SecondAccepted(cdc: Codec, g: Genesis, first: Action, second: Action, n1: u64, n2: u64, m0: Store, m1: Store)
    requires FromGenesis(g, first, n1) && FromGenesis(g, second, n2)
    requires UpdatedBy(m0, m1, cdc, g.cs, first.msg.header)
    requires GetConsensusState(m0, cdc, LatestHeight(g.cs)).Ok?
    ensures Accepts(m1, cdc, second)
  {
  }

  /** So the latest height can drop: here from 10 to 7. */
  lemma LatestHeightCanDrop(cdc: Codec, g: Genesis) returns (first: Action, second: Action)
    requires Lawful(cdc) && g.cs.latestHeight == 5
    ensures first.Update? && second.Update?
    ensures GetClientState(Run(cdc, g, [first]), cdc) == Some(g.cs.(latestHeight := 10))
    ensures GetClientState(Run(cdc, g, [first, second]), cdc) == Some(g.cs.(latestHeight := 7))
  {
    var yes: Verifier := (r: VerifyRequest) => Reply(true);
    first := Update(HeaderMessage(Header([], [], 5, [], 10, 0)), yes, g.ctx);
    second := Update(HeaderMessage(Header([], [], 5, [], 7, 0)), yes, g.ctx);
    SecondUpdateWins(cdc, g, first, second, 10, 7);
  }

  lemma FirstAccepted(cdc: Codec, g: Genesis, a: Action)
    requires Lawful(cdc) && a.Update? && a.msg.HeaderMessage? && FromGenesis(g, a, a.msg.header.newestHeight)
    ensures Accepts(Run(cdc, g, []), cdc, a)
    ensures GetClientState(Run(cdc, g, []), cdc) == Some(g.cs)
    ensures GetConsensusState(Run(cdc, g, []), cdc, LatestHeight(g.cs)).Ok?
  {
    InitializedFacts(Run(cdc, g, []), cdc, g.cs, g.c, g.ctx);
  }
}
