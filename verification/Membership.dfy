/** Membership of a contract storage value under a client's consensus state: account proof, account
    record, storage proof, value. */
module Membership {
  import opened Arithmetic
  import opened Bytes
  import opened Keys
  import opened ClientStore
  import opened Rlp
  import opened Mpt
  import LightClient

  /** The parsed eth_getProof response. A missing balance is a nil pointer. */
  datatype MptProof = MptProof(
    accountProof: seq<Node>,
    address: seq<byte>,
    balance: Option<nat>,
    codeHash: Hash,
    nonce: u64,
    storageHash: Hash,
    storageProof: seq<Node>,
    storageKey: Hash)

  ghost predicate BalanceFits(p: MptProof) {
    p.balance.Some? ==> p.balance.value < Pow256(32)
  }

  datatype MembershipError =
    | NoConsensusState(cause: StoreError) | MalformedProof | AccountNotProven | NilBalance
    | AccountMismatch | StorageNotProven | ValueMismatch

  /** ethcommon.BytesToHash: the last 32 bytes, padded with zeros on the left. */
  function BytesToHash(b: seq<byte>): Hash {
    if |b| > 32 then b[|b| - 32..] else seq(32 - |b|, _ => 0) + b
  }

  /** A 32-byte string is its own hash; any other keeps its number modulo 2^256. */
  lemma BytesToHashValue(b: seq<byte>)
    ensures |b| == 32 ==> BytesToHash(b) == b
    ensures FromBE(BytesToHash(b)) == FromBE(b) % Pow256(32)
  {
    if |b| > 32 {
      LowBytes(b, 32);
    } else {
      ZeroPadded(b, seq(32 - |b|, _ => 0), 32);
    }
  }

  lemma SameRoot(b: seq<byte>, root: Hash)
    requires FromBE(root) == FromBE(b) % Pow256(32)
    ensures root == BytesToHash(b)
  {
    BytesToHashValue(b);
    FromBEOrder(root, BytesToHash(b));
  }

  /** The world outside the client: Keccak-256, node decoding and a bound on trie depth. */
  datatype Env = Env(keccak: Hasher, decode: Decoder, steps: nat)

  function ProofAccount(p: MptProof): Account
    requires p.balance.Some?
  {
    Account(p.nonce, p.balance.value, p.storageHash, p.codeHash)
  }

  /** The checks of a parsed proof against a state root. */
  function CheckProof(env: Env, root: Hash, p: MptProof, value: seq<byte>): Result<(), MembershipError>
    requires BalanceFits(p) && |value| < TWO64
  {
    var account := VerifyProof(env.keccak, env.decode, root, env.keccak(p.address), p.accountProof, env.steps);
    if account.None? then Err(AccountNotProven)
    else if p.balance.None? then Err(NilBalance)
    else if account.value != EncodeAccount(ProofAccount(p)) then Err(AccountMismatch)
    else
      var stored := VerifyProof(env.keccak, env.decode, p.storageHash, env.keccak(p.storageKey), p.storageProof, env.steps);
      if stored.None? then Err(StorageNotProven)
      else if stored.value != EncodeString(value) then Err(ValueMismatch)
      else Ok(())
  }

  /** `proof` is None when the JSON does not parse; parsing bounds the balance to 256 bits. */
  function VerifyMembership(env: Env, m: Store, cdc: Codec, height: Height, proof: Option<MptProof>, value: seq<byte>)
    : Result<(), MembershipError>
    requires proof.Some? ==> BalanceFits(proof.value)
    requires |value| < TWO64
  {
    var consensusState := GetConsensusState(m, cdc, height);
    if consensusState.Err? then Err(NoConsensusState(consensusState.error))
    else if proof.None? then Err(MalformedProof)
    else CheckProof(env, BytesToHash(consensusState.value.stateRoot), proof.value, value)
  }

  /** The nodes of both halves of a proof. */
  function Nodes(p: MptProof): seq<Node> { p.accountProof + p.storageProof }

  /** A non-empty verified value is a value found in the trie. */
  lemma VerifiedIsProven(env: Env, root: Hash, key: seq<byte>, proof: seq<Node>)
    requires VerifyProof(env.keccak, env.decode, root, key, proof, env.steps).Some?
    requires VerifyProof(env.keccak, env.decode, root, key, proof, env.steps).value != []
    ensures Walk(ProofDb(env.keccak, proof), env.decode, root, key, env.steps) ==
            Proven(VerifyProof(env.keccak, env.decode, root, key, proof, env.steps).value)
  {
  }

  /** The account path of the proof ends at the encoding of the account it reports, and its storage
      path at the encoding of the value. */
  ghost predicate PathsProve(env: Env, root: Hash, p: MptProof, value: seq<byte>)
    requires BalanceFits(p) && |value| < TWO64
  {
    && p.balance.Some?
    && Leads(env.keccak, env.decode, root, env.keccak(p.address), p.accountProof, env.steps,
             Found(EncodeAccount(Account(p.nonce, p.balance.value, p.storageHash, p.codeHash))))
    && Leads(env.keccak, env.decode, p.storageHash, env.keccak(p.storageKey), p.storageProof, env.steps,
             Found(EncodeString(value)))
  }

  /** A proof is accepted exactly when both its paths end where they should, the second half up to a
      collision among its nodes. In particular a path that ends in absence is never accepted, not even
      for the empty value. */
  lemma AcceptedExactly(env: Env, root: Hash, p: MptProof, value: seq<byte>)
    requires BalanceFits(p) && |value| < TWO64
    ensures CheckProof(env, root, p, value).Ok? ==> PathsProve(env, root, p, value)
    ensures PathsProve(env, root, p, value) ==> CheckProof(env, root, p, value).Ok? || Collide(env.keccak, Nodes(p), Nodes(p))
  {
    EncodeStringLength(value);
    StoragePathExact(env, p, value);
    if p.balance.Some? {
      AccountPathExact(env, root, p, EncodeAccount(ProofAccount(p)));
    }
  }

  lemma AccountPathExact(env: Env, root: Hash, p: MptProof, a: seq<byte>)
    requires a != []
    ensures var r := VerifyProof(env.keccak, env.decode, root, env.keccak(p.address), p.accountProof, env.steps);
            var l := Leads(env.keccak, env.decode, root, env.keccak(p.address), p.accountProof, env.steps, Found(a));
            (r == Some(a) ==> l) && (l ==> r == Some(a) || Collide(env.keccak, Nodes(p), Nodes(p)))
  {
    VerifyProofExact(env.keccak, env.decode, root, env.keccak(p.address), p.accountProof, env.steps, a);
    if Collide(env.keccak, p.accountProof, p.accountProof) {
      CollideWithin(env.keccak, p.accountProof, p.accountProof, Nodes(p), Nodes(p));
    }
  }

  lemma StoragePathExact(env: Env, p: MptProof, value: seq<byte>)
    requires |value| < TWO64 && EncodeString(value) != []
    ensures var r := VerifyProof(env.keccak, env.decode, p.storageHash, env.keccak(p.storageKey), p.storageProof, env.steps);
            var l := Leads(env.keccak, env.decode, p.storageHash, env.keccak(p.storageKey), p.storageProof, env.steps, Found(EncodeString(value)));
            (r == Some(EncodeString(value)) ==> l) && (l ==> r == Some(EncodeString(value)) || Collide(env.keccak, Nodes(p), Nodes(p)))
  {
    VerifyProofExact(env.keccak, env.decode, p.storageHash, env.keccak(p.storageKey), p.storageProof, env.steps, EncodeString(value));
    if Collide(env.keccak, p.storageProof, p.storageProof) {
      CollideWithin(env.keccak, p.storageProof, p.storageProof, Nodes(p), Nodes(p));
    }
  }

  /** The client's verdict at a height, for the hash with the same number modulo 2^256 as the stored
      state root. */
  lemma VerdictExact(env: Env, m: Store, cdc: Codec, h: Height, root: Hash, p: MptProof, value: seq<byte>)
    requires BalanceFits(p) && |value| < TWO64 && GetConsensusState(m, cdc, h).Ok?
    requires FromBE(root) == FromBE(GetConsensusState(m, cdc, h).value.stateRoot) % Pow256(32)
    ensures VerifyMembership(env, m, cdc, h, Some(p), value).Ok? ==> PathsProve(env, root, p, value)
    ensures PathsProve(env, root, p, value) ==>
              VerifyMembership(env, m, cdc, h, Some(p), value).Ok? || Collide(env.keccak, Nodes(p), Nodes(p))
  {
    SameRoot(GetConsensusState(m, cdc, h).value.stateRoot, root);
    AcceptedExactly(env, root, p, value);
  }

  /** The usual case: a stored root of 32 bytes is where the account path starts. A height without a
      readable state, or a proof that does not parse, is never accepted. */
  lemma StoredRootDecides(env: Env, m: Store, cdc: Codec, h: Height, proof: Option<MptProof>, value: seq<byte>)
    requires proof.Some? ==> BalanceFits(proof.value)
    requires |value| < TWO64
    ensures GetConsensusState(m, cdc, h).Err? ==>
              VerifyMembership(env, m, cdc, h, proof, value) == Err(NoConsensusState(GetConsensusState(m, cdc, h).error))
    ensures GetConsensusState(m, cdc, h).Ok? && proof.None? ==> VerifyMembership(env, m, cdc, h, proof, value) == Err(MalformedProof)
    ensures GetConsensusState(m, cdc, h).Ok? && proof.Some? && |GetConsensusState(m, cdc, h).value.stateRoot| == 32 ==>
              var root := GetConsensusState(m, cdc, h).value.stateRoot;
              && (VerifyMembership(env, m, cdc, h, proof, value).Ok? ==> PathsProve(env, root, proof.value, value))
              && (PathsProve(env, root, proof.value, value) ==>
                    VerifyMembership(env, m, cdc, h, proof, value).Ok? || Collide(env.keccak, Nodes(proof.value), Nodes(proof.value)))
  {
    var c := GetConsensusState(m, cdc, h);
    if c.Ok? && proof.Some? && |c.value.stateRoot| == 32 {
      FromBEBound(c.value.stateRoot);
      QuotientOf(0, Pow256(32), FromBE(c.value.stateRoot), FromBE(c.value.stateRoot));
      VerdictExact(env, m, cdc, h, c.value.stateRoot, proof.value, value);
    }
  }

  lemma CollideWithin(keccak: Hasher, p: seq<Node>, q: seq<Node>, p': seq<Node>, q': seq<Node>)
    requires Collide(keccak, p, q)
    requires forall n :: n in p ==> n in p'
    requires forall n :: n in q ==> n in q'
    ensures Collide(keccak, p', q')
  {
    var a, b :| a in p && b in q && Collision(keccak, a, b);
    assert a in p' && b in q';
  }

  /** Two proofs that verify different values for one key under one root contain a collision. */
  lemma ProofBinding(e: Env, f: Env, root: Hash, key: seq<byte>, p: seq<Node>, q: seq<Node>, v: seq<byte>, w: seq<byte>)
    requires e.keccak == f.keccak && e.decode == f.decode && v != [] && w != []
    requires VerifyProof(e.keccak, e.decode, root, key, p, e.steps) == Some(v)
    requires VerifyProof(f.keccak, f.decode, root, key, q, f.steps) == Some(w)
    ensures v == w || Collide(e.keccak, p, q)
  {
    VerifiedIsProven(e, root, key, p);
    VerifiedIsProven(f, root, key, q);
    WalksAgree(e.keccak, e.decode, root, key, p, e.steps, q, f.steps);
  }

  /** Membership is binding: two proofs for one address and storage key that are accepted under the
      same state root carry the same value, or their nodes exhibit a Keccak collision. */
  lemma BindingUnderRoot(e: Env, f: Env, root: Hash, p: MptProof, v: seq<byte>, q: MptProof, w: seq<byte>)
    requires e.keccak == f.keccak && e.decode == f.decode
    requires BalanceFits(p) && BalanceFits(q) && |v| < TWO64 && |w| < TWO64
    requires p.address == q.address && p.storageKey == q.storageKey
    requires CheckProof(e, root, p, v).Ok? && CheckProof(f, root, q, w).Ok?
    ensures v == w || Collide(e.keccak, Nodes(p), Nodes(q))
  {
    var a, b := EncodeAccount(ProofAccount(p)), EncodeAccount(ProofAccount(q));
    ProofBinding(e, f, root, e.keccak(p.address), p.accountProof, q.accountProof, a, b);
    if a != b {
      CollideWithin(e.keccak, p.accountProof, q.accountProof, Nodes(p), Nodes(q));
    } else {
      EncodeAccountInjective(ProofAccount(p), ProofAccount(q));
      EncodeStringLength(v);
      EncodeStringLength(w);
      ProofBinding(e, f, p.storageHash, e.keccak(p.storageKey), p.storageProof, q.storageProof, EncodeString(v), EncodeString(w));
      if EncodeString(v) == EncodeString(w) {
        EncodeStringInjective(v, w);
      } else {
        CollideWithin(e.keccak, p.storageProof, q.storageProof, Nodes(p), Nodes(q));
      }
    }
  }

  /** In one store, two accepted proofs for the same height, address and storage key carry the same
      value, or their nodes exhibit a Keccak collision. */
  lemma MembershipBinding(e: Env, f: Env, m: Store, cdc: Codec, h: Height, p: MptProof, v: seq<byte>, q: MptProof, w: seq<byte>)
    requires e.keccak == f.keccak && e.decode == f.decode
    requires BalanceFits(p) && BalanceFits(q) && |v| < TWO64 && |w| < TWO64
    requires p.address == q.address && p.storageKey == q.storageKey
    requires VerifyMembership(e, m, cdc, h, Some(p), v).Ok?
    requires VerifyMembership(f, m, cdc, h, Some(q), w).Ok?
    ensures v == w || Collide(e.keccak, Nodes(p), Nodes(q))
  {
    BindingUnderRoot(e, f, BytesToHash(GetConsensusState(m, cdc, h).value.stateRoot), p, v, q, w);
  }

  lemma VerifyMonotone(env: Env, root: Hash, key: seq<byte>, p: seq<Node>, q: seq<Node>, v: seq<byte>)
    requires v != [] && VerifyProof(env.keccak, env.decode, root, key, p, env.steps) == Some(v)
    requires forall n :: n in p ==> n in q
    ensures VerifyProof(env.keccak, env.decode, root, key, q, env.steps) == Some(v) || Collide(env.keccak, q, q)
  {
    VerifiedIsProven(env, root, key, p);
    WalkMonotone(env.keccak, env.decode, root, key, p, q, env.steps);
  }

  /** A proof stays accepted when its node lists are reordered, repeated or extended, unless its
      nodes collide. */
  lemma MembershipMonotone(env: Env, m: Store, cdc: Codec, h: Height, p: MptProof, q: MptProof, v: seq<byte>)
    requires BalanceFits(p) && |v| < TWO64 && VerifyMembership(env, m, cdc, h, Some(p), v).Ok?
    requires q == p.(accountProof := q.accountProof, storageProof := q.storageProof)
    requires forall n :: n in p.accountProof ==> n in q.accountProof
    requires forall n :: n in p.storageProof ==> n in q.storageProof
    ensures VerifyMembership(env, m, cdc, h, Some(q), v).Ok? || Collide(env.keccak, Nodes(q), Nodes(q))
  {
    var root := BytesToHash(GetConsensusState(m, cdc, h).value.stateRoot);
    EncodeStringLength(v);
    VerifyMonotone(env, root, env.keccak(p.address), p.accountProof, q.accountProof, EncodeAccount(ProofAccount(p)));
    VerifyMonotone(env, p.storageHash, env.keccak(p.storageKey), p.storageProof, q.storageProof, EncodeString(v));
    if Collide(env.keccak, q.accountProof, q.accountProof) {
      CollideWithin(env.keccak, q.accountProof, q.accountProof, Nodes(q), Nodes(q));
    } else if Collide(env.keccak, q.storageProof, q.storageProof) {
      CollideWithin(env.keccak, q.storageProof, q.storageProof, Nodes(q), Nodes(q));
    }
  }

  /** In an unpruned run of a disciplined relayer, a membership verdict at a stored height is final. */
  lemma MembershipStable(env: Env, cdc: Codec, g: LightClient.Genesis, acts: seq<LightClient.Action>, k: nat,
                         h: Height, proof: Option<MptProof>, value: seq<byte>)
    requires Lawful(cdc) && LightClient.Unpruned(acts) && LightClient.Disciplined(cdc, g, acts) && k <= |acts|
    requires proof.Some? ==> BalanceFits(proof.value)
    requires |value| < TWO64 && Stored(LightClient.Run(cdc, g, acts[..k]), h)
    ensures VerifyMembership(env, LightClient.Run(cdc, g, acts), cdc, h, proof, value) ==
            VerifyMembership(env, LightClient.Run(cdc, g, acts[..k]), cdc, h, proof, value)
  {
    LightClient.DisciplinedRun(cdc, g, acts, k);
  }
}
