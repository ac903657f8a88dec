/** Merkle-Patricia proof verification: the node database rebuilt from a proof and the walk from a
    root hash. The walk reads nodes only by hash; how one node is decoded and where it sends a key
    is a parameter. */
module Mpt {
  import opened Bytes

  type Node = seq<byte>

  /** What one trie node says about a key. */
  datatype NodeStep = Malformed | Absent | Found(value: seq<byte>) | Next(hash: Hash, rest: seq<byte>)

  type Decoder = (Node, seq<byte>) -> NodeStep

  datatype Outcome = MissingNode | BadNode | NotInTrie | Proven(value: seq<byte>) | OutOfSteps

  type NodeDb = map<seq<byte>, Node>

  /** Two different nodes with the same hash. */
  ghost predicate Collision(keccak: Hasher, a: Node, b: Node) {
    a != b && keccak(a) == keccak(b)
  }

  /** Some node of one proof collides with some node of the other. */
  ghost predicate Collide(keccak: Hasher, p: seq<Node>, q: seq<Node>) {
    exists a, b :: a in p && b in q && Collision(keccak, a, b)
  }

  // ----- the database of a proof -----

  /** Nodes of 32 bytes or more are stored under their hash, smaller ones under themselves. */
  function NodeKey(keccak: Hasher, n: Node): seq<byte> {
    if |n| >= 32 then keccak(n) else n
  }

  function ProofDb(keccak: Hasher, proof: seq<Node>): NodeDb {
    if proof == [] then map[]
    else
      var n := proof[|proof| - 1];
      ProofDb(keccak, proof[..|proof| - 1])[NodeKey(keccak, n) := n]
  }

  method ReconstructProofDB(keccak: Hasher, proof: seq<Node>) returns (db: NodeDb)
    ensures db == ProofDb(keccak, proof)
  {
    db := map[];
    for i := 0 to |proof|
      invariant db == ProofDb(keccak, proof[..i])
    {
      var encodedNode := proof[i];
      var nodeKey := encodedNode;
      if |encodedNode| >= 32 {
        nodeKey := keccak(encodedNode);
      }
      db := db[nodeKey := encodedNode];
      assert proof[..i + 1][..i] == proof[..i];
    }
    assert proof[..|proof|] == proof;
  }

  /** The database holds exactly the proof's nodes, each under its own key. */
  lemma {:induction false} ProofDbSound(keccak: Hasher, proof: seq<Node>)
    ensures forall k :: k in ProofDb(keccak, proof) ==>
              ProofDb(keccak, proof)[k] in proof && k == NodeKey(keccak, ProofDb(keccak, proof)[k])
    ensures forall n :: n in proof ==> NodeKey(keccak, n) in ProofDb(keccak, proof)
  {
    if proof != [] {
      var front, last := proof[..|proof| - 1], proof[|proof| - 1];
      ProofDbSound(keccak, front);
      assert proof == front + [last];
    }
  }

  /** The last node of a proof is what its key holds; the other keys are as without it. */
  lemma LastNodeWins(keccak: Hasher, proof: seq<Node>, n: Node)
    ensures NodeKey(keccak, n) in ProofDb(keccak, proof + [n]) && ProofDb(keccak, proof + [n])[NodeKey(keccak, n)] == n
    ensures forall k :: k != NodeKey(keccak, n) ==>
              (k in ProofDb(keccak, proof + [n]) <==> k in ProofDb(keccak, proof))
              && (k in ProofDb(keccak, proof) ==> ProofDb(keccak, proof + [n])[k] == ProofDb(keccak, proof)[k])
  {
    assert (proof + [n])[..|proof|] == proof;
  }

  /** A node found under a 32-byte key hashes to that key. */
  lemma HashKeyed(keccak: Hasher, proof: seq<Node>, hash: Hash)
    requires hash in ProofDb(keccak, proof)
    ensures ProofDb(keccak, proof)[hash] in proof && keccak(ProofDb(keccak, proof)[hash]) == hash
    ensures |ProofDb(keccak, proof)[hash]| >= 32
  {
    ProofDbSound(keccak, proof);
  }

  // ----- the walk -----

  /** trie.VerifyProof, cut off after a number of nodes. */
  function Walk(db: NodeDb, decode: Decoder, hash: Hash, key: seq<byte>, steps: nat): Outcome
    decreases steps
  {
    if steps == 0 then OutOfSteps
    else if hash !in db then MissingNode
    else match decode(db[hash], key)
      case Malformed => BadNode
      case Absent => NotInTrie
      case Found(v) => Proven(v)
      case Next(child, rest) => Walk(db, decode, child, rest, steps - 1)
  }

  predicate Decisive(o: Outcome) { o.Proven? || o.NotInTrie? || o.BadNode? }

  /** VerifyMerklePatriciaTrieProof. Absence is reported as an empty value, without an error. */
  function VerifyProof(keccak: Hasher, decode: Decoder, root: Hash, key: seq<byte>, proof: seq<Node>, steps: nat): Option<seq<byte>> {
    match Walk(ProofDb(keccak, proof), decode, root, key, steps)
    case Proven(v) => Some(v)
    case NotInTrie => Some([])
    case _ => None
  }

  // ----- what the walk computes -----

  /** Nodes n_0 .. n_k and keys x_0 .. x_k that lead from a root hash down a trie: n_0 hashes to the
      root and is asked for the whole key, and each node sends what is left of the key to the hash of
      the next node. */
  ghost predicate IsPath(keccak: Hasher, decode: Decoder, root: Hash, key: seq<byte>, nodes: seq<Node>, keys: seq<seq<byte>>) {
    && |nodes| == |keys| > 0 && keccak(nodes[0]) == root && keys[0] == key
    && (forall i, j :: 0 <= i && j == i + 1 && j < |nodes| ==> decode(nodes[i], keys[i]) == Next(keccak(nodes[j]), keys[j]))
  }

  /** The nodes are hashed nodes of the proof. */
  ghost predicate FromProof(nodes: seq<Node>, proof: seq<Node>) {
    forall i :: 0 <= i < |nodes| ==> nodes[i] in proof && |nodes[i]| >= 32
  }

  /** Some path of at most `steps` nodes of the proof ends at a node that says `end`. */
  ghost predicate Leads(keccak: Hasher, decode: Decoder, root: Hash, key: seq<byte>, proof: seq<Node>, steps: nat, end: NodeStep) {
    exists nodes, keys ::
      && IsPath(keccak, decode, root, key, nodes, keys) && FromProof(nodes, proof) && |nodes| <= steps
      && decode(nodes[|nodes| - 1], keys[|nodes| - 1]) == end
  }

  lemma ExtendPath(keccak: Hasher, decode: Decoder, root: Hash, key: seq<byte>, node: Node, nodes: seq<Node>, keys: seq<seq<byte>>, rest: seq<byte>, child: Hash)
    requires keccak(node) == root && decode(node, key) == Next(child, rest) && IsPath(keccak, decode, child, rest, nodes, keys)
    ensures IsPath(keccak, decode, root, key, [node] + nodes, [key] + keys)
  {
    var ns, ks := [node] + nodes, [key] + keys;
    forall i, j | 0 <= i && j == i + 1 && j < |ns| ensures decode(ns[i], ks[i]) == Next(keccak(ns[j]), ks[j]) {
      if i > 0 { assert ns[i] == nodes[i - 1] && ks[i] == keys[i - 1] && ns[j] == nodes[j - 1] && ks[j] == keys[j - 1]; }
    }
  }

  /** What a walk decides, some path of the proof says. */
  lemma {:induction false} WalkFollowsPath(keccak: Hasher, decode: Decoder, root: Hash, key: seq<byte>, proof: seq<Node>, steps: nat)
    returns (nodes: seq<Node>, keys: seq<seq<byte>>)
    requires Decisive(Walk(ProofDb(keccak, proof), decode, root, key, steps))
    ensures IsPath(keccak, decode, root, key, nodes, keys) && FromProof(nodes, proof) && |nodes| <= steps
    ensures Says(decode(nodes[|nodes| - 1], keys[|nodes| - 1]), Walk(ProofDb(keccak, proof), decode, root, key, steps))
    decreases steps
  {
    HashKeyed(keccak, proof, root);
    var n := ProofDb(keccak, proof)[root];
    match decode(n, key)
    case Next(child, rest) =>
      var ns, ks := WalkFollowsPath(keccak, decode, child, rest, proof, steps - 1);
      ExtendPath(keccak, decode, root, key, n, ns, ks, rest, child);
      nodes, keys := [n] + ns, [key] + ks;
    case _ =>
      nodes, keys := [n], [key];
  }

  /** The outcome a node's last word stands for. */
  ghost predicate Says(end: NodeStep, o: Outcome) {
    match end
    case Found(v) => o == Proven(v)
    case Absent => o == NotInTrie
    case Malformed => o == BadNode
    case Next(_, _) => false
  }

  /** A path of the proof is what the walk follows, unless the proof's nodes collide. */
  lemma {:induction false} PathDecidesWalk(keccak: Hasher, decode: Decoder, root: Hash, key: seq<byte>, proof: seq<Node>, steps: nat,
                                           nodes: seq<Node>, keys: seq<seq<byte>>, o: Outcome)
    requires IsPath(keccak, decode, root, key, nodes, keys) && FromProof(nodes, proof) && |nodes| <= steps
    requires Says(decode(nodes[|nodes| - 1], keys[|nodes| - 1]), o) && !Collide(keccak, proof, proof)
    ensures Walk(ProofDb(keccak, proof), decode, root, key, steps) == o
    decreases |nodes|
  {
    ProofDbSound(keccak, proof);
    var n := nodes[0];
    assert n in proof && NodeKey(keccak, n) == root;
    HashKeyed(keccak, proof, root);
    assert !Collision(keccak, ProofDb(keccak, proof)[root], n);
    if |nodes| > 1 {
      var ns, ks := nodes[1..], keys[1..];
      forall i, j | 0 <= i && j == i + 1 && j < |ns| ensures decode(ns[i], ks[i]) == Next(keccak(ns[j]), ks[j]) {
        assert decode(nodes[i + 1], keys[i + 1]) == Next(keccak(nodes[j + 1]), keys[j + 1]);
      }
      PathDecidesWalk(keccak, decode, keccak(nodes[1]), keys[1], proof, steps - 1, ns, ks, o);
    }
  }

  lemma PathDecides(keccak: Hasher, decode: Decoder, root: Hash, key: seq<byte>, proof: seq<Node>, steps: nat, end: NodeStep, o: Outcome)
    requires Says(end, o)
    ensures Walk(ProofDb(keccak, proof), decode, root, key, steps) == o ==> Leads(keccak, decode, root, key, proof, steps, end)
    ensures Leads(keccak, decode, root, key, proof, steps, end) ==>
              Walk(ProofDb(keccak, proof), decode, root, key, steps) == o || Collide(keccak, proof, proof)
  {
    if Walk(ProofDb(keccak, proof), decode, root, key, steps) == o {
      var nodes, keys := WalkFollowsPath(keccak, decode, root, key, proof, steps);
      assert Leads(keccak, decode, root, key, proof, steps, decode(nodes[|nodes| - 1], keys[|nodes| - 1]));
    }
    if Leads(keccak, decode, root, key, proof, steps, end) && !Collide(keccak, proof, proof) {
      var nodes, keys :|
        && IsPath(keccak, decode, root, key, nodes, keys) && FromProof(nodes, proof) && |nodes| <= steps
        && decode(nodes[|nodes| - 1], keys[|nodes| - 1]) == end;
      PathDecidesWalk(keccak, decode, root, key, proof, steps, nodes, keys, o);
    }
  }

  /** The walk proves a value if and only if a path of the proof ends at it, finds the key absent if
      and only if a path ends in absence, and fails on a malformed node if and only if a path ends at
      one. That a path is enough holds up to a collision among the proof's nodes. */
  lemma WalkExact(keccak: Hasher, decode: Decoder, root: Hash, key: seq<byte>, proof: seq<Node>, steps: nat, v: seq<byte>)
    ensures var o := Walk(ProofDb(keccak, proof), decode, root, key, steps);
            && (o == Proven(v) ==> Leads(keccak, decode, root, key, proof, steps, Found(v)))
            && (o == NotInTrie ==> Leads(keccak, decode, root, key, proof, steps, Absent))
            && (o == BadNode ==> Leads(keccak, decode, root, key, proof, steps, Malformed))
            && (!Collide(keccak, proof, proof) ==>
                  && (Leads(keccak, decode, root, key, proof, steps, Found(v)) ==> o == Proven(v))
                  && (Leads(keccak, decode, root, key, proof, steps, Absent) ==> o == NotInTrie)
                  && (Leads(keccak, decode, root, key, proof, steps, Malformed) ==> o == BadNode))
  {
    PathDecides(keccak, decode, root, key, proof, steps, Found(v), Proven(v));
    PathDecides(keccak, decode, root, key, proof, steps, Absent, NotInTrie);
    PathDecides(keccak, decode, root, key, proof, steps, Malformed, BadNode);
  }

  /** Verification yields a value if and only if a path of the proof ends at it, or it is empty and a
      path ends in absence; the second half up to a collision. */
  lemma VerifyProofExact(keccak: Hasher, decode: Decoder, root: Hash, key: seq<byte>, proof: seq<Node>, steps: nat, v: seq<byte>)
    ensures VerifyProof(keccak, decode, root, key, proof, steps) == Some(v) ==>
              || Leads(keccak, decode, root, key, proof, steps, Found(v))
              || (v == [] && Leads(keccak, decode, root, key, proof, steps, Absent))
    ensures (|| Leads(keccak, decode, root, key, proof, steps, Found(v))
             || (v == [] && Leads(keccak, decode, root, key, proof, steps, Absent))) ==>
              VerifyProof(keccak, decode, root, key, proof, steps) == Some(v) || Collide(keccak, proof, proof)
  {
    WalkExact(keccak, decode, root, key, proof, steps, v);
  }

  /** A walk that finishes does not depend on the step bound. */
  lemma {:induction false} MoreSteps(db: NodeDb, decode: Decoder, hash: Hash, key: seq<byte>, s: nat, t: nat)
    requires !Walk(db, decode, hash, key, s).OutOfSteps? && s <= t
    ensures Walk(db, decode, hash, key, t) == Walk(db, decode, hash, key, s)
    decreases s
  {
    if hash in db {
      match decode(db[hash], key)
      case Next(child, rest) => MoreSteps(db, decode, child, rest, s - 1, t - 1);
      case _ =>
    }
  }

  /** Binding: two proofs that both settle a key under the same root settle it the same way, or
      they contain a hash collision. */
  lemma {:induction false} WalksAgree(keccak: Hasher, decode: Decoder, hash: Hash, key: seq<byte>,
                                      p: seq<Node>, s: nat, q: seq<Node>, t: nat)
    requires Decisive(Walk(ProofDb(keccak, p), decode, hash, key, s))
    requires Decisive(Walk(ProofDb(keccak, q), decode, hash, key, t))
    ensures Walk(ProofDb(keccak, p), decode, hash, key, s) == Walk(ProofDb(keccak, q), decode, hash, key, t)
            || Collide(keccak, p, q)
    decreases s
  {
    HashKeyed(keccak, p, hash);
    HashKeyed(keccak, q, hash);
    var a, b := ProofDb(keccak, p)[hash], ProofDb(keccak, q)[hash];
    if a != b {
      assert Collision(keccak, a, b);
    } else {
      match decode(a, key)
      case Next(child, rest) => WalksAgree(keccak, decode, child, rest, p, s - 1, q, t - 1);
      case _ =>
    }
  }

  /** Order, repetition and extra nodes do not matter: a proof that contains all nodes of another
      one settles every key the other settles, the same way, unless its nodes collide. */
  lemma {:induction false} WalkMonotone(keccak: Hasher, decode: Decoder, hash: Hash, key: seq<byte>,
                                        p: seq<Node>, q: seq<Node>, s: nat)
    requires forall n :: n in p ==> n in q
    requires Decisive(Walk(ProofDb(keccak, p), decode, hash, key, s))
    ensures Walk(ProofDb(keccak, q), decode, hash, key, s) == Walk(ProofDb(keccak, p), decode, hash, key, s)
            || Collide(keccak, q, q)
    decreases s
  {
    HashKeyed(keccak, p, hash);
    var a := ProofDb(keccak, p)[hash];
    ProofDbSound(keccak, q);
    assert NodeKey(keccak, a) == hash;
    HashKeyed(keccak, q, hash);
    var b := ProofDb(keccak, q)[hash];
    if a != b {
      assert Collision(keccak, a, b);
    } else {
      match decode(a, key)
      case Next(child, rest) => WalkMonotone(keccak, decode, child, rest, p, q, s - 1);
      case _ =>
    }
  }
}
