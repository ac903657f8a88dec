/** The layered trie-node database: diff layers chained by parent roots over a disk, read from the
    newest layer down, and committed to disk from the oldest layer up. */
module LayeredDb {
  import opened Bytes

  function ZeroHash(): Hash { seq(32, _ => 0) }

  type Path = seq<byte>

  /** A deleted node has an empty blob. */
  datatype TrieNode = TrieNode(hash: Hash, blob: seq<byte>)

  /** Node sets by owner; the zero owner is the account trie. */
  type Layer = map<Hash, map<Path, TrieNode>>

  datatype Scheme = HashScheme | PathScheme

  /** Where a trie node lives on disk: under its hash, or under its owner and path. */
  datatype DiskKey = ByHash(hash: Hash) | ByPath(owner: Hash, path: Path)

  type Disk = map<DiskKey, seq<byte>>

  predicate Has(l: Layer, owner: Hash, path: Path) {
    owner in l && path in l[owner]
  }

  function KeyFor(scheme: Scheme, owner: Hash, path: Path, hash: Hash): DiskKey {
    if scheme.HashScheme? then ByHash(hash) else ByPath(owner, path)
  }

  // ----- reading -----

  /** rawdb.ReadTrieNode: empty when there is no such node. The path scheme checks the hash. */
  function ReadDisk(keccak: Hasher, scheme: Scheme, disk: Disk, owner: Hash, path: Path, hash: Hash): seq<byte> {
    var key := KeyFor(scheme, owner, path, hash);
    var blob := if key in disk then disk[key] else [];
    if scheme.PathScheme? && blob != [] && keccak(blob) != hash then [] else blob
  }

  /** A node is delivered from disk exactly when it is there: under its hash, whatever it hashes to, or
      under its owner and path and with the right hash. */
  lemma DiskReads(keccak: Hasher, disk: Disk, owner: Hash, path: Path, hash: Hash, blob: seq<byte>)
    requires blob != []
    ensures ReadDisk(keccak, HashScheme, disk, owner, path, hash) == blob <==> ByHash(hash) in disk && disk[ByHash(hash)] == blob
    ensures ReadDisk(keccak, PathScheme, disk, owner, path, hash) == blob <==>
            ByPath(owner, path) in disk && disk[ByPath(owner, path)] == blob && keccak(blob) == hash
  {
  }

  /** A read through layers, newest first. None is a missing-node error; an empty blob is a node
      the disk does not have. */
  function Read(keccak: Hasher, scheme: Scheme, layers: seq<Layer>, disk: Disk, owner: Hash, path: Path, hash: Hash)
    : Option<seq<byte>>
  {
    if layers == [] then Some(ReadDisk(keccak, scheme, disk, owner, path, hash))
    else if Has(layers[0], owner, path) then
      var n := layers[0][owner][path];
      if n.blob == [] || n.hash != hash then None else Some(n.blob)
    else Read(keccak, scheme, layers[1..], disk, owner, path, hash)
  }

  method ReadNode(keccak: Hasher, scheme: Scheme, layers: seq<Layer>, disk: Disk, owner: Hash, path: Path, hash: Hash)
    returns (r: Option<seq<byte>>)
    ensures r == Read(keccak, scheme, layers, disk, owner, path, hash)
  {
    for i := 0 to |layers|
      invariant Read(keccak, scheme, layers, disk, owner, path, hash) ==
                Read(keccak, scheme, layers[i..], disk, owner, path, hash)
    {
      assert layers[i..][1..] == layers[i + 1..];
      if owner in layers[i] && path in layers[i][owner] {
        var n := layers[i][owner][path];
        if n.blob == [] || n.hash != hash {
          return None;
        }
        return Some(n.blob);
      }
    }
    r := Some(ReadDisk(keccak, scheme, disk, owner, path, hash));
  }

  /** The node a read delivers, or the empty blob when it delivers none. */
  function Delivered(r: Option<seq<byte>>): seq<byte> {
    if r.Some? then r.value else []
  }

  // ----- the chain of layers -----

  datatype Tree = Tree(root: Hash, nodes: map<Hash, Layer>, parents: map<Hash, Hash>)

  /** The walk towards the disk ends at the disk root or at an unknown root. */
  predicate Ends(t: Tree, r: Hash) {
    r == t.root || r !in t.nodes
  }

  /** Reading an absent map entry gives the zero hash. */
  function Parent(t: Tree, r: Hash): Hash {
    if r in t.parents then t.parents[r] else ZeroHash()
  }

  /** The roots walked from r, newest first, at most n of them. */
  function Chain(t: Tree, r: Hash, n: nat): seq<Hash>
    decreases n
  {
    if n == 0 || Ends(t, r) then [] else [r] + Chain(t, Parent(t, r), n - 1)
  }

  /** The walk from r ends within n steps. */
  predicate Stops(t: Tree, r: Hash, n: nat)
    decreases n
  {
    Ends(t, r) || (n > 0 && Stops(t, Parent(t, r), n - 1))
  }

  lemma {:induction false} ChainMember(t: Tree, r: Hash, n: nat, i: nat)
    requires i < |Chain(t, r, n)|
    ensures Chain(t, r, n)[i] in t.nodes && Chain(t, r, n)[i] != t.root
    decreases n
  {
    if i > 0 { ChainMember(t, Parent(t, r), n - 1, i - 1); }
  }

  lemma ChainInNodes(t: Tree, r: Hash, n: nat)
    ensures forall i :: 0 <= i < |Chain(t, r, n)| ==> Chain(t, r, n)[i] in t.nodes
  {
    forall i | 0 <= i < |Chain(t, r, n)| ensures Chain(t, r, n)[i] in t.nodes { ChainMember(t, r, n, i); }
  }

  /** Walking on from the i-th visited root visits the rest of the chain. */
  lemma {:induction false} ChainSuffix(t: Tree, r: Hash, n: nat, i: nat)
    requires Stops(t, r, n) && i < |Chain(t, r, n)|
    ensures i <= n && Stops(t, Chain(t, r, n)[i], n - i) && Chain(t, Chain(t, r, n)[i], n - i) == Chain(t, r, n)[i..]
    decreases n
  {
    if i > 0 {
      ChainSuffix(t, Parent(t, r), n - 1, i - 1);
      assert Chain(t, r, n)[i..] == Chain(t, Parent(t, r), n - 1)[i - 1..];
    }
  }

  /** How far the walk may go does not matter once it ends. */
  lemma {:induction false} ChainBoundIrrelevant(t: Tree, r: Hash, m: nat, n: nat)
    requires Stops(t, r, m) && Stops(t, r, n)
    ensures Chain(t, r, m) == Chain(t, r, n)
    decreases m
  {
    if !Ends(t, r) { ChainBoundIrrelevant(t, Parent(t, r), m - 1, n - 1); }
  }

  /** A walk that ends visits each layer at most once. */
  lemma ChainDistinct(t: Tree, r: Hash, n: nat, i: nat, j: nat)
    requires Stops(t, r, n) && i < j < |Chain(t, r, n)|
    ensures Chain(t, r, n)[i] != Chain(t, r, n)[j]
  {
    var c := Chain(t, r, n);
    ChainSuffix(t, r, n, i);
    ChainSuffix(t, r, n, j);
    if c[i] == c[j] {
      ChainBoundIrrelevant(t, c[i], n - i, n - j);
    }
  }

  function Reversed<T>(s: seq<T>): (r: seq<T>)
    ensures |r| == |s| && forall i :: 0 <= i < |s| ==> r[i] == s[|s| - 1 - i]
  {
    seq(|s|, i requires 0 <= i < |s| => s[|s| - 1 - i])
  }

  /** The layers of the roots walked from r, newest first. */
  function ChainLayers(t: Tree, r: Hash, n: nat): (ls: seq<Layer>)
    ensures |ls| == |Chain(t, r, n)|
    ensures forall i :: 0 <= i < |ls| ==> Chain(t, r, n)[i] in t.nodes && ls[i] == t.nodes[Chain(t, r, n)[i]]
  {
    ChainInNodes(t, r, n);
    seq(|Chain(t, r, n)|, i requires 0 <= i < |Chain(t, r, n)| => t.nodes[Chain(t, r, n)[i]])
  }

  /** Each root comes with its layer. */
  ghost predicate Paired(t: Tree, roots: seq<Hash>, pending: seq<Layer>) {
    |pending| == |roots| && forall i :: 0 <= i < |roots| ==> roots[i] in t.nodes && pending[i] == t.nodes[roots[i]]
  }

  /** The walk does not end when layers name each other as parents, so callers owe a bound. The
      roots come newest first, or oldest first. */
  method Dirties(t: Tree, root: Hash, topToBottom: bool, ghost bound: nat) returns (pending: seq<Layer>, roots: seq<Hash>)
    requires Stops(t, root, bound)
    ensures roots == if topToBottom then Chain(t, root, bound) else Reversed(Chain(t, root, bound))
    ensures Paired(t, roots, pending)
  {
    pending, roots := [], [];
    var r := root;
    ghost var left := bound;
    ghost var seen: seq<Hash> := [];
    while r != t.root && r in t.nodes
      invariant Stops(t, r, left)
      invariant Chain(t, root, bound) == seen + Chain(t, r, left)
      invariant roots == if topToBottom then seen else Reversed(seen)
      invariant Paired(t, roots, pending)
      decreases left
    {
      PairedMore(t, roots, pending, r);
      ReversedMore(seen, r);
      if topToBottom {
        pending := pending + [t.nodes[r]];
        roots := roots + [r];
      } else {
        pending := [t.nodes[r]] + pending;
        roots := [r] + roots;
      }
      AppendAssociative(seen, r, Chain(t, Parent(t, r), left - 1));
      seen := seen + [r];
      r := Parent(t, r);
      left := left - 1;
    }
    assert Chain(t, r, left) == [];
  }

  lemma AppendAssociative(a: seq<Hash>, x: Hash, b: seq<Hash>)
    ensures a + ([x] + b) == (a + [x]) + b
  {
  }

  lemma PairedMore(t: Tree, roots: seq<Hash>, pending: seq<Layer>, r: Hash)
    requires Paired(t, roots, pending) && r in t.nodes
    ensures Paired(t, roots + [r], pending + [t.nodes[r]])
    ensures Paired(t, [r] + roots, [t.nodes[r]] + pending)
  {
  }

  lemma ReversedMore(s: seq<Hash>, r: Hash)
    ensures Reversed(s + [r]) == [r] + Reversed(s)
  {
  }

  // ----- every history of updates and commits -----

  /** Layers and parents go together, the disk root is not a layer, and every walk ends. */
  ghost predicate Healthy(t: Tree) {
    && t.nodes.Keys == t.parents.Keys
    && t.root !in t.nodes
    && AllWalksEnd(t)
  }

  ghost predicate AllWalksEnd(t: Tree) {
    forall r: Hash :: WalkEnds(t, r)
  }

  ghost predicate WalkEnds(t: Tree, r: Hash) {
    exists n: nat :: Stops(t, r, n)
  }

  function EmptyTree(root: Hash): Tree { Tree(root, map[], map[]) }

  function AddLayer(t: Tree, root: Hash, parent: Hash, l: Layer): Tree {
    if root == parent || root in t.nodes then t
    else t.(nodes := t.nodes[root := l], parents := t.parents[root := parent])
  }

  /** The tree after committing a chain of roots, newest first. */
  function DropChain(t: Tree, chain: seq<Hash>): Tree {
    if chain == [] then t
    else Tree(chain[0], t.nodes - Elements(chain), t.parents - Elements(chain))
  }

  function Elements(s: seq<Hash>): set<Hash> { set r | r in s }

  /** A root no layer hangs from yet. */
  predicate Fresh(t: Tree, root: Hash) {
    root !in t.nodes && root != t.root && root !in t.parents.Values
  }

  lemma {:induction false} AddKeepsWalks(t: Tree, root: Hash, parent: Hash, l: Layer, r: Hash, n: nat)
    requires t.nodes.Keys == t.parents.Keys && Fresh(t, root) && root != parent && r != root
    requires Stops(t, r, n)
    ensures Stops(AddLayer(t, root, parent, l), r, n)
    decreases n
  {
    if !Ends(t, r) {
      assert t.parents[r] in t.parents.Values;
      AddKeepsWalks(t, root, parent, l, Parent(t, r), n - 1);
    }
  }

  lemma AddKeepsHealthy(t: Tree, root: Hash, parent: Hash, l: Layer)
    requires Healthy(t) && (Fresh(t, root) || root == parent || root in t.nodes)
    ensures Healthy(AddLayer(t, root, parent, l))
  {
    var t' := AddLayer(t, root, parent, l);
    if t' != t {
      forall r: Hash ensures WalkEnds(t', r) {
        var from := if r == root then parent else r;
        assert WalkEnds(t, from);
        var n: nat :| Stops(t, from, n);
        AddKeepsWalks(t, root, parent, l, from, n);
        if r == root { assert Stops(t', root, n + 1); } else { assert Stops(t', r, n); }
      }
    }
  }

  lemma {:induction false} DropKeepsWalks(t: Tree, chain: seq<Hash>, r: Hash, n: nat)
    requires t.nodes.Keys == t.parents.Keys && t.root !in t.nodes && chain != [] && Stops(t, r, n)
    ensures Stops(DropChain(t, chain), r, n)
    decreases n
  {
    if !Ends(DropChain(t, chain), r) {
      DropKeepsWalks(t, chain, Parent(t, r), n - 1);
    }
  }

  lemma DropKeepsHealthy(t: Tree, r: Hash, n: nat)
    requires Healthy(t) && Stops(t, r, n)
    ensures Healthy(DropChain(t, Chain(t, r, n)))
  {
    var chain := Chain(t, r, n);
    if chain != [] {
      var t' := DropChain(t, chain);
      forall x: Hash ensures WalkEnds(t', x) {
        assert WalkEnds(t, x);
        var k: nat :| Stops(t, x, k);
        DropKeepsWalks(t, chain, x, k);
      }
    }
  }

  /** After a commit the committed root has no layers above the disk. */
  lemma CommittedChainIsEmpty(t: Tree, r: Hash, n: nat, k: nat)
    requires Stops(t, r, n)
    ensures Chain(DropChain(t, Chain(t, r, n)), r, k) == []
  {
  }

  datatype Op = Add(root: Hash, parent: Hash, layer: Layer) | Commit(root: Hash)

  /** Some step bound for a walk that ends. */
  ghost function Bound(t: Tree, r: Hash): (n: nat)
    requires WalkEnds(t, r)
    ensures Stops(t, r, n)
  {
    var n: nat :| Stops(t, r, n); n
  }

  /** A commit whose walk never ends does not return; it is left out of account here. */
  ghost function Apply(t: Tree, op: Op): Tree {
    match op
    case Add(root, parent, l) => AddLayer(t, root, parent, l)
    case Commit(root) => if WalkEnds(t, root) then DropChain(t, Chain(t, root, Bound(t, root))) else t
  }

  ghost function History(t: Tree, ops: seq<Op>): Tree
    decreases |ops|
  {
    if ops == [] then t else Apply(History(t, ops[..|ops| - 1]), ops[|ops| - 1])
  }

  /** Every layer-adding step either changes nothing or adds a root that is fresh at that time. */
  ghost predicate FreshHistory(t: Tree, ops: seq<Op>) {
    forall i :: 0 <= i < |ops| && ops[i].Add? ==> AddsFresh(History(t, ops[..i]), ops[i])
  }

  ghost predicate AddsFresh(t: Tree, op: Op)
    requires op.Add?
  {
    Fresh(t, op.root) || op.root == op.parent || op.root in t.nodes
  }

  /** Every history of updates with fresh roots and commits stays healthy: the parent relation stays
      acyclic and every walk, from any root, ends. */
  lemma {:induction false} HistoryStaysHealthy(t: Tree, ops: seq<Op>)
    requires Healthy(t) && FreshHistory(t, ops)
    ensures Healthy(History(t, ops))
    decreases |ops|
  {
    if ops != [] {
      var n := |ops| - 1;
      var before := ops[..n];
      forall i | 0 <= i < n && before[i].Add? ensures AddsFresh(History(t, before[..i]), before[i]) {
        assert before[..i] == ops[..i];
      }
      HistoryStaysHealthy(t, before);
      var u := History(t, before);
      match ops[n] {
        case Add(root, parent, l) => AddKeepsHealthy(u, root, parent, l);
        case Commit(root) => DropKeepsHealthy(u, root, Bound(u, root));
      }
    }
  }

  lemma EmptyTreeHealthy(root: Hash)
    ensures Healthy(EmptyTree(root))
  {
    forall r: Hash ensures WalkEnds(EmptyTree(root), r) { assert Stops(EmptyTree(root), r, 0); }
  }

  /** Without freshness the walk may never end: two layers that name each other as parents. */
  lemma {:induction false} CyclicWalkNeverEnds(a: Hash, b: Hash, base: Hash, l: Layer, n: nat)
    requires a != b && a != base && b != base
    ensures var t := AddLayer(AddLayer(EmptyTree(base), a, b, l), b, a, l);
            !Stops(t, a, n) && !Stops(t, b, n)
    decreases n
  {
    if n > 0 { CyclicWalkNeverEnds(a, b, base, l, n - 1); }
  }

  /** The root where a walk that ends within n steps ends. */
  function End(t: Tree, r: Hash, n: nat): Hash
    requires Stops(t, r, n)
    decreases n
  {
    if Ends(t, r) then r else End(t, Parent(t, r), n - 1)
  }

  /** A walk that avoids the new root goes as before; one that ends at it goes on from there. */
  lemma {:induction false} AddAvoided(t: Tree, root: Hash, parent: Hash, l: Layer, r: Hash, n: nat)
    requires t.nodes.Keys == t.parents.Keys && root !in t.nodes && root != parent && root != t.root
    requires Stops(t, r, n)
    ensures End(t, r, n) != root ==> Stops(AddLayer(t, root, parent, l), r, n)
    ensures forall k: nat :: End(t, r, n) == root && Stops(AddLayer(t, root, parent, l), root, k) ==>
              Stops(AddLayer(t, root, parent, l), r, n + k)
    decreases n
  {
    if Ends(t, r) {
      forall k: nat | r == root && Stops(AddLayer(t, root, parent, l), root, k) ensures Stops(AddLayer(t, root, parent, l), r, n + k) {
        StopsLonger(AddLayer(t, root, parent, l), root, k, n + k);
      }
    } else {
      AddAvoided(t, root, parent, l, Parent(t, r), n - 1);
    }
  }

  lemma {:induction false} StopsLonger(t: Tree, r: Hash, m: nat, n: nat)
    requires Stops(t, r, m) && m <= n
    ensures Stops(t, r, n)
    decreases m
  {
    if !Ends(t, r) { StopsLonger(t, Parent(t, r), m - 1, n - 1); }
  }

  /** A walk that used to end at the new root reaches it with no more steps left than it had. */
  lemma {:induction false} ReachesRoot(t: Tree, root: Hash, parent: Hash, l: Layer, r: Hash, n: nat, k: nat)
    requires t.nodes.Keys == t.parents.Keys && root !in t.nodes && root != parent && root != t.root
    requires Stops(t, r, n) && End(t, r, n) == root && Stops(AddLayer(t, root, parent, l), r, k)
    ensures Stops(AddLayer(t, root, parent, l), root, k)
    decreases n
  {
    if !Ends(t, r) {
      ReachesRoot(t, root, parent, l, Parent(t, r), n - 1, k - 1);
      StopsLonger(AddLayer(t, root, parent, l), root, k - 1, k);
    }
  }

  /** If the parent's walk ends at the new root, the new layer closes a cycle. */
  lemma {:induction false} CycleNeverEnds(t: Tree, root: Hash, parent: Hash, l: Layer, n: nat, k: nat)
    requires t.nodes.Keys == t.parents.Keys && root !in t.nodes && root != parent && root != t.root
    requires Stops(t, parent, n) && End(t, parent, n) == root
    ensures !Stops(AddLayer(t, root, parent, l), root, k)
    decreases k
  {
    if Stops(AddLayer(t, root, parent, l), root, k) {
      ReachesRoot(t, root, parent, l, parent, n, k - 1);
      CycleNeverEnds(t, root, parent, l, n, k - 1);
    }
  }

  /** A root that is neither known nor the disk root. */
  lemma NewRootKeepsWalks(t: Tree, root: Hash, parent: Hash, l: Layer, n: nat)
    requires t.nodes.Keys == t.parents.Keys && AllWalksEnd(t) && Stops(t, parent, n)
    requires root !in t.nodes && root != parent && root != t.root
    ensures AllWalksEnd(AddLayer(t, root, parent, l)) <==> End(t, parent, n) != root
  {
    var t' := AddLayer(t, root, parent, l);
    if End(t, parent, n) == root {
      forall k: nat ensures !Stops(t', root, k) { CycleNeverEnds(t, root, parent, l, n, k); }
      assert !WalkEnds(t', root);
    } else {
      AddAvoided(t, root, parent, l, parent, n);
      assert Stops(t', root, n + 1);
      forall r: Hash ensures WalkEnds(t', r) {
        assert WalkEnds(t, r);
        var k: nat :| Stops(t, r, k);
        AddAvoided(t, root, parent, l, r, k);
        if End(t, r, k) == root { assert Stops(t', r, k + (n + 1)); }
      }
    }
  }

  /** Every walk ends at the disk root, so a layer under that root is on no walk. */
  lemma {:induction false} DiskRootKeepsWalk(t: Tree, parent: Hash, l: Layer, r: Hash, n: nat)
    requires t.nodes.Keys == t.parents.Keys && Stops(t, r, n)
    ensures Stops(AddLayer(t, t.root, parent, l), r, n)
    decreases n
  {
    if !Ends(t, r) { DiskRootKeepsWalk(t, parent, l, Parent(t, r), n - 1); }
  }

  /** An update keeps every walk finite if and only if it changes nothing, or its root is the disk
      root, or the walk from its parent does not end at the new root itself. It keeps a tree healthy
      under the same condition, unless it puts a layer under the disk root. */
  lemma AddKeepsHealthyExactly(t: Tree, root: Hash, parent: Hash, l: Layer, n: nat)
    requires t.nodes.Keys == t.parents.Keys && AllWalksEnd(t) && Stops(t, parent, n)
    ensures AllWalksEnd(AddLayer(t, root, parent, l)) <==>
            root == parent || root in t.nodes || root == t.root || End(t, parent, n) != root
    ensures Healthy(t) ==>
              (Healthy(AddLayer(t, root, parent, l)) <==>
               root == parent || root in t.nodes || (root != t.root && End(t, parent, n) != root))
  {
    if root != parent && root !in t.nodes {
      if root == t.root {
        forall r: Hash ensures WalkEnds(AddLayer(t, root, parent, l), r) {
          assert WalkEnds(t, r);
          var k: nat :| Stops(t, r, k);
          DiskRootKeepsWalk(t, parent, l, r, k);
        }
      } else {
        NewRootKeepsWalks(t, root, parent, l, n);
      }
    }
  }

  // ----- which layers a root reads after an update or a commit -----

  /** A root whose walk does not end at the new root keeps its layers. */
  lemma {:induction false} OtherLayersKept(t: Tree, root: Hash, parent: Hash, l: Layer, r: Hash, n: nat)
    requires t.nodes.Keys == t.parents.Keys && Stops(t, r, n)
    requires root == parent || root in t.nodes || root == t.root || End(t, r, n) != root
    ensures var t' := AddLayer(t, root, parent, l);
            Stops(t', r, n) && Chain(t', r, n) == Chain(t, r, n) && ChainLayers(t', r, n) == ChainLayers(t, r, n)
    decreases n
  {
    var t' := AddLayer(t, root, parent, l);
    if t' != t && !Ends(t, r) {
      OtherLayersKept(t, root, parent, l, Parent(t, r), n - 1);
      assert Parent(t', r) == Parent(t, r);
    }
    assert ChainLayers(t', r, n) == ChainLayers(t, r, n);
  }

  /** The new root reads the new layer and the parent's layers. */
  lemma NewRootLayers(t: Tree, root: Hash, parent: Hash, l: Layer, k: nat, n: nat)
    requires t.nodes.Keys == t.parents.Keys && root !in t.nodes && root != parent && root != t.root
    requires Stops(t, parent, k) && End(t, parent, k) != root && n > k
    ensures var t' := AddLayer(t, root, parent, l);
            Stops(t', root, n) && ChainLayers(t', root, n) == [l] + ChainLayers(t, parent, k)
  {
    var t' := AddLayer(t, root, parent, l);
    OtherLayersKept(t, root, parent, l, parent, k);
    StopsLonger(t', parent, k, n - 1);
    ChainBoundIrrelevant(t', parent, k, n - 1);
    LayersCons(t', root, n);
    assert ChainLayers(t', parent, n - 1) == ChainLayers(t', parent, k);
  }

  /** A walk that ended at the new root goes on through the new layer and the parent's layers. */
  lemma {:induction false} LayersThroughNew(t: Tree, root: Hash, parent: Hash, l: Layer, r: Hash, n: nat, k: nat)
    requires t.nodes.Keys == t.parents.Keys && root !in t.nodes && root != parent && root != t.root
    requires Stops(t, r, n) && End(t, r, n) == root && Stops(t, parent, k) && End(t, parent, k) != root
    ensures var t' := AddLayer(t, root, parent, l);
            && Stops(t', r, n + k + 1)
            && ChainLayers(t', r, n + k + 1) == ChainLayers(t, r, n) + ([l] + ChainLayers(t, parent, k))
    decreases n
  {
    if Ends(t, r) {
      NewRootLayers(t, root, parent, l, k, n + k + 1);
      assert ChainLayers(t, r, n) == [];
    } else {
      LayersThroughNew(t, root, parent, l, Parent(t, r), n - 1, k);
      LayersCons(t, r, n);
      LayersCons(AddLayer(t, root, parent, l), r, n + k + 1);
      LayersAssociative(t.nodes[r], ChainLayers(t, Parent(t, r), n - 1), [l] + ChainLayers(t, parent, k));
    }
  }

  lemma LayersAssociative(x: Layer, a: seq<Layer>, b: seq<Layer>)
    ensures [x] + (a + b) == ([x] + a) + b
  {
  }

  lemma LayersCons(t: Tree, r: Hash, n: nat)
    requires n > 0 && !Ends(t, r)
    ensures ChainLayers(t, r, n) == [t.nodes[r]] + ChainLayers(t, Parent(t, r), n - 1)
  {
  }

  /** An update puts its layer on top of its parent's: the new root reads the layer first, and
      otherwise as the parent did. */
  lemma UpdateReads(keccak: Hasher, scheme: Scheme, t: Tree, root: Hash, parent: Hash, l: Layer, n: nat, d: Disk, o: Hash, p: Path, h: Hash)
    requires t.nodes.Keys == t.parents.Keys && root !in t.nodes && root != parent && root != t.root
    requires Stops(t, parent, n) && End(t, parent, n) != root
    ensures var t' := AddLayer(t, root, parent, l);
            && Stops(t', root, n + 1)
            && ChainLayers(t', root, n + 1) == [l] + ChainLayers(t, parent, n)
            && Read(keccak, scheme, ChainLayers(t', root, n + 1), d, o, p, h) ==
               if Has(l, o, p) then (if l[o][p].blob != [] && l[o][p].hash == h then Some(l[o][p].blob) else None)
               else Read(keccak, scheme, ChainLayers(t, parent, n), d, o, p, h)
  {
    NewRootLayers(t, root, parent, l, n, n + 1);
    var layers := [l] + ChainLayers(t, parent, n);
    assert layers[1..] == ChainLayers(t, parent, n);
  }

  /** The part of a chain before the first of some roots. */
  function Before(chain: seq<Hash>, roots: set<Hash>): seq<Hash> {
    if chain == [] || chain[0] in roots then [] else [chain[0]] + Before(chain[1..], roots)
  }

  /** After a commit a root reads what its walk visited before the first committed layer, if any, each
      layer as it was. In particular a walk that meets none keeps all its layers. */
  lemma {:induction false} DropKeepsLayers(t: Tree, chain: seq<Hash>, r: Hash, n: nat)
    requires t.nodes.Keys == t.parents.Keys && t.root !in t.nodes && chain != [] && Stops(t, r, n)
    requires forall x :: x in chain ==> x in t.nodes
    ensures var t' := DropChain(t, chain);
            && Stops(t', r, n) && Chain(t', r, n) == Before(Chain(t, r, n), Elements(chain))
            && (forall x :: x in t'.nodes ==> x in t.nodes && t'.nodes[x] == t.nodes[x])
    decreases n
  {
    var t' := DropChain(t, chain);
    if !Ends(t, r) {
      DropKeepsLayers(t, chain, Parent(t, r), n - 1);
      assert Chain(t, r, n)[1..] == Chain(t, Parent(t, r), n - 1);
      if r !in chain {
        assert Parent(t', r) == Parent(t, r);
      }
    }
  }

  // ----- committing -----

  /** Some node of the layer goes under key k. */
  ghost predicate Targets(scheme: Scheme, l: Layer, k: DiskKey) {
    exists o, p :: Has(l, o, p) && KeyFor(scheme, o, p, l[o][p].hash) == k
  }

  /** Some node of the layer goes under key k and has this blob. */
  ghost predicate Holds(scheme: Scheme, l: Layer, k: DiskKey, blob: seq<byte>) {
    exists o, p :: Has(l, o, p) && KeyFor(scheme, o, p, l[o][p].hash) == k && l[o][p].blob == blob
  }

  /** d' is d with the layer's nodes written in some order: a targeted key holds the blob of one of
      its nodes, every other key is as before. */
  ghost predicate Written(scheme: Scheme, l: Layer, d: Disk, d': Disk) {
    forall k :: WrittenAt(scheme, l, d, d', k)
  }

  ghost predicate WrittenAt(scheme: Scheme, l: Layer, d: Disk, d': Disk, k: DiskKey) {
    if Targets(scheme, l, k) then k in d' && Holds(scheme, l, k, d'[k])
    else (k in d' <==> k in d) && (k in d ==> d'[k] == d[k])
  }

  /** `more` has the nodes of l and one more, or replaces one. */
  ghost predicate AddsNode(l: Layer, o: Hash, p: Path, n: TrieNode, more: Layer) {
    && Has(more, o, p) && more[o][p] == n
    && (forall x, q :: (x != o || q != p) ==> (Has(more, x, q) <==> Has(l, x, q)))
    && (forall x, q :: (x != o || q != p) && Has(l, x, q) ==> more[x][q] == l[x][q])
  }

  ghost function WithNode(l: Layer, o: Hash, p: Path, n: TrieNode): (more: Layer)
    ensures AddsNode(l, o, p, n, more)
  {
    l[o := (if o in l then l[o] else map[])[p := n]]
  }

  lemma WriteOneAt(scheme: Scheme, l: Layer, d: Disk, d1: Disk, o: Hash, p: Path, n: TrieNode, more: Layer, k: DiskKey)
    requires WrittenAt(scheme, l, d, d1, k) && !Has(l, o, p) && AddsNode(l, o, p, n, more)
    ensures WrittenAt(scheme, more, d, d1[KeyFor(scheme, o, p, n.hash) := n.blob], k)
  {
    if k == KeyFor(scheme, o, p, n.hash) {
      assert Has(more, o, p);
    } else if Targets(scheme, l, k) {
      var x, q :| Has(l, x, q) && KeyFor(scheme, x, q, l[x][q].hash) == k && l[x][q].blob == d1[k];
      assert Has(more, x, q) && more[x][q] == l[x][q];
    }
  }

  lemma WriteOne(scheme: Scheme, l: Layer, d: Disk, d1: Disk, o: Hash, p: Path, n: TrieNode, more: Layer)
    requires Written(scheme, l, d, d1) && !Has(l, o, p) && AddsNode(l, o, p, n, more)
    ensures Written(scheme, more, d, d1[KeyFor(scheme, o, p, n.hash) := n.blob])
  {
    var d2 := d1[KeyFor(scheme, o, p, n.hash) := n.blob];
    forall k ensures WrittenAt(scheme, more, d, d2, k) {
      assert WrittenAt(scheme, l, d, d1, k);
      WriteOneAt(scheme, l, d, d1, o, p, n, more, k);
    }
  }

  /** `part` holds exactly the nodes of l whose owner and path satisfy the two sets: all paths of
      the owners, and these paths of one more owner. */
  ghost predicate IsPart(part: Layer, l: Layer, owners: set<Hash>, owner: Hash, paths: set<Path>) {
    && (forall o, p :: Has(part, o, p) <==> Has(l, o, p) && (o in owners || (o == owner && p in paths)))
    && (forall o, p :: Has(part, o, p) ==> part[o][p] == l[o][p])
  }

  /** A complete part is as good as the whole. */
  lemma WrittenWhole(scheme: Scheme, part: Layer, l: Layer, d: Disk, d': Disk)
    requires Written(scheme, part, d, d')
    requires forall o, p :: Has(part, o, p) <==> Has(l, o, p)
    requires forall o, p :: Has(part, o, p) && Has(l, o, p) ==> part[o][p] == l[o][p]
    ensures Written(scheme, l, d, d')
  {
    forall k ensures WrittenAt(scheme, l, d, d', k) {
      assert WrittenAt(scheme, part, d, d', k);
      if Targets(scheme, part, k) {
        var o, p :| Has(part, o, p) && KeyFor(scheme, o, p, part[o][p].hash) == k && part[o][p].blob == d'[k];
        assert Has(l, o, p);
      }
    }
  }

  /** Writes one owner's node set, path by path in any order, after the sets of other owners. */
  method WriteSet(scheme: Scheme, l: Layer, owner: Hash, d: Disk, ghost d0: Disk, ghost part: Layer, ghost owners: set<Hash>)
    returns (d': Disk, ghost part': Layer)
    requires owner in l && owner !in owners
    requires IsPart(part, l, owners, owner, {}) && Written(scheme, part, d0, d)
    ensures IsPart(part', l, owners + {owner}, owner, {}) && Written(scheme, part', d0, d')
  {
    d', part' := d, part;
    var rest := l[owner].Keys;
    while rest != {}
      invariant rest <= l[owner].Keys
      invariant IsPart(part', l, owners, owner, l[owner].Keys - rest) && Written(scheme, part', d0, d')
      decreases |rest|
    {
      var path :| path in rest;
      var n := l[owner][path];
      ghost var more := WithNode(part', owner, path, n);
      WriteOne(scheme, part', d0, d', owner, path, n, more);
      d' := d'[KeyFor(scheme, owner, path, n.hash) := n.blob];
      PartMore(part', l, owners, owner, l[owner].Keys - rest, path, more);
      rest := rest - {path};
      assert (l[owner].Keys - rest) == (l[owner].Keys - (rest + {path})) + {path};
      part' := more;
    }
  }

  lemma PartMore(part: Layer, l: Layer, owners: set<Hash>, owner: Hash, paths: set<Path>, path: Path, more: Layer)
    requires IsPart(part, l, owners, owner, paths) && Has(l, owner, path)
    requires AddsNode(part, owner, path, l[owner][path], more)
    ensures IsPart(more, l, owners, owner, paths + {path})
  {
  }

  /** Writes a layer: every other owner in any order, then the account trie. */
  method WriteLayer(scheme: Scheme, l: Layer, d: Disk) returns (d': Disk)
    requires ZeroHash() in l
    ensures Written(scheme, l, d, d')
  {
    d' := d;
    ghost var part: Layer := map[];
    ghost var written: set<Hash> := {};
    var owners := l.Keys - {ZeroHash()};
    while owners != {}
      invariant owners <= l.Keys - {ZeroHash()} && written == l.Keys - {ZeroHash()} - owners
      invariant IsPart(part, l, written, ZeroHash(), {}) && Written(scheme, part, d, d')
      decreases |owners|
    {
      var owner :| owner in owners;
      d', part := WriteSet(scheme, l, owner, d', d, part, written);
      owners := owners - {owner};
      written := written + {owner};
    }
    d', part := WriteSet(scheme, l, ZeroHash(), d', d, part, written);
    WrittenWhole(scheme, part, l, d, d');
  }

  /** d' is d after committing these layers, newest first in the list and written last. */
  ghost predicate Committed(scheme: Scheme, layers: seq<Layer>, d: Disk, d': Disk)
    decreases |layers|
  {
    if layers == [] then d' == d
    else exists d1 :: Committed(scheme, layers[1..], d, d1) && Written(scheme, layers[0], d1, d')
  }

  class TestDb {
    const scheme: Scheme
    var disk: Disk
    var root: Hash
    var nodes: map<Hash, Layer>
    var parents: map<Hash, Hash>

    function View(): Tree
      reads this
    {
      Tree(root, nodes, parents)
    }

    constructor (disk: Disk, scheme: Scheme, emptyRoot: Hash)
      ensures this.disk == disk && this.scheme == scheme && View() == EmptyTree(emptyRoot)
    {
      this.disk := disk;
      this.scheme := scheme;
      this.root := emptyRoot;
      this.nodes := map[];
      this.parents := map[];
    }

    method Update(root: Hash, parent: Hash, layer: Layer)
      modifies this`nodes, this`parents
      ensures View() == AddLayer(old(View()), root, parent, layer)
    {
      if root == parent {
        return;
      }
      if root in nodes {
        return;
      }
      parents := parents[root := parent];
      nodes := nodes[root := layer];
    }

    method NodeReader(stateRoot: Hash, ghost bound: nat) returns (layers: seq<Layer>)
      requires Stops(View(), stateRoot, bound)
      ensures layers == ChainLayers(View(), stateRoot, bound)
    {
      var roots;
      layers, roots := Dirties(View(), stateRoot, true, bound);
    }

    /** Writes layers oldest first, moving the disk root along. */
    method WritePending(pending: seq<Layer>, roots: seq<Hash>)
      requires |pending| == |roots| && forall i :: 0 <= i < |pending| ==> ZeroHash() in pending[i]
      modifies this`disk, this`root
      ensures root == if roots == [] then old(root) else roots[|roots| - 1]
      ensures Committed(scheme, Reversed(pending), old(disk), disk)
    {
      for i := 0 to |pending|
        invariant root == if i == 0 then old(root) else roots[i - 1]
        invariant Committed(scheme, Reversed(pending[..i]), old(disk), disk)
      {
        ghost var before := disk;
        disk := WriteLayer(scheme, pending[i], disk);
        root := roots[i];
        CommittedMore(scheme, pending, i, old(disk), before, disk);
      }
      assert pending[..|pending|] == pending;
    }

    method ForgetRoots(roots: seq<Hash>)
      modifies this`nodes, this`parents
      ensures nodes == old(nodes) - Elements(roots) && parents == old(parents) - Elements(roots)
    {
      for i := 0 to |roots|
        invariant nodes == old(nodes) - Elements(roots[..i]) && parents == old(parents) - Elements(roots[..i])
      {
        nodes := nodes - {roots[i]};
        parents := parents - {roots[i]};
        assert Elements(roots[..i + 1]) == Elements(roots[..i]) + {roots[i]};
      }
      assert roots[..|roots|] == roots;
    }

    /** Writes the pending layers, then forgets their roots. */
    method Flush(pending: seq<Layer>, roots: seq<Hash>)
      requires |pending| == |roots| && forall i :: 0 <= i < |pending| ==> ZeroHash() in pending[i]
      modifies this
      ensures View() == Tree(if roots == [] then old(root) else roots[|roots| - 1],
                             old(nodes) - Elements(roots), old(parents) - Elements(roots))
      ensures Committed(scheme, Reversed(pending), old(disk), disk)
    {
      WritePending(pending, roots);
      ForgetRoots(roots);
    }

    /** A layer without a zero-owner set makes the source dereference nil. */
    method Commit(root: Hash, ghost bound: nat)
      requires Stops(View(), root, bound)
      requires forall l :: l in ChainLayers(View(), root, bound) ==> ZeroHash() in l
      modifies this
      ensures View() == DropChain(old(View()), Chain(old(View()), root, bound))
      ensures Committed(scheme, ChainLayers(old(View()), root, bound), old(disk), disk)
    {
      if root == this.root {
        return;
      }
      var pending, roots := Dirties(View(), root, false, bound);
      OldestFirst(View(), root, bound, pending, roots);
      DroppedFromOldest(View(), Chain(View(), root, bound), roots);
      Flush(pending, roots);
    }
  }

  /** What Commit writes and forgets is the chain, from its other end. */
  lemma OldestFirst(t: Tree, root: Hash, bound: nat, pending: seq<Layer>, roots: seq<Hash>)
    requires roots == Reversed(Chain(t, root, bound)) && Paired(t, roots, pending)
    ensures Reversed(pending) == ChainLayers(t, root, bound)
    ensures (forall l :: l in ChainLayers(t, root, bound) ==> ZeroHash() in l) ==>
              forall i :: 0 <= i < |pending| ==> ZeroHash() in pending[i]
  {
    var layers := ChainLayers(t, root, bound);
    forall i | 0 <= i < |pending| ensures pending[i] == layers[|layers| - 1 - i] && pending[i] in layers {}
  }

  lemma DroppedFromOldest(t: Tree, chain: seq<Hash>, roots: seq<Hash>)
    requires roots == Reversed(chain)
    ensures DropChain(t, chain) ==
            Tree(if roots == [] then t.root else roots[|roots| - 1], t.nodes - Elements(roots), t.parents - Elements(roots))
  {
    ReversedElements(chain);
    if chain == [] { assert Elements(roots) == {}; }
  }

  lemma ReversedElements(s: seq<Hash>)
    ensures Elements(Reversed(s)) == Elements(s)
  {
    forall x | x in s ensures x in Reversed(s) {
      var i :| 0 <= i < |s| && s[i] == x;
      assert Reversed(s)[|s| - 1 - i] == x;
    }
  }

  lemma CommittedMore(scheme: Scheme, pending: seq<Layer>, i: nat, d: Disk, d1: Disk, d2: Disk)
    requires i < |pending| && Committed(scheme, Reversed(pending[..i]), d, d1)
    requires Written(scheme, pending[i], d1, d2)
    ensures Committed(scheme, Reversed(pending[..i + 1]), d, d2)
  {
    var ls := Reversed(pending[..i + 1]);
    assert ls[0] == pending[i] && ls[1..] == Reversed(pending[..i]);
  }

  // ----- what a commit does to reads -----

  /** Every node carries the hash of its blob; a deleted node carries the zero hash. */
  ghost predicate WellHashed(keccak: Hasher, l: Layer) {
    forall o, p :: Has(l, o, p) ==> l[o][p].hash == if l[o][p].blob == [] then ZeroHash() else keccak(l[o][p].blob)
  }

  /** A hash-keyed disk holds under each hash a blob with that hash. */
  ghost predicate DiskHashed(keccak: Hasher, d: Disk) {
    forall h: Hash :: ByHash(h) in d && d[ByHash(h)] != [] ==> keccak(d[ByHash(h)]) == h
  }

  lemma PathTargets(l: Layer, o: Hash, p: Path)
    ensures Targets(PathScheme, l, ByPath(o, p)) <==> Has(l, o, p)
    ensures forall b :: Holds(PathScheme, l, ByPath(o, p), b) ==> Has(l, o, p) && b == l[o][p].blob
  {
    if Has(l, o, p) {
      assert KeyFor(PathScheme, o, p, l[o][p].hash) == ByPath(o, p);
    }
  }

  /** One layer written to a path-keyed disk: it decides the paths it has and no others. */
  lemma PathStep(keccak: Hasher, l: Layer, d: Disk, d': Disk, o: Hash, p: Path, h: Hash)
    requires Written(PathScheme, l, d, d') && WellHashed(keccak, l)
    ensures ReadDisk(keccak, PathScheme, d', o, p, h) ==
            if !Has(l, o, p) then ReadDisk(keccak, PathScheme, d, o, p, h)
            else if l[o][p].blob == [] || l[o][p].hash != h then [] else l[o][p].blob
  {
    assert WrittenAt(PathScheme, l, d, d', ByPath(o, p));
    PathTargets(l, o, p);
  }

  /** Path-keyed disks: a commit changes no read at all, successful or not. */
  lemma {:induction false} PathCommitExact(keccak: Hasher, layers: seq<Layer>, d: Disk, d': Disk, o: Hash, p: Path, h: Hash)
    requires Committed(PathScheme, layers, d, d')
    requires forall i :: 0 <= i < |layers| ==> WellHashed(keccak, layers[i])
    ensures Delivered(Read(keccak, PathScheme, layers, d, o, p, h)) == ReadDisk(keccak, PathScheme, d', o, p, h)
    decreases |layers|
  {
    if layers != [] {
      var d1 :| Committed(PathScheme, layers[1..], d, d1) && Written(PathScheme, layers[0], d1, d');
      PathCommitExact(keccak, layers[1..], d, d1, o, p, h);
      PathStep(keccak, layers[0], d1, d', o, p, h);
    }
  }

  /** All blobs of a layer, and all blobs on a disk, are among `good`. */
  ghost predicate LayerWithin(l: Layer, good: iset<seq<byte>>) {
    forall o, p :: Has(l, o, p) && l[o][p].blob != [] ==> l[o][p].blob in good
  }

  ghost predicate DiskWithin(d: Disk, good: iset<seq<byte>>) {
    forall h: Hash :: ByHash(h) in d && d[ByHash(h)] != [] ==> d[ByHash(h)] in good
  }

  /** No two of the blobs share a hash, and none hashes to zero. */
  ghost predicate CollisionFree(keccak: Hasher, good: iset<seq<byte>>) {
    && (forall a, b :: a in good && b in good && keccak(a) == keccak(b) ==> a == b)
    && (forall a :: a in good ==> keccak(a) != ZeroHash())
  }

  lemma HashHolds(keccak: Hasher, l: Layer, h: Hash, b: seq<byte>) returns (o: Hash, p: Path)
    requires Holds(HashScheme, l, ByHash(h), b)
    ensures Has(l, o, p) && l[o][p] == TrieNode(h, b)
  {
    o, p :| Has(l, o, p) && KeyFor(HashScheme, o, p, l[o][p].hash) == ByHash(h) && l[o][p].blob == b;
  }

  /** One layer written to a hash-keyed disk keeps it hashed, and brings in only its own blobs. */
  lemma HashWriteKeepsDisk(keccak: Hasher, l: Layer, d: Disk, d': Disk, good: iset<seq<byte>>)
    requires Written(HashScheme, l, d, d') && WellHashed(keccak, l) && LayerWithin(l, good)
    requires DiskHashed(keccak, d) && DiskWithin(d, good)
    ensures DiskHashed(keccak, d') && DiskWithin(d', good)
  {
    forall h: Hash | ByHash(h) in d' && d'[ByHash(h)] != []
      ensures keccak(d'[ByHash(h)]) == h && d'[ByHash(h)] in good
    {
      assert WrittenAt(HashScheme, l, d, d', ByHash(h));
      if Targets(HashScheme, l, ByHash(h)) {
        var o, p := HashHolds(keccak, l, h, d'[ByHash(h)]);
      }
    }
  }

  /** The layer has the node: writing it makes the disk deliver it. */
  lemma HashStepHit(keccak: Hasher, l: Layer, d: Disk, d': Disk, good: iset<seq<byte>>, o: Hash, p: Path)
    requires Written(HashScheme, l, d, d') && WellHashed(keccak, l) && LayerWithin(l, good)
    requires CollisionFree(keccak, good) && Has(l, o, p) && l[o][p].blob != []
    ensures ByHash(l[o][p].hash) in d' && d'[ByHash(l[o][p].hash)] == l[o][p].blob
  {
    var n: TrieNode := l[o][p];
    assert WrittenAt(HashScheme, l, d, d', ByHash(n.hash));
    assert KeyFor(HashScheme, o, p, n.hash) == ByHash(n.hash);
    var o', p' := HashHolds(keccak, l, n.hash, d'[ByHash(n.hash)]);
  }

  /** The disk already has the node: writing another layer does not take it away. */
  lemma HashStepMiss(keccak: Hasher, l: Layer, d: Disk, d': Disk, good: iset<seq<byte>>, h: Hash)
    requires Written(HashScheme, l, d, d') && WellHashed(keccak, l) && LayerWithin(l, good)
    requires CollisionFree(keccak, good) && DiskHashed(keccak, d) && DiskWithin(d, good)
    requires ByHash(h) in d && d[ByHash(h)] != []
    ensures ByHash(h) in d' && d'[ByHash(h)] == d[ByHash(h)]
  {
    assert WrittenAt(HashScheme, l, d, d', ByHash(h));
    if Targets(HashScheme, l, ByHash(h)) {
      var o, p := HashHolds(keccak, l, h, d'[ByHash(h)]);
    }
  }

  /** Some layer holds a node with this hash that is not deleted. */
  ghost predicate Carries(l: Layer, h: Hash) {
    exists o, p :: Has(l, o, p) && l[o][p].hash == h && l[o][p].blob != []
  }

  ghost predicate Carried(layers: seq<Layer>, h: Hash) {
    exists i :: 0 <= i < |layers| && Carries(layers[i], h)
  }

  lemma CarriedCons(layers: seq<Layer>, h: Hash)
    requires layers != []
    ensures Carried(layers, h) <==> Carries(layers[0], h) || Carried(layers[1..], h)
  {
    if Carried(layers[1..], h) {
      var i :| 0 <= i < |layers[1..]| && Carries(layers[1..][i], h);
      assert Carries(layers[i + 1], h);
    }
    if Carried(layers, h) && !Carries(layers[0], h) {
      var i :| 0 <= i < |layers| && Carries(layers[i], h);
      assert Carries(layers[1..][i - 1], h);
    }
  }

  /** The disk has a node under this hash. */
  predicate OnDisk(d: Disk, h: Hash) {
    ByHash(h) in d && d[ByHash(h)] != []
  }

  /** One layer written: the disk has what the layer carries and what it had. */
  lemma HashStepExact(keccak: Hasher, l: Layer, d: Disk, d': Disk, good: iset<seq<byte>>, h: Hash)
    requires Written(HashScheme, l, d, d') && WellHashed(keccak, l) && LayerWithin(l, good)
    requires CollisionFree(keccak, good) && DiskHashed(keccak, d) && DiskWithin(d, good)
    ensures OnDisk(d', h) <==> Carries(l, h) || OnDisk(d, h)
  {
    if Carries(l, h) {
      var o, p :| Has(l, o, p) && l[o][p].hash == h && l[o][p].blob != [];
      HashStepHit(keccak, l, d, d', good, o, p);
    } else if OnDisk(d, h) {
      HashStepMiss(keccak, l, d, d', good, h);
    } else if OnDisk(d', h) {
      assert WrittenAt(HashScheme, l, d, d', ByHash(h));
      var o, p := HashHolds(keccak, l, h, d'[ByHash(h)]);
    }
  }

  /** Successful reads of the older layers being kept, those of all layers are. */
  lemma HashStepDelivers(keccak: Hasher, layers: seq<Layer>, d: Disk, d1: Disk, d': Disk, good: iset<seq<byte>>, o: Hash, p: Path, h: Hash)
    requires layers != [] && Written(HashScheme, layers[0], d1, d') && WellHashed(keccak, layers[0]) && LayerWithin(layers[0], good)
    requires CollisionFree(keccak, good) && DiskHashed(keccak, d1) && DiskWithin(d1, good)
    requires var older := Delivered(Read(keccak, HashScheme, layers[1..], d, o, p, h));
             older != [] ==> ReadDisk(keccak, HashScheme, d1, o, p, h) == older
    ensures var before := Delivered(Read(keccak, HashScheme, layers, d, o, p, h));
            before != [] ==> ReadDisk(keccak, HashScheme, d', o, p, h) == before
  {
    if Delivered(Read(keccak, HashScheme, layers, d, o, p, h)) != [] {
      if Has(layers[0], o, p) {
        HashStepHit(keccak, layers[0], d1, d', good, o, p);
      } else {
        HashStepMiss(keccak, layers[0], d1, d', good, h);
      }
    }
  }

  /** Hash-keyed disks, when no two blobs in play collide: after the commit the disk has exactly
      what some layer carried and what it had before; and every read that delivers a node before
      the commit delivers the same node after it. */
  lemma {:induction false} HashCommitPreserves(keccak: Hasher, layers: seq<Layer>, d: Disk, d': Disk, good: iset<seq<byte>>,
                                               o: Hash, p: Path, h: Hash)
    requires Committed(HashScheme, layers, d, d') && CollisionFree(keccak, good)
    requires DiskHashed(keccak, d) && DiskWithin(d, good)
    requires forall i :: 0 <= i < |layers| ==> WellHashed(keccak, layers[i]) && LayerWithin(layers[i], good)
    ensures DiskHashed(keccak, d') && DiskWithin(d', good)
    ensures OnDisk(d', h) <==> Carried(layers, h) || OnDisk(d, h)
    ensures var before := Delivered(Read(keccak, HashScheme, layers, d, o, p, h));
            before != [] ==> ReadDisk(keccak, HashScheme, d', o, p, h) == before
    decreases |layers|
  {
    if layers != [] {
      var l := layers[0];
      var d1 :| Committed(HashScheme, layers[1..], d, d1) && Written(HashScheme, l, d1, d');
      HashCommitPreserves(keccak, layers[1..], d, d1, good, o, p, h);
      HashWriteKeepsDisk(keccak, l, d1, d', good);
      HashStepExact(keccak, l, d1, d', good, h);
      CarriedCons(layers, h);
      HashStepDelivers(keccak, layers, d, d1, d', good, o, p, h);
    }
  }

  /** The node of the newest layer that has this owner and path. */
  function Newest(layers: seq<Layer>, owner: Hash, path: Path): Option<TrieNode> {
    if layers == [] then None
    else if Has(layers[0], owner, path) then Some(layers[0][owner][path])
    else Newest(layers[1..], owner, path)
  }

  lemma {:induction false} ReadByNewest(keccak: Hasher, scheme: Scheme, layers: seq<Layer>, d: Disk, o: Hash, p: Path, h: Hash)
    ensures Read(keccak, scheme, layers, d, o, p, h) ==
            match Newest(layers, o, p)
            case None => Some(ReadDisk(keccak, scheme, d, o, p, h))
            case Some(n) => if n.blob == [] || n.hash != h then None else Some(n.blob)
    decreases |layers|
  {
    if layers != [] { ReadByNewest(keccak, scheme, layers[1..], d, o, p, h); }
  }

  /** The newest layer with this owner and path has a node with this hash. */
  predicate LiveAt(layers: seq<Layer>, o: Hash, p: Path, h: Hash) {
    var n := Newest(layers, o, p);
    n.Some? && n.value.blob != [] && n.value.hash == h
  }

  /** Reading through NodeReader(root) before and after Commit(root), path-keyed: the delivered bytes
      never change. The result, with its error, stays the same if and only if no layer has the owner
      and path, or the newest one that has them has the node: a missing-node error turns into an
      empty node. */
  lemma PathCommitKeepsReads(keccak: Hasher, t: Tree, r: Hash, n: nat, k: nat, d: Disk, d': Disk,
                             layers: seq<Layer>, o: Hash, p: Path, h: Hash)
    requires Stops(t, r, n) && layers == ChainLayers(t, r, n) && Committed(PathScheme, layers, d, d')
    requires forall x :: x in t.nodes ==> WellHashed(keccak, t.nodes[x])
    ensures var before := Read(keccak, PathScheme, layers, d, o, p, h);
            var after := Read(keccak, PathScheme, ChainLayers(DropChain(t, Chain(t, r, n)), r, k), d', o, p, h);
            && Delivered(after) == Delivered(before)
            && (after == before <==> Newest(layers, o, p).None? || LiveAt(layers, o, p, h))
  {
    CommittedChainIsEmpty(t, r, n, k);
    PathCommitExact(keccak, layers, d, d', o, p, h);
    ReadByNewest(keccak, PathScheme, layers, d, o, p, h);
  }

  /** Reading through NodeReader(root) before and after Commit(root), hash-keyed. The delivered bytes
      stay the same if and only if the newest layer with this owner and path has the node, or no
      layer has the owner and path and the disk has the hash, or neither any layer nor the disk has
      the hash. The result, with its error, stays the same if and only if the newest layer has the
      node, or no layer has the owner and path and the commit does not bring in the hash. */
  lemma HashCommitKeepsReads(keccak: Hasher, t: Tree, r: Hash, n: nat, k: nat, d: Disk, d': Disk, good: iset<seq<byte>>,
                             layers: seq<Layer>, o: Hash, p: Path, h: Hash)
    requires Stops(t, r, n) && layers == ChainLayers(t, r, n) && Committed(HashScheme, layers, d, d')
    requires CollisionFree(keccak, good) && DiskHashed(keccak, d) && DiskWithin(d, good)
    requires forall x :: x in t.nodes ==> WellHashed(keccak, t.nodes[x]) && LayerWithin(t.nodes[x], good)
    ensures var before := Read(keccak, HashScheme, layers, d, o, p, h);
            var after := Read(keccak, HashScheme, ChainLayers(DropChain(t, Chain(t, r, n)), r, k), d', o, p, h);
            && (Delivered(before) != [] ==> after == before)
            && (Delivered(after) == Delivered(before) <==>
                  || LiveAt(layers, o, p, h)
                  || (Newest(layers, o, p).None? && OnDisk(d, h))
                  || (!Carried(layers, h) && !OnDisk(d, h)))
            && (after == before <==>
                  || LiveAt(layers, o, p, h)
                  || (Newest(layers, o, p).None? && (OnDisk(d, h) || !Carried(layers, h))))
  {
    CommittedChainIsEmpty(t, r, n, k);
    HashCommitPreserves(keccak, layers, d, d', good, o, p, h);
    ReadByNewest(keccak, HashScheme, layers, d, o, p, h);
  }

  /** Layers above committed ones read as before when the disk answers for the committed ones. */
  lemma {:induction false} ReadAbove(keccak: Hasher, scheme: Scheme, above: seq<Layer>, layers: seq<Layer>, d: Disk, d': Disk, o: Hash, p: Path, h: Hash)
    requires Delivered(Read(keccak, scheme, layers, d, o, p, h)) == ReadDisk(keccak, scheme, d', o, p, h)
    ensures Delivered(Read(keccak, scheme, above, d', o, p, h)) == Delivered(Read(keccak, scheme, above + layers, d, o, p, h))
    decreases |above|
  {
    if above == [] {
      assert above + layers == layers;
    } else {
      assert (above + layers)[1..] == above[1..] + layers;
      ReadAbove(keccak, scheme, above[1..], layers, d, d', o, p, h);
    }
  }

  lemma {:induction false} BeforeSplits(a: seq<Hash>, b: seq<Hash>, roots: set<Hash>)
    requires (forall x :: x in a ==> x !in roots) && b != [] && b[0] in roots
    ensures Before(a + b, roots) == a
    decreases |a|
  {
    if a == [] {
      assert a + b == b;
    } else {
      assert (a + b)[1..] == a[1..] + b;
      BeforeSplits(a[1..], b, roots);
    }
  }

  /** A chain that passes root x at position i is what lies above x and the chain of x. */
  lemma ChainSplits(t: Tree, r: Hash, n: nat, i: nat, chain: seq<Hash>, committed: seq<Hash>)
    requires Stops(t, r, n) && chain == Chain(t, r, n) && i < |chain| && committed == chain[i..]
    ensures Before(chain, Elements(committed)) == chain[..i]
  {
    forall x | x in chain[..i] ensures x !in Elements(committed) {
      var j :| 0 <= j < i && chain[j] == x;
      if x in committed {
        var k :| 0 <= k < |committed| && committed[k] == x;
        ChainDistinct(t, r, n, j, i + k);
      }
    }
    assert chain == chain[..i] + committed;
    assert committed[0] in Elements(committed);
    BeforeSplits(chain[..i], committed, Elements(committed));
  }

  lemma DescendantChain(t: Tree, r: Hash, n: nat, i: nat, chain: seq<Hash>, committed: seq<Hash>)
    requires Healthy(t) && Stops(t, r, n) && chain == Chain(t, r, n) && i < |chain| && committed == chain[i..]
    ensures Chain(DropChain(t, committed), r, n) == chain[..i]
    ensures forall x :: x in DropChain(t, committed).nodes ==> x in t.nodes && DropChain(t, committed).nodes[x] == t.nodes[x]
  {
    ChainInNodes(t, r, n);
    forall x | x in committed ensures x in t.nodes {
      var k :| 0 <= k < |committed| && committed[k] == x;
      assert chain[i + k] == x;
    }
    DropKeepsLayers(t, committed, r, n);
    ChainSplits(t, r, n, i, chain, committed);
  }

  /** Layers go with their chains. */
  lemma LayersOfChain(t: Tree, t': Tree, r: Hash, n: nat, x: Hash, k: nat, i: nat)
    requires i <= |Chain(t, r, n)| && Chain(t', r, n) == Chain(t, r, n)[..i] && Chain(t, x, k) == Chain(t, r, n)[i..]
    requires forall y :: y in t'.nodes ==> y in t.nodes && t'.nodes[y] == t.nodes[y]
    ensures ChainLayers(t', r, n) == ChainLayers(t, r, n)[..i]
    ensures ChainLayers(t, r, n) == ChainLayers(t, r, n)[..i] + ChainLayers(t, x, k)
  {
  }

  /** The walk from r passes the committed root at position i: it keeps the layers above it. */
  lemma DescendantKeepsLayers(t: Tree, r: Hash, n: nat, i: nat, x: Hash)
    requires Healthy(t) && Stops(t, r, n) && i < |Chain(t, r, n)| && x == Chain(t, r, n)[i]
    ensures i <= n && Stops(t, x, n - i)
    ensures ChainLayers(t, r, n) == ChainLayers(t, r, n)[..i] + ChainLayers(t, x, n - i)
    ensures ChainLayers(DropChain(t, Chain(t, x, n - i)), r, n) == ChainLayers(t, r, n)[..i]
  {
    ChainSuffix(t, r, n, i);
    var committed := Chain(t, x, n - i);
    DescendantChain(t, r, n, i, Chain(t, r, n), committed);
    LayersOfChain(t, DropChain(t, committed), r, n, x, n - i, i);
  }

  /** Path-keyed: committing a root changes no read through any root above it either. */
  lemma PathCommitKeepsDescendants(keccak: Hasher, t: Tree, r: Hash, n: nat, i: nat, x: Hash, d: Disk, d': Disk, o: Hash, p: Path, h: Hash)
    requires Healthy(t) && Stops(t, r, n) && i < |Chain(t, r, n)| && x == Chain(t, r, n)[i] && i <= n
    requires Committed(PathScheme, ChainLayers(t, x, n - i), d, d')
    requires forall y :: y in t.nodes ==> WellHashed(keccak, t.nodes[y])
    ensures Delivered(Read(keccak, PathScheme, ChainLayers(DropChain(t, Chain(t, x, n - i)), r, n), d', o, p, h)) ==
            Delivered(Read(keccak, PathScheme, ChainLayers(t, r, n), d, o, p, h))
  {
    var committed := ChainLayers(t, x, n - i);
    DescendantKeepsLayers(t, r, n, i, x);
    PathCommitExact(keccak, committed, d, d', o, p, h);
    ReadAbove(keccak, PathScheme, ChainLayers(t, r, n)[..i], committed, d, d', o, p, h);
  }

  function Single(keccak: Hasher, o: Hash, p: Path, x: seq<byte>): Layer {
    map[o := map[p := TrieNode(keccak(x), x)]]
  }

  lemma SingleNode(keccak: Hasher, o: Hash, p: Path, x: seq<byte>, l: Layer, h: Hash)
    requires l == Single(keccak, o, p, x) && x != []
    ensures WellHashed(keccak, l) && Has(l, o, p) && l[o][p] == TrieNode(keccak(x), x)
    ensures Targets(HashScheme, l, ByHash(h)) <==> h == keccak(x)
    ensures forall b :: Holds(HashScheme, l, ByHash(h), b) ==> b == x
  {
    assert KeyFor(HashScheme, o, p, keccak(x)) == ByHash(keccak(x));
  }

  /** The converse fails for hash-keyed disks: a node an upper layer has replaced cannot be read
      before the commit... */
  lemma ReplacedNodeUnreadable(keccak: Hasher, o: Hash, p: Path, x: seq<byte>, y: seq<byte>, d: Disk)
    requires keccak(x) != keccak(y)
    ensures Read(keccak, HashScheme, [Single(keccak, o, p, y), Single(keccak, o, p, x)], d, o, p, keccak(x)) == None
  {
  }

  /** ...and can be read after it. */
  lemma ReplacedNodeRevived(keccak: Hasher, o: Hash, p: Path, x: seq<byte>, y: seq<byte>,
                            lower: Layer, upper: Layer, d: Disk, d1: Disk, d': Disk)
    requires x != [] && y != [] && keccak(x) != keccak(y)
    requires lower == Single(keccak, o, p, x) && upper == Single(keccak, o, p, y)
    requires Written(HashScheme, lower, d, d1) && Written(HashScheme, upper, d1, d')
    ensures ReadDisk(keccak, HashScheme, d', o, p, keccak(x)) == x
  {
    SingleNode(keccak, o, p, x, lower, keccak(x));
    SingleNode(keccak, o, p, y, upper, keccak(x));
    assert WrittenAt(HashScheme, lower, d, d1, ByHash(keccak(x)));
    assert WrittenAt(HashScheme, upper, d1, d', ByHash(keccak(x)));
  }
}
