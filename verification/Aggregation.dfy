/** The aggregation program: parse the public values of block proofs, check that each block follows
    the one before, commit to the range. */
module Aggregation {
  import opened Bytes
  import opened Bincode
  import opened PublicValues

  type VKey = seq<nat>

  /** Whether a proof for these public values under this key is part of the execution. */
  type ProofCheck = (VKey, seq<byte>) -> bool

  predicate AllParse(pvs: seq<seq<byte>>) {
    forall i :: 0 <= i < |pvs| ==> ParseOutput(pvs[i]).Some?
  }

  function Outputs(pvs: seq<seq<byte>>): (os: seq<BlevmOutput>)
    requires AllParse(pvs)
    ensures |os| == |pvs| && forall i :: 0 <= i < |pvs| ==> os[i] == ParseOutput(pvs[i]).value
  {
    seq(|pvs|, i requires 0 <= i < |pvs| => ParseOutput(pvs[i]).value)
  }

  /** Each block names the one before it as its parent. */
  ghost predicate Adjacent(os: seq<BlevmOutput>) {
    forall i, j :: 0 <= i && j == i + 1 && j < |os| ==> os[j].prevHeaderHash == os[i].headerHash
  }

  ghost predicate Accepted(os: seq<BlevmOutput>) {
    os != [] && Adjacent(os)
  }

  function CelestiaHashes(os: seq<BlevmOutput>): (hs: seq<Hash>)
    ensures |hs| == |os| && forall i :: 0 <= i < |os| ==> hs[i] == os[i].celestiaHeaderHash
  {
    seq(|os|, i requires 0 <= i < |os| => os[i].celestiaHeaderHash)
  }

  /** The commitment to a range of blocks. */
  function AggregateOf(os: seq<BlevmOutput>): BlevmAggOutput
    requires os != []
  {
    var last := os[|os| - 1];
    BlevmAggOutput(last.headerHash, os[0].headerHash, CelestiaHashes(os), last.stateRoot, last.height)
  }

  method CheckProofs(vkeys: seq<VKey>, pvs: seq<seq<byte>>, check: ProofCheck) returns (ok: bool)
    requires |vkeys| == |pvs|
    ensures ok <==> forall i :: 0 <= i < |pvs| ==> check(vkeys[i], pvs[i])
  {
    for i := 0 to |vkeys|
      invariant forall j :: 0 <= j < i ==> check(vkeys[j], pvs[j])
    {
      if !check(vkeys[i], pvs[i]) {
        return false;
      }
    }
    ok := true;
  }

  /** What parsing each of the public values gives. */
  ghost predicate AreReplies(pvs: seq<seq<byte>>, rs: seq<Option<BlevmOutput>>) {
    |rs| == |pvs| && forall i {:trigger ParseOutput(pvs[i])} :: 0 <= i < |pvs| ==> rs[i] == ParseOutput(pvs[i])
  }

  lemma RepliesExist(pvs: seq<seq<byte>>) returns (rs: seq<Option<BlevmOutput>>)
    ensures AreReplies(pvs, rs)
  {
    rs := seq(|pvs|, i requires 0 <= i < |pvs| => ParseOutput(pvs[i]));
  }

  /** The first |outputs| replies are these outputs. */
  ghost predicate ParsedSoFar(rs: seq<Option<BlevmOutput>>, outputs: seq<BlevmOutput>) {
    |outputs| <= |rs| && forall j :: 0 <= j < |outputs| ==> rs[j] == Some(outputs[j])
  }

  lemma ParsedMore(rs: seq<Option<BlevmOutput>>, outputs: seq<BlevmOutput>, o: BlevmOutput)
    requires ParsedSoFar(rs, outputs) && |outputs| < |rs| && rs[|outputs|] == Some(o)
    ensures ParsedSoFar(rs, outputs + [o])
  {
  }

  lemma RepliesParse(pvs: seq<seq<byte>>, rs: seq<Option<BlevmOutput>>, outputs: seq<BlevmOutput>)
    requires AreReplies(pvs, rs) && ParsedSoFar(rs, outputs) && |outputs| == |pvs|
    ensures AllParse(pvs) && outputs == Outputs(pvs)
  {
    forall i | 0 <= i < |pvs| ensures ParseOutput(pvs[i]) == Some(outputs[i]) {}
  }

  method ParseOne(pvs: seq<seq<byte>>, i: nat, ghost rs: seq<Option<BlevmOutput>>) returns (r: Option<BlevmOutput>)
    requires i < |pvs| && AreReplies(pvs, rs)
    ensures r == rs[i] && (r.None? ==> !AllParse(pvs))
  {
    var pv := pvs[i];
    var buffer := new Buffer.From(pv);
    assert pv[0..] == pv;
    var v := buffer.Read(OUTPUT_TYPE);
    r := if v.None? then None else Some(OutputOf(v.value));
    assert r == ParseOutput(pvs[i]);
  }

  method ParseAll(pvs: seq<seq<byte>>) returns (r: Option<seq<BlevmOutput>>)
    ensures r.Some? <==> AllParse(pvs)
    ensures r.Some? ==> r.value == Outputs(pvs)
  {
    var outputs: seq<BlevmOutput> := [];
    ghost var rs := RepliesExist(pvs);
    for i := 0 to |pvs|
      invariant |outputs| == i && ParsedSoFar(rs, outputs)
    {
      var o := ParseOne(pvs, i, rs);
      if o.None? {
        return None;
      }
      ParsedMore(rs, outputs, o.value);
      outputs := outputs + [o.value];
    }
    RepliesParse(pvs, rs, outputs);
    r := Some(outputs);
  }

  method CheckAdjacent(os: seq<BlevmOutput>) returns (ok: bool)
    ensures ok <==> Adjacent(os)
  {
    var i := 1;
    while i < |os|
      invariant 1 <= i
      invariant forall k, j :: 0 <= k && j == k + 1 && j < i && j < |os| ==> os[j].prevHeaderHash == os[k].headerHash
    {
      if os[i].prevHeaderHash != os[i - 1].headerHash {
        return false;
      }
      i := i + 1;
    }
    ok := true;
  }

  /** Checks the links of the parsed outputs and commits to the first and the last of them. */
  method CommitOutputs(outputs: seq<BlevmOutput>) returns (r: Option<BlevmAggOutput>)
    ensures r.Some? <==> Accepted(outputs)
    ensures r.Some? ==> r.value == AggregateOf(outputs)
  {
    var linked := CheckAdjacent(outputs);
    if !linked || |outputs| == 0 {
      return None;
    }
    var last := outputs[|outputs| - 1];
    r := Some(BlevmAggOutput(last.headerHash, outputs[0].headerHash, CelestiaHashes(outputs), last.stateRoot, last.height));
  }

  /** The program aborts (None) on a count mismatch, an unverified proof, public values that do not
      parse, a broken link, or an empty list. */
  method Aggregate(vkeys: seq<VKey>, pvs: seq<seq<byte>>, check: ProofCheck) returns (r: Option<BlevmAggOutput>)
    ensures r.Some? <==> |vkeys| == |pvs| && (forall i :: 0 <= i < |pvs| ==> check(vkeys[i], pvs[i]))
                         && AllParse(pvs) && Accepted(Outputs(pvs))
    ensures r.Some? ==> r.value == AggregateOf(Outputs(pvs))
  {
    if |vkeys| != |pvs| {
      return None;
    }
    var proven := CheckProofs(vkeys, pvs, check);
    if !proven {
      return None;
    }
    var parsed := ParseAll(pvs);
    if parsed.None? {
      return None;
    }
    r := CommitOutputs(parsed.value);
  }

  // ----- what an accepted list means -----

  /** An EVM header, as far as the block program exposes it. */
  datatype EvmHeader = EvmHeader(parentHash: Hash, number: nat, stateRoot: Hash, rest: seq<byte>)

  type HeaderHasher = EvmHeader -> Hash

  /** The output describes header h, executed on top of `parent`: its number is one more. */
  ghost predicate Faithful(hash: HeaderHasher, o: BlevmOutput, h: EvmHeader, parent: EvmHeader) {
    && o.headerHash == hash(h) && o.prevHeaderHash == h.parentHash && o.height == h.number && o.stateRoot == h.stateRoot
    && h.parentHash == hash(parent) && h.number == parent.number + 1
  }

  ghost predicate AllFaithful(hash: HeaderHasher, os: seq<BlevmOutput>, hs: seq<EvmHeader>, ps: seq<EvmHeader>) {
    |hs| == |os| && |ps| == |os| && forall i :: 0 <= i < |os| ==> Faithful(hash, os[i], hs[i], ps[i])
  }

  /** The header executed at some position and the parent claimed at another one collide. */
  ghost predicate HeaderCollision(hash: HeaderHasher, hs: seq<EvmHeader>, ps: seq<EvmHeader>) {
    exists a, b :: a in hs && b in ps && a != b && hash(a) == hash(b)
  }

  /** The i-th block of an accepted list is at height first + i, and its parent is the block before
      it in the list, unless two headers collide. */
  lemma {:induction false} ConsecutiveHeights(hash: HeaderHasher, os: seq<BlevmOutput>, hs: seq<EvmHeader>, ps: seq<EvmHeader>, i: nat)
    requires Accepted(os) && AllFaithful(hash, os, hs, ps) && i < |os| && !HeaderCollision(hash, hs, ps)
    ensures os[i].height == os[0].height + i
    ensures i > 0 ==> ps[i] == hs[i - 1]
    decreases i
  {
    if i > 0 {
      ConsecutiveHeights(hash, os, hs, ps, i - 1);
      assert Faithful(hash, os[i], hs[i], ps[i]) && Faithful(hash, os[i - 1], hs[i - 1], ps[i - 1]);
      assert hash(ps[i]) == hash(hs[i - 1]);
      assert hs[i - 1] in hs && ps[i] in ps;
    }
  }

  /** An aggregate commits to N consecutive blocks: the newest height is the first plus N - 1, the
      state root is the last block's, and the N Celestia hashes stand in block order. */
  lemma AggregateIsRange(hash: HeaderHasher, os: seq<BlevmOutput>, hs: seq<EvmHeader>, ps: seq<EvmHeader>)
    requires Accepted(os) && AllFaithful(hash, os, hs, ps) && !HeaderCollision(hash, hs, ps)
    ensures var agg := AggregateOf(os);
            && agg.newestHeight == os[0].height + |os| - 1
            && agg.newestStateRoot == hs[|hs| - 1].stateRoot
            && agg.oldestHeaderHash == hash(hs[0]) && agg.newestHeaderHash == hash(hs[|hs| - 1])
            && |agg.celestiaHeaderHashes| == |os|
            && forall i :: 0 <= i < |os| ==> os[i].height == os[0].height + i && agg.celestiaHeaderHashes[i] == os[i].celestiaHeaderHash
  {
    forall i | 0 <= i < |os| ensures os[i].height == os[0].height + i { ConsecutiveHeights(hash, os, hs, ps, i); }
    assert Faithful(hash, os[0], hs[0], ps[0]) && Faithful(hash, os[|os| - 1], hs[|hs| - 1], ps[|ps| - 1]);
  }

  // ----- splitting and joining ranges -----

  /** The aggregate of two ranges that meet. */
  function Join(a: BlevmAggOutput, b: BlevmAggOutput): BlevmAggOutput {
    BlevmAggOutput(b.newestHeaderHash, a.oldestHeaderHash, a.celestiaHeaderHashes + b.celestiaHeaderHashes,
                   b.newestStateRoot, b.newestHeight)
  }

  /** A list is accepted exactly when both halves are and the boundary is linked; the aggregate of
      the whole is the join of the aggregates. */
  lemma SplitAndJoin(xs: seq<BlevmOutput>, ys: seq<BlevmOutput>)
    requires xs != [] && ys != []
    ensures Accepted(xs + ys) <==> Accepted(xs) && Accepted(ys) && ys[0].prevHeaderHash == xs[|xs| - 1].headerHash
    ensures AggregateOf(xs + ys) == Join(AggregateOf(xs), AggregateOf(ys))
  {
    var zs := xs + ys;
    if Adjacent(zs) {
      forall i, j | 0 <= i && j == i + 1 && j < |xs| ensures xs[j].prevHeaderHash == xs[i].headerHash {
        assert zs[j].prevHeaderHash == zs[i].headerHash;
      }
      forall i, j | 0 <= i && j == i + 1 && j < |ys| ensures ys[j].prevHeaderHash == ys[i].headerHash {
        assert zs[|xs| + j].prevHeaderHash == zs[|xs| + i].headerHash;
      }
      assert zs[|xs|].prevHeaderHash == zs[|xs| - 1].headerHash;
    }
    assert CelestiaHashes(zs) == CelestiaHashes(xs) + CelestiaHashes(ys);
  }
}
