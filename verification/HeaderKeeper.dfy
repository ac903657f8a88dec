/** The header keeper: one header hash per block, stored under big-endian heights, and pruned at the
    start of every block. */
module HeaderKeeper {
  import opened Bytes

  const RETENTION_PERIOD: u64 := 10000

  type Headers = map<seq<byte>, seq<byte>>

  /** Every key is eight bytes, the coding of a height. */
  ghost predicate WellKeyed(m: Headers) {
    forall k :: k in m ==> |k| == 8
  }

  /** The height of the last key a full iteration yields. */
  function LatestSaved(m: Headers): Option<nat> {
    var ks := InOrder(m.Keys);
    if ks == [] then None else Some(FromBE(ks[|ks| - 1]))
  }

  lemma LatestIsGreatest(m: Headers, k: seq<byte>)
    requires WellKeyed(m) && k in m
    ensures LatestSaved(m).Some? && FromBE(k) <= LatestSaved(m).value < TWO64
    ensures exists j :: j in m && FromBE(j) == LatestSaved(m).value
  {
    var ks := InOrder(m.Keys);
    InOrderAscending(m.Keys);
    assert k in ks;
    var i :| 0 <= i < |ks| && ks[i] == k;
    var last := ks[|ks| - 1];
    assert last in m;
    EightBytesFit(last);
    FromBEOrder(k, last);
  }

  /** The first height kept; the subtraction wraps. */
  function MinHeightToRetain(latest: u64): u64 { Wrap(latest - RETENTION_PERIOD) }

  /** What is left after pruning: the heights not below the bound. */
  function Pruned(m: Headers): Headers
    requires WellKeyed(m)
  {
    if LatestSaved(m).None? then m
    else
      assert LatestSaved(m).value < TWO64 by {
        assert InOrder(m.Keys)[|InOrder(m.Keys)| - 1] in m;
        LatestIsGreatest(m, InOrder(m.Keys)[|InOrder(m.Keys)| - 1]);
      }
      Kept(m, MinHeightToRetain(LatestSaved(m).value))
  }

  function Kept(m: Headers, bound: nat): Headers {
    map k | k in m && FromBE(k) >= bound :: m[k]
  }

  class Keeper {
    var headers: Headers

    constructor ()
      ensures headers == map[]
    {
      headers := map[];
    }

    /** Deletes in iteration order and stops at the first height that is kept. */
    method DeleteBelow(ks: seq<seq<byte>>, bound: nat) returns (n: nat)
      modifies this
      ensures n <= |ks| && headers == old(headers) - Firsts(ks, n)
      ensures forall j :: 0 <= j < n ==> FromBE(ks[j]) < bound
      ensures n < |ks| ==> FromBE(ks[n]) >= bound
    {
      n := 0;
      while n < |ks| && FromBE(ks[n]) < bound
        invariant 0 <= n <= |ks|
        invariant forall j :: 0 <= j < n ==> FromBE(ks[j]) < bound
        invariant headers == old(headers) - Firsts(ks, n)
      {
        headers := headers - {ks[n]};
        FirstsNext(old(headers), ks, n);
        n := n + 1;
      }
    }

    method PruneBelow(bound: nat)
      requires WellKeyed(headers)
      modifies this
      ensures headers == Kept(old(headers), bound)
    {
      InOrderAscending(headers.Keys);
      var ks := InOrder(headers.Keys);
      var n := DeleteBelow(ks, bound);
      PrefixIsBelow(old(headers), ks, n, bound);
    }

    method PruneHeaders()
      requires WellKeyed(headers)
      modifies this
      ensures headers == Pruned(old(headers))
    {
      var latest := LatestSaved(headers);
      if latest.None? {
        return;
      }
      ghost var last := InOrder(headers.Keys)[|InOrder(headers.Keys)| - 1];
      assert last in headers;
      LatestIsGreatest(headers, last);
      PruneBelow(MinHeightToRetain(latest.value));
    }

    /** The block height is positive. */
    method BeginBlocker(height: u64, headerHash: seq<byte>)
      requires WellKeyed(headers)
      modifies this
      ensures WellKeyed(headers) && headers == Pruned(old(headers))[BE8(height) := headerHash]
    {
      PruneHeaders();
      headers := headers[BE8(height) := headerHash];
    }
  }

  function Firsts(ks: seq<seq<byte>>, n: nat): set<seq<byte>>
    requires n <= |ks|
  {
    set k | k in ks[..n]
  }

  lemma FirstsNext(m: Headers, ks: seq<seq<byte>>, i: nat)
    requires i < |ks|
    ensures (m - Firsts(ks, i)) - {ks[i]} == m - Firsts(ks, i + 1)
  {
    assert ks[..i + 1] == ks[..i] + [ks[i]];
    assert Firsts(ks, i + 1) == Firsts(ks, i) + {ks[i]};
  }

  /** In iteration order the keys below a bound come first. */
  lemma FirstIffBelow(ks: seq<seq<byte>>, n: nat, bound: nat, i: nat)
    requires Ascending(ks) && n <= |ks| && i < |ks| && forall j :: 0 <= j < |ks| ==> |ks[j]| == 8
    requires forall j :: 0 <= j < n ==> FromBE(ks[j]) < bound
    requires n < |ks| ==> FromBE(ks[n]) >= bound
    ensures ks[i] in Firsts(ks, n) <==> FromBE(ks[i]) < bound
  {
    if i < n {
      assert ks[..n][i] == ks[i];
    } else {
      if n < i { FromBEOrder(ks[n], ks[i]); }
      forall j | 0 <= j < n ensures ks[j] != ks[i] { LexIrreflexive(ks[i]); assert LexLt(ks[j], ks[i]); }
    }
  }

  lemma PrefixIsBelow(m: Headers, ks: seq<seq<byte>>, n: nat, bound: nat)
    requires WellKeyed(m) && ks == InOrder(m.Keys) && Ascending(ks) && n <= |ks|
    requires forall j :: 0 <= j < n ==> FromBE(ks[j]) < bound
    requires n < |ks| ==> FromBE(ks[n]) >= bound
    ensures m - Firsts(ks, n) == Kept(m, bound)
  {
    forall k | k in m ensures k in Firsts(ks, n) <==> FromBE(k) < bound {
      assert k in ks;
      var i :| 0 <= i < |ks| && ks[i] == k;
      FirstIffBelow(ks, n, bound, i);
    }
  }

  // ----- every run from block 1 on -----

  /** The store after blocks 1 .. |hashes|. */
  ghost function Run(hashes: seq<seq<byte>>): (m: Headers)
    requires |hashes| < TWO64
    ensures WellKeyed(m)
    decreases |hashes|
  {
    if hashes == [] then map[]
    else
      var n := |hashes|;
      Pruned(Run(hashes[..n - 1]))[BE8(n) := hashes[n - 1]]
  }

  /** The lowest height saved after block n. */
  function Lowest(n: nat): nat {
    if n <= 10000 then n else if n < 20001 then 10000 else n - 10001
  }

  ghost predicate InWindow(k: seq<byte>, lowest: nat, n: nat) {
    |k| == 8 && 1 <= FromBE(k) && lowest <= FromBE(k) <= n
  }

  /** Exactly the heights lowest .. n are saved, each with its own hash. */
  ghost predicate IsWindow(m: Headers, lowest: nat, n: nat, hashes: seq<seq<byte>>)
    requires n == |hashes|
  {
    && (forall k :: k in m <==> InWindow(k, lowest, n))
    && (forall k :: k in m ==> InWindow(k, lowest, n) && m[k] == hashes[FromBE(k) - 1])
  }

  lemma LatestIs(m: Headers, key: seq<byte>)
    requires WellKeyed(m) && key in m && forall k :: k in m ==> FromBE(k) <= FromBE(key)
    ensures LatestSaved(m) == Some(FromBE(key))
  {
    LatestIsGreatest(m, key);
  }

  lemma WindowLatest(m: Headers, lowest: nat, n: u64, hashes: seq<seq<byte>>, key: seq<byte>)
    requires n == |hashes| && IsWindow(m, lowest, n, hashes) && 1 <= n && lowest <= n && |key| == 8 && FromBE(key) == n
    ensures WellKeyed(m) && LatestSaved(m) == Some(n) && key in m
    ensures Pruned(m) == Kept(m, MinHeightToRetain(n))
  {
    assert InWindow(key, lowest, n);
    LatestIs(m, key);
  }

  lemma WindowKept(m: Headers, lowest: nat, n: nat, hashes: seq<seq<byte>>, bound: nat)
    requires n == |hashes| && IsWindow(m, lowest, n, hashes)
    ensures IsWindow(Kept(m, bound), if bound > lowest then bound else lowest, n, hashes)
  {
  }

  lemma WindowExtended(m: Headers, lowest: nat, n: u64, hashes: seq<seq<byte>>, key: seq<byte>, lowest': nat)
    requires n == |hashes| && n > 0 && IsWindow(m, lowest, n - 1, hashes[..n - 1]) && |key| == 8 && FromBE(key) == n
    requires if lowest < n then lowest' == lowest else lowest' == n
    ensures IsWindow(m[key := hashes[n - 1]], lowest', n, hashes)
  {
    forall k | |k| == 8 ensures FromBE(k) == n <==> k == key { FromBEOrder(k, key); }
  }

  /** Over every run from block 1: the saved heights are one interval that ends at the current
      block and starts at Lowest(n), so there are at most RETENTION_PERIOD + 2 of them. While the
      subtraction wraps only the current block is saved. */
  lemma {:induction false} RunIsWindow(hashes: seq<seq<byte>>)
    requires |hashes| < TWO64
    ensures IsWindow(Run(hashes), Lowest(|hashes|), |hashes|, hashes)
    ensures hashes != [] ==> 1 <= |hashes| - Lowest(|hashes|) + 1 <= RETENTION_PERIOD + 2
    ensures 1 <= |hashes| <= RETENTION_PERIOD ==> Lowest(|hashes|) == |hashes|
    decreases |hashes|
  {
    var n := |hashes|;
    if n > 0 {
      var before := hashes[..n - 1];
      RunIsWindow(before);
      BE8RoundTrip(n);
      BE8RoundTrip(n - 1);
      WindowStep(Run(before), hashes, n, BE8(n - 1), BE8(n));
    }
  }

  /** Where the kept heights start after pruning at block n. */
  function KeptLowest(n: u64): nat
    requires n > 1
  {
    var bound := MinHeightToRetain(n - 1);
    if bound > Lowest(n - 1) then bound else Lowest(n - 1)
  }

  lemma LowestStep(n: u64)
    requires n > 1
    ensures Lowest(n) == if KeptLowest(n) < n then KeptLowest(n) else n
  {
  }

  lemma LaterBlock(m: Headers, hashes: seq<seq<byte>>, n: u64, key: seq<byte>, key': seq<byte>)
    requires n == |hashes| && n > 1 && WellKeyed(m) && IsWindow(m, Lowest(n - 1), n - 1, hashes[..n - 1])
    requires |key| == 8 && FromBE(key) == n - 1 && |key'| == 8 && FromBE(key') == n
    ensures IsWindow(Pruned(m)[key' := hashes[n - 1]], Lowest(n), n, hashes)
  {
    var before := hashes[..n - 1];
    WindowLatest(m, Lowest(n - 1), n - 1, before, key);
    WindowKept(m, Lowest(n - 1), n - 1, before, MinHeightToRetain(n - 1));
    LowestStep(n);
    WindowExtended(Kept(m, MinHeightToRetain(n - 1)), KeptLowest(n), n, hashes, key', Lowest(n));
  }

  lemma WindowStep(m: Headers, hashes: seq<seq<byte>>, n: u64, key: seq<byte>, key': seq<byte>)
    requires n == |hashes| && n > 0 && WellKeyed(m) && IsWindow(m, Lowest(n - 1), n - 1, hashes[..n - 1])
    requires |key| == 8 && FromBE(key) == n - 1 && |key'| == 8 && FromBE(key') == n
    ensures IsWindow(Pruned(m)[key' := hashes[n - 1]], Lowest(n), n, hashes)
  {
    if n == 1 {
      NothingSaved(m, hashes[..0]);
      WindowExtended(m, 1, 1, hashes, key', 1);
    } else {
      LaterBlock(m, hashes, n, key, key');
    }
  }

  lemma NothingSaved(m: Headers, hashes: seq<seq<byte>>)
    requires |hashes| == 0 && IsWindow(m, 0, 0, hashes) && WellKeyed(m)
    ensures m == map[] && Pruned(m) == m && IsWindow(m, 1, 0, hashes)
  {
    forall k ensures k !in m { assert !InWindow(k, 0, 0); }
    assert m == map[];
  }

  /** Pruning keeps every saved header within the retention period of the latest one if and only if
      the latest height has reached the retention period. */
  lemma RetentionExact(hashes: seq<seq<byte>>, m: Headers)
    requires 1 <= |hashes| < TWO64 && m == Run(hashes)
    ensures (forall k :: k in m && FromBE(k) >= |hashes| - RETENTION_PERIOD ==> k in Pruned(m))
            <==> |hashes| >= RETENTION_PERIOD
  {
    var n := |hashes|;
    RunIsWindow(hashes);
    BE8RoundTrip(n);
    WindowLatest(m, Lowest(n), n, hashes, BE8(n));
    KeptExact(m, BE8(n), n);
  }

  lemma KeptExact(m: Headers, key: seq<byte>, n: u64)
    requires key in m && FromBE(key) == n && 1 <= n
    ensures (forall k :: k in m && FromBE(k) >= n - RETENTION_PERIOD ==> k in Kept(m, MinHeightToRetain(n)))
            <==> n >= RETENTION_PERIOD
  {
    var bound := MinHeightToRetain(n);
    if n < RETENTION_PERIOD {
      assert bound > n;
      assert key !in Kept(m, bound);
    } else {
      assert bound == n - RETENTION_PERIOD;
    }
  }
}
