/** Which Celestia heights a backfill goroutine visits, in wrapping 64-bit arithmetic. */
module Backfill {
  import opened Bytes

  const MAX_BACKFILL: u64 := 100

  /** first .. last, empty when first > last. */
  function Range(first: int, last: int): (r: seq<int>)
    ensures |r| == if first <= last then last - first + 1 else 0
    ensures forall i :: 0 <= i < |r| ==> r[i] == first + i
  {
    if first > last then [] else seq(last - first + 1, i => first + i)
  }

  /** The first height visited, for every pair of a last processed and a latest height; above
      `latest` when there is none. */
  function FirstVisited(last: u64, latest: u64): int {
    if last < latest then (if last + 1 < latest - 100 then latest - 100 else last + 1)
    else if last == TWO64 - 1 then (if latest > 100 then latest - 100 else 0)
    else if latest < 100 || TWO64 + latest - (last + 1) <= 100 then latest + 1
    else latest - 100
  }

  /** Where the loop starts, as the source computes it. */
  function StartHeight(last: u64, latest: u64): u64 {
    var start := Wrap(last + 1);
    if Wrap(latest - start) > MAX_BACKFILL then Wrap(latest - MAX_BACKFILL) else start
  }

  lemma StartIsFirstVisited(last: u64, latest: u64)
    requires latest < TWO64 - 1
    ensures StartHeight(last, latest) <= latest ==> StartHeight(last, latest) == FirstVisited(last, latest) >= latest - 100
    ensures StartHeight(last, latest) > latest ==> FirstVisited(last, latest) > latest
  {
    var start := Wrap(last + 1);
    assert start == if last == TWO64 - 1 then 0 else last + 1;
    assert Wrap(latest - start) == if start <= latest then latest - start else TWO64 + latest - start;
    assert Wrap(latest - 100) == if latest >= 100 then latest - 100 else TWO64 + latest - 100;
  }

  lemma RangeAppend(first: int, h: int)
    requires first <= h
    ensures Range(first, h - 1) + [h] == Range(first, h)
  {
  }

  /** The loop; with latest = 2^64 - 1 its counter would wrap and it would never end. When the node is
      ahead it visits the missed heights, cut to the last 101. */
  method VisitHeights(last: u64, latest: u64) returns (visited: seq<int>)
    requires latest < TWO64 - 1
    ensures visited == Range(FirstVisited(last, latest), latest)
    ensures |visited| <= 101
    ensures last < latest ==> visited == Range(if latest - 100 > last + 1 then latest - 100 else last + 1, latest)
    ensures last == latest >= 100 ==> visited == Range(latest - 100, latest)
  {
    var startHeight := Wrap(last + 1);
    if Wrap(latest - startHeight) > MAX_BACKFILL {
      startHeight := Wrap(latest - MAX_BACKFILL);
    }
    assert startHeight == StartHeight(last, latest);
    StartIsFirstVisited(last, latest);
    visited := [];
    var h := startHeight;
    while h <= latest
      invariant startHeight <= h && (h <= latest + 1 || h == startHeight)
      invariant visited == Range(startHeight, h - 1)
      decreases latest + 1 - h
    {
      visited := visited + [h];
      RangeAppend(startHeight, h);
      h := Wrap(h + 1);
    }
  }

  /** The heights after the last processed one, exactly, are visited if and only if at most 101 were
      missed, or none was and the wrapped distance does not trigger the limit. An indexer that is up
      to date at height 100 or later visits the last 101 heights again. */
  lemma VisitsExactlyMissed(last: u64, latest: u64)
    requires latest < TWO64 - 1
    ensures Range(FirstVisited(last, latest), latest) == Range(last + 1, latest) <==>
            if last < latest then latest - last <= 101
            else last < TWO64 - 1 && (latest < 100 || TWO64 + latest - (last + 1) <= 100)
  {
    var v, w := Range(FirstVisited(last, latest), latest), Range(last + 1, latest);
    if FirstVisited(last, latest) <= latest {
      assert |v| > 0 && v[0] == FirstVisited(last, latest);
      if w != [] { assert w[0] == last + 1; }
    } else {
      assert v == [];
      assert |w| == 0;
    }
  }

  /** For instance, an indexer that is up to date at height 100 has missed nothing and visits 0 .. 100. */
  lemma UpToDateVisitsAgain()
    ensures Range(FirstVisited(100, 100), 100) == Range(0, 100) != Range(101, 100)
  {
    assert |Range(0, 100)| == 101;
  }
}
