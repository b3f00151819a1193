/**
 * The comparator the web page sorts its server list with: servers with the
 * larger rank come first. The page looks both ranks up in the downloaded
 * server table; here the two ranks are the inputs.
 */
module Ranking {
  import opened Wrappers

  /** `rankCompare`: negative when `a` sorts first, positive when `b` does. */
  function RankCompare(rankA: int, rankB: int): (c: int)
    ensures c == -1 || c == 0 || c == 1
    ensures c == 0 <==> rankA == rankB
    ensures c == -1 <==> rankA > rankB
    ensures c == 1 <==> rankB > rankA
  {
    if rankA > rankB then -1
    else if rankB > rankA then 1
    else 0
  }

  /** Swapping the arguments negates the answer. */
  lemma CompareAntisymmetric(rankA: int, rankB: int)
    ensures RankCompare(rankB, rankA) == -RankCompare(rankA, rankB)
  {
  }

  /** Sorting before is transitive, so the comparator is a consistent order. */
  lemma CompareTransitive(rankA: int, rankB: int, rankC: int)
    requires RankCompare(rankA, rankB) <= 0 && RankCompare(rankB, rankC) <= 0
    ensures RankCompare(rankA, rankC) <= 0
  {
  }

  /** A list is in the page's display order: ranks never increase. */
  predicate Sorted(ranks: seq<int>) {
    forall i, j :: 0 <= i < j < |ranks| ==> RankCompare(ranks[i], ranks[j]) <= 0
  }

  /** Being sorted by the comparator is the same as ranks not increasing. */
  lemma SortedDescending(ranks: seq<int>)
    ensures Sorted(ranks) <==> forall i, j :: 0 <= i < j < |ranks| ==> ranks[i] >= ranks[j]
  {
  }

  /**
   * `rankCompare` on two server IDs: each rank is looked up in the server
   * table first. An ID missing from the table makes the lookup throw, which
   * is `None` here.
   */
  function CompareServers(ranks: map<string, int>, a: string, b: string): (c: Option<int>)
    ensures c.Some? <==> a in ranks && b in ranks
    ensures c.Some? ==> (c.value == -1 <==> ranks[a] > ranks[b])
    ensures c.Some? ==> (c.value == 1 <==> ranks[b] > ranks[a])
    ensures c.Some? ==> (c.value == 0 <==> ranks[a] == ranks[b])
  {
    if a in ranks && b in ranks then Some(RankCompare(ranks[a], ranks[b])) else None
  }

  /** A list of server IDs in the page's display order. */
  predicate SortedServers(ranks: map<string, int>, ids: seq<string>)
    requires forall i :: 0 <= i < |ids| ==> ids[i] in ranks
  {
    forall i, j :: 0 <= i < j < |ids| ==> CompareServers(ranks, ids[i], ids[j]).value <= 0
  }

  /** Server IDs sorted by the comparator are exactly those whose looked-up ranks never increase. */
  lemma SortedServersDescending(ranks: map<string, int>, ids: seq<string>)
    requires forall i :: 0 <= i < |ids| ==> ids[i] in ranks
    ensures SortedServers(ranks, ids) <==> forall i, j :: 0 <= i < j < |ids| ==> ranks[ids[i]] >= ranks[ids[j]]
  {
  }
}
