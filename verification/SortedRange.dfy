/**
 Range scans over a sorted index: everything between lower_bound of one key and
 upper_bound of another.  Both the memtable and the segments scan timestamps
 this way, stepping from the first iterator until it equals the second.
 */
module SortedRange {
  import opened Prelude

  ghost predicate Sorted(k: seq<nat>) {
    forall i, j :: 0 <= i < j < |k| ==> k[i] <= k[j]
  }

  /** lower_bound: the first position whose key is not below x. */
  function Lower(k: seq<nat>, x: nat, i: nat): (r: nat)
    requires i <= |k|
    ensures i <= r <= |k|
    ensures forall j :: i <= j < r ==> k[j] < x
    ensures r < |k| ==> k[r] >= x
    decreases |k| - i
  {
    if i == |k| || k[i] >= x then i else Lower(k, x, i + 1)
  }

  /** upper_bound: the first position whose key is above x. */
  function Upper(k: seq<nat>, x: nat, i: nat): (r: nat)
    requires i <= |k|
    ensures i <= r <= |k|
    ensures forall j :: i <= j < r ==> k[j] <= x
    ensures r < |k| ==> k[r] > x
    decreases |k| - i
  {
    if i == |k| || k[i] > x then i else Upper(k, x, i + 1)
  }

  lemma LowerIs(k: seq<nat>, x: nat, i: nat)
    requires i <= |k| && (forall j :: 0 <= j < i ==> k[j] < x) && (forall j :: i <= j < |k| ==> k[j] >= x)
    ensures Lower(k, x, 0) == i
  {
    assert i < |k| ==> k[i] >= x;
  }

  lemma UpperIs(k: seq<nat>, x: nat, i: nat)
    requires i <= |k| && (forall j :: 0 <= j < i ==> k[j] <= x) && (forall j :: i <= j < |k| ==> k[j] > x)
    ensures Upper(k, x, 0) == i
  {
    assert i < |k| ==> k[i] > x;
  }

  /** The scan never meets its end: it runs off the index. */
  predicate RunsOff(k: seq<nat>, lo: nat, hi: nat) {
    Lower(k, lo, 0) > Upper(k, hi, 0)
  }

  /** Exactly when a scan runs off: the bounds are crossed with a key strictly between them. */
  lemma RunsOffIff(k: seq<nat>, lo: nat, hi: nat)
    requires Sorted(k)
    ensures RunsOff(k, lo, hi) <==> exists j :: 0 <= j < |k| && hi < k[j] < lo
  {
    var a, b := Lower(k, lo, 0), Upper(k, hi, 0);
    if a > b {
      assert hi < k[b] < lo;
    }
    if j :| 0 <= j < |k| && hi < k[j] < lo {
      assert a > j;
      assert b <= j;
    }
  }

  /** A scan that does not run off visits exactly the positions whose key lies in the range. */
  lemma ScanIsRange(k: seq<nat>, lo: nat, hi: nat, j: nat)
    requires Sorted(k) && j < |k|
    ensures Lower(k, lo, 0) <= j < Upper(k, hi, 0) <==> lo <= k[j] <= hi
  {
  }

  /** A scan from 9 to 1 over the single key 5 runs off. */
  lemma CrossedRunsOff()
    ensures RunsOff([5], 9, 1)
  {
    var k: seq<nat> := [5];
    assert k[0] == 5 && 1 < k[0] < 9;
    RunsOffIff(k, 9, 1);
  }
}
