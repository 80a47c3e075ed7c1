/** When following a cluster chain comes to an end: exactly when the chain does not run in a circle. */
module FatChains {
  import opened Words
  import opened Sequences
  import opened Fat32

  /** From a walk's k-th cluster on, the walk is the one that starts there. */
  lemma {:induction false} WalkFrom(v: Volume, c: u32, n: nat, k: nat)
    requires Mounted(v) && k < |Walk(v, c, n)|
    ensures k < n && Walk(v, c, n)[k..] == Walk(v, Walk(v, c, n)[k], n - k)
    ensures Ends(v, c, n) ==> Ends(v, Walk(v, c, n)[k], n - k)
    decreases k
  {
    if k > 0 {
      var rest := Walk(v, v.fat[c], n - 1);
      WalkFrom(v, v.fat[c], n - 1, k - 1);
      assert ([c] + rest)[k..] == rest[k - 1..];
    }
  }

  /** A chain that is over looks the same however much further it is followed. */
  lemma {:induction false} EndedWalk(v: Volume, c: u32, m: nat, n: nat)
    requires Mounted(v) && Ends(v, c, m) && m <= n
    ensures Walk(v, c, n) == Walk(v, c, m) && Ends(v, c, n)
    decreases m
  {
    if InUse(c) && ReadCluster(v, c).Some? { EndedWalk(v, v.fat[c], m - 1, n - 1); }
  }

  /** A chain that ends never comes back to where it started. */
  lemma NoReturn(v: Volume, c: u32, n: nat, k: nat)
    requires Mounted(v) && Ends(v, c, n) && 0 < k < |Walk(v, c, n)|
    ensures Walk(v, c, n)[k] != c
  {
    WalkFrom(v, c, n, k);
    if Walk(v, c, n)[k] == c { EndedWalk(v, c, n - k, n); }
  }

  lemma {:induction false} UnendedWalk(v: Volume, c: u32, n: nat)
    requires Mounted(v) && !Ends(v, c, n)
    ensures |Walk(v, c, n)| == n
    ensures forall k :: 0 <= k < n ==> 2 <= Walk(v, c, n)[k] < v.clusterCount + 2
    decreases n
  {
    if n > 0 { UnendedWalk(v, v.fat[c], n - 1); }
  }

  lemma {:induction false} Pigeonhole(s: seq<u32>, low: nat, high: nat)
    requires Distinct(s) && low <= high && forall k :: 0 <= k < |s| ==> low <= s[k] < high
    ensures |s| <= high - low
    decreases high
  {
    if low < high {
      if k :| 0 <= k < |s| && s[k] == high - 1 {
        RemoveKeepsDistinct(s, k);
        OthersDiffer(s, k);
        Pigeonhole(s[..k] + s[k + 1..], low, high - 1);
      } else {
        Pigeonhole(s, low, high - 1);
      }
    }
  }

  /** A chain ends, at all and within the volume's cluster count, exactly when it does not repeat a
      cluster; this is what the unbounded loops of the driver rely on. */
  lemma EndsIffAcyclic(v: Volume, c: u32)
    requires Mounted(v)
    ensures Ends(v, c, v.clusterCount + 1) <==> Distinct(Walk(v, c, v.clusterCount + 1))
    ensures (exists n: nat :: Ends(v, c, n)) <==> Ends(v, c, v.clusterCount + 1)
  {
    var bound := v.clusterCount + 1;
    if n: nat :| Ends(v, c, n) { EndedIsDistinct(v, c, n); }
    if !Ends(v, c, bound) {
      UnendedWalk(v, c, bound);
      if Distinct(Walk(v, c, bound)) { Pigeonhole(Walk(v, c, bound), 2, v.clusterCount + 2); }
    }
  }

  lemma EndedIsDistinct(v: Volume, c: u32, n: nat)
    requires Mounted(v) && Ends(v, c, n)
    ensures Distinct(Walk(v, c, v.clusterCount + 1)) && Ends(v, c, v.clusterCount + 1)
  {
    var bound := v.clusterCount + 1;
    var most := if n < bound then bound else n;
    EndedWalk(v, c, n, most);
    var walk := Walk(v, c, most);
    forall i, j | 0 <= i < j < |walk|
      ensures walk[i] != walk[j]
    {
      WalkFrom(v, c, most, i);
      assert walk[i..][j - i] == walk[j];
      NoReturn(v, walk[i], most - i, j - i);
    }
    DistinctMeans(walk);
    if !Ends(v, c, bound) {
      UnendedWalk(v, c, bound);
      Shorter(v, c, bound, most);
      assert Distinct(Walk(v, c, bound)) by {
        DistinctMeans(Walk(v, c, bound));
      }
      Pigeonhole(Walk(v, c, bound), 2, v.clusterCount + 2);
    } else {
      EndedWalk(v, c, bound, most);
    }
  }

  lemma {:induction false} Shorter(v: Volume, c: u32, m: nat, n: nat)
    requires Mounted(v) && m <= n
    ensures Walk(v, c, m) <= Walk(v, c, n)
    decreases m
  {
    if m > 0 && InUse(c) && ReadCluster(v, c).Some? { Shorter(v, v.fat[c], m - 1, n - 1); }
  }
}
