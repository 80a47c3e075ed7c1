/** Sequences without repetition, as the node lists of the kernel are. */
module Sequences {
  /** Recursive, so that its quantified meaning enters a proof only through the lemmas below. */
  ghost predicate Distinct<T>(s: seq<T>) {
    s == [] || (s[|s| - 1] !in s[..|s| - 1] && Distinct(s[..|s| - 1]))
  }

  lemma {:induction false} DistinctMeans<T>(s: seq<T>)
    ensures Distinct(s) <==> forall i, j :: 0 <= i < j < |s| ==> s[i] != s[j]
  {
    if s != [] {
      var n := |s| - 1;
      DistinctMeans(s[..n]);
      if forall i, j :: 0 <= i < j < |s| ==> s[i] != s[j] {
        assert forall i, j :: 0 <= i < j < n ==> s[..n][i] != s[..n][j];
      }
      if Distinct(s) {
        forall i, j | 0 <= i < j < |s|
          ensures s[i] != s[j]
        {
          if j < n { assert s[..n][i] != s[..n][j]; } else { assert s[i] in s[..n]; }
        }
      }
    }
  }

  lemma OthersDiffer<T>(s: seq<T>, n: int)
    requires Distinct(s) && 0 <= n < |s|
    ensures forall i :: 0 <= i < |s| && i != n ==> s[i] != s[n]
  {
    DistinctMeans(s);
  }

  lemma RemoveKeepsDistinct<T>(s: seq<T>, n: int)
    requires Distinct(s) && 0 <= n < |s|
    ensures Distinct(s[..n] + s[n + 1..])
    ensures s[n] !in s[..n] + s[n + 1..]
  {
    DistinctMeans(s);
    DistinctMeans(s[..n] + s[n + 1..]);
  }

  lemma InsertKeepsDistinct<T>(s: seq<T>, n: int, x: T)
    requires Distinct(s) && 0 <= n <= |s| && x !in s
    ensures Distinct(s[..n] + [x] + s[n..])
  {
    DistinctMeans(s);
    DistinctMeans(s[..n] + [x] + s[n..]);
  }

  lemma AppendKeepsDistinct<T>(s: seq<T>, x: T)
    requires Distinct(s) && x !in s
    ensures Distinct(s + [x])
  {
    InsertKeepsDistinct(s, |s|, x);
    assert s[..|s|] + [x] + s[|s|..] == s + [x];
  }

  /** A list after a search has unlinked the first occurrence of x. */
  function Without<T(==)>(s: seq<T>, x: T): seq<T> {
    if s == [] then [] else if s[0] == x then s[1..] else [s[0]] + Without(s[1..], x)
  }

  lemma {:induction false} WithoutFirst<T>(a: seq<T>, x: T, t: seq<T>)
    requires x !in a && (t == [] || t[0] == x)
    ensures Without(a + t, x) == a + if t == [] then [] else t[1..]
  {
    if a == [] {
      assert a + t == t;
    } else {
      WithoutFirst(a[1..], x, t);
      assert (a + t)[1..] == a[1..] + t;
    }
  }
}
