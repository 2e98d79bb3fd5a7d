/** Permutations of the linear pixel indices 0 .. n-1, numpy's argsort of
    such a permutation, and the pixel rearrangement a permutation key
    describes. */
module Permutations {

  /** p holds each of 0 .. |p|-1 at most once (and so, by PermutationCovers,
      exactly once): what np.random.permutation(|p|) returns. */
  predicate IsPermutation(p: seq<int>) {
    && (forall k :: 0 <= k < |p| ==> 0 <= p[k] < |p|)
    && (forall k, l :: 0 <= k < l < |p| ==> p[k] != p[l])
  }

  lemma {:induction false} ImageSize(p: seq<int>, n: nat)
    requires n <= |p|
    requires forall k, l :: 0 <= k < l < |p| ==> p[k] != p[l]
    ensures |(set k | 0 <= k < n :: p[k])| == n
  {
    if n > 0 {
      ImageSize(p, n - 1);
      var s := set k | 0 <= k < n - 1 :: p[k];
      assert (set k | 0 <= k < n :: p[k]) == s + {p[n - 1]};
      assert p[n - 1] !in s;
    }
  }

  /** The set {0, .., n-1}. */
  function Below(n: nat): (r: set<int>)
    ensures |r| == n
    ensures forall m :: m in r <==> 0 <= m < n
  {
    if n == 0 then {} else Below(n - 1) + {n - 1}
  }

  /** Pigeonhole: a permutation takes every value in 0 .. |p|-1. */
  lemma PermutationCovers(p: seq<int>)
    requires IsPermutation(p)
    ensures forall m :: 0 <= m < |p| ==> m in p
  {
    var taken := set k | 0 <= k < |p| :: p[k];
    var range := Below(|p|);
    ImageSize(p, |p|);
    assert taken <= range;
    assert |range - taken| == 0;
    forall m | 0 <= m < |p| ensures m in p {
      assert m in range;
      var k :| 0 <= k < |p| && p[k] == m;
    }
  }

  /** The first position of m in p. */
  function IndexOf(p: seq<int>, m: int): (k: nat)
    requires m in p
    ensures k < |p| && p[k] == m
    ensures forall l :: 0 <= l < k ==> p[l] != m
  {
    if p[0] == m then 0 else 1 + IndexOf(p[1..], m)
  }

  /** np.argsort of a permutation: the positions of p listed in increasing
      order of the values they hold, which is the inverse permutation. */
  function ArgSort(p: seq<int>): (q: seq<int>)
    requires IsPermutation(p)
    ensures |q| == |p| && IsPermutation(q)
    ensures forall i, j :: 0 <= i < j < |q| ==> p[q[i]] < p[q[j]]
    ensures forall k :: 0 <= k < |p| ==> q[p[k]] == k
    ensures forall m :: 0 <= m < |q| ==> p[q[m]] == m
  {
    PermutationCovers(p);
    seq(|p|, m requires 0 <= m < |p| => IndexOf(p, m))
  }

  /** The sequence whose m-th element is s[q[m]]. */
  function Gather<T>(s: seq<T>, q: seq<int>): (r: seq<T>)
    requires forall m :: 0 <= m < |q| ==> 0 <= q[m] < |s|
    ensures |r| == |q| && forall m :: 0 <= m < |q| ==> r[m] == s[q[m]]
  {
    seq(|q|, m requires 0 <= m < |q| => s[q[m]])
  }

  /** The rearrangement a key p describes: the element at position k moves
      to position p[k]. */
  function Scatter<T>(s: seq<T>, p: seq<int>): (r: seq<T>)
    requires |p| == |s| && IsPermutation(p)
    ensures |r| == |s|
    ensures forall k :: 0 <= k < |s| ==> r[p[k]] == s[k]
  {
    Gather(s, ArgSort(p))
  }

  /** Moving every element of s to position p[k] determines the result. */
  lemma ScatterUnique<T>(s: seq<T>, p: seq<int>, r: seq<T>)
    requires |p| == |s| && IsPermutation(p) && |r| == |s|
    requires forall k :: 0 <= k < |s| ==> r[p[k]] == s[k]
    ensures r == Scatter(s, p)
  {
  }

  /** argsort of argsort gives back the key. */
  lemma ArgSortInvolutive(p: seq<int>)
    requires IsPermutation(p)
    ensures ArgSort(ArgSort(p)) == p
  {
  }

  /** Scattering by the argsort of the key undoes scattering by the key. */
  lemma ScatterRoundTrip<T>(s: seq<T>, p: seq<int>)
    requires |p| == |s| && IsPermutation(p)
    ensures Scatter(Scatter(s, p), ArgSort(p)) == s
  {
  }

  /** ... and the other way round. */
  lemma ScatterRoundTripInverse<T>(s: seq<T>, p: seq<int>)
    requires |p| == |s| && IsPermutation(p)
    ensures Scatter(Scatter(s, ArgSort(p)), p) == s
  {
  }

  /** Gathering through q with its largest entry dropped is gathering
      through q with that position dropped. */
  lemma GatherDropLargest<T>(s: seq<T>, q: seq<int>, j: nat)
    requires |q| == |s| && IsPermutation(q) && j < |q| && q[j] == |q| - 1
    ensures IsPermutation(q[..j] + q[j + 1..])
    ensures Gather(s[..|s| - 1], q[..j] + q[j + 1..]) == Gather(s, q)[..j] + Gather(s, q)[j + 1..]
  {
  }

  /** Gathering through a permutation keeps the multiset of elements. */
  lemma {:induction false} GatherMultiset<T>(s: seq<T>, q: seq<int>)
    requires |q| == |s| && IsPermutation(q)
    ensures multiset(Gather(s, q)) == multiset(s)
  {
    var n := |s|;
    if n > 0 {
      PermutationCovers(q);
      var j := IndexOf(q, n - 1);
      var t := Gather(s, q);
      GatherDropLargest(s, q, j);
      GatherMultiset(s[..n - 1], q[..j] + q[j + 1..]);
      assert multiset(t[..j] + t[j + 1..]) == multiset(s[..n - 1]);
      assert t == t[..j] + [t[j]] + t[j + 1..];
      assert s == s[..n - 1] + [s[n - 1]];
    }
  }

  /** A key only rearranges: the multiset of elements is kept. */
  lemma ScatterMultiset<T>(s: seq<T>, p: seq<int>)
    requires |p| == |s| && IsPermutation(p)
    ensures multiset(Scatter(s, p)) == multiset(s)
  {
    GatherMultiset(s, ArgSort(p));
  }
}
