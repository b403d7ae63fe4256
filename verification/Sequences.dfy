/** Sums and distinctness of sequences, and their invariance under permutation. */
module Sequences {

  function SumBy<T>(s: seq<T>, weight: T -> int): int {
    if s == [] then 0 else weight(s[0]) + SumBy(s[1..], weight)
  }

  lemma {:induction false} SumByConcat<T>(a: seq<T>, b: seq<T>, weight: T -> int)
    ensures SumBy(a + b, weight) == SumBy(a, weight) + SumBy(b, weight)
  {
    if a == [] {
      assert a + b == b;
    } else {
      SumByConcat(a[1..], b, weight);
      assert (a + b)[1..] == a[1..] + b;
    }
  }

  lemma {:induction false} PrefixWeighs<T>(s: seq<T>, k: nat, weight: T -> int)
    requires k <= |s| && forall i :: 0 <= i < |s| ==> weight(s[i]) >= 0
    ensures SumBy(s[..k], weight) <= SumBy(s, weight)
    ensures k < |s| ==> SumBy(s[..k + 1], weight) == SumBy(s[..k], weight) + weight(s[k])
    decreases |s|
  {
    if s != [] && k > 0 {
      PrefixWeighs(s[1..], k - 1, weight);
      assert s[..k][1..] == s[1..][..k - 1];
      if k < |s| {
        assert s[..k + 1][1..] == s[1..][..k];
      }
    } else if s != [] {
      PrefixWeighs(s[1..], 0, weight);
      assert s[..1][1..] == [];
    }
  }

  /** `s` without its element at `k`. */
  function Without<T>(s: seq<T>, k: nat): (r: seq<T>)
    requires k < |s|
    ensures multiset(r) + multiset{s[k]} == multiset(s)
  {
    assert s == s[..k] + [s[k]] + s[k + 1..];
    s[..k] + s[k + 1..]
  }

  lemma {:induction false} SumByPermutation<T>(a: seq<T>, b: seq<T>, weight: T -> int)
    requires multiset(a) == multiset(b)
    ensures SumBy(a, weight) == SumBy(b, weight)
  {
    if a == [] {
      assert |multiset(b)| == |b|;
    } else {
      var k := Pair(a, b);
      SumByPermutation(a[1..], Without(b, k), weight);
      SumByWithout(b, k, weight);
    }
  }

  /** The first element of one permutation, found in the other. */
  lemma Pair<T>(a: seq<T>, b: seq<T>) returns (k: nat)
    requires a != [] && multiset(a) == multiset(b)
    ensures k < |b| && b[k] == a[0] && multiset(a[1..]) == multiset(Without(b, k))
  {
    assert a == [a[0]] + a[1..];
    assert a[0] in multiset(b);
    k :| 0 <= k < |b| && b[k] == a[0];
    assert multiset(a[1..]) == multiset(a) - multiset{a[0]};
    assert multiset(Without(b, k)) == multiset(b) - multiset{b[k]};
  }

  lemma {:induction false} SumByWithout<T>(s: seq<T>, k: nat, weight: T -> int)
    requires k < |s|
    ensures SumBy(s, weight) == weight(s[k]) + SumBy(Without(s, k), weight)
  {
    if k == 0 {
      assert Without(s, 0) == s[1..];
    } else {
      SumByWithout(s[1..], k - 1, weight);
      assert Without(s, k)[0] == s[0] && Without(s, k)[1..] == Without(s[1..], k - 1);
    }
  }

  ghost predicate DistinctBy<T, K>(s: seq<T>, key: T -> K) {
    forall i, j :: 0 <= i < j < |s| ==> key(s[i]) != key(s[j])
  }

  lemma {:induction false} DistinctByPermutation<T, K>(a: seq<T>, b: seq<T>, key: T -> K)
    requires multiset(a) == multiset(b) && DistinctBy(a, key)
    ensures DistinctBy(b, key)
  {
    forall i, j | 0 <= i < j < |b|
      ensures key(b[i]) != key(b[j])
    {
      TwoMembers(b, i, j);
      var p, q := TwoPlaces(a, b[i], b[j]);
    }
  }

  lemma TwoMembers<T>(s: seq<T>, i: nat, j: nat)
    requires i < j < |s|
    ensures multiset{s[i]} + multiset{s[j]} <= multiset(s)
  {
    assert Without(s, i)[j - 1] == s[j];
    assert s[j] in multiset(Without(s, i));
  }

  lemma TwoPlaces<T>(s: seq<T>, x: T, y: T) returns (p: nat, q: nat)
    requires multiset{x} + multiset{y} <= multiset(s)
    ensures p < |s| && q < |s| && p != q && s[p] == x && s[q] == y
  {
    assert x in multiset(s);
    p :| 0 <= p < |s| && s[p] == x;
    var rest := Without(s, p);
    assert (multiset{x} + multiset{y})[y] <= multiset(s)[y] == (multiset(rest) + multiset{x})[y];
    assert y in multiset(rest);
    var k :| 0 <= k < |rest| && rest[k] == y;
    q := if k < p then k else k + 1;
    assert rest[k] == s[q];
  }

  lemma PermutationMembers<T>(a: seq<T>, b: seq<T>)
    requires multiset(a) == multiset(b)
    ensures |a| == |b| && forall x :: x in a <==> x in b
  {
    assert |multiset(a)| == |a| && |multiset(b)| == |b|;
    assert forall x :: x in a <==> x in multiset(a);
  }

  /** The elements that satisfy `p`, in order. */
  function Select<T>(s: seq<T>, p: T -> bool): seq<T> {
    if s == [] then [] else if p(s[0]) then [s[0]] + Select(s[1..], p) else Select(s[1..], p)
  }

  /** The elements that do not satisfy `p`, in order. */
  function Reject<T>(s: seq<T>, p: T -> bool): seq<T> {
    if s == [] then [] else if p(s[0]) then Reject(s[1..], p) else [s[0]] + Reject(s[1..], p)
  }

  lemma {:induction false} SelectSplits<T>(s: seq<T>, p: T -> bool)
    ensures multiset(Select(s, p) + Reject(s, p)) == multiset(s) == multiset(Reject(s, p) + Select(s, p))
  {
    if s != [] {
      SelectSplits(s[1..], p);
      assert s == [s[0]] + s[1..];
    }
  }

  lemma {:induction false} RejectMembers<T>(s: seq<T>, p: T -> bool, x: T)
    ensures x in Reject(s, p) <==> x in s && !p(x)
  {
    if s != [] {
      RejectMembers(s[1..], p, x);
      assert s == [s[0]] + s[1..];
    }
  }

  ghost predicate StrictlySorted<T>(s: seq<T>, less: (T, T) -> bool) {
    forall i, j :: 0 <= i < j < |s| ==> less(s[i], s[j])
  }

  lemma SomeMember<T>(s: seq<T>)
    ensures s != [] <==> exists x :: x in s
  {
    if s != [] {
      assert s[0] in s;
    }
  }

  /** A strictly sorted sequence is determined by its elements. */
  lemma {:induction false} StrictlySortedUnique<T(!new)>(a: seq<T>, b: seq<T>, less: (T, T) -> bool)
    requires StrictlySorted(a, less) && StrictlySorted(b, less)
    requires forall x, y :: less(x, y) ==> !less(y, x)
    requires forall x :: x in a <==> x in b
    ensures a == b
  {
    SomeMember(a);
    SomeMember(b);
    if a != [] && b != [] {
      assert a[0] in b && b[0] in a;
      var k :| 0 <= k < |b| && b[k] == a[0];
      var m :| 0 <= m < |a| && a[m] == b[0];
      assert a[0] == b[0];
      assert a == [a[0]] + a[1..] && b == [b[0]] + b[1..];
      assert forall x | x in a[1..] :: less(a[0], x) && x != a[0];
      assert forall x | x in b[1..] :: less(b[0], x) && x != b[0];
      forall x
        ensures x in a[1..] <==> x in b[1..]
      {
        assert x in a <==> x == a[0] || x in a[1..];
        assert x in b <==> x == b[0] || x in b[1..];
      }
      StrictlySortedUnique(a[1..], b[1..], less);
    }
  }

  // ----- ascending numbers

  predicate NatLess(a: nat, b: nat) { a < b }

  function InsertNat(n: nat, s: seq<nat>): seq<nat> {
    if s == [] || n < s[0] then [n] + s
    else if n == s[0] then s
    else [s[0]] + InsertNat(n, s[1..])
  }

  /** The distinct numbers in ascending order. */
  function SortDedup(numbers: seq<nat>): seq<nat> {
    if numbers == [] then [] else InsertNat(numbers[0], SortDedup(numbers[1..]))
  }

  lemma {:induction false} InsertNatSorted(n: nat, s: seq<nat>)
    requires StrictlySorted(s, NatLess)
    ensures StrictlySorted(InsertNat(n, s), NatLess)
    ensures forall k :: k in InsertNat(n, s) <==> k == n || k in s
  {
    if s != [] && n > s[0] {
      InsertNatSorted(n, s[1..]);
      assert s == [s[0]] + s[1..];
      var r := InsertNat(n, s[1..]);
      assert forall j :: 0 <= j < |r| ==> r[j] in r;
      assert forall k | k in r :: s[0] < k;
    }
  }

  lemma {:induction false} SortDedupExact(numbers: seq<nat>)
    ensures StrictlySorted(SortDedup(numbers), NatLess)
    ensures forall k :: k in SortDedup(numbers) <==> k in numbers
  {
    if numbers != [] {
      SortDedupExact(numbers[1..]);
      InsertNatSorted(numbers[0], SortDedup(numbers[1..]));
      assert numbers == [numbers[0]] + numbers[1..];
    }
  }

  lemma AppendSorted(a: seq<nat>, b: seq<nat>, bound: nat)
    requires StrictlySorted(a, NatLess) && StrictlySorted(b, NatLess)
    requires (forall k | k in a :: k < bound) && (forall k | k in b :: bound <= k)
    ensures StrictlySorted(a + b, NatLess)
  {
    assert forall i :: 0 <= i < |a| ==> a[i] in a;
    assert forall i :: 0 <= i < |b| ==> b[i] in b;
  }
}
