// slices.SortFunc as its users may rely on it: the result is a permutation, and it is
// ordered when the comparator is a strict weak order on the elements. Nothing is said
// about the order of ties, because the library promises nothing there.
module Sorting {
  import opened Sequences

  predicate Less<T>(cmp: (T, T) -> int, x: T, y: T) {
    cmp(x, y) < 0
  }

  /** "cmp < 0" is a strict weak order on the elements of m. */
  ghost predicate StrictWeak<T>(cmp: (T, T) -> int, m: multiset<T>) {
    && (forall x, y :: x in m && y in m && Less(cmp, x, y) ==> !Less(cmp, y, x))
    && (forall x, y, z :: x in m && y in m && z in m && !Less(cmp, x, y) && !Less(cmp, y, z) ==> !Less(cmp, x, z))
  }

  ghost predicate Sorted<T>(cmp: (T, T) -> int, s: seq<T>) {
    forall i, j :: 0 <= i < j < |s| ==> !Less(cmp, s[j], s[i])
  }

  /** What one call of slices.SortFunc may turn input into. */
  ghost predicate SortOf<T>(cmp: (T, T) -> int, input: seq<T>, output: seq<T>) {
    && multiset(output) == multiset(input)
    && (StrictWeak(cmp, multiset(input)) ==> Sorted(cmp, output))
  }

  /** Neither element comes before the other. */
  predicate Tied<T>(cmp: (T, T) -> int, x: T, y: T) {
    !Less(cmp, x, y) && !Less(cmp, y, x)
  }

  ghost predicate SortedTo<T>(cmp: (T, T) -> int, s: seq<T>, n: nat)
    requires n <= |s|
  {
    forall p, q :: 0 <= p < q < n ==> !Less(cmp, s[q], s[p])
  }

  /** Ordered up to n but for position j, which is still on its way down. */
  ghost predicate SortedAround<T>(cmp: (T, T) -> int, s: seq<T>, n: nat, j: nat)
    requires n <= |s|
  {
    forall p, q :: 0 <= p < q < n && q != j ==> !Less(cmp, s[q], s[p])
  }

  /** One swap of the insertion sort. The flag weak says whether order may be promised. */
  lemma {:induction false} Sink<T>(cmp: (T, T) -> int, s: seq<T>, t: seq<T>, n: nat, j: nat, m: multiset<T>, weak: bool)
    requires multiset(s) == m && (weak ==> StrictWeak(cmp, m))
    requires 0 < j < n <= |s| && Less(cmp, s[j], s[j - 1])
    requires t == s[j - 1 := s[j]][j := s[j - 1]]
    requires weak ==> SortedAround(cmp, s, n, j)
    ensures multiset(t) == m
    ensures weak ==> SortedAround(cmp, t, n, j - 1)
  {
    assert forall k :: 0 <= k < |s| ==> s[k] in m;
  }

  lemma {:induction false} Settle<T>(cmp: (T, T) -> int, s: seq<T>, n: nat, j: nat, m: multiset<T>, weak: bool)
    requires multiset(s) == m && (weak ==> StrictWeak(cmp, m))
    requires j < n <= |s| && (j == 0 || !Less(cmp, s[j], s[j - 1]))
    requires weak ==> SortedAround(cmp, s, n, j)
    ensures weak ==> SortedTo(cmp, s, n)
  {
    assert forall k :: 0 <= k < |s| ==> s[k] in m;
    if weak {
      forall p | 0 <= p < j
        ensures !Less(cmp, s[j], s[p])
      {
        if p < j - 1 {
          assert !Less(cmp, s[j - 1], s[p]);
          assert s[j] in m && s[p] in m && s[j - 1] in m;
        }
      }
    }
  }

  /** One round of the insertion sort: element i moves down to its place. */
  method Insert<T(==)>(a: array<T>, i: nat, cmp: (T, T) -> int, ghost m: multiset<T>, ghost weak: bool)
    requires i < a.Length && multiset(a[..]) == m && (weak ==> StrictWeak(cmp, m))
    requires weak ==> SortedTo(cmp, a[..], i)
    modifies a
    ensures multiset(a[..]) == m
    ensures weak ==> SortedTo(cmp, a[..], i + 1)
  {
    var j := i;
    while j > 0 && cmp(a[j], a[j - 1]) < 0
      invariant 0 <= j <= i
      invariant multiset(a[..]) == m
      invariant weak ==> SortedAround(cmp, a[..], i + 1, j)
    {
      ghost var before := a[..];
      a[j - 1], a[j] := a[j], a[j - 1];
      assert a[..] == before[j - 1 := before[j]][j := before[j - 1]];
      Sink(cmp, before, a[..], i + 1, j, m, weak);
      j := j - 1;
    }
    Settle(cmp, a[..], i + 1, j, m, weak);
  }

  /** The insertion sort that slices.SortFunc runs on short slices. */
  method SortFunc<T(==)>(a: array<T>, cmp: (T, T) -> int)
    modifies a
    ensures SortOf(cmp, old(a[..]), a[..])
  {
    ghost var m := multiset(a[..]);
    ghost var weak := StrictWeak(cmp, m);
    var i := 0;
    while i < a.Length
      invariant i <= a.Length
      invariant multiset(a[..]) == m
      invariant weak ==> SortedTo(cmp, a[..], i)
    {
      Insert(a, i, cmp, m, weak);
      i := i + 1;
    }
  }

  /** Into an ordered sequence any element can be put in order. */
  lemma {:induction false} PutInOrder<T>(cmp: (T, T) -> int, x: T, s: seq<T>, m: multiset<T>) returns (r: seq<T>)
    requires StrictWeak(cmp, m) && x in m && (forall i :: 0 <= i < |s| ==> s[i] in m)
    requires Sorted(cmp, s)
    ensures multiset(r) == multiset(s) + multiset{x} && Sorted(cmp, r)
  {
    hide StrictWeak;
    if s == [] || !Less(cmp, s[0], x) {
      r := [x] + s;
      BehindFirst(cmp, x, s, m);
    } else {
      hide *;
      assert s == [s[0]] + s[1..];
      SortedRest(cmp, s);
      var rest := PutInOrder(cmp, x, s[1..], m);
      r := [s[0]] + rest;
      forall i | 0 <= i < |rest|
        ensures !Less(cmp, rest[i], s[0])
      {
        assert rest[i] in multiset(rest);
        assert rest[i] == x || rest[i] in s[1..];
        SortedFirst(cmp, s);
        AsymmetricAt(cmp, m, s[0], x);
      }
      SortedPrepend(cmp, s[0], rest);
    }
  }

  lemma {:induction false} AsymmetricAt<T>(cmp: (T, T) -> int, m: multiset<T>, x: T, y: T)
    requires StrictWeak(cmp, m) && x in m && y in m
    ensures Less(cmp, x, y) ==> !Less(cmp, y, x)
  {
  }

  lemma {:induction false} SortedRest<T>(cmp: (T, T) -> int, s: seq<T>)
    requires Sorted(cmp, s) && s != []
    ensures Sorted(cmp, s[1..])
  {
  }

  lemma {:induction false} SortedFirst<T>(cmp: (T, T) -> int, s: seq<T>)
    requires Sorted(cmp, s) && s != []
    ensures forall y :: y in s[1..] ==> !Less(cmp, y, s[0])
  {
    forall y | y in s[1..]
      ensures !Less(cmp, y, s[0])
    {
      var i :| 0 <= i < |s[1..]| && s[1..][i] == y;
      assert s[i + 1] == y;
    }
  }

  lemma {:induction false} SortedPrepend<T>(cmp: (T, T) -> int, x: T, s: seq<T>)
    requires Sorted(cmp, s) && forall i :: 0 <= i < |s| ==> !Less(cmp, s[i], x)
    ensures Sorted(cmp, [x] + s)
  {
  }

  lemma {:induction false} BehindFirst<T>(cmp: (T, T) -> int, x: T, s: seq<T>, m: multiset<T>)
    requires StrictWeak(cmp, m) && x in m && (forall i :: 0 <= i < |s| ==> s[i] in m)
    requires Sorted(cmp, s) && (s == [] || !Less(cmp, s[0], x))
    ensures Sorted(cmp, [x] + s)
  {
    forall i | 0 <= i < |s|
      ensures !Less(cmp, s[i], x)
    {
      if i > 0 {
        assert !Less(cmp, s[i], s[0]);
      }
    }
    SortedPrepend(cmp, x, s);
  }

  /** There always is a result that slices.SortFunc may give. */
  lemma {:induction false} SortExists<T>(cmp: (T, T) -> int, s: seq<T>) returns (r: seq<T>)
    requires StrictWeak(cmp, multiset(s))
    ensures SortOf(cmp, s, r)
  {
    r := [];
    for i := 0 to |s|
      invariant multiset(r) == multiset(s[..i]) && Sorted(cmp, r)
    {
      assert s[..i + 1] == s[..i] + [s[i]];
      PermutationKeeps(s[..i], r);
      assert forall k :: 0 <= k < |r| ==> r[k] in r && r[k] in s[..i];
      r := PutInOrder(cmp, s[i], r, multiset(s));
    }
    assert s[..|s|] == s;
  }

  function CountBelow<T>(cmp: (T, T) -> int, s: seq<T>, pivot: T): nat {
    if s == [] then 0 else (if Less(cmp, s[0], pivot) then 1 else 0) + CountBelow(cmp, s[1..], pivot)
  }

  lemma {:induction false} CountBelowConcat<T>(cmp: (T, T) -> int, a: seq<T>, b: seq<T>, pivot: T)
    ensures CountBelow(cmp, a + b, pivot) == CountBelow(cmp, a, pivot) + CountBelow(cmp, b, pivot)
  {
    if a == [] {
      assert a + b == b;
    } else {
      assert (a + b)[1..] == a[1..] + b;
      CountBelowConcat(cmp, a[1..], b, pivot);
    }
  }

  lemma {:induction false} CountBelowPermutation<T>(cmp: (T, T) -> int, a: seq<T>, b: seq<T>, pivot: T)
    requires multiset(a) == multiset(b)
    ensures CountBelow(cmp, a, pivot) == CountBelow(cmp, b, pivot)
  {
    if a == [] {
      assert |b| == |multiset(b)| == 0;
    } else {
      var k := FindFirst(a, b);
      assert b == b[..k] + ([b[k]] + b[k + 1..]);
      CountBelowPermutation(cmp, a[1..], b[..k] + b[k + 1..], pivot);
      CountBelowConcat(cmp, b[..k], b[k + 1..], pivot);
      CountBelowConcat(cmp, b[..k], [b[k]] + b[k + 1..], pivot);
      assert ([b[k]] + b[k + 1..])[1..] == b[k + 1..];
    }
  }

  lemma {:induction false} CountBelowAll<T>(cmp: (T, T) -> int, s: seq<T>, pivot: T)
    requires forall x :: x in s ==> Less(cmp, x, pivot)
    ensures CountBelow(cmp, s, pivot) == |s|
  {
    if s != [] {
      CountBelowAll(cmp, s[1..], pivot);
    }
  }

  lemma {:induction false} CountBelowNone<T>(cmp: (T, T) -> int, s: seq<T>, pivot: T)
    requires forall x :: x in s ==> !Less(cmp, x, pivot)
    ensures CountBelow(cmp, s, pivot) == 0
  {
    if s != [] {
      CountBelowNone(cmp, s[1..], pivot);
    }
  }

  lemma {:induction false} CountBelowLength<T>(cmp: (T, T) -> int, s: seq<T>, pivot: T)
    ensures CountBelow(cmp, s, pivot) <= |s|
  {
    if s != [] {
      CountBelowLength(cmp, s[1..], pivot);
    }
  }

  /** The first i elements of an ordered sequence are all that can be below its element i. */
  lemma {:induction false} BelowAtMost<T>(cmp: (T, T) -> int, s: seq<T>, i: nat, m: multiset<T>)
    requires StrictWeak(cmp, m) && (forall k :: 0 <= k < |s| ==> s[k] in m)
    requires Sorted(cmp, s) && i < |s|
    ensures CountBelow(cmp, s, s[i]) <= i
  {
    forall x | x in s[i..]
      ensures !Less(cmp, x, s[i])
    {
      var k :| i <= k < |s| && s[k] == x;
    }
    CountBelowNone(cmp, s[i..], s[i]);
    assert s == s[..i] + s[i..];
    CountBelowConcat(cmp, s[..i], s[i..], s[i]);
    CountBelowLength(cmp, s[..i], s[i]);
  }

  /** If element i of an ordered sequence is below pivot, so are all before it. */
  lemma {:induction false} BelowAtLeast<T>(cmp: (T, T) -> int, s: seq<T>, i: nat, pivot: T, m: multiset<T>)
    requires StrictWeak(cmp, m) && (forall k :: 0 <= k < |s| ==> s[k] in m) && pivot in m
    requires Sorted(cmp, s) && i < |s| && Less(cmp, s[i], pivot)
    ensures CountBelow(cmp, s, pivot) >= i + 1
  {
    forall x | x in s[..i + 1]
      ensures Less(cmp, x, pivot)
    {
      var k :| 0 <= k <= i && s[k] == x;
      assert !Less(cmp, s[i], s[k]);
    }
    CountBelowAll(cmp, s[..i + 1], pivot);
    assert s == s[..i + 1] + s[i + 1..];
    CountBelowConcat(cmp, s[..i + 1], s[i + 1..], pivot);
  }

  lemma {:induction false} NotBefore<T>(cmp: (T, T) -> int, a: seq<T>, b: seq<T>, i: nat)
    requires multiset(a) == multiset(b) && StrictWeak(cmp, multiset(a))
    requires Sorted(cmp, a) && Sorted(cmp, b)
    requires i < |a| && i < |b|
    ensures !Less(cmp, a[i], b[i])
  {
    hide StrictWeak, Sorted, CountBelow;
    var m := multiset(a);
    assert forall k :: 0 <= k < |a| ==> a[k] in m;
    assert forall k :: 0 <= k < |b| ==> b[k] in multiset(b);
    CountBelowPermutation(cmp, a, b, b[i]);
    BelowAtMost(cmp, b, i, m);
    if Less(cmp, a[i], b[i]) {
      BelowAtLeast(cmp, a, i, b[i], m);
    }
  }

  /** Two sorts of the same elements agree position by position up to ties, whatever the algorithm. */
  lemma {:induction false} SortsAgreeUpToTies<T>(cmp: (T, T) -> int, input: seq<T>, a: seq<T>, b: seq<T>)
    requires StrictWeak(cmp, multiset(input))
    requires SortOf(cmp, input, a) && SortOf(cmp, input, b)
    ensures |a| == |b|
    ensures forall i :: 0 <= i < |a| ==> Tied(cmp, a[i], b[i])
  {
    assert |a| == |multiset(a)| == |multiset(b)| == |b|;
    forall i | 0 <= i < |a|
      ensures Tied(cmp, a[i], b[i])
    {
      NotBefore(cmp, a, b, i);
      NotBefore(cmp, b, a, i);
    }
  }

  /** No two positions of s hold tied elements. */
  ghost predicate TieFree<T>(cmp: (T, T) -> int, s: seq<T>) {
    forall i, j :: 0 <= i < j < |s| ==> !Tied(cmp, s[i], s[j])
  }

  /** Without ties the sorted order is unique. */
  lemma {:induction false} SortUnique<T>(cmp: (T, T) -> int, input: seq<T>, a: seq<T>, b: seq<T>)
    requires StrictWeak(cmp, multiset(input)) && TieFree(cmp, input)
    requires SortOf(cmp, input, a) && SortOf(cmp, input, b)
    ensures a == b
  {
    SortsAgreeUpToTies(cmp, input, a, b);
    forall i | 0 <= i < |a|
      ensures a[i] == b[i]
    {
      assert a[i] in multiset(a) && b[i] in multiset(b);
      assert a[i] in input && b[i] in input;
      var p :| 0 <= p < |input| && input[p] == a[i];
      var q :| 0 <= q < |input| && input[q] == b[i];
      assert p == q;
    }
  }
}
