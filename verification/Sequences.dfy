// Sequences without duplicates, and what sorting does to them.
module Sequences {

  ghost predicate NoDuplicates<T>(s: seq<T>) {
    forall i, j :: 0 <= i < j < |s| ==> s[i] != s[j]
  }

  lemma {:induction false} DuplicateCounts<T>(s: seq<T>, i: nat, j: nat)
    requires i < j < |s| && s[i] == s[j]
    ensures multiset(s)[s[i]] >= 2
  {
    assert s == s[..i + 1] + s[i + 1..];
    assert s[i] in multiset(s[..i + 1]) by { assert s[..i + 1][i] == s[i]; }
    assert s[i] in multiset(s[i + 1..]) by { assert s[i + 1..][j - i - 1] == s[j]; }
  }

  lemma {:induction false} SingleCounts<T>(s: seq<T>, x: T)
    requires NoDuplicates(s)
    ensures multiset(s)[x] <= 1
  {
    if s != [] {
      SingleCounts(s[1..], x);
      assert s == [s[0]] + s[1..];
      if s[0] == x {
        assert x !in s[1..];
        assert x !in multiset(s[1..]);
      }
    }
  }

  /** A permutation has the same elements, and duplicates only where the original has them. */
  lemma {:induction false} PermutationKeeps<T>(a: seq<T>, b: seq<T>)
    requires multiset(a) == multiset(b)
    ensures |a| == |b|
    ensures forall x :: x in a <==> x in b
    ensures NoDuplicates(a) ==> NoDuplicates(b)
  {
    assert |a| == |multiset(a)| == |multiset(b)| == |b|;
    forall x | x in a || x in b
      ensures x in a && x in b
    {
      assert x in multiset(a) && x in multiset(b);
    }
    if NoDuplicates(a) {
      forall i, j | 0 <= i < j < |b|
        ensures b[i] != b[j]
      {
        if b[i] == b[j] {
          DuplicateCounts(b, i, j);
          SingleCounts(a, b[i]);
        }
      }
    }
  }

  lemma {:induction false} NoDuplicatesConcat<T>(a: seq<T>, b: seq<T>)
    requires NoDuplicates(a) && NoDuplicates(b) && forall x :: !(x in a && x in b)
    ensures NoDuplicates(a + b)
  {
    forall i, j | 0 <= i < j < |a + b|
      ensures (a + b)[i] != (a + b)[j]
    {
      if i < |a| <= j {
        assert a[i] in a && b[j - |a|] in b;
      }
    }
  }

  lemma {:induction false} TakenOut<T>(s: seq<T>, k: nat)
    requires k < |s|
    ensures multiset(s) == multiset{s[k]} + multiset(s[..k] + s[k + 1..])
  {
    assert s == s[..k] + ([s[k]] + s[k + 1..]);
  }

  /** The first element of a sequence is somewhere in any permutation, and the rests are permutations too. */
  lemma {:induction false} FindFirst<T>(a: seq<T>, b: seq<T>) returns (k: nat)
    requires multiset(a) == multiset(b) && a != []
    ensures k < |b| && b[k] == a[0]
    ensures multiset(a[1..]) == multiset(b[..k] + b[k + 1..])
  {
    assert a[0] in multiset(b);
    k :| 0 <= k < |b| && b[k] == a[0];
    TakenOut(a, 0);
    TakenOut(b, k);
    assert a[..0] + a[1..] == a[1..];
    assert multiset(a) - multiset{a[0]} == multiset(a[1..]);
    assert multiset(b) - multiset{a[0]} == multiset(b[..k] + b[k + 1..]);
  }

  // ----- Lists of values aligned with lists of keys -----

  ghost predicate SameElements<K>(k1: seq<K>, k2: seq<K>) {
    (forall k <- k1 :: k in k2) && forall k <- k2 :: k in k1
  }

  /** The same key carries the same value in both lists. */
  ghost predicate Agree<K, V>(k1: seq<K>, v1: seq<V>, k2: seq<K>, v2: seq<V>)
    requires |k1| == |v1| && |k2| == |v2|
  {
    forall i, j :: 0 <= i < |k1| && 0 <= j < |k2| && k1[i] == k2[j] ==> v1[i] == v2[j]
  }

  lemma {:induction false} WithoutKey<K>(s: seq<K>, k: nat)
    requires k < |s| && NoDuplicates(s)
    ensures NoDuplicates(s[..k] + s[k + 1..])
    ensures forall x :: x in s[..k] + s[k + 1..] <==> x in s && x != s[k]
  {
    var rest := s[..k] + s[k + 1..];
    assert forall i :: 0 <= i < |rest| ==> rest[i] == s[if i < k then i else i + 1];
    forall x | x in s && x != s[k]
      ensures x in rest
    {
      var i :| 0 <= i < |s| && s[i] == x;
      assert rest[if i < k then i else i - 1] == x;
    }
  }

  lemma {:induction false} RestAgrees<K, V>(k1: seq<K>, v1: seq<V>, k2: seq<K>, v2: seq<V>, k: nat)
    requires |k1| == |v1| > 0 && |k2| == |v2| > k && Agree(k1, v1, k2, v2)
    ensures Agree(k1[1..], v1[1..], k2[..k] + k2[k + 1..], v2[..k] + v2[k + 1..])
  {
    var k2', v2' := k2[..k] + k2[k + 1..], v2[..k] + v2[k + 1..];
    forall i, j | 0 <= i < |k1| - 1 && 0 <= j < |k2'| && k1[1..][i] == k2'[j]
      ensures v1[1..][i] == v2'[j]
    {
      var j' := if j < k then j else j + 1;
      assert k1[i + 1] == k2[j'] && v2'[j] == v2[j'];
    }
  }

  lemma {:induction false} PutBack<V>(a: seq<V>, b: seq<V>, k: nat)
    requires a != [] && k < |b| && a[0] == b[k] && multiset(a[1..]) == multiset(b[..k] + b[k + 1..])
    ensures multiset(a) == multiset(b)
  {
    TakenOut(a, 0);
    TakenOut(b, k);
    assert a[..0] + a[1..] == a[1..];
  }

  lemma {:induction false} SameRest<K>(k1: seq<K>, k2: seq<K>) returns (k: nat)
    requires NoDuplicates(k1) && NoDuplicates(k2) && SameElements(k1, k2) && k1 != []
    ensures k < |k2| && k2[k] == k1[0]
    ensures NoDuplicates(k1[1..]) && NoDuplicates(k2[..k] + k2[k + 1..])
    ensures SameElements(k1[1..], k2[..k] + k2[k + 1..])
  {
    assert k1[0] in k2;
    k :| 0 <= k < |k2| && k2[k] == k1[0];
    WithoutKey(k1, 0);
    assert k1[..0] + k1[1..] == k1[1..];
    WithoutKey(k2, k);
    forall x
      ensures x in k1[1..] <==> x in k2[..k] + k2[k + 1..]
    {
      assert x in k1 <==> x in k2;
    }
  }

  lemma {:induction false} EmptyTogether<K>(k1: seq<K>, k2: seq<K>)
    requires SameElements(k1, k2)
    ensures k1 == [] ==> k2 == []
  {
    if k2 != [] {
      assert k2[0] in k2;
    }
  }

  /** Two lists over the same distinct keys that agree on each key are permutations of each other. */
  lemma {:induction false} AlignedPermutation<K, V>(k1: seq<K>, v1: seq<V>, k2: seq<K>, v2: seq<V>)
    requires |k1| == |v1| && |k2| == |v2| && NoDuplicates(k1) && NoDuplicates(k2)
    requires SameElements(k1, k2) && Agree(k1, v1, k2, v2)
    ensures multiset(v1) == multiset(v2)
    decreases |k1|
  {
    hide NoDuplicates;
    if k1 == [] {
      EmptyTogether(k1, k2);
    } else {
      var k := SameRest(k1, k2);
      assert v1[0] == v2[k];
      RestAgrees(k1, v1, k2, v2, k);
      hide Agree, SameElements;
      AlignedPermutation(k1[1..], v1[1..], k2[..k] + k2[k + 1..], v2[..k] + v2[k + 1..]);
      PutBack(v1, v2, k);
    }
  }
}
