/**
 Sequences to which an element is appended only when its key is new.

 Snapshots, evidence graphs and ledgers all keep such a sequence: the first element with a key
 wins and later ones are ignored. The lemmas say what a batch of additions leaves behind, that
 batches may be split, and when the order within a batch does not matter: when the elements whose
 keys are new to the sequence agree wherever their keys do.
 */
module Keyed {

  predicate HasKey<T, K(==)>(key: T -> K, s: seq<T>, k: K) {
    exists i :: 0 <= i < |s| && key(s[i]) == k
  }

  ghost predicate DistinctKeys<T, K>(key: T -> K, s: seq<T>) {
    forall i, j | 0 <= i < j < |s| :: key(s[i]) != key(s[j])
  }

  ghost predicate Distinct<T>(s: seq<T>) {
    forall i, j | 0 <= i < j < |s| :: s[i] != s[j]
  }

  function AddNew<T, K(==)>(key: T -> K, s: seq<T>, x: T): seq<T> {
    if HasKey(key, s, key(x)) then s else s + [x]
  }

  function AddAllNew<T, K(==)>(key: T -> K, s: seq<T>, xs: seq<T>): seq<T>
    decreases |xs|
  {
    if xs == [] then s else AddAllNew(key, AddNew(key, s, xs[0]), xs[1..])
  }

  /** `xs[i]` is the first of `xs` with its key, and that key is not in `s`. */
  ghost predicate IsFirstNew<T, K>(key: T -> K, s: seq<T>, xs: seq<T>, i: int) {
    && 0 <= i < |xs|
    && !HasKey(key, s, key(xs[i]))
    && !HasKey(key, xs[..i], key(xs[i]))
  }

  /** Among the elements whose key is not in `s`, equal keys mean equal elements. */
  ghost predicate Consistent<T, K>(key: T -> K, s: seq<T>, xs: seq<T>) {
    forall x, y | x in xs && y in xs && key(x) == key(y) && !HasKey(key, s, key(x)) :: x == y
  }

  lemma {:induction false} AddAllAppend<T, K>(key: T -> K, s: seq<T>, xs: seq<T>, ys: seq<T>)
    ensures AddAllNew(key, s, xs + ys) == AddAllNew(key, AddAllNew(key, s, xs), ys)
    decreases |xs|
  {
    if xs == [] {
      assert xs + ys == ys;
    } else {
      assert (xs + ys)[1..] == xs[1..] + ys;
      AddAllAppend(key, AddNew(key, s, xs[0]), xs[1..], ys);
    }
  }

  /** One more element of `xs` is one more `AddNew`. */
  lemma AddAllStep<T, K>(key: T -> K, s: seq<T>, xs: seq<T>, i: nat)
    requires i < |xs|
    ensures AddAllNew(key, s, xs[..i + 1]) == AddNew(key, AddAllNew(key, s, xs[..i]), xs[i])
  {
    assert xs[..i + 1] == xs[..i] + [xs[i]];
    AddAllAppend(key, s, xs[..i], [xs[i]]);
    assert [xs[i]][1..] == [];
  }

  lemma HasKeyAppend<T, K>(key: T -> K, s: seq<T>, t: seq<T>, k: K)
    ensures HasKey(key, s + t, k) <==> HasKey(key, s, k) || HasKey(key, t, k)
  {
    if HasKey(key, s, k) {
      var i :| 0 <= i < |s| && key(s[i]) == k;
      assert key((s + t)[i]) == k;
    }
    if HasKey(key, t, k) {
      var i :| 0 <= i < |t| && key(t[i]) == k;
      assert key((s + t)[|s| + i]) == k;
    }
  }

  /** Old elements stay in front, keys stay distinct, and exactly the keys of `xs` are added. */
  lemma {:induction false} AddAllKeys<T, K>(key: T -> K, s: seq<T>, xs: seq<T>)
    ensures s <= AddAllNew(key, s, xs)
    ensures DistinctKeys(key, s) ==> DistinctKeys(key, AddAllNew(key, s, xs))
    ensures forall k :: HasKey(key, AddAllNew(key, s, xs), k) <==> HasKey(key, s, k) || HasKey(key, xs, k)
    decreases |xs|
  {
    if xs == [] {
    } else {
      var t := AddNew(key, s, xs[0]);
      AddAllKeys(key, t, xs[1..]);
      forall k
        ensures HasKey(key, AddAllNew(key, s, xs), k) <==> HasKey(key, s, k) || HasKey(key, xs, k)
      {
        assert xs == [xs[0]] + xs[1..];
        HasKeyAppend(key, [xs[0]], xs[1..], k);
        HasKeyAppend(key, s, [xs[0]], k);
        assert HasKey(key, [xs[0]], k) <==> key([xs[0]][0]) == k;
      }
    }
  }

  /** Nothing is added when every key is already there. */
  lemma {:induction false} AddAllNothing<T, K>(key: T -> K, s: seq<T>, xs: seq<T>)
    requires forall x | x in xs :: HasKey(key, s, key(x))
    ensures AddAllNew(key, s, xs) == s
  {
    if xs != [] {
      AddAllNothing(key, s, xs[1..]);
    }
  }

  /** Everything is added when all keys are new and distinct. */
  lemma {:induction false} AddAllEverything<T, K>(key: T -> K, s: seq<T>, xs: seq<T>)
    requires DistinctKeys(key, s + xs)
    ensures AddAllNew(key, s, xs) == s + xs
    decreases |xs|
  {
    if xs == [] {
      assert s + xs == s;
    } else {
      forall i | 0 <= i < |s|
        ensures key(s[i]) != key(xs[0])
      {
        assert (s + xs)[i] == s[i] && (s + xs)[|s|] == xs[0];
      }
      assert s + [xs[0]] + xs[1..] == s + xs;
      AddAllEverything(key, s + [xs[0]], xs[1..]);
    }
  }

  /** The members of the result: those of `s`, and the first new element for each key of `xs`. */
  lemma {:induction false} AddAllMembers<T, K>(key: T -> K, s: seq<T>, xs: seq<T>, z: T)
    ensures z in AddAllNew(key, s, xs) <==> z in s || exists i :: IsFirstNew(key, s, xs, i) && xs[i] == z
    decreases |xs|
  {
    if xs == [] {
    } else {
      var n := |xs| - 1;
      var front := xs[..n];
      AddAllStep(key, s, xs, n);
      assert xs[..n + 1] == xs;
      AddAllMembers(key, s, front, z);
      AddAllKeys(key, s, front);
      forall i | 0 <= i < n
        ensures IsFirstNew(key, s, xs, i) <==> IsFirstNew(key, s, front, i)
      {
        assert front[i] == xs[i] && front[..i] == xs[..i];
      }
      assert IsFirstNew(key, s, xs, n) <==> !HasKey(key, AddAllNew(key, s, front), key(xs[n]));
    }
  }

  lemma {:induction false} DistinctOnce<T, K>(key: T -> K, s: seq<T>, z: T)
    requires DistinctKeys(key, s)
    ensures multiset(s)[z] == if z in s then 1 else 0
  {
    if s != [] {
      assert s == [s[0]] + s[1..];
      DistinctOnce(key, s[1..], z);
      assert forall i | 1 <= i < |s| :: key(s[i]) != key(s[0]);
      assert s[0] !in s[1..];
    }
  }

  /** Without repeated keys, having the same members is being the same multiset. */
  lemma {:induction false} DistinctSameMembers<T, K>(key: T -> K, a: seq<T>, b: seq<T>)
    requires DistinctKeys(key, a) && DistinctKeys(key, b)
    requires forall z :: z in a <==> z in b
    ensures multiset(a) == multiset(b)
  {
    forall z
      ensures multiset(a)[z] == multiset(b)[z]
    {
      DistinctOnce(key, a, z);
      DistinctOnce(key, b, z);
    }
  }

  lemma RepeatedTwice<T>(s: seq<T>, i: nat, j: nat)
    requires i < j < |s|
    ensures s[i] == s[j] ==> multiset(s)[s[i]] >= 2
  {
    assert s == s[..i] + [s[i]] + s[i + 1..j] + [s[j]] + s[j + 1..];
  }

  lemma DistinctPermuted<T, K>(key: T -> K, a: seq<T>, b: seq<T>)
    requires DistinctKeys(key, a)
    requires multiset(a) == multiset(b)
    ensures DistinctKeys(key, b)
    ensures forall k :: HasKey(key, a, k) <==> HasKey(key, b, k)
  {
    assert forall z :: z in a <==> z in multiset(a);
    assert forall z :: z in b <==> z in multiset(b);
    forall i, j | 0 <= i < j < |b|
      ensures key(b[i]) != key(b[j])
    {
      assert b[i] in a && b[j] in a;
      DistinctOnce(key, a, b[i]);
      RepeatedTwice(b, i, j);
    }
    forall k
      ensures HasKey(key, a, k) <==> HasKey(key, b, k)
    {
      if HasKey(key, a, k) {
        var i :| 0 <= i < |a| && key(a[i]) == k;
        assert a[i] in b;
      }
      if HasKey(key, b, k) {
        var i :| 0 <= i < |b| && key(b[i]) == k;
        assert b[i] in a;
      }
    }
  }

  lemma {:induction false} FirstIndex<T, K>(key: T -> K, xs: seq<T>, k: K) returns (i: nat)
    requires exists x :: x in xs && key(x) == k
    ensures i < |xs| && key(xs[i]) == k && !HasKey(key, xs[..i], k)
  {
    i := 0;
    while key(xs[i]) != k
      invariant i < |xs|
      invariant forall j | 0 <= j < i :: key(xs[j]) != k
      decreases |xs| - i
    {
      assert exists x :: x in xs && key(x) == k;
      i := i + 1;
    }
  }

  lemma ConsistentMembers<T(!new), K>(key: T -> K, s: seq<T>, xs: seq<T>, z: T)
    requires Consistent(key, s, xs)
    ensures z in AddAllNew(key, s, xs) <==> z in s || (z in xs && !HasKey(key, s, key(z)))
  {
    AddAllMembers(key, s, xs, z);
    if z in xs && !HasKey(key, s, key(z)) {
      var i := FirstIndex(key, xs, key(z));
      assert xs[i] == z;
      assert IsFirstNew(key, s, xs, i);
    }
  }

  /**
   Confluence of first-wins insertion: when the new elements are consistent, what is stored does
   not depend on the order, or the number of repetitions, of the inputs.
   */
  lemma {:induction false} AddAllConfluent<T(!new), K>(key: T -> K, s: seq<T>, xs: seq<T>, ys: seq<T>)
    requires DistinctKeys(key, s)
    requires Consistent(key, s, xs)
    requires forall z :: z in xs <==> z in ys
    ensures multiset(AddAllNew(key, s, xs)) == multiset(AddAllNew(key, s, ys))
  {
    AddAllKeys(key, s, xs);
    AddAllKeys(key, s, ys);
    assert Consistent(key, s, ys);
    forall z
      ensures z in AddAllNew(key, s, xs) <==> z in AddAllNew(key, s, ys)
    {
      ConsistentMembers(key, s, xs, z);
      ConsistentMembers(key, s, ys, z);
    }
    DistinctSameMembers(key, AddAllNew(key, s, xs), AddAllNew(key, s, ys));
  }

  /** An element that comes first is stored for its key, if the key is new. */
  lemma FrontKept<T, K>(key: T -> K, s: seq<T>, x: T, rest: seq<T>)
    requires DistinctKeys(key, s) && !HasKey(key, s, key(x))
    ensures x in AddAllNew(key, s, [x] + rest)
    ensures forall y | y in AddAllNew(key, s, [x] + rest) && key(y) == key(x) :: y == x
  {
    var xs := [x] + rest;
    AddAllKeys(key, s, xs);
    AddAllMembers(key, s, xs, x);
    assert IsFirstNew(key, s, xs, 0);
  }
}
