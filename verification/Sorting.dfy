/**
 Stable sorting by a caller-supplied order, and the order of strings.

 Every `sort_by` and `Array.sort` of the modelled code is a stable library sort. `SortBy` is its
 meaning: it keeps the elements, puts them in order, and leaves a sorted sequence as it is.
 `SortCanonical` says when the sorted form is canonical: when the order tells different elements
 apart, any two arrangements of the same elements sort to the same sequence.
 */
module Sorting {

  ghost predicate TotalPreorder<T(!new)>(le: (T, T) -> bool) {
    && (forall x, y :: le(x, y) || le(y, x))
    && (forall x, y, z :: le(x, y) && le(y, z) ==> le(x, z))
  }

  ghost predicate Sorted<T>(le: (T, T) -> bool, s: seq<T>) {
    forall i, j | 0 <= i < j < |s| :: le(s[i], s[j])
  }

  /** Elements that the order cannot tell apart are equal. */
  ghost predicate Separates<T>(le: (T, T) -> bool, s: seq<T>) {
    forall x, y | x in s && y in s && le(x, y) && le(y, x) :: x == y
  }

  /** Puts `x` before the first element that is not below it. */
  function Insert<T(!new)>(le: (T, T) -> bool, x: T, s: seq<T>): (r: seq<T>)
    ensures multiset(r) == multiset{x} + multiset(s)
  {
    if s == [] || le(x, s[0]) then [x] + s
    else
      assert s == [s[0]] + s[1..];
      [s[0]] + Insert(le, x, s[1..])
  }

  /** The stable sort of `s`. */
  function SortBy<T(!new)>(le: (T, T) -> bool, s: seq<T>): (r: seq<T>)
    ensures multiset(r) == multiset(s)
  {
    if s == [] then []
    else
      assert s == [s[0]] + s[1..];
      Insert(le, s[0], SortBy(le, s[1..]))
  }

  lemma SameElements<T>(a: seq<T>, b: seq<T>)
    requires multiset(a) == multiset(b)
    ensures forall x :: x in a <==> x in b
    ensures |a| == |b|
  {
    assert forall x :: x in a <==> x in multiset(a);
    assert forall x :: x in b <==> x in multiset(b);
    assert |multiset(a)| == |multiset(b)|;
  }

  function MoveToFront<T>(xs: seq<T>, i: nat): seq<T>
    requires i < |xs|
  {
    [xs[i]] + (xs[..i] + xs[i + 1..])
  }

  lemma MoveToFrontPermutes<T>(xs: seq<T>, i: nat)
    requires i < |xs|
    ensures multiset(MoveToFront(xs, i)) == multiset(xs)
  {
    assert xs == xs[..i] + [xs[i]] + xs[i + 1..];
  }

  lemma {:induction false} InsertSorted<T(!new)>(le: (T, T) -> bool, x: T, s: seq<T>)
    requires TotalPreorder(le) && Sorted(le, s)
    ensures Sorted(le, Insert(le, x, s))
  {
    if s == [] || le(x, s[0]) {
    } else {
      var rest := Insert(le, x, s[1..]);
      InsertSorted(le, x, s[1..]);
      SameElements(rest, [x] + s[1..]);
      assert forall i | 0 <= i < |rest| :: rest[i] in [x] + s[1..];
      assert forall y | y in s[1..] :: le(s[0], y);
    }
  }

  lemma {:induction false} SortBySorted<T(!new)>(le: (T, T) -> bool, s: seq<T>)
    requires TotalPreorder(le)
    ensures Sorted(le, SortBy(le, s))
    ensures |SortBy(le, s)| == |s|
  {
    SameElements(s, SortBy(le, s));
    if s != [] {
      SortBySorted(le, s[1..]);
      InsertSorted(le, s[0], SortBy(le, s[1..]));
    }
  }

  lemma TailMultisets<T>(a: seq<T>, b: seq<T>)
    requires a != [] && b != [] && a[0] == b[0] && multiset(a) == multiset(b)
    ensures multiset(a[1..]) == multiset(b[1..])
  {
    assert a == [a[0]] + a[1..] && b == [b[0]] + b[1..];
    assert multiset(a) - multiset{a[0]} == multiset(a[1..]);
    assert multiset(b) - multiset{b[0]} == multiset(b[1..]);
  }

  /** Two sorted arrangements of the same elements are the same sequence. */
  lemma {:induction false} SortedUnique<T(!new)>(le: (T, T) -> bool, a: seq<T>, b: seq<T>)
    requires TotalPreorder(le)
    requires Sorted(le, a) && Sorted(le, b)
    requires multiset(a) == multiset(b)
    requires Separates(le, a)
    ensures a == b
  {
    SameElements(a, b);
    if a != [] {
      assert a[0] in b && b[0] in a;
      TailMultisets(a, b);
      assert forall x | x in a[1..] :: x in a;
      SortedUnique(le, a[1..], b[1..]);
      assert a == [a[0]] + a[1..] && b == [b[0]] + b[1..];
    }
  }

  /** Sorting forgets the order of its input, where the order separates the elements. */
  lemma SortCanonical<T(!new)>(le: (T, T) -> bool, a: seq<T>, b: seq<T>)
    requires TotalPreorder(le)
    requires multiset(a) == multiset(b)
    requires Separates(le, a)
    ensures SortBy(le, a) == SortBy(le, b)
  {
    SameElements(a, SortBy(le, a));
    SortBySorted(le, a);
    SortBySorted(le, b);
    SortedUnique(le, SortBy(le, a), SortBy(le, b));
  }

  /** What is already sorted stays as it is, ties included. */
  lemma {:induction false} SortOfSorted<T(!new)>(le: (T, T) -> bool, s: seq<T>)
    requires TotalPreorder(le) && Sorted(le, s)
    ensures SortBy(le, s) == s
  {
    if s == [] {
    } else {
      SortOfSorted(le, s[1..]);
      assert s == [s[0]] + s[1..];
    }
  }

  /** The elements that the order ties with `x`. */
  function TiedWith<T(!new)>(le: (T, T) -> bool, x: T, s: seq<T>): seq<T> {
    if s == [] then [] else (if le(x, s[0]) && le(s[0], x) then [s[0]] else []) + TiedWith(le, x, s[1..])
  }

  lemma TiedFirst<T(!new)>(le: (T, T) -> bool, x: T, y: T, s: seq<T>)
    ensures TiedWith(le, x, [y] + s) == (if le(x, y) && le(y, x) then [y] else []) + TiedWith(le, x, s)
  {
    assert ([y] + s)[1..] == s;
  }

  lemma {:induction false} InsertStable<T(!new)>(le: (T, T) -> bool, x: T, y: T, s: seq<T>)
    requires TotalPreorder(le)
    ensures TiedWith(le, x, Insert(le, y, s)) == TiedWith(le, x, [y] + s)
  {
    TiedFirst(le, x, y, s);
    if s != [] {
      assert le(y, x) && le(x, s[0]) ==> le(y, s[0]);
      if !le(y, s[0]) {
        InsertStable(le, x, y, s[1..]);
        TiedFirst(le, x, s[0], Insert(le, y, s[1..]));
        TiedFirst(le, x, y, s[1..]);
      }
    }
  }

  /** Sorting keeps the order of the elements that tie. */
  lemma {:induction false} SortStable<T(!new)>(le: (T, T) -> bool, x: T, s: seq<T>)
    requires TotalPreorder(le)
    ensures TiedWith(le, x, SortBy(le, s)) == TiedWith(le, x, s)
  {
    if s != [] {
      var sorted := SortBy(le, s[1..]);
      SortStable(le, x, s[1..]);
      InsertStable(le, x, s[0], sorted);
      assert ([s[0]] + sorted)[1..] == sorted;
    }
  }

  // ---------------------------------------------------------------------------------------------
  // The order of strings: code point by code point, a proper prefix first.
  // ---------------------------------------------------------------------------------------------

  predicate StringLeq(a: string, b: string) {
    a == [] || (b != [] && (a[0] < b[0] || (a[0] == b[0] && StringLeq(a[1..], b[1..]))))
  }

  /** Tuples of strings, compared component by component. */
  predicate TupleLeq(a: seq<string>, b: seq<string>) {
    a == [] || (b != [] && if a[0] == b[0] then TupleLeq(a[1..], b[1..]) else StringLeq(a[0], b[0]))
  }

  lemma StringLeqTotal(a: string, b: string)
    ensures StringLeq(a, b) || StringLeq(b, a)
  {
  }

  lemma {:induction false} StringLeqTransitive(a: string, b: string, c: string)
    requires StringLeq(a, b) && StringLeq(b, c)
    ensures StringLeq(a, c)
  {
    if a != [] && a[0] == b[0] == c[0] {
      StringLeqTransitive(a[1..], b[1..], c[1..]);
    }
  }

  lemma {:induction false} StringLeqAntisymmetric(a: string, b: string)
    requires StringLeq(a, b) && StringLeq(b, a)
    ensures a == b
  {
    if a != [] {
      StringLeqAntisymmetric(a[1..], b[1..]);
      assert a == [a[0]] + a[1..] && b == [b[0]] + b[1..];
    }
  }

  lemma {:induction false} TupleLeqTotal(a: seq<string>, b: seq<string>)
    ensures TupleLeq(a, b) || TupleLeq(b, a)
  {
    if a != [] && b != [] {
      if a[0] == b[0] {
        TupleLeqTotal(a[1..], b[1..]);
      } else {
        StringLeqTotal(a[0], b[0]);
      }
    }
  }

  lemma {:induction false} TupleLeqTransitive(a: seq<string>, b: seq<string>, c: seq<string>)
    requires TupleLeq(a, b) && TupleLeq(b, c)
    ensures TupleLeq(a, c)
  {
    if a != [] {
      if a[0] == b[0] == c[0] {
        TupleLeqTransitive(a[1..], b[1..], c[1..]);
      } else if a[0] != b[0] && b[0] != c[0] {
        StringLeqTransitive(a[0], b[0], c[0]);
        if a[0] == c[0] {
          StringLeqAntisymmetric(a[0], b[0]);
        }
      }
    }
  }

  lemma {:induction false} TupleLeqAntisymmetric(a: seq<string>, b: seq<string>)
    requires TupleLeq(a, b) && TupleLeq(b, a)
    ensures a == b
  {
    if a != [] {
      if a[0] != b[0] {
        StringLeqAntisymmetric(a[0], b[0]);
      }
      TupleLeqAntisymmetric(a[1..], b[1..]);
      assert a == [a[0]] + a[1..] && b == [b[0]] + b[1..];
    }
  }

  /** The texts agree up to position `n`, where `a` ends or has the lesser character. */
  predicate PrecedesAt(a: string, b: string, n: nat) {
    && n <= |a| && n < |b|
    && (forall k | 0 <= k < n :: a[k] == b[k])
    && (n < |a| ==> a[n] < b[n])
  }

  /** `a` comes first in a dictionary. */
  ghost predicate Precedes(a: string, b: string) {
    exists n: nat :: PrecedesAt(a, b, n)
  }

  lemma PrecedesLater(a: string, b: string)
    requires a != [] && b != [] && a[0] == b[0]
    ensures Precedes(a, b) <==> Precedes(a[1..], b[1..])
  {
    if n: nat :| PrecedesAt(a, b, n) {
      assert PrecedesAt(a[1..], b[1..], n - 1);
    }
    if n: nat :| PrecedesAt(a[1..], b[1..], n) {
      forall k | 0 <= k < n + 1
        ensures a[k] == b[k]
      {
        assert k > 0 ==> a[k] == a[1..][k - 1] && b[k] == b[1..][k - 1];
      }
      assert PrecedesAt(a, b, n + 1);
    }
  }

  /** The order of strings is that of a dictionary. */
  lemma {:induction false} StringLeqExactly(a: string, b: string)
    ensures StringLeq(a, b) <==> a == b || Precedes(a, b)
    ensures a == b ==> !Precedes(a, b)
  {
    if a == [] || b == [] || a[0] != b[0] {
      assert b != [] && StringLeq(a, b) ==> PrecedesAt(a, b, 0);
    } else {
      StringLeqExactly(a[1..], b[1..]);
      PrecedesLater(a, b);
      assert a == [a[0]] + a[1..] && b == [b[0]] + b[1..];
    }
  }

  /** Tuples are ordered by the first component in which they differ. */
  lemma TupleLeqExactly(a: seq<string>, b: seq<string>)
    requires a != [] && b != []
    ensures TupleLeq(a, b) <==> Precedes(a[0], b[0]) || (a[0] == b[0] && TupleLeq(a[1..], b[1..]))
  {
    StringLeqExactly(a[0], b[0]);
  }
}
