/**
 * Python's ordering of strings (code point by code point, a proper prefix
 * first), `sorted` on a list of strings, and `sorted(list(s))` on a set:
 * the form in which every hex set of the project is written out.
 */
module Order {

  /** `a < b` on Python strings. */
  predicate Less(a: string, b: string)
    decreases |a|
  {
    if a == [] then b != []
    else if b == [] then false
    else if a[0] != b[0] then a[0] < b[0]
    else Less(a[1..], b[1..])
  }

  predicate LessEq(a: string, b: string) {
    a == b || Less(a, b)
  }

  lemma {:induction false} LessIrreflexive(a: string)
    ensures !Less(a, a)
    decreases |a|
  {
    if a != [] {
      LessIrreflexive(a[1..]);
    }
  }

  lemma {:induction false} LessAsymmetric(a: string, b: string)
    requires Less(a, b)
    ensures !Less(b, a)
    decreases |a|
  {
    if a != [] && b != [] && a[0] == b[0] {
      LessAsymmetric(a[1..], b[1..]);
    }
  }

  lemma {:induction false} LessTransitive(a: string, b: string, c: string)
    requires Less(a, b) && Less(b, c)
    ensures Less(a, c)
    decreases |a|
  {
    if a != [] && a[0] == b[0] && b[0] == c[0] {
      LessTransitive(a[1..], b[1..], c[1..]);
    }
  }

  lemma {:induction false} LessTotal(a: string, b: string)
    ensures a == b || Less(a, b) || Less(b, a)
    decreases |a|
  {
    if a != [] && b != [] && a[0] == b[0] {
      LessTotal(a[1..], b[1..]);
      if a[1..] == b[1..] {
        assert a == [a[0]] + a[1..] && b == [b[0]] + b[1..];
      }
    }
  }

  lemma LessEqTransitive(a: string, b: string, c: string)
    requires LessEq(a, b) && LessEq(b, c)
    ensures LessEq(a, c)
  {
    if a != b && b != c {
      LessTransitive(a, b, c);
    }
  }

  predicate NonDecreasing(s: seq<string>) {
    forall i, j :: 0 <= i < j < |s| ==> LessEq(s[i], s[j])
  }

  predicate StrictlyIncreasing(s: seq<string>) {
    forall i, j :: 0 <= i < j < |s| ==> Less(s[i], s[j])
  }

  predicate Distinct<T(==)>(s: seq<T>) {
    forall i, j :: 0 <= i < j < |s| ==> s[i] != s[j]
  }

  /** Inserting into a sorted list keeps it sorted and adds exactly one element. */
  function Insert(x: string, xs: seq<string>): (r: seq<string>)
    requires NonDecreasing(xs)
    ensures NonDecreasing(r)
    ensures multiset(r) == multiset(xs) + multiset{x}
  {
    if xs == [] then [x]
    else if LessEq(x, xs[0]) then
      FirstBelowAll(x, xs);
      ConsSorted(x, xs);
      [x] + xs
    else
      SortedTail(xs);
      var rest := Insert(x, xs[1..]);
      LessTotal(x, xs[0]);
      BelowPermutation(xs[0], x, xs[1..], rest);
      ConsSorted(xs[0], rest);
      assert xs == [xs[0]] + xs[1..];
      [xs[0]] + rest
  }

  /** An element at most the head of a sorted list is at most each of its elements. */
  lemma FirstBelowAll(x: string, xs: seq<string>)
    requires NonDecreasing(xs) && xs != [] && LessEq(x, xs[0])
    ensures forall j :: 0 <= j < |xs| ==> LessEq(x, xs[j])
  {
    forall j | 0 <= j < |xs| ensures LessEq(x, xs[j]) {
      LessEqTransitive(x, xs[0], xs[j]);
    }
  }

  /** The tail of a sorted list is sorted and bounded below by the head. */
  lemma SortedTail(xs: seq<string>)
    requires NonDecreasing(xs) && xs != []
    ensures NonDecreasing(xs[1..])
    ensures forall j :: 0 <= j < |xs[1..]| ==> LessEq(xs[0], xs[1..][j])
  {
    forall i, j | 0 <= i < j < |xs[1..]| ensures LessEq(xs[1..][i], xs[1..][j]) {
      assert xs[1..][i] == xs[i + 1] && xs[1..][j] == xs[j + 1];
    }
    forall j | 0 <= j < |xs[1..]| ensures LessEq(xs[0], xs[1..][j]) {
      assert xs[1..][j] == xs[j + 1];
    }
  }

  /** A lower bound of `tail` and of `x` bounds every element of a permutation of `tail + [x]`. */
  lemma BelowPermutation(b: string, x: string, tail: seq<string>, rest: seq<string>)
    requires LessEq(b, x)
    requires forall j :: 0 <= j < |tail| ==> LessEq(b, tail[j])
    requires multiset(rest) == multiset(tail) + multiset{x}
    ensures forall j :: 0 <= j < |rest| ==> LessEq(b, rest[j])
  {
    forall j | 0 <= j < |rest| ensures LessEq(b, rest[j]) {
      assert rest[j] in multiset(rest);
      if rest[j] != x {
        assert rest[j] in multiset(tail);
        var k :| 0 <= k < |tail| && tail[k] == rest[j];
      }
    }
  }

  /** A sorted list stays sorted under a new head at most each of its elements. */
  lemma ConsSorted(y: string, ys: seq<string>)
    requires NonDecreasing(ys)
    requires forall j :: 0 <= j < |ys| ==> LessEq(y, ys[j])
    ensures NonDecreasing([y] + ys)
  {
    var zs := [y] + ys;
    forall i, j | 0 <= i < j < |zs| ensures LessEq(zs[i], zs[j]) {
      assert zs[j] == ys[j - 1];
      if i > 0 {
        assert zs[i] == ys[i - 1];
      }
    }
  }

  /** Python's `sorted` on a list of strings: an ordered permutation. */
  function Sort(xs: seq<string>): (r: seq<string>)
    ensures NonDecreasing(r)
    ensures multiset(r) == multiset(xs)
  {
    if xs == [] then []
    else
      assert xs == [xs[0]] + xs[1..];
      Insert(xs[0], Sort(xs[1..]))
  }

  /** A sorted list without repeats is strictly increasing. */
  lemma SortedDistinctIncreasing(s: seq<string>)
    requires NonDecreasing(s) && Distinct(s)
    ensures StrictlyIncreasing(s)
  {
  }

  /** A permutation of a list without repeats has no repeats. */
  lemma {:induction false} PermutationDistinct(a: seq<string>, b: seq<string>)
    requires multiset(a) == multiset(b) && Distinct(a)
    ensures Distinct(b)
  {
    forall i, j | 0 <= i < j < |b| ensures b[i] != b[j] {
      if b[i] == b[j] {
        var x := b[i];
        assert multiset(b)[x] >= 2 by {
          assert b == b[..i] + [x] + b[i + 1..j] + [x] + b[j + 1..];
          assert multiset(b) == multiset(b[..i]) + multiset{x} + multiset(b[i + 1..j])
            + multiset{x} + multiset(b[j + 1..]);
        }
        DistinctCountOne(a, x);
        assert false;
      }
    }
  }

  lemma {:induction false} DistinctCountOne(a: seq<string>, x: string)
    requires Distinct(a)
    ensures multiset(a)[x] <= 1
  {
    if a != [] {
      assert a == [a[0]] + a[1..];
      DistinctCountOne(a[1..], x);
      if a[0] == x {
        assert x !in a[1..];
      }
    }
  }

  /**
   * Two strictly increasing lists with the same elements are equal: the
   * sorted listing of a set is unique, so writing the same set twice gives
   * the same list.
   */
  lemma {:induction false} IncreasingUnique(a: seq<string>, b: seq<string>)
    requires StrictlyIncreasing(a) && StrictlyIncreasing(b)
    requires forall x :: x in a <==> x in b
    ensures a == b
  {
    SameElementsEmpty(a, b);
    if a != [] && b != [] {
      if a[0] != b[0] {
        assert a[0] in b;
        var k :| 0 <= k < |b| && b[k] == a[0];
        assert b[0] in a;
        var m :| 0 <= m < |a| && a[m] == b[0];
        assert k > 0 && m > 0;
        LessAsymmetric(b[0], a[0]);
        assert false;
      }
      forall x ensures x in a[1..] <==> x in b[1..] {
        if x in a[1..] {
          var i :| 1 <= i < |a| && a[i] == x;
          LessIrreflexive(x);
          assert x != a[0];
          assert x in b;
        }
        if x in b[1..] {
          var i :| 1 <= i < |b| && b[i] == x;
          LessIrreflexive(x);
          assert x != b[0];
          assert x in a;
        }
      }
      IncreasingUnique(a[1..], b[1..]);
      assert a == [a[0]] + a[1..] && b == [b[0]] + b[1..];
    }
  }

  lemma SameElementsEmpty(a: seq<string>, b: seq<string>)
    requires forall x :: x in a <==> x in b
    ensures a == [] <==> b == []
  {
    if a != [] {
      assert a[0] in b;
    }
    if b != [] {
      assert b[0] in a;
    }
  }

  /** `list(s)`: the elements of a set, each once, in an order the runtime picks. */
  method ListOfSet(s: set<string>) returns (xs: seq<string>)
    ensures forall x :: x in xs <==> x in s
    ensures Distinct(xs)
    ensures |xs| == |s|
  {
    xs := [];
    var rest := s;
    while rest != {}
      invariant rest <= s
      invariant forall x :: x in xs <==> x in s && x !in rest
      invariant Distinct(xs)
      invariant |rest| + |xs| == |s|
      decreases |rest|
    {
      var x :| x in rest;
      xs := xs + [x];
      rest := rest - {x};
    }
  }

  /** `sorted(list(s))`: the set's elements in strictly increasing order. */
  method SortedList(s: set<string>) returns (r: seq<string>)
    ensures StrictlyIncreasing(r)
    ensures forall x :: x in r <==> x in s
    ensures |r| == |s|
  {
    var xs := ListOfSet(s);
    r := Sort(xs);
    PermutationDistinct(xs, r);
    SortedDistinctIncreasing(r);
    assert |r| == |multiset(r)| == |multiset(xs)| == |xs|;
    forall x ensures x in r <==> x in s {
      assert x in r <==> x in multiset(r);
      assert x in xs <==> x in multiset(xs);
    }
  }

  /** The elements of a list as a set (`set(lst)`). */
  function Elements(xs: seq<string>): (r: set<string>)
    ensures forall x :: x in r <==> x in xs
  {
    set x | x in xs
  }

  /** `len(set(lst)) <= len(lst)`, with equality for a list without duplicates. */
  lemma {:induction false} ElementsSize(xs: seq<string>)
    ensures |Elements(xs)| <= |xs|
    ensures Distinct(xs) ==> |Elements(xs)| == |xs|
  {
    if xs != [] {
      var t := xs[1..];
      ElementsSize(t);
      assert forall x :: x in xs <==> x == xs[0] || x in t by {
        assert xs == [xs[0]] + t;
      }
      assert Elements(xs) == Elements(t) + {xs[0]};
      if Distinct(xs) {
        assert xs[0] !in t by {
          forall j | 0 <= j < |t| ensures t[j] != xs[0] {
            assert t[j] == xs[j + 1];
          }
        }
        assert Distinct(t) by {
          forall i, j | 0 <= i < j < |t| ensures t[i] != t[j] {
            assert t[i] == xs[i + 1] && t[j] == xs[j + 1];
          }
        }
      }
    }
  }
}
