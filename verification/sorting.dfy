/** The two orderings `sorted(...)` produces in the graph builder, and the
    position index a dict comprehension over `enumerate` builds. */
module Sorting {
  import opened Strings

  /** Non-decreasing in Python's string order (duplicates allowed). */
  ghost predicate Sorted(s: seq<string>)
  {
    forall i, j :: 0 <= i < j < |s| ==> !Less(s[j], s[i])
  }

  /** Increasing in Python's string order, hence duplicate-free. */
  ghost predicate StrictlySorted(s: seq<string>)
  {
    forall i, j :: 0 <= i < j < |s| ==> Less(s[i], s[j])
  }

  lemma StrictlySortedIsDuplicateFree(s: seq<string>)
    requires StrictlySorted(s)
    ensures forall i, j :: 0 <= i < j < |s| ==> s[i] != s[j]
  {
    forall i, j | 0 <= i < j < |s|
      ensures s[i] != s[j]
    {
      if s[i] == s[j] {
        LessIrreflexive(s[i]);
      }
    }
  }

  /** `!Less(a, b) && !Less(b, c)` chains like `b <= a` and `c <= b`. */
  lemma NotLessTransitive(a: string, b: string, c: string)
    requires !Less(a, b) && !Less(b, c)
    ensures !Less(a, c)
  {
    if Less(a, c) {
      if a != b && b != c {
        LessTotal(a, b);
        LessTotal(b, c);
        LessTransitive(c, b, a);
        LessAsymmetric(c, a);
      }
    }
  }

  /** Inserts `x` into a sorted sequence, keeping duplicates. */
  function Insert(x: string, s: seq<string>): (r: seq<string>)
    requires Sorted(s)
    ensures Sorted(r)
    ensures multiset(r) == multiset(s) + multiset{x}
  {
    if |s| == 0 then [x]
    else if Less(s[0], x) then
      var t := Insert(x, s[1..]);
      assert s == [s[0]] + s[1..];
      assert forall k :: 0 <= k < |t| ==> t[k] in multiset(s[1..]) + multiset{x};
      InsertHeadSorted(s[0], t, s[1..], x);
      [s[0]] + t
    else
      assert forall j :: 0 <= j < |s| ==> !Less(s[j], x) by {
        forall j | 0 <= j < |s|
          ensures !Less(s[j], x)
        {
          if j > 0 {
            NotLessTransitive(s[j], s[0], x);
          }
        }
      }
      [x] + s
  }

  lemma InsertHeadSorted(h: string, t: seq<string>, rest: seq<string>, x: string)
    requires Sorted(t) && Sorted([h] + rest) && Less(h, x)
    requires forall k :: 0 <= k < |t| ==> t[k] in multiset(rest) + multiset{x}
    ensures Sorted([h] + t)
  {
    forall k | 0 <= k < |t|
      ensures !Less(t[k], h)
    {
      if t[k] == x {
        LessAsymmetric(h, x);
      } else {
        assert t[k] in multiset(rest);
        var j :| 0 <= j < |rest| && rest[j] == t[k];
        assert ([h] + rest)[j + 1] == t[k] && ([h] + rest)[0] == h;
      }
    }
  }

  /** Python's `sorted(xs)`: a sorted permutation of `xs`. */
  function SortStrings(xs: seq<string>): (r: seq<string>)
    ensures Sorted(r)
    ensures multiset(r) == multiset(xs)
    ensures |r| == |xs|
  {
    if |xs| == 0 then []
    else
      assert xs == xs[..|xs| - 1] + [xs[|xs| - 1]];
      var r := Insert(xs[|xs| - 1], SortStrings(xs[..|xs| - 1]));
      assert |r| == |multiset(r)|;
      r
  }

  /** Inserts `x` into a strictly sorted sequence unless it is already there. */
  function InsertUnique(x: string, s: seq<string>): (r: seq<string>)
    requires StrictlySorted(s)
    ensures StrictlySorted(r)
    ensures forall y :: y in r <==> y == x || y in s
  {
    if |s| == 0 then [x]
    else if s[0] == x then s
    else if Less(s[0], x) then
      var t := InsertUnique(x, s[1..]);
      assert forall k :: 0 <= k < |t| ==> Less(s[0], t[k]) by {
        forall k | 0 <= k < |t|
          ensures Less(s[0], t[k])
        {
          assert t[k] in t;
          if t[k] != x {
            assert t[k] in s[1..];
            var j :| 0 <= j < |s| - 1 && s[1..][j] == t[k];
            assert s[j + 1] == t[k];
          }
        }
      }
      [s[0]] + t
    else
      LessTotal(x, s[0]);
      assert forall j :: 0 <= j < |s| ==> Less(x, s[j]) by {
        forall j | 0 <= j < |s|
          ensures Less(x, s[j])
        {
          if j > 0 {
            LessTransitive(x, s[0], s[j]);
          }
        }
      }
      [x] + s
  }

  /** Python's `sorted(set(xs))`: the distinct elements of `xs` in increasing order. */
  function SortedUnique(xs: seq<string>): (r: seq<string>)
    ensures StrictlySorted(r)
    ensures forall y :: y in r <==> y in xs
  {
    if |xs| == 0 then []
    else
      assert xs == xs[..|xs| - 1] + [xs[|xs| - 1]];
      InsertUnique(xs[|xs| - 1], SortedUnique(xs[..|xs| - 1]))
  }

  /** A strictly sorted sequence is determined by its elements: `sorted(set(...))`
      does not depend on the order in which the elements were collected. */
  lemma {:induction false} StrictlySortedUnique(a: seq<string>, b: seq<string>)
    requires StrictlySorted(a) && StrictlySorted(b)
    requires forall y :: y in a <==> y in b
    ensures a == b
  {
    assert |a| == 0 <==> |b| == 0 by {
      if |a| > 0 { assert a[0] in b; }
      if |b| > 0 { assert b[0] in a; }
    }
    if |a| > 0 {
      assert a[0] in b;
      assert b[0] in a;
      if a[0] != b[0] {
        var i :| 0 <= i < |b| && b[i] == a[0];
        var j :| 0 <= j < |a| && a[j] == b[0];
        assert Less(b[0], a[0]) && Less(a[0], b[0]);
        LessAsymmetric(a[0], b[0]);
      }
      assert a == [a[0]] + a[1..] && b == [b[0]] + b[1..];
      forall y
        ensures y in a[1..] <==> y in b[1..]
      {
        if y in a[1..] {
          var k :| 0 <= k < |a| - 1 && a[1..][k] == y;
          assert Less(a[0], a[k + 1]);
          LessIrreflexive(y);
          assert y != b[0] && y in b;
        }
        if y in b[1..] {
          var k :| 0 <= k < |b| - 1 && b[1..][k] == y;
          assert Less(b[0], b[k + 1]);
          LessIrreflexive(y);
          assert y != a[0] && y in a;
        }
      }
      StrictlySortedUnique(a[1..], b[1..]);
    }
  }

  /** Python's `{x: i for i, x in enumerate(xs)}`: later positions overwrite
      earlier ones, so each key maps to its last position in `xs`. */
  function IndexMap(xs: seq<string>): (m: map<string, nat>)
    ensures forall x :: x in m <==> x in xs
    ensures forall x :: x in m ==> m[x] < |xs| && xs[m[x]] == x
    ensures forall x, j :: x in m && m[x] < j < |xs| ==> xs[j] != x
  {
    if |xs| == 0 then map[]
    else
      assert xs == xs[..|xs| - 1] + [xs[|xs| - 1]];
      IndexMap(xs[..|xs| - 1])[xs[|xs| - 1] := |xs| - 1]
  }

  /** On a duplicate-free sequence every element maps to its own position. */
  lemma IndexMapOfDistinct(xs: seq<string>, i: nat)
    requires forall a, b :: 0 <= a < b < |xs| ==> xs[a] != xs[b]
    requires i < |xs|
    ensures xs[i] in IndexMap(xs) && IndexMap(xs)[xs[i]] == i
  {
    var m := IndexMap(xs);
    var k := m[xs[i]];
    assert xs[k] == xs[i];
  }

  lemma {:induction false} DistinctCountAtMostLength(xs: seq<string>)
    ensures |set x | x in xs| <= |xs|
  {
    if |xs| > 0 {
      var init := xs[..|xs| - 1];
      DistinctCountAtMostLength(init);
      assert (set x | x in xs) == (set x | x in init) + {xs[|xs| - 1]} by {
        assert xs == init + [xs[|xs| - 1]];
      }
    }
  }

  /** A repeated element makes the set of elements smaller than the sequence. */
  lemma {:induction false} DuplicateShrinksSet(xs: seq<string>, i: nat, j: nat)
    requires i < j < |xs| && xs[i] == xs[j]
    ensures |set x | x in xs| < |xs|
  {
    var init := xs[..|xs| - 1];
    assert xs == init + [xs[|xs| - 1]];
    assert (set x | x in xs) == (set x | x in init) + {xs[|xs| - 1]};
    if j == |xs| - 1 {
      assert xs[j] == init[i];
      assert (set x | x in xs) == (set x | x in init);
      DistinctCountAtMostLength(init);
    } else {
      assert init[i] == init[j];
      DuplicateShrinksSet(init, i, j);
    }
  }
}
