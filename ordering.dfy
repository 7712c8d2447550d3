/** String order and the `sorted(set(xs))` step of the scraper.

    Python compares two `str` values code point by code point, and a proper
    prefix comes first. `sorted(set(xs))` is therefore the one strictly
    increasing list whose elements are those of `xs`; it is modelled here
    by inserting the elements one at a time into a strictly increasing list. */
module Ordering {

  /** Python's `a < b` on strings: code-point lexicographic order. */
  predicate Less(a: string, b: string)
    decreases |a|
  {
    if |a| == 0 then |b| > 0
    else if |b| == 0 then false
    else if a[0] != b[0] then a[0] < b[0]
    else Less(a[1..], b[1..])
  }

  lemma {:induction false} LessIrreflexive(a: string)
    ensures !Less(a, a)
    decreases |a|
  {
    if |a| > 0 {
      LessIrreflexive(a[1..]);
    }
  }

  lemma {:induction false} LessTransitive(a: string, b: string, c: string)
    requires Less(a, b) && Less(b, c)
    ensures Less(a, c)
    decreases |a|
  {
    if |a| > 0 && a[0] == b[0] && b[0] == c[0] {
      LessTransitive(a[1..], b[1..], c[1..]);
    }
  }

  /** Any two different strings are ordered one way or the other. */
  lemma {:induction false} LessTotal(a: string, b: string)
    ensures a == b || Less(a, b) || Less(b, a)
    decreases |a|
  {
    if |a| > 0 && |b| > 0 && a[0] == b[0] {
      LessTotal(a[1..], b[1..]);
      if a[1..] == b[1..] {
        assert a == [a[0]] + a[1..] && b == [b[0]] + b[1..];
      }
    }
  }

  lemma LessAsymmetric(a: string, b: string)
    requires Less(a, b)
    ensures !Less(b, a)
  {
    if Less(b, a) {
      LessTransitive(a, b, a);
      LessIrreflexive(a);
    }
  }

  /** Each element is smaller than every later one: sorted and duplicate-free. */
  ghost predicate Increasing(s: seq<string>) {
    forall i, j :: 0 <= i < j < |s| ==> Less(s[i], s[j])
  }

  function Elems(s: seq<string>): set<string> {
    set x | x in s
  }

  /** A strictly increasing list has no element twice. */
  lemma IncreasingDistinct(s: seq<string>, i: nat, j: nat)
    requires Increasing(s)
    requires i < |s| && j < |s| && i != j
    ensures s[i] != s[j]
  {
    if i < j {
      LessIrreflexive(s[i]);
    } else {
      LessIrreflexive(s[j]);
    }
  }

  /** A prefix smaller than every element keeps a list strictly increasing. */
  lemma ConsIncreasing(y: string, t: seq<string>)
    requires Increasing(t)
    requires forall z :: z in t ==> Less(y, z)
    ensures Increasing([y] + t)
  {
    var r := [y] + t;
    forall i, j | 0 <= i < j < |r| ensures Less(r[i], r[j]) {
      assert r[j] == t[j - 1];
      if i > 0 {
        assert r[i] == t[i - 1];
      }
    }
  }

  /** The first element of a strictly increasing list is below all others. */
  lemma HeadBelowRest(s: seq<string>)
    requires Increasing(s) && s != []
    ensures forall z :: z in s[1..] ==> Less(s[0], z)
  {
    forall z | z in s[1..] ensures Less(s[0], z) {
      var k :| 0 <= k < |s[1..]| && s[1..][k] == z;
      assert s[k + 1] == z;
    }
  }

  /** Adds `x` to a strictly increasing list, at its place, unless it is
      already there. */
  function Insert(x: string, s: seq<string>): (r: seq<string>)
    requires Increasing(s)
    ensures Increasing(r)
    ensures Elems(r) == Elems(s) + {x}
    ensures |r| <= |s| + 1
    decreases |s|
  {
    if s == [] then [x]
    else if x == s[0] then
      assert s[0] in Elems(s);
      s
    else if Less(x, s[0]) then
      assert Increasing([x] + s) by {
        forall z | z in s ensures Less(x, z) {
          HeadBelowRest(s);
          if z != s[0] {
            assert z in s[1..] by {
              assert s == [s[0]] + s[1..];
            }
            LessTransitive(x, s[0], z);
          }
        }
        ConsIncreasing(x, s);
      }
      assert Elems([x] + s) == {x} + Elems(s);
      [x] + s
    else
      var t := Insert(x, s[1..]);
      assert Elems(s) == {s[0]} + Elems(s[1..]) by {
        assert s == [s[0]] + s[1..];
      }
      assert Increasing([s[0]] + t) by {
        LessTotal(x, s[0]);
        HeadBelowRest(s);
        forall z | z in t ensures Less(s[0], z) {
          assert z in Elems(t);
        }
        ConsIncreasing(s[0], t);
      }
      assert Elems([s[0]] + t) == {s[0]} + Elems(t);
      [s[0]] + t
  }

  /** `sorted(set(xs))`: each element of `xs` inserted in turn. */
  function SortedUnique(xs: seq<string>): (r: seq<string>)
    ensures Increasing(r)
    ensures Elems(r) == Elems(xs)
    ensures |r| <= |xs|
    decreases |xs|
  {
    if xs == [] then []
    else
      var init := xs[..|xs| - 1];
      assert Elems(xs) == Elems(init) + {xs[|xs| - 1]} by {
        assert xs == init + [xs[|xs| - 1]];
      }
      Insert(xs[|xs| - 1], SortedUnique(init))
  }

  /** Two strictly increasing lists with the same elements are equal: the
      result of `sorted(set(xs))` is determined by the set alone. */
  lemma {:induction false} IncreasingDetermined(a: seq<string>, b: seq<string>)
    requires Increasing(a) && Increasing(b)
    requires Elems(a) == Elems(b)
    ensures a == b
    decreases |a|
  {
    if a != [] {
      assert a[0] in Elems(a);
    }
    if b != [] {
      assert b[0] in Elems(b);
    }
    if a != [] && b != [] {
      // the first element of either list is the least element of the set
      assert a[0] in Elems(b);
      assert b[0] in Elems(a);
      var i :| 0 <= i < |b| && b[i] == a[0];
      var j :| 0 <= j < |a| && a[j] == b[0];
      if a[0] != b[0] {
        assert i > 0 && j > 0;
        LessAsymmetric(b[0], b[i]);
        assert false;
      }
      assert Elems(a[1..]) == Elems(b[1..]) by {
        forall x | x in Elems(a[1..]) ensures x in Elems(b[1..]) {
          var k :| 0 <= k < |a[1..]| && a[1..][k] == x;
          IncreasingDistinct(a, 0, k + 1);
          assert x in Elems(b);
          var m :| 0 <= m < |b| && b[m] == x;
          assert m != 0;
          assert b[1..][m - 1] == x;
        }
        forall x | x in Elems(b[1..]) ensures x in Elems(a[1..]) {
          var k :| 0 <= k < |b[1..]| && b[1..][k] == x;
          IncreasingDistinct(b, 0, k + 1);
          assert x in Elems(a);
          var m :| 0 <= m < |a| && a[m] == x;
          assert m != 0;
          assert a[1..][m - 1] == x;
        }
      }
      IncreasingDetermined(a[1..], b[1..]);
      assert a == [a[0]] + a[1..] && b == [b[0]] + b[1..];
    }
  }

  /** Lists with the same elements, in any order and with any repetitions,
      give the same result. */
  lemma SortedUniqueOfSameSet(xs: seq<string>, ys: seq<string>)
    requires Elems(xs) == Elems(ys)
    ensures SortedUnique(xs) == SortedUnique(ys)
  {
    IncreasingDetermined(SortedUnique(xs), SortedUnique(ys));
  }

  /** Applying the step to its own output gives the same list back. */
  lemma SortedUniqueIdempotent(xs: seq<string>)
    ensures SortedUnique(SortedUnique(xs)) == SortedUnique(xs)
  {
    IncreasingDetermined(SortedUnique(SortedUnique(xs)), SortedUnique(xs));
  }

  /** An already strictly increasing list is left as it is. */
  lemma SortedUniqueOfIncreasing(xs: seq<string>)
    requires Increasing(xs)
    ensures SortedUnique(xs) == xs
  {
    IncreasingDetermined(SortedUnique(xs), xs);
  }
}
