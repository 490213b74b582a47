/**
 * The C++ standard algorithms the core relies on, on sequences of integers:
 * std::sort, std::unique (after sort), std::set_union, std::set_intersection
 * and std::set_difference.  The merge functions follow the libstdc++ loops step
 * for step, so they are also defined (with the same output) on inputs that
 * break the "sorted range" precondition.
 */
module StdAlgorithms {
  predicate Sorted(s: seq<int>) {
    forall i, j :: 0 <= i < j < |s| ==> s[i] <= s[j]
  }

  /** Ascending without duplicates. */
  predicate Strict(s: seq<int>) {
    forall i, j :: 0 <= i < j < |s| ==> s[i] < s[j]
  }

  lemma StrictIsSorted(s: seq<int>)
    requires Strict(s)
    ensures Sorted(s)
  {
  }

  /** `h` is a lower bound of every element of `s`; strictly when `strict`. */
  predicate Below(h: int, s: seq<int>, strict: bool) {
    forall k :: 0 <= k < |s| ==> if strict then h < s[k] else h <= s[k]
  }

  lemma ConsSorted(x: int, s: seq<int>)
    requires Sorted(s) && Below(x, s, false)
    ensures Sorted([x] + s)
  {
    var t := [x] + s;
    forall i, j | 0 <= i < j < |t| ensures t[i] <= t[j] {
      assert t[j] == s[j - 1];
      if i > 0 { assert t[i] == s[i - 1]; }
    }
  }

  lemma ConsStrict(x: int, s: seq<int>)
    requires Strict(s) && Below(x, s, true)
    ensures Strict([x] + s)
  {
    var t := [x] + s;
    forall i, j | 0 <= i < j < |t| ensures t[i] < t[j] {
      assert t[j] == s[j - 1];
      if i > 0 { assert t[i] == s[i - 1]; }
    }
  }

  /** The head of a sorted sequence bounds its tail, and every member. */
  lemma HeadBounds(s: seq<int>, strict: bool)
    requires s != [] && (if strict then Strict(s) else Sorted(s))
    ensures if strict then Strict(s[1..]) else Sorted(s[1..])
    ensures Below(s[0], s[1..], strict)
    ensures forall x :: x in s ==> s[0] <= x
  {
    forall x | x in s ensures s[0] <= x {
      var m :| 0 <= m < |s| && s[m] == x;
      if m > 0 { assert s[0] <= s[m]; }
    }
  }

  /** A bound on the members of `s` is a bound in the sense of Below. */
  lemma BelowMembers(h: int, s: seq<int>, strict: bool)
    requires forall x :: x in s ==> if strict then h < x else h <= x
    ensures Below(h, s, strict)
  {
    forall k | 0 <= k < |s| ensures if strict then h < s[k] else h <= s[k] {
      assert s[k] in s;
    }
  }

  /** Inserting `x` in front of the first element not smaller than it. */
  function Insert(x: int, s: seq<int>): (r: seq<int>)
    requires Sorted(s)
    ensures Sorted(r) && multiset(r) == multiset(s) + multiset{x}
  {
    if s == [] || x <= s[0] then
      ConsSorted(x, s);
      [x] + s
    else
      HeadBounds(s, false);
      var rest := Insert(x, s[1..]);
      assert s == [s[0]] + s[1..];
      assert forall y :: y in rest ==> y in multiset(rest);
      BelowMembers(s[0], rest, false);
      ConsSorted(s[0], rest);
      [s[0]] + rest
  }

  /** std::sort on integers: the sorted permutation, which is unique. */
  function Sort(s: seq<int>): (r: seq<int>)
    ensures Sorted(r) && multiset(r) == multiset(s)
  {
    if s == [] then []
    else
      assert s == [s[0]] + s[1..];
      Insert(s[0], Sort(s[1..]))
  }

  /** std::unique followed by erase: drops every element equal to its predecessor. */
  function Unique(s: seq<int>): (r: seq<int>)
    ensures forall x :: x in r <==> x in s
    ensures |r| <= |s|
    ensures Sorted(s) ==> Strict(r)
    decreases |s|
  {
    if |s| <= 1 then s
    else if s[0] == s[1] then
      assert s == [s[0]] + s[1..];
      Unique(s[1..])
    else
      var rest := Unique(s[1..]);
      assert s == [s[0]] + s[1..];
      UniqueHead(s, rest);
      [s[0]] + rest
  }

  lemma UniqueHead(s: seq<int>, rest: seq<int>)
    requires |s| >= 2 && s[0] != s[1]
    requires forall x :: x in rest ==> x in s[1..]
    requires Sorted(s[1..]) ==> Strict(rest)
    ensures Sorted(s) ==> Strict([s[0]] + rest)
  {
    if Sorted(s) {
      HeadBounds(s, false);
      HeadBounds(s[1..], false);
      forall x | x in rest ensures s[0] < x {
        assert s[1..][0] == s[1];
      }
      BelowMembers(s[0], rest, true);
      ConsStrict(s[0], rest);
    }
  }

  /** std::set_union: on a tie the element of `a` is kept and both advance. */
  function Union(a: seq<int>, b: seq<int>): (r: seq<int>)
    ensures forall x :: x in r <==> x in a || x in b
    decreases |a| + |b|
  {
    if a == [] then b
    else if b == [] then a
    else if b[0] < a[0] then
      assert b == [b[0]] + b[1..];
      [b[0]] + Union(a, b[1..])
    else if a[0] < b[0] then
      assert a == [a[0]] + a[1..];
      [a[0]] + Union(a[1..], b)
    else
      assert a == [a[0]] + a[1..];
      assert b == [b[0]] + b[1..];
      [a[0]] + Union(a[1..], b[1..])
  }

  /** `h` in front of `rest`, where `rest` draws its members from sequences `h` bounds. */
  lemma MergeHead(h: int, a: seq<int>, b: seq<int>, rest: seq<int>, strict: bool)
    requires forall x :: x in rest ==> x in a || x in b
    requires Below(h, a, strict) && Below(h, b, strict)
    requires if strict then Strict(rest) else Sorted(rest)
    ensures if strict then Strict([h] + rest) else Sorted([h] + rest)
  {
    forall x | x in rest ensures if strict then h < x else h <= x {
      if x in a { var m :| 0 <= m < |a| && a[m] == x; }
      else { var m :| 0 <= m < |b| && b[m] == x; }
    }
    BelowMembers(h, rest, strict);
    if strict { ConsStrict(h, rest); } else { ConsSorted(h, rest); }
  }

  /** Merging two sorted (strictly sorted) ranges gives a sorted (strictly sorted) one. */
  lemma {:induction false} UnionSorted(a: seq<int>, b: seq<int>, strict: bool)
    requires if strict then Strict(a) && Strict(b) else Sorted(a) && Sorted(b)
    ensures if strict then Strict(Union(a, b)) else Sorted(Union(a, b))
    decreases |a| + |b|
  {
    if a != [] && b != [] {
      HeadBounds(a, strict);
      HeadBounds(b, strict);
      if b[0] < a[0] {
        UnionSorted(a, b[1..], strict);
        assert Below(b[0], a, strict) by { BelowMembers(b[0], a, strict); }
        MergeHead(b[0], a, b[1..], Union(a, b[1..]), strict);
      } else if a[0] < b[0] {
        UnionSorted(a[1..], b, strict);
        assert Below(a[0], b, strict) by { BelowMembers(a[0], b, strict); }
        MergeHead(a[0], a[1..], b, Union(a[1..], b), strict);
      } else {
        UnionSorted(a[1..], b[1..], strict);
        MergeHead(a[0], a[1..], b[1..], Union(a[1..], b[1..]), strict);
      }
    }
  }

  /** std::set_intersection: an element of `a` is kept when the heads tie. */
  function Intersection(a: seq<int>, b: seq<int>): (r: seq<int>)
    ensures forall x :: x in r ==> x in a && x in b
    decreases |a| + |b|
  {
    if a == [] || b == [] then []
    else if a[0] < b[0] then
      assert a == [a[0]] + a[1..];
      Intersection(a[1..], b)
    else if b[0] < a[0] then
      assert b == [b[0]] + b[1..];
      Intersection(a, b[1..])
    else
      assert a == [a[0]] + a[1..];
      assert b == [b[0]] + b[1..];
      [a[0]] + Intersection(a[1..], b[1..])
  }

  /** On sorted ranges the intersection keeps every common element, in order. */
  lemma {:induction false} IntersectionSorted(a: seq<int>, b: seq<int>, strict: bool)
    requires if strict then Strict(a) && Strict(b) else Sorted(a) && Sorted(b)
    ensures if strict then Strict(Intersection(a, b)) else Sorted(Intersection(a, b))
    ensures forall x :: x in a && x in b ==> x in Intersection(a, b)
    decreases |a| + |b|
  {
    if a != [] && b != [] {
      HeadBounds(a, strict);
      HeadBounds(b, strict);
      assert a == [a[0]] + a[1..];
      assert b == [b[0]] + b[1..];
      if a[0] < b[0] {
        IntersectionSorted(a[1..], b, strict);
      } else if b[0] < a[0] {
        IntersectionSorted(a, b[1..], strict);
      } else {
        IntersectionSorted(a[1..], b[1..], strict);
        MergeHead(a[0], a[1..], b[1..], Intersection(a[1..], b[1..]), strict);
      }
    }
  }

  /** std::set_difference: the elements of `a` not matched by one of `b`. */
  function Difference(a: seq<int>, b: seq<int>): (r: seq<int>)
    ensures forall x :: x in r ==> x in a
    decreases |a| + |b|
  {
    if a == [] then []
    else if b == [] then a
    else if a[0] < b[0] then
      assert a == [a[0]] + a[1..];
      [a[0]] + Difference(a[1..], b)
    else if b[0] < a[0] then
      Difference(a, b[1..])
    else
      assert a == [a[0]] + a[1..];
      Difference(a[1..], b[1..])
  }

  /** With `a` free of duplicates and `b` sorted, the difference is the set difference, ascending. */
  lemma {:induction false} DifferenceStrict(a: seq<int>, b: seq<int>)
    requires Strict(a) && Sorted(b)
    ensures Strict(Difference(a, b))
    ensures forall x :: x in Difference(a, b) <==> x in a && x !in b
    decreases |a| + |b|
  {
    if a != [] && b != [] {
      HeadBounds(a, true);
      HeadBounds(b, false);
      assert a == [a[0]] + a[1..];
      assert b == [b[0]] + b[1..];
      if a[0] < b[0] {
        DifferenceStrict(a[1..], b);
        MergeHead(a[0], a[1..], a[1..], Difference(a[1..], b), true);
      } else if b[0] < a[0] {
        DifferenceStrict(a, b[1..]);
      } else {
        DifferenceStrict(a[1..], b[1..]);
      }
    }
  }

  /** A value above every element extends a strictly ascending sequence. */
  lemma StrictSnoc(s: seq<int>, y: int)
    requires Strict(s) && forall x :: x in s ==> x < y
    ensures Strict(s + [y])
  {
    var t := s + [y];
    forall i, j | 0 <= i < j < |t| ensures t[i] < t[j] {
      assert t[i] == s[i];
      if j < |s| { assert t[j] == s[j]; } else { assert s[i] in s; }
    }
  }

  /** Sorting keeps exactly the members. */
  lemma SortMembers(s: seq<int>)
    ensures forall x :: x in Sort(s) <==> x in s
  {
    forall x ensures x in Sort(s) <==> x in s {
      assert x in Sort(s) <==> x in multiset(Sort(s));
      assert x in s <==> x in multiset(s);
    }
  }

  /** Two strictly ascending sequences with the same members are equal. */
  lemma {:induction false} StrictUnique(a: seq<int>, b: seq<int>)
    requires Strict(a) && Strict(b) && forall x :: x in a <==> x in b
    ensures a == b
    decreases |a|
  {
    if a != [] {
      assert a[0] in a;
      assert a[0] in b;
    }
    if b != [] {
      assert b[0] in b;
      assert b[0] in a;
    }
    if a != [] && b != [] {
      HeadBounds(a, true);
      HeadBounds(b, true);
      assert a[0] in b && b[0] in a;
      assert a[0] == b[0];
      assert a == [a[0]] + a[1..] && b == [b[0]] + b[1..];
      forall x ensures x in a[1..] <==> x in b[1..] {
        if x in a[1..] {
          var m :| 0 <= m < |a[1..]| && a[1..][m] == x;
          assert a[0] < a[m + 1];
          assert x in b && x != b[0];
        }
        if x in b[1..] {
          var m :| 0 <= m < |b[1..]| && b[1..][m] == x;
          assert b[0] < b[m + 1];
          assert x in a && x != a[0];
        }
      }
      StrictUnique(a[1..], b[1..]);
    }
  }

  /** Sorting a sorted list changes nothing. */
  lemma {:induction false} SortOfSorted(s: seq<int>)
    requires Sorted(s)
    ensures Sort(s) == s
  {
    if s != [] {
      HeadBounds(s, false);
      SortOfSorted(s[1..]);
      assert s == [s[0]] + s[1..];
    }
  }

  /** Two strictly ascending lists, the first entirely below the second, concatenate strictly. */
  lemma StrictConcat(a: seq<int>, b: seq<int>)
    requires Strict(a) && Strict(b)
    requires forall x, y :: x in a && y in b ==> x < y
    ensures Strict(a + b)
  {
    var t := a + b;
    forall i, j | 0 <= i < j < |t| ensures t[i] < t[j] {
      if j < |a| {
      } else if i >= |a| {
        assert t[i] == b[i - |a|] && t[j] == b[j - |a|];
      } else {
        assert t[i] == a[i] && a[i] in a;
        assert t[j] == b[j - |a|] && b[j - |a|] in b;
      }
    }
  }
}
