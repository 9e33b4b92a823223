/** The order Go uses on strings and the sort `sort.Strings` performs.

    Go compares strings byte by byte as UTF-8; for valid text that order is
    the order of code points, which is the order on Dafny's `char`. */
module StringOrder {

  /** `a <= b` on Go strings: lexicographic, a proper prefix comes first. */
  predicate Leq(a: string, b: string)
  {
    if a == [] then true
    else if b == [] then false
    else if a[0] != b[0] then a[0] < b[0]
    else Leq(a[1..], b[1..])
  }

  lemma LeqReflexive(a: string)
    ensures Leq(a, a)
  {
  }

  lemma LeqTotal(a: string, b: string)
    ensures Leq(a, b) || Leq(b, a)
  {
  }

  lemma LeqTransitive(a: string, b: string, c: string)
    requires Leq(a, b) && Leq(b, c)
    ensures Leq(a, c)
  {
  }

  lemma LeqAntisymmetric(a: string, b: string)
    requires Leq(a, b) && Leq(b, a)
    ensures a == b
  {
  }

  /** Every element is `<=` every later one. */
  ghost predicate Ascending(s: seq<string>)
  {
    forall i, j :: 0 <= i < j < |s| ==> Leq(s[i], s[j])
  }

  /** The elements of `s` are pairwise different. */
  ghost predicate Distinct(s: seq<string>)
  {
    forall i, j :: 0 <= i < j < |s| ==> s[i] != s[j]
  }

  /** Places `x` into the ascending sequence `s`. */
  function InsertSorted(x: string, s: seq<string>): (r: seq<string>)
    requires Ascending(s)
    ensures Ascending(r)
    ensures multiset(r) == multiset(s) + multiset{x}
  {
    if s == [] then [x]
    else if Leq(x, s[0]) then
      assert forall j :: 0 < j < |s| ==> Leq(x, s[j]) by {
        forall j | 0 < j < |s| ensures Leq(x, s[j]) { LeqTransitive(x, s[0], s[j]); }
      }
      [x] + s
    else
      var rest := InsertSorted(x, s[1..]);
      assert s == [s[0]] + s[1..];
      LeqTotal(x, s[0]);
      assert forall y :: y in multiset(rest) ==> Leq(s[0], y) by {
        forall y | y in multiset(rest) ensures Leq(s[0], y) {
          assert y in multiset(s[1..]) || y == x;
        }
      }
      assert forall j :: 0 <= j < |rest| ==> Leq(s[0], rest[j]) by {
        forall j | 0 <= j < |rest| ensures Leq(s[0], rest[j]) {
          assert rest[j] in multiset(rest);
        }
      }
      [s[0]] + rest
  }

  /** The result of `sort.Strings(s)`: the ascending permutation of `s`.
      Go's sort is not stable, but strings that compare equal are equal, so
      the result is fully determined (see SortedPermutationUnique). */
  function Sort(s: seq<string>): (r: seq<string>)
    ensures Ascending(r)
    ensures multiset(r) == multiset(s)
    ensures |r| == |s|
  {
    if s == [] then []
    else
      assert s == [s[0]] + s[1..];
      InsertSorted(s[0], Sort(s[1..]))
  }

  /** Two ascending permutations of the same elements are the same sequence:
      any correct sort gives exactly the result of Sort. */
  lemma {:induction false} SortedPermutationUnique(a: seq<string>, b: seq<string>)
    requires Ascending(a) && Ascending(b)
    requires multiset(a) == multiset(b)
    ensures a == b
    decreases |a|
  {
    if a != [] {
      AscendingHeadsEqual(a, b);
      assert a == [a[0]] + a[1..];
      assert b == [b[0]] + b[1..];
      assert multiset(a[1..]) == multiset(b[1..]) by {
        assert multiset(a[1..]) == multiset(a) - multiset{a[0]};
        assert multiset(b[1..]) == multiset(b) - multiset{b[0]};
      }
      SortedPermutationUnique(a[1..], b[1..]);
    } else {
      assert |multiset(b)| == 0;
    }
  }

  /** Two non-empty ascending permutations start with the same element. */
  lemma AscendingHeadsEqual(a: seq<string>, b: seq<string>)
    requires Ascending(a) && Ascending(b)
    requires multiset(a) == multiset(b) && a != []
    ensures b != [] && a[0] == b[0]
  {
    assert a[0] in multiset(b);
    assert b[0] in multiset(a);
    var i :| 0 <= i < |b| && b[i] == a[0];
    var j :| 0 <= j < |a| && a[j] == b[0];
    assert Leq(a[0], b[0]) by { if j > 0 { assert Leq(a[0], a[j]); } else { LeqReflexive(a[0]); } }
    assert Leq(b[0], a[0]) by { if i > 0 { assert Leq(b[0], b[i]); } else { LeqReflexive(b[0]); } }
    LeqAntisymmetric(a[0], b[0]);
  }

  /** A sequence is without repeats exactly when no element occurs twice in
      its multiset. */
  lemma {:induction false} DistinctIffMultiset(s: seq<string>)
    ensures Distinct(s) <==> forall x :: multiset(s)[x] <= 1
    decreases |s|
  {
    if s != [] {
      var p := s[..|s| - 1];
      var last := s[|s| - 1];
      assert s == p + [last];
      DistinctIffMultiset(p);
      if Distinct(s) {
        assert Distinct(p);
        assert last !in p;
      } else {
        var i, j :| 0 <= i < j < |s| && s[i] == s[j];
        var x := s[i];
        assert s == s[..j] + s[j..];
        assert x in s[..j] && x in s[j..];
        assert multiset(s)[x] == multiset(s[..j])[x] + multiset(s[j..])[x];
      }
    }
  }

  /** Sorting keeps exactly the elements it was given. */
  lemma SortMembers(s: seq<string>)
    ensures forall x :: x in Sort(s) <==> x in s
  {
    assert forall x :: x in Sort(s) <==> x in multiset(Sort(s));
  }

  /** Sorting keeps a sequence without repeats. */
  lemma SortKeepsDistinct(s: seq<string>)
    requires Distinct(s)
    ensures Distinct(Sort(s))
  {
    DistinctIffMultiset(s);
    DistinctIffMultiset(Sort(s));
  }
}
