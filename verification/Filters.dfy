/** Filtering a sequence. */
module Filters {

  /** The elements `keep` selects, in order. */
  function Select<T>(s: seq<T>, keep: T -> bool): seq<T> {
    if s == [] then []
    else
      var front, last := Select(s[..|s| - 1], keep), s[|s| - 1];
      if keep(last) then front + [last] else front
  }

  lemma {:induction false} SelectAppend<T>(left: seq<T>, right: seq<T>, keep: T -> bool)
    ensures Select(left + right, keep) == Select(left, keep) + Select(right, keep)
  {
    if right == [] {
      assert left + right == left;
    } else {
      var n := |right| - 1;
      SelectAppend(left, right[..n], keep);
      assert (left + right)[..|left| + n] == left + right[..n];
    }
  }

  lemma SelectOne<T>(x: T, keep: T -> bool)
    ensures Select([x], keep) == if keep(x) then [x] else []
  {
    assert [x][..0] == [];
    assert Select([], keep) == [];
  }

  lemma {:induction false} SelectShortens<T>(s: seq<T>, keep: T -> bool)
    ensures |Select(s, keep)| <= |s|
    ensures |Select(s, keep)| == |s| <==> forall x :: x in s ==> keep(x)
    ensures (forall x :: x in s ==> keep(x)) ==> Select(s, keep) == s
  {
    if s != [] {
      SelectShortens(s[..|s| - 1], keep);
      assert s == s[..|s| - 1] + [s[|s| - 1]];
    }
  }

  lemma {:induction false} SelectTwice<T(!new)>(s: seq<T>, one: T -> bool, two: T -> bool, both: T -> bool)
    requires forall x :: both(x) <==> one(x) && two(x)
    ensures Select(Select(s, one), two) == Select(s, both)
  {
    if s != [] {
      var front, last := s[..|s| - 1], s[|s| - 1];
      SelectTwice(front, one, two, both);
      if one(last) {
        SelectAppend(Select(front, one), [last], two);
        SelectOne(last, two);
      }
    }
  }

  lemma {:induction false} SelectHolds<T>(s: seq<T>, keep: T -> bool, x: T)
    ensures x in Select(s, keep) <==> x in s && keep(x)
  {
    if s != [] {
      SelectHolds(s[..|s| - 1], keep, x);
      assert s == s[..|s| - 1] + [s[|s| - 1]];
    }
  }

  lemma {:induction false} SelectedIsKept<T>(s: seq<T>, keep: T -> bool)
    ensures forall x :: x in Select(s, keep) ==> keep(x)
  {
    if s != [] {
      SelectedIsKept(s[..|s| - 1], keep);
    }
  }
}
