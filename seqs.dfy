/**
 * Sequence helpers shared by the query layer: a queryset filter keeps the
 * order of the rows it selects, and so keeps any order-based property of them.
 */
module Seqs {
  import opened Wrappers

  /** The position of the first element satisfying `wanted`, if any. */
  function IndexOf<T>(s: seq<T>, wanted: T -> bool): (r: Option<nat>)
    ensures r.Some? ==> r.value < |s| && wanted(s[r.value]) && forall j :: 0 <= j < r.value ==> !wanted(s[j])
    ensures r.None? ==> forall i :: 0 <= i < |s| ==> !wanted(s[i])
  {
    if s == [] then None
    else if wanted(s[0]) then Some(0)
    else match IndexOf(s[1..], wanted)
      case None => None
      case Some(i) => Some(i + 1)
  }

  /** The elements of `s` that satisfy `keep`, in their original order. */
  function Filter<T(!new)>(s: seq<T>, keep: T -> bool): (r: seq<T>)
    ensures |r| <= |s|
    ensures forall x :: x in r <==> x in s && keep(x)
  {
    if s == [] then [] else (if keep(s[0]) then [s[0]] else []) + Filter(s[1..], keep)
  }

  /** `rel` holds of every pair of elements taken in sequence order. */
  ghost predicate Pairwise<T>(s: seq<T>, rel: (T, T) -> bool)
  {
    forall i, j :: 0 <= i < j < |s| ==> rel(s[i], s[j])
  }

  predicate NotSame<T(==)>(a: T, b: T)
  {
    a != b
  }

  /** No element occurs twice. */
  ghost predicate Distinct<T>(s: seq<T>)
  {
    Pairwise(s, NotSame)
  }

  lemma {:induction false} FilterAppend<T(!new)>(s: seq<T>, t: seq<T>, keep: T -> bool)
    ensures Filter(s + t, keep) == Filter(s, keep) + Filter(t, keep)
  {
    if s == [] {
      assert s + t == t;
    } else {
      assert (s + t)[1..] == s[1..] + t;
      FilterAppend(s[1..], t, keep);
    }
  }

  /** Dropping the last element of `a + b`, for a nonempty `b`, drops the last element of `b`. */
  lemma AppendDropLast<T>(a: seq<T>, b: seq<T>)
    requires b != []
    ensures (a + b)[..|a + b| - 1] == a + b[..|b| - 1]
    ensures (a + b)[|a + b| - 1] == b[|b| - 1]
  {
    assert (a + b)[..|a + b| - 1] == a + b[..|b| - 1];
  }

  /** Filtering keeps every pairwise (order) property of the filtered sequence. */
  lemma {:induction false} FilterPairwise<T(!new)>(s: seq<T>, keep: T -> bool, rel: (T, T) -> bool)
    ensures Pairwise(s, rel) ==> Pairwise(Filter(s, keep), rel)
  {
    if s != [] && Pairwise(s, rel) {
      var t := Filter(s[1..], keep);
      assert Pairwise(s[1..], rel) by {
        forall i, j | 0 <= i < j < |s[1..]| ensures rel(s[1..][i], s[1..][j]) {
          assert s[1..][i] == s[i + 1] && s[1..][j] == s[j + 1];
        }
      }
      FilterPairwise(s[1..], keep, rel);
      if keep(s[0]) {
        var r := [s[0]] + t;
        forall j | 0 < j < |r| ensures rel(r[0], r[j]) {
          assert r[j] in s[1..];
          var k :| 0 <= k < |s[1..]| && s[1..][k] == r[j];
          assert s[k + 1] == r[j];
        }
        forall i, j | 0 <= i < j < |r| ensures rel(r[i], r[j]) {
          if i > 0 {
            assert r[i] == t[i - 1] && r[j] == t[j - 1];
          }
        }
      }
    }
  }

  /** A filter that keeps every element is the identity. */
  lemma {:induction false} FilterKeepsAll<T(!new)>(s: seq<T>, keep: T -> bool)
    requires forall x :: x in s ==> keep(x)
    ensures Filter(s, keep) == s
  {
    if s != [] {
      FilterKeepsAll(s[1..], keep);
    }
  }

  /** A filter that keeps no element gives the empty sequence. */
  lemma {:induction false} FilterKeepsNone<T(!new)>(s: seq<T>, keep: T -> bool)
    requires forall x :: x in s ==> !keep(x)
    ensures Filter(s, keep) == []
  {
    if s != [] {
      FilterKeepsNone(s[1..], keep);
    }
  }

  /** In a sequence without repetitions an element that occurs, occurs exactly once. */
  lemma {:induction false} DistinctOccursOnce<T>(s: seq<T>, x: T)
    requires Distinct(s)
    ensures multiset(s)[x] == if x in s then 1 else 0
  {
    if s != [] {
      assert s == [s[0]] + s[1..];
      assert Distinct(s[1..]) by {
        forall i, j | 0 <= i < j < |s[1..]| ensures NotSame(s[1..][i], s[1..][j]) {
          assert s[1..][i] == s[i + 1] && s[1..][j] == s[j + 1];
        }
      }
      DistinctOccursOnce(s[1..], x);
      assert s[0] !in s[1..] by {
        forall k | 0 <= k < |s[1..]| ensures s[1..][k] != s[0] {
          assert NotSame(s[0], s[k + 1]);
        }
      }
      assert multiset(s) == multiset{s[0]} + multiset(s[1..]);
    }
  }
}
