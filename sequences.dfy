/** Sequence operations shared by the graph builder and the layout: the list and
    dict primitives the builder relies on, stated once. */
module Sequences {

  /** No element occurs twice. */
  ghost predicate Distinct<T>(s: seq<T>) {
    forall i, j | 0 <= i < j < |s| :: s[i] != s[j]
  }

  /** Position of the first occurrence of `x` in `s`. */
  function IndexOf<T(==)>(s: seq<T>, x: T): (i: nat)
    requires x in s
    ensures i < |s| && s[i] == x
    ensures forall j | 0 <= j < i :: s[j] != x
  {
    if s[0] == x then 0 else 1 + IndexOf(s[1..], x)
  }

  /** Python's `list.remove(x)`: drops the first occurrence of `x`. */
  function RemoveFirst<T(==)>(s: seq<T>, x: T): (r: seq<T>)
    requires x in s
    ensures |r| == |s| - 1
    ensures multiset(r) == multiset(s) - multiset{x}
    ensures exists i | 0 <= i < |s| :: s[i] == x && x !in s[..i] && r == s[..i] + s[i + 1..]
  {
    var i := IndexOf(s, x);
    assert s == s[..i] + [x] + s[i + 1..];
    assert x !in s[..i];
    s[..i] + s[i + 1..]
  }

  /** Appends, in turn, every element of `s` that is not yet present: the key
      order of a Python dict after writing the keys of `s` into it. */
  function AppendNew<T(==)>(pre: seq<T>, s: seq<T>): (r: seq<T>)
    ensures pre <= r
  {
    if |s| == 0 then pre
    else
      var r := AppendNew(pre, s[..|s| - 1]);
      if s[|s| - 1] in r then r else r + [s[|s| - 1]]
  }

  /** First occurrences of the elements of `s`, in order. */
  function Dedup<T(==)>(s: seq<T>): seq<T> {
    AppendNew([], s)
  }

  lemma {:induction false} AppendNewMembers<T>(pre: seq<T>, s: seq<T>)
    ensures forall x :: x in AppendNew(pre, s) <==> x in pre || x in s
  {
    if |s| > 0 {
      var init := s[..|s| - 1];
      AppendNewMembers(pre, init);
      assert s == init + [s[|s| - 1]];
      assert forall x :: x in s <==> x in init || x == s[|s| - 1];
    }
  }

  lemma {:induction false} AppendNewDistinct<T>(pre: seq<T>, s: seq<T>)
    requires Distinct(pre)
    ensures Distinct(AppendNew(pre, s))
  {
    if |s| > 0 {
      AppendNewDistinct(pre, s[..|s| - 1]);
    }
  }

  /** Writing `s` and then `t` gives the same order as writing `s + t`. */
  lemma {:induction false} AppendNewConcat<T>(pre: seq<T>, s: seq<T>, t: seq<T>)
    ensures AppendNew(AppendNew(pre, s), t) == AppendNew(pre, s + t)
  {
    if |t| == 0 {
      assert s + t == s;
    } else {
      AppendNewConcat(pre, s, t[..|t| - 1]);
      assert (s + t)[..|s + t| - 1] == s + t[..|t| - 1];
      assert (s + t)[|s + t| - 1] == t[|t| - 1];
    }
  }

  /** Writing keys that are all present already leaves the order unchanged. */
  lemma {:induction false} AppendNewKnown<T>(pre: seq<T>, s: seq<T>)
    requires forall x | x in s :: x in pre
    ensures AppendNew(pre, s) == pre
  {
    if |s| > 0 {
      assert s[|s| - 1] in s;
      forall x | x in s[..|s| - 1] ensures x in pre {
        assert x in s;
      }
      AppendNewKnown(pre, s[..|s| - 1]);
    }
  }

  lemma DedupFacts<T>(s: seq<T>)
    ensures Distinct(Dedup(s))
    ensures forall x :: x in Dedup(s) <==> x in s
  {
    AppendNewDistinct([], s);
    AppendNewMembers([], s);
  }

  /** Removing the first occurrence from a list without repeats removes the
      element altogether and keeps the rest. */
  lemma RemoveFirstMembers<T>(s: seq<T>, x: T)
    requires x in s && Distinct(s)
    ensures Distinct(RemoveFirst(s, x))
    ensures forall y :: y in RemoveFirst(s, x) <==> y in s && y != x
  {
    var i := IndexOf(s, x);
    assert RemoveFirst(s, x) == s[..i] + s[i + 1..];
    DropAt(s, i);
  }

  /** Dropping position `i` of a list without repeats drops exactly `s[i]`. */
  lemma DropAt<T>(s: seq<T>, i: nat)
    requires i < |s| && Distinct(s)
    ensures Distinct(s[..i] + s[i + 1..])
    ensures forall y :: y in s[..i] + s[i + 1..] <==> y in s && y != s[i]
  {
    var x, a, b := s[i], s[..i], s[i + 1..];
    assert s == a + [x] + b;
    assert x !in b by {
      forall k | 0 <= k < |b| ensures b[k] != x {
        assert b[k] == s[i + 1 + k];
      }
    }
    assert x !in a by {
      forall k | 0 <= k < |a| ensures a[k] != x {
        assert a[k] == s[k];
      }
    }
    forall y ensures y in a + b <==> y in s && y != x {
      assert y in s <==> y in a || y == x || y in b;
    }
    forall p, q | 0 <= p < q < |a + b| ensures (a + b)[p] != (a + b)[q] {
      var p' := if p < i then p else p + 1;
      var q' := if q < i then q else q + 1;
      assert (a + b)[p] == s[p'] && (a + b)[q] == s[q'];
    }
  }

  /** Positions of elements already present do not move when more are appended. */
  lemma IndexOfPrefix<T>(s: seq<T>, t: seq<T>, x: T)
    requires x in s
    ensures IndexOf(s + t, x) == IndexOf(s, x)
  {
    assert (s + t)[IndexOf(s, x)] == x;
  }

  /** In a list without repeats the element at position `i` has index `i`. */
  lemma IndexOfDistinct<T>(s: seq<T>, i: nat)
    requires i < |s| && Distinct(s)
    ensures IndexOf(s, s[i]) == i
  {
  }

  /** A list without repeats has as many distinct elements as entries. */
  lemma {:induction false} DistinctCardinality<T>(s: seq<T>)
    requires Distinct(s)
    ensures |set x | x in s| == |s|
  {
    if |s| > 0 {
      var init := s[..|s| - 1];
      DistinctCardinality(init);
      assert (set x | x in s) == (set x | x in init) + {s[|s| - 1]};
    }
  }
}
