/**
  Order-preserving deduplication, the behaviour of a data-frame
  `drop_duplicates()` with its default `keep='first'`: every distinct row is
  kept once, at the position of its first occurrence, and rows are compared
  by full equality (so two missing values count as equal).
 */
module Dedup {

  /** No two positions of `s` hold equal elements. */
  ghost predicate NoDuplicates<T>(s: seq<T>) {
    forall i, j :: 0 <= i < j < |s| ==> s[i] != s[j]
  }

  /** The position of the first occurrence of `x` in `s`. */
  function FirstIndex<T(==)>(s: seq<T>, x: T): (i: nat)
    requires x in s
    ensures i < |s| && s[i] == x
    ensures forall j :: 0 <= j < i ==> s[j] != x
    decreases |s|
  {
    if s[0] == x then 0 else 1 + FirstIndex(s[1..], x)
  }

  /** Every element of `t` occurs in `s`, and `t` lists its elements in the
      order of their first occurrences in `s`. */
  ghost predicate InFirstOccurrenceOrder<T>(s: seq<T>, t: seq<T>) {
    && (forall i :: 0 <= i < |t| ==> t[i] in s)
    && (forall i, j :: 0 <= i < j < |t| ==> FirstIndex(s, t[i]) < FirstIndex(s, t[j]))
  }

  /** `s` with every repeated element dropped after its first occurrence. */
  function Distinct<T(==)>(s: seq<T>): (r: seq<T>)
    ensures |r| <= |s|
    ensures forall i :: 0 <= i < |r| ==> r[i] in s
    ensures forall i :: 0 <= i < |s| ==> s[i] in r
    ensures NoDuplicates(r)
    decreases |s|
  {
    if |s| == 0 then []
    else
      var init, last := s[..|s| - 1], s[|s| - 1];
      assert s == init + [last];
      var kept := Distinct(init);
      if last in kept then kept else kept + [last]
  }

  /** A first occurrence inside a prefix is the first occurrence in the whole. */
  lemma FirstIndexInPrefix<T>(s: seq<T>, n: nat, x: T)
    requires n <= |s| && x in s[..n]
    ensures FirstIndex(s, x) == FirstIndex(s[..n], x)
  {
    var i, k := FirstIndex(s[..n], x), FirstIndex(s, x);
    assert s[i] == x;
    assert k <= i;
    assert s[..n][k] == x;
  }

  /** The element of `s` that is not in its prefix first occurs at the end. */
  lemma FirstIndexOfNewLast<T>(s: seq<T>)
    requires |s| > 0 && s[|s| - 1] !in s[..|s| - 1]
    ensures FirstIndex(s, s[|s| - 1]) == |s| - 1
  {
    var k := FirstIndex(s, s[|s| - 1]);
    assert forall j :: 0 <= j < |s| - 1 ==> s[..|s| - 1][j] == s[j];
  }

  /** `Distinct` keeps first occurrences in their input order. */
  lemma {:induction false} DistinctKeepsFirstOccurrenceOrder<T>(s: seq<T>)
    ensures InFirstOccurrenceOrder(s, Distinct(s))
    decreases |s|
  {
    if |s| > 0 {
      var init, last := s[..|s| - 1], s[|s| - 1];
      var kept := Distinct(init);
      DistinctKeepsFirstOccurrenceOrder(init);
      forall x | x in init
        ensures FirstIndex(s, x) == FirstIndex(init, x)
      {
        FirstIndexInPrefix(s, |s| - 1, x);
      }
      assert s == init + [last];
      if last !in kept {
        FirstIndexOfNewLast(s);
        var r := kept + [last];
        forall i, j | 0 <= i < j < |r|
          ensures FirstIndex(s, r[i]) < FirstIndex(s, r[j])
        {
          if j == |r| - 1 {
            assert r[i] in init;
            assert FirstIndex(init, r[i]) < |init|;
          } else {
            assert r[i] == kept[i] && r[j] == kept[j];
          }
        }
      }
    }
  }

  /** In a sequence listed in first-occurrence order, every element other
      than the last one first occurs earlier than the last one. */
  lemma LastOccursLatest<T>(s: seq<T>, t: seq<T>, x: T)
    requires InFirstOccurrenceOrder(s, t)
    requires x in t && x != t[|t| - 1]
    ensures FirstIndex(s, x) < FirstIndex(s, t[|t| - 1])
  {
    var k :| 0 <= k < |t| && t[k] == x;
  }

  /** Removing the same last element from two duplicate-free sequences with
      the same elements leaves two sequences with the same elements. */
  lemma DropLastKeepsSameElements<T>(t: seq<T>, u: seq<T>, a: T)
    requires NoDuplicates(t + [a]) && NoDuplicates(u + [a])
    requires forall x :: x in t + [a] <==> x in u + [a]
    ensures forall x :: x in t <==> x in u
  {
    forall x
      ensures x in t ==> x in u
      ensures x in u ==> x in t
    {
      if x in t {
        var i :| 0 <= i < |t| && t[i] == x;
        assert (t + [a])[i] == x && (t + [a])[|t|] == a;
        assert x != a;
        assert x in u + [a];
      }
      if x in u {
        var i :| 0 <= i < |u| && u[i] == x;
        assert (u + [a])[i] == x && (u + [a])[|u|] == a;
        assert x != a;
        assert x in t + [a];
      }
    }
  }

  /** A prefix of a duplicate-free sequence in first-occurrence order is one too. */
  lemma PrefixKeepsOrder<T>(s: seq<T>, t: seq<T>, n: nat)
    requires n <= |t| && NoDuplicates(t) && InFirstOccurrenceOrder(s, t)
    ensures NoDuplicates(t[..n]) && InFirstOccurrenceOrder(s, t[..n])
  {
    assert forall i :: 0 <= i < n ==> t[..n][i] == t[i];
  }

  /** Two duplicate-free sequences with the same elements, both listed in
      first-occurrence order of `s`, are equal. */
  lemma {:induction false} FirstOccurrenceOrderUnique<T>(s: seq<T>, t: seq<T>, u: seq<T>)
    requires NoDuplicates(t) && NoDuplicates(u)
    requires forall x :: x in t <==> x in u
    requires InFirstOccurrenceOrder(s, t) && InFirstOccurrenceOrder(s, u)
    ensures t == u
    decreases |t|
  {
    assert |t| > 0 ==> t[0] in u;
    assert |u| > 0 ==> u[0] in t;
    if |t| > 0 {
      assert t[0] in u;
      var a, b := t[|t| - 1], u[|u| - 1];
      if a != b {
        assert a in u && b in t;
        LastOccursLatest(s, u, a);
        LastOccursLatest(s, t, b);
        assert false;
      }
      var t', u' := t[..|t| - 1], u[..|u| - 1];
      assert t == t' + [a] && u == u' + [a];
      DropLastKeepsSameElements(t', u', a);
      PrefixKeepsOrder(s, t, |t| - 1);
      PrefixKeepsOrder(s, u, |u| - 1);
      FirstOccurrenceOrderUnique(s, t', u');
    }
  }

  /** `Distinct(s)` is the one duplicate-free sequence that has exactly the
      elements of `s` and lists them in first-occurrence order. */
  lemma DistinctCharacterized<T>(s: seq<T>, t: seq<T>)
    ensures t == Distinct(s) <==>
      && NoDuplicates(t)
      && (forall x :: x in t <==> x in s)
      && InFirstOccurrenceOrder(s, t)
  {
    DistinctKeepsFirstOccurrenceOrder(s);
    if NoDuplicates(t) && (forall x :: x in t <==> x in s) && InFirstOccurrenceOrder(s, t) {
      FirstOccurrenceOrderUnique(s, t, Distinct(s));
    }
  }

  /** A sequence that repeats one element deduplicates to that element alone. */
  lemma {:induction false} DistinctOfRepeated<T>(s: seq<T>)
    requires |s| > 0 && forall i :: 0 <= i < |s| ==> s[i] == s[0]
    ensures Distinct(s) == [s[0]]
    decreases |s|
  {
    if |s| > 1 {
      var init := s[..|s| - 1];
      assert init[0] == s[0];
      DistinctOfRepeated(init);
    }
  }

  /** Deduplication in one pass with a set of rows already seen. */
  method DistinctBySeen<T(==)>(s: seq<T>) returns (r: seq<T>)
    ensures r == Distinct(s)
  {
    var seen: set<T> := {};
    r := [];
    for i := 0 to |s|
      invariant r == Distinct(s[..i])
      invariant forall x :: x in seen <==> x in r
    {
      assert s[..i + 1][..i] == s[..i];
      if s[i] !in seen {
        r := r + [s[i]];
        seen := seen + {s[i]};
      }
    }
    assert s[..|s|] == s;
  }
}
