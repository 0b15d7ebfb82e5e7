/** Facts about sequences shared by the statistics model: duplicate-freedom, order,
    first and last positions, and first-occurrence de-duplication (the key order of a
    Python dict filled by a loop). */
module Seqs {

  predicate NoDups<T(==)>(s: seq<T>) {
    forall i, j :: 0 <= i < j < |s| ==> s[i] != s[j]
  }

  predicate Sorted(s: seq<int>) {
    forall i, j :: 0 <= i < j < |s| ==> s[i] <= s[j]
  }

  predicate StrictlyIncreasing(s: seq<int>) {
    forall i, j :: 0 <= i < j < |s| ==> s[i] < s[j]
  }

  /** Position of the first occurrence of `x` in `s`. */
  function IndexOf<T(==)>(s: seq<T>, x: T): (i: nat)
    requires x in s
    ensures i < |s| && s[i] == x
    ensures forall j :: 0 <= j < i ==> s[j] != x
  {
    if s[0] == x then 0 else 1 + IndexOf(s[1..], x)
  }

  /** Position of the last occurrence of `x` in `s`. */
  function LastIndex<T(==)>(s: seq<T>, x: T): (i: nat)
    requires x in s
    ensures i < |s| && s[i] == x
    ensures forall j :: i < j < |s| ==> s[j] != x
  {
    if s[|s| - 1] == x then |s| - 1 else LastIndex(s[..|s| - 1], x)
  }

  /** The last occurrence is the one with no occurrence after it. */
  lemma LastIndexUnique<T>(s: seq<T>, x: T, i: nat)
    requires i < |s| && s[i] == x
    requires forall j :: i < j < |s| ==> s[j] != x
    ensures LastIndex(s, x) == i
  {
    var li := LastIndex(s, x);
    assert s[li] == x;
  }

  /** Extending a sequence does not move the first occurrence of an element it already had. */
  lemma IndexOfPrefix<T>(s: seq<T>, n: nat, x: T)
    requires n <= |s| && x in s[..n]
    ensures IndexOf(s, x) == IndexOf(s[..n], x)
  {
    var b := IndexOf(s[..n], x);
    assert s[b] == x;
    assert forall j :: 0 <= j < b ==> s[j] == s[..n][j];
  }

  /** The distinct elements of `s`, each kept at its first occurrence. */
  function Dedup<T(==)>(s: seq<T>): (r: seq<T>)
    ensures NoDups(r)
    ensures forall i :: 0 <= i < |r| ==> r[i] in s
    ensures forall i :: 0 <= i < |s| ==> s[i] in r
  {
    if s == [] then []
    else
      var p := Dedup(s[..|s| - 1]);
      if s[|s| - 1] in s[..|s| - 1] then p else p + [s[|s| - 1]]
  }

  /** `Dedup` lists the elements in the order of their first occurrence. */
  lemma {:induction false} DedupFirstOccurrenceOrder<T>(s: seq<T>)
    ensures forall i, j :: 0 <= i < j < |Dedup(s)| ==> IndexOf(s, Dedup(s)[i]) < IndexOf(s, Dedup(s)[j])
  {
    if s != [] {
      var n := |s| - 1;
      var pre := s[..n];
      var p := Dedup(pre);
      DedupFirstOccurrenceOrder(pre);
      var r := Dedup(s);
      forall i, j | 0 <= i < j < |r|
        ensures IndexOf(s, r[i]) < IndexOf(s, r[j])
      {
        assert r[i] in pre by { assert r[i] == p[i]; }
        IndexOfPrefix(s, n, r[i]);
        if j < |p| {
          assert r[j] == p[j];
          IndexOfPrefix(s, n, r[j]);
        } else {
          assert r[j] == s[n] && s[n] !in pre;
          assert forall k :: 0 <= k < n ==> s[k] == pre[k];
          assert IndexOf(s, r[j]) == n;
        }
      }
    }
  }

  /** On a sorted sequence the distinct elements come out strictly increasing. */
  lemma {:induction false} DedupOfSortedIncreasing(s: seq<int>)
    requires Sorted(s)
    ensures StrictlyIncreasing(Dedup(s))
  {
    if s != [] {
      var n := |s| - 1;
      var pre := s[..n];
      DedupOfSortedIncreasing(pre);
      var p := Dedup(pre);
      if s[n] !in pre {
        forall i | 0 <= i < |p|
          ensures p[i] < s[n]
        {
          assert p[i] in pre;
          var k :| 0 <= k < n && pre[k] == p[i];
          assert s[k] <= s[n];
        }
      }
    }
  }
}
