/** `diffSets` and `diffArraysWithSets`: the added / removed / common parts
    of two JavaScript `Set`s. A `Set` is its insertion-ordered sequence of
    distinct elements, so the order of each part is modelled too. */
module ArrayDiff {
  import opened Seqs

  datatype Diff<T> = Diff(added: seq<T>, removed: seq<T>, common: seq<T>)

  /** The elements of `s`, in order, whose membership in `other` is
      `member`. */
  function Retain<T(==)>(s: seq<T>, other: seq<T>, member: bool): (r: seq<T>)
    ensures |r| <= |s|
  {
    if s == [] then []
    else (if (s[0] in other) == member then [s[0]] else []) + Retain(s[1..], other, member)
  }

  /** Reference definition: each part is a filter of `curr` or `prev`, so it
      keeps that set's iteration order. */
  function SetDiff<T(==)>(prev: seq<T>, curr: seq<T>): Diff<T> {
    Diff(Retain(curr, prev, false), Retain(prev, curr, false), Retain(curr, prev, true))
  }

  /** added = curr \ prev, common = curr ∩ prev, removed = prev \ curr; the
      three parts are pairwise disjoint, added ∪ common = curr and
      removed ∪ common = prev. */
  lemma SetDiffPartition<T>(prev: seq<T>, curr: seq<T>)
    ensures forall x :: x in SetDiff(prev, curr).added <==> x in curr && x !in prev
    ensures forall x :: x in SetDiff(prev, curr).common <==> x in curr && x in prev
    ensures forall x :: x in SetDiff(prev, curr).removed <==> x in prev && x !in curr
    ensures forall x :: x in SetDiff(prev, curr).added ==> x !in SetDiff(prev, curr).common && x !in SetDiff(prev, curr).removed
    ensures forall x :: x in SetDiff(prev, curr).common ==> x !in SetDiff(prev, curr).removed
    ensures forall x :: x in curr <==> x in SetDiff(prev, curr).added || x in SetDiff(prev, curr).common
    ensures forall x :: x in prev <==> x in SetDiff(prev, curr).removed || x in SetDiff(prev, curr).common
  {
    var d := SetDiff(prev, curr);
    forall x
      ensures x in d.added <==> x in curr && x !in prev
      ensures x in d.common <==> x in curr && x in prev
      ensures x in d.removed <==> x in prev && x !in curr
      ensures x in curr <==> x in d.added || x in d.common
      ensures x in prev <==> x in d.removed || x in d.common
    {
      RetainMembership(curr, prev, false, x);
      RetainMembership(curr, prev, true, x);
      RetainMembership(prev, curr, false, x);
    }
    forall x | x in d.added
      ensures x !in d.common && x !in d.removed
    {
      RetainMembership(curr, prev, false, x);
      RetainMembership(curr, prev, true, x);
      RetainMembership(prev, curr, false, x);
    }
    forall x | x in d.common
      ensures x !in d.removed
    {
      RetainMembership(curr, prev, true, x);
      RetainMembership(prev, curr, false, x);
    }
  }

  lemma {:induction false} RetainMembership<T>(s: seq<T>, other: seq<T>, member: bool, x: T)
    ensures x in Retain(s, other, member) <==> x in s && (x in other) == member
  {
    if s != [] {
      RetainMembership(s[1..], other, member, x);
      assert s == [s[0]] + s[1..];
    }
  }

  lemma {:induction false} RetainConcat<T>(a: seq<T>, b: seq<T>, other: seq<T>, member: bool)
    ensures Retain(a + b, other, member) == Retain(a, other, member) + Retain(b, other, member)
  {
    if a == [] {
      assert a + b == b;
    } else {
      var ab := a + b;
      assert ab[0] == a[0];
      assert ab[1..] == a[1..] + b;
      RetainConcat(a[1..], b, other, member);
      var head := if (a[0] in other) == member then [a[0]] else [];
      assert Retain(ab, other, member) == head + Retain(a[1..] + b, other, member);
      assert Retain(a, other, member) == head + Retain(a[1..], other, member);
    }
  }

  lemma {:induction false} RetainDistinct<T>(s: seq<T>, other: seq<T>, member: bool)
    requires Distinct(s)
    ensures Distinct(Retain(s, other, member))
  {
    if s != [] {
      RetainDistinct(s[1..], other, member);
      RetainMembership(s[1..], other, member, s[0]);
    }
  }

  lemma {:induction false} RetainSelf<T>(s: seq<T>, t: seq<T>)
    requires forall i :: 0 <= i < |t| ==> t[i] in s
    ensures Retain(t, s, true) == t && Retain(t, s, false) == []
  {
    if t != [] {
      RetainSelf(s, t[1..]);
    }
  }

  /** Diffing a set against itself: nothing added or removed, everything
      common, in the set's own order. */
  lemma DiffWithItself<T>(s: seq<T>)
    ensures SetDiff(s, s) == Diff([], [], s)
  {
    RetainSelf(s, s);
  }

  /** `diffSets(prev, curr)`: one pass over `curr` sorting each element into
      common or added, then one pass over `prev` collecting what is not
      common. */
  method DiffSets<T(==)>(prev: seq<T>, curr: seq<T>) returns (d: Diff<T>)
    requires Distinct(prev) && Distinct(curr)
    ensures d == SetDiff(prev, curr)
    ensures Distinct(d.added) && Distinct(d.removed) && Distinct(d.common)
  {
    var added: seq<T> := [];
    var common: seq<T> := [];
    var i := 0;
    while i < |curr|
      invariant 0 <= i <= |curr|
      invariant added == Retain(curr[..i], prev, false)
      invariant common == Retain(curr[..i], prev, true)
    {
      RetainConcat(curr[..i], [curr[i]], prev, false);
      RetainConcat(curr[..i], [curr[i]], prev, true);
      assert curr[..i + 1] == curr[..i] + [curr[i]];
      if curr[i] in prev {
        common := common + [curr[i]];
      } else {
        added := added + [curr[i]];
      }
      i := i + 1;
    }
    assert curr[..i] == curr;
    var removed: seq<T> := [];
    var j := 0;
    while j < |prev|
      invariant 0 <= j <= |prev|
      invariant removed == Retain(prev[..j], curr, false)
    {
      RetainConcat(prev[..j], [prev[j]], curr, false);
      assert prev[..j + 1] == prev[..j] + [prev[j]];
      RetainMembership(curr, prev, true, prev[j]);
      if prev[j] !in common {
        removed := removed + [prev[j]];
      }
      j := j + 1;
    }
    assert prev[..j] == prev;
    d := Diff(added, removed, common);
    RetainDistinct(curr, prev, false);
    RetainDistinct(curr, prev, true);
    RetainDistinct(prev, curr, false);
  }

  /** `diffArraysWithSets(prev, curr)`: both arrays go through `new Set`, so
      duplicates are dropped; added and common follow first occurrence in
      `curr`, removed follows first occurrence in `prev`. */
  method DiffArraysWithSets<T(==)>(prev: seq<T>, curr: seq<T>) returns (d: Diff<T>)
    ensures d == SetDiff(Dedup(prev), Dedup(curr))
    ensures forall x :: x in d.added <==> x in curr && x !in prev
    ensures forall x :: x in d.common <==> x in curr && x in prev
    ensures forall x :: x in d.removed <==> x in prev && x !in curr
    ensures Distinct(d.added) && Distinct(d.removed) && Distinct(d.common)
  {
    var prevSet := Dedup(prev);
    var currSet := Dedup(curr);
    d := DiffSets(prevSet, currSet);
    SetDiffPartition(prevSet, currSet);
    assert forall x :: x in prevSet <==> x in prev;
    assert forall x :: x in currSet <==> x in curr;
  }
}
