/**
 * The (word, segment) address of a unit, its lexicographic order and the
 * sorted child lists kept under that order.
 */
module Heads {

  /** Word position and segment-within-word position; hWord == -1 is "no head". */
  datatype HeadIndex = HeadIndex(hWord: int, hSeg: int)

  /** The "no head" value the source writes as HeadIndex(-1, 0). */
  const Sentinel: HeadIndex := HeadIndex(-1, 0)

  /** The artificial root unit: word 0, segment 0. */
  const Root: HeadIndex := HeadIndex(0, 0)

  /** The source tests for "no head" by looking at hWord alone. */
  predicate IsNone(h: HeadIndex) {
    h.hWord == -1
  }

  /** operator< on HeadIndex: lexicographic on (hWord, hSeg). */
  predicate Less(a: HeadIndex, b: HeadIndex) {
    a.hWord < b.hWord || (a.hWord == b.hWord && a.hSeg < b.hSeg)
  }

  lemma LessIsStrictTotalOrder(a: HeadIndex, b: HeadIndex, c: HeadIndex)
    ensures !Less(a, a)
    ensures Less(a, b) ==> !Less(b, a)
    ensures Less(a, b) && Less(b, c) ==> Less(a, c)
    ensures a != b ==> Less(a, b) || Less(b, a)
  {
  }

  /** Strictly ascending, hence also free of repetitions. */
  predicate StrictlySorted(s: seq<HeadIndex>) {
    forall i, j :: 0 <= i < j < |s| ==> Less(s[i], s[j])
  }

  /** Ascending, repetitions allowed. */
  predicate Sorted(s: seq<HeadIndex>) {
    forall i, j :: 0 <= i < j < |s| ==> !Less(s[j], s[i])
  }

  lemma StrictlySortedIsSorted(s: seq<HeadIndex>)
    requires StrictlySorted(s)
    ensures Sorted(s)
  {
  }

  lemma FirstIn(s: seq<HeadIndex>)
    ensures |s| > 0 ==> s[0] in s
  {
  }

  /** Two strictly sorted lists with the same elements are the same list. */
  lemma {:induction false} StrictlySortedUnique(a: seq<HeadIndex>, b: seq<HeadIndex>)
    requires StrictlySorted(a) && StrictlySorted(b)
    requires forall x :: x in a <==> x in b
    ensures a == b
    decreases |a|
  {
    if |a| == 0 {
      if |b| > 0 {
        FirstIn(b);
        assert false;
      }
    } else if |b| == 0 {
      FirstIn(a);
      assert false;
    } else {
      assert a[0] in b;
      assert b[0] in a;
      var j :| 0 <= j < |b| && b[j] == a[0];
      var i :| 0 <= i < |a| && a[i] == b[0];
      assert !Less(b[0], a[0]);
      assert !Less(a[0], b[0]);
      forall x
        ensures x in a[1..] <==> x in b[1..]
      {
        if x in a[1..] {
          var k :| 1 <= k < |a| && a[k] == x;
          assert Less(a[0], x);
          assert x in b;
        }
        if x in b[1..] {
          var k :| 1 <= k < |b| && b[k] == x;
          assert Less(b[0], x);
          assert x in a;
        }
      }
      StrictlySortedUnique(a[1..], b[1..]);
      assert a == [a[0]] + a[1..];
      assert b == [b[0]] + b[1..];
    }
  }

  /** A strictly sorted list holds each element at most once. */
  lemma {:induction false} StrictlySortedCount(s: seq<HeadIndex>, x: HeadIndex)
    requires StrictlySorted(s)
    ensures multiset(s)[x] == if x in s then 1 else 0
  {
    if |s| > 0 {
      StrictlySortedCount(s[1..], x);
      assert s == [s[0]] + s[1..];
      assert multiset(s) == multiset{s[0]} + multiset(s[1..]);
      if x == s[0] {
        assert forall k :: 1 <= k < |s| ==> Less(s[0], s[k]);
      }
    }
  }

  /** Drops every occurrence of arg, keeping the order of the rest. */
  function Remove(list: seq<HeadIndex>, arg: HeadIndex): (r: seq<HeadIndex>)
    ensures multiset(r) == multiset(list)[arg := 0]
  {
    if |list| == 0 then []
    else
      assert list == [list[0]] + list[1..];
      var rest := Remove(list[1..], arg);
      if list[0] == arg then rest else [list[0]] + rest
  }

  lemma {:induction false} RemoveMembers(list: seq<HeadIndex>, arg: HeadIndex)
    ensures forall x :: x in Remove(list, arg) <==> x in list && x != arg
  {
    if |list| > 0 {
      RemoveMembers(list[1..], arg);
      assert list == [list[0]] + list[1..];
    }
  }

  lemma {:induction false} RemoveKeepsOrder(list: seq<HeadIndex>, arg: HeadIndex)
    ensures Sorted(list) ==> Sorted(Remove(list, arg))
    ensures StrictlySorted(list) ==> StrictlySorted(Remove(list, arg))
  {
    if |list| > 0 {
      RemoveKeepsOrder(list[1..], arg);
      RemoveMembers(list[1..], arg);
      var rest := Remove(list[1..], arg);
      if list[0] != arg {
        forall k | 0 <= k < |rest|
          ensures rest[k] in list[1..]
        {
          assert rest[k] in rest;
        }
      }
    }
  }

  lemma {:induction false} RemoveLength(list: seq<HeadIndex>, arg: HeadIndex)
    ensures |Remove(list, arg)| == |list| - multiset(list)[arg]
  {
    if |list| > 0 {
      RemoveLength(list[1..], arg);
      assert list == [list[0]] + list[1..];
      assert multiset(list) == multiset{list[0]} + multiset(list[1..]);
    }
  }

  /** Inserts arg just before the first element greater than it. */
  function Insert(list: seq<HeadIndex>, arg: HeadIndex): (r: seq<HeadIndex>)
    ensures multiset(r) == multiset(list) + multiset{arg}
  {
    if |list| == 0 then [arg]
    else if Less(arg, list[0]) then [arg] + list
    else
      assert list == [list[0]] + list[1..];
      [list[0]] + Insert(list[1..], arg)
  }

  lemma {:induction false} InsertMembers(list: seq<HeadIndex>, arg: HeadIndex)
    ensures forall x :: x in Insert(list, arg) <==> x in list || x == arg
  {
    if |list| > 0 && !Less(arg, list[0]) {
      InsertMembers(list[1..], arg);
      assert list == [list[0]] + list[1..];
    }
  }

  lemma {:induction false} InsertKeepsOrder(list: seq<HeadIndex>, arg: HeadIndex)
    ensures Sorted(list) ==> Sorted(Insert(list, arg))
    ensures StrictlySorted(list) && arg !in list ==> StrictlySorted(Insert(list, arg))
  {
    if |list| > 0 && !Less(arg, list[0]) {
      InsertKeepsOrder(list[1..], arg);
      InsertMembers(list[1..], arg);
      var rest := Insert(list[1..], arg);
      forall k | 0 <= k < |rest|
        ensures rest[k] in list[1..] || rest[k] == arg
      {
        assert rest[k] in rest;
      }
    }
  }

  /** Taking an element out of a strictly sorted list and putting it back changes nothing. */
  lemma InsertAfterRemove(list: seq<HeadIndex>, arg: HeadIndex)
    requires StrictlySorted(list) && arg in list
    ensures Insert(Remove(list, arg), arg) == list
  {
    RemoveMembers(list, arg);
    RemoveKeepsOrder(list, arg);
    InsertMembers(Remove(list, arg), arg);
    InsertKeepsOrder(Remove(list, arg), arg);
    StrictlySortedUnique(Insert(Remove(list, arg), arg), list);
  }
}
