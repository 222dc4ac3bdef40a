/**
 * Parent -> child bookkeeping: the full rebuild (buildChild) and the
 * incremental, order-preserving move of one unit (updateChildList).
 */
module ChildLists {
  import opened Heads
  import opened Instance
  import opened Conversion

  /** Every unit of words 1.. has a head that is itself a unit. */
  ghost predicate Attached(inst: DependencyInstance) {
    forall x :: IsAddr(inst, x) && x.hWord >= 1 ==> IsAddr(inst, Dep(inst, x))
  }

  /** x belongs in u's child list: a unit of words 1.. whose head is u. */
  ghost predicate IsChildOf(inst: DependencyInstance, x: HeadIndex, u: HeadIndex) {
    IsAddr(inst, x) && x.hWord >= 1 && Dep(inst, x) == u
  }

  /** Child lists agree with the heads in both directions and are strictly ascending. */
  ghost predicate Consistent(inst: DependencyInstance) {
    forall u {:trigger Child(inst, u)} :: IsAddr(inst, u) ==>
      && StrictlySorted(Child(inst, u))
      && (forall x :: x in Child(inst, u) <==> IsChildOf(inst, x, u))
  }

  /** The units of xs whose head is u, in the order of xs. */
  function DependentsIn(inst: DependencyInstance, xs: seq<HeadIndex>, u: HeadIndex): (r: seq<HeadIndex>)
    requires forall k :: 0 <= k < |xs| ==> IsAddr(inst, xs[k])
    ensures forall x :: x in r <==> x in xs && IsAddr(inst, x) && Dep(inst, x) == u
    ensures StrictlySorted(xs) ==> StrictlySorted(r)
  {
    if |xs| == 0 then []
    else
      assert xs == [xs[0]] + xs[1..];
      var rest := DependentsIn(inst, xs[1..], u);
      assert forall k :: 0 <= k < |rest| ==> rest[k] in rest;
      if Dep(inst, xs[0]) == u then [xs[0]] + rest else rest
  }

  /** The list buildChild gives unit u: its dependents among words 1.., in flat order. */
  function ChildrenOf(inst: DependencyInstance, u: HeadIndex): (r: seq<HeadIndex>)
    requires Shaped(inst)
  {
    UnitsAreAddrs(inst);
    DependentsIn(inst, NonRootUnits(inst), u)
  }

  function RebuildSeg(inst: DependencyInstance, i: int): (r: SegInstance)
    requires Shaped(inst) && 0 <= i < |inst.word|
  {
    var s := CurrSeg(inst.word[i]);
    SegInstance(seq(|s.element|, k requires 0 <= k < |s.element| =>
      s.element[k].(child := ChildrenOf(inst, HeadIndex(i, k)))))
  }

  function RebuildWord(inst: DependencyInstance, i: int): (r: WordInstance)
    requires Shaped(inst) && 0 <= i < |inst.word|
  {
    var w := inst.word[i];
    w.(candSeg := w.candSeg[w.currSegCandID := RebuildSeg(inst, i)])
  }

  /** buildChild(): rebuilds every current unit's child list from the heads. */
  function BuildChild(inst: DependencyInstance): (r: DependencyInstance)
    requires Indexed(inst) && Attached(inst)
    ensures SameButChildren(inst, r)
    ensures Consistent(r)
    ensures forall u, x :: IsAddr(r, u) ==> (x in Child(r, u) <==> IsAddr(inst, x) && x.hWord >= 1 && Dep(inst, x) == u)
    ensures forall u :: IsAddr(r, u) ==> StrictlySorted(Child(r, u))
  {
    var r := inst.(word := seq(|inst.word|, i requires 0 <= i < |inst.word| => RebuildWord(inst, i)));
    BuildChildFacts(inst, r);
    r
  }

  lemma BuildChildFacts(inst: DependencyInstance, r: DependencyInstance)
    requires Shaped(inst)
    requires r == inst.(word := seq(|inst.word|, i requires 0 <= i < |inst.word| => RebuildWord(inst, i)))
    ensures SameButChildren(inst, r)
    ensures Consistent(r)
    ensures forall u :: IsAddr(r, u) ==> Child(r, u) == ChildrenOf(inst, u)
  {
    forall i | 0 <= i < |inst.word|
      ensures WordSkeleton(inst.word[i], r.word[i])
    {
      assert r.word[i] == RebuildWord(inst, i);
    }
    assert SameSkeleton(inst, r);
    SkeletonShape(inst, r);
    forall u | IsAddr(r, u)
      ensures Dep(r, u) == Dep(inst, u) && Child(r, u) == ChildrenOf(inst, u)
    {
      assert r.word[u.hWord] == RebuildWord(inst, u.hWord);
    }
    UnitsAreAddrs(inst);
    forall u | IsAddr(r, u)
      ensures StrictlySorted(Child(r, u))
      ensures forall x :: x in Child(r, u) <==> IsChildOf(r, x, u)
    {
      forall x
        ensures x in Child(r, u) <==> IsChildOf(r, x, u)
      {
        if x in Child(r, u) {
          assert x in NonRootUnits(inst);
        }
        if IsChildOf(r, x, u) {
          assert x in NonRootUnits(inst);
        }
      }
    }
  }

  /** Child lists are determined by the heads: two consistent instances that differ only in child lists are equal. */
  lemma ConsistentUnique(a: DependencyInstance, b: DependencyInstance)
    requires Consistent(a) && Consistent(b) && SameButChildren(a, b)
    ensures a == b
  {
    SkeletonShape(a, b);
    forall u | IsAddr(a, u)
      ensures Child(a, u) == Child(b, u)
    {
      forall x
        ensures x in Child(a, u) <==> x in Child(b, u)
      {
        assert IsChildOf(a, x, u) <==> IsChildOf(b, x, u);
      }
      StrictlySortedUnique(Child(a, u), Child(b, u));
    }
    SkeletonExtensional(a, b);
  }

  /** buildChild() twice in a row gives the same child lists as once. */
  lemma BuildChildIdempotent(inst: DependencyInstance)
    requires Indexed(inst) && Attached(inst)
    ensures Indexed(BuildChild(inst)) && Attached(BuildChild(inst))
    ensures BuildChild(BuildChild(inst)) == BuildChild(inst)
  {
    var b1 := BuildChild(inst);
    ChildrenOnlyKeeps(inst, b1);
    var b2 := BuildChild(b1);
    ConsistentUnique(b2, b1);
  }

  /** Changing only child lists keeps the flat tables valid and every head of words 1.. a unit. */
  lemma ChildrenOnlyKeeps(a: DependencyInstance, b: DependencyInstance)
    requires SameButChildren(a, b) && Indexed(a) && Attached(a)
    ensures Indexed(b) && Attached(b)
  {
    SkeletonShape(a, b);
  }

  /** On a consistent instance buildChild() changes nothing. */
  lemma BuildChildOfConsistent(inst: DependencyInstance)
    requires Indexed(inst) && Attached(inst) && Consistent(inst)
    ensures BuildChild(inst) == inst
  {
    ConsistentUnique(BuildChild(inst), inst);
  }

  /**
   * updateChildList(newH, oldH, arg): removes arg from oldH's list, then inserts
   * it into newH's list (read after the removal) before the first greater entry.
   */
  function UpdateChildList(inst: DependencyInstance, newH: HeadIndex, oldH: HeadIndex, arg: HeadIndex): (r: DependencyInstance)
    requires IsAddr(inst, arg) && IsAddr(inst, newH) && IsAddr(inst, oldH)
    requires Dep(inst, arg) == newH
    requires multiset(Child(inst, oldH))[arg] == 1
    ensures SameButChildren(inst, r)
    ensures forall x :: IsAddr(r, x) <==> IsAddr(inst, x)
    ensures forall x :: IsAddr(inst, x) && x != newH && x != oldH ==> Child(r, x) == Child(inst, x)
    ensures newH != oldH ==> multiset(Child(r, oldH)) == multiset(Child(inst, oldH)) - multiset{arg}
    ensures newH != oldH ==> multiset(Child(r, newH)) == multiset(Child(inst, newH)) + multiset{arg}
    ensures newH == oldH ==> multiset(Child(r, oldH)) == multiset(Child(inst, oldH))
  {
    var removed := Remove(Child(inst, oldH), arg);
    var into := if newH == oldH then removed else Child(inst, newH);
    SetChildTwice(inst, oldH, removed, newH, Insert(into, arg));
    MoveCounts(Child(inst, oldH), arg);
    SetChild(SetChild(inst, oldH, removed), newH, Insert(into, arg))
  }

  /** Removing the single copy of arg takes one arg away; putting it back restores the list's members. */
  lemma MoveCounts(list: seq<HeadIndex>, arg: HeadIndex)
    requires multiset(list)[arg] == 1
    ensures multiset(Remove(list, arg)) == multiset(list) - multiset{arg}
    ensures multiset(Insert(Remove(list, arg), arg)) == multiset(list)
  {
    var ms := multiset(list);
    var less := ms - multiset{arg};
    assert ms[arg := 0] == less by {
      forall x
        ensures ms[arg := 0][x] == less[x]
      {
      }
    }
    assert less + multiset{arg} == ms by {
      forall x
        ensures (less + multiset{arg})[x] == ms[x]
      {
      }
    }
  }

  /** The two lists updateChildList touches, spelled out. */
  lemma UpdateChildListLists(inst: DependencyInstance, newH: HeadIndex, oldH: HeadIndex, arg: HeadIndex)
    requires IsAddr(inst, arg) && IsAddr(inst, newH) && IsAddr(inst, oldH)
    requires Dep(inst, arg) == newH
    requires multiset(Child(inst, oldH))[arg] == 1
    ensures newH != oldH ==> Child(UpdateChildList(inst, newH, oldH, arg), oldH) == Remove(Child(inst, oldH), arg)
    ensures newH != oldH ==> Child(UpdateChildList(inst, newH, oldH, arg), newH) == Insert(Child(inst, newH), arg)
    ensures newH == oldH ==> Child(UpdateChildList(inst, newH, oldH, arg), oldH) == Insert(Remove(Child(inst, oldH), arg), arg)
  {
    var removed := Remove(Child(inst, oldH), arg);
    var into := if newH == oldH then removed else Child(inst, newH);
    SetChildTwice(inst, oldH, removed, newH, Insert(into, arg));
  }

  /**
   * Neither list loses its order: the removal keeps the rest in place, the
   * insertion lands before the first greater entry, and moving arg within a
   * strictly ascending list leaves it as it was.
   */
  lemma UpdateChildListKeepsOrder(inst: DependencyInstance, newH: HeadIndex, oldH: HeadIndex, arg: HeadIndex)
    requires IsAddr(inst, arg) && IsAddr(inst, newH) && IsAddr(inst, oldH)
    requires Dep(inst, arg) == newH
    requires multiset(Child(inst, oldH))[arg] == 1
    ensures newH != oldH && Sorted(Child(inst, oldH)) ==> Sorted(Child(UpdateChildList(inst, newH, oldH, arg), oldH))
    ensures newH != oldH && Sorted(Child(inst, newH)) ==> Sorted(Child(UpdateChildList(inst, newH, oldH, arg), newH))
    ensures newH != oldH && StrictlySorted(Child(inst, newH)) && arg !in Child(inst, newH)
      ==> StrictlySorted(Child(UpdateChildList(inst, newH, oldH, arg), newH))
    ensures newH == oldH && StrictlySorted(Child(inst, oldH))
      ==> Child(UpdateChildList(inst, newH, oldH, arg), oldH) == Child(inst, oldH)
  {
    UpdateChildListLists(inst, newH, oldH, arg);
    RemoveKeepsOrder(Child(inst, oldH), arg);
    InsertKeepsOrder(Child(inst, newH), arg);
    if newH == oldH && StrictlySorted(Child(inst, oldH)) {
      assert arg in multiset(Child(inst, oldH));
      InsertAfterRemove(Child(inst, oldH), arg);
    }
  }

  /**
   * Moving arg from oldH to newH (its head already set to newH) turns child lists
   * consistent with the old head into lists consistent with the new one.
   */
  lemma UpdateChildListConsistent(inst: DependencyInstance, newH: HeadIndex, oldH: HeadIndex, arg: HeadIndex)
    requires IsAddr(inst, arg) && arg.hWord >= 1 && IsAddr(inst, newH) && IsAddr(inst, oldH)
    requires Dep(inst, arg) == newH
    requires Consistent(SetDep(inst, arg, oldH))
    ensures multiset(Child(inst, oldH))[arg] == 1
    ensures Consistent(UpdateChildList(inst, newH, oldH, arg))
  {
    var c := SetDep(inst, arg, oldH);
    assert IsChildOf(c, arg, oldH);
    assert Child(c, oldH) == Child(inst, oldH);
    StrictlySortedCount(Child(inst, oldH), arg);
    var r := UpdateChildList(inst, newH, oldH, arg);
    UpdateChildListLists(inst, newH, oldH, arg);
    SkeletonShape(inst, r);
    forall u | IsAddr(r, u)
      ensures StrictlySorted(Child(r, u))
      ensures forall x :: x in Child(r, u) <==> IsChildOf(r, x, u)
    {
      ConsistentList(inst, newH, oldH, arg, u);
    }
  }

  /** After arg's head moves from oldH to newH, only arg changes which list it belongs in. */
  lemma ChildOfAfterMove(inst: DependencyInstance, r: DependencyInstance, newH: HeadIndex, oldH: HeadIndex, arg: HeadIndex)
    requires IsAddr(inst, arg) && arg.hWord >= 1
    requires Dep(inst, arg) == newH
    requires SameButChildren(inst, r)
    ensures forall x, u :: IsChildOf(r, x, u) <==>
      (x != arg && IsChildOf(SetDep(inst, arg, oldH), x, u)) || (x == arg && u == newH)
  {
    SkeletonShape(inst, r);
    SkeletonShape(inst, SetDep(inst, arg, oldH));
  }

  lemma ConsistentList(inst: DependencyInstance, newH: HeadIndex, oldH: HeadIndex, arg: HeadIndex, u: HeadIndex)
    requires IsAddr(inst, arg) && arg.hWord >= 1 && IsAddr(inst, newH) && IsAddr(inst, oldH) && IsAddr(inst, u)
    requires Dep(inst, arg) == newH
    requires Consistent(SetDep(inst, arg, oldH))
    requires multiset(Child(inst, oldH))[arg] == 1
    ensures IsAddr(UpdateChildList(inst, newH, oldH, arg), u)
    ensures StrictlySorted(Child(UpdateChildList(inst, newH, oldH, arg), u))
    ensures forall x ::
      x in Child(UpdateChildList(inst, newH, oldH, arg), u) <==> IsChildOf(UpdateChildList(inst, newH, oldH, arg), x, u)
  {
    var c := SetDep(inst, arg, oldH);
    var r := UpdateChildList(inst, newH, oldH, arg);
    UpdateChildListLists(inst, newH, oldH, arg);
    ChildOfAfterMove(inst, r, newH, oldH, arg);
    assert IsAddr(c, u);
    var before := Child(inst, u);
    assert Child(c, u) == before;
    assert StrictlySorted(before) && forall x :: x in before <==> IsChildOf(c, x, u);
    var after := Child(r, u);
    if u == oldH {
      RemoveMembers(before, arg);
      RemoveKeepsOrder(before, arg);
      if newH == oldH {
        InsertAfterRemove(before, arg);
      }
    } else if u == newH {
      assert arg !in before by {
        assert !IsChildOf(c, arg, u);
      }
      InsertMembers(before, arg);
      InsertKeepsOrder(before, arg);
    } else {
      assert after == before;
    }
  }
}
