/**
 * The sentence data model: words with candidate segmentations, segmentation
 * units (elements) with POS candidates, a head and a child list, and the flat
 * prefix-sum tables that index units across the sentence.
 */
module Instance {
  import opened Heads

  /** One segmentation unit. candPosId and candProb are aligned; currPos indexes them. */
  datatype SegElement = SegElement(
    candPosId: seq<int>,
    candProb: seq<real>,
    currPos: int,
    dep: HeadIndex,
    child: seq<HeadIndex>)

  /** One candidate segmentation of a word. */
  datatype SegInstance = SegInstance(element: seq<SegElement>)

  /**
   * One input token. inMap[old * |candSeg| + new][j] is the old element that new
   * element j descends from; outMap[old * |candSeg| + new][k] is the new element
   * that old element k goes to.
   */
  datatype WordInstance = WordInstance(
    candSeg: seq<SegInstance>,
    currSegCandID: int,
    optPosCount: int,
    inMap: seq<seq<int>>,
    outMap: seq<seq<int>>)

  /** The sentence; word 0 is the artificial root. */
  datatype DependencyInstance = DependencyInstance(
    word: seq<WordInstance>,
    numSeg: seq<int>,
    seg2Word: seq<int>,
    optSegCount: int)

  predicate HasCurrSeg(w: WordInstance) {
    0 <= w.currSegCandID < |w.candSeg|
  }

  /** getCurrSeg() */
  function CurrSeg(w: WordInstance): SegInstance
    requires HasCurrSeg(w)
  {
    w.candSeg[w.currSegCandID]
  }

  function SegSize(w: WordInstance): nat
    requires HasCurrSeg(w)
  {
    |CurrSeg(w).element|
  }

  /** Every word's current candidate index is in range. */
  predicate Shaped(inst: DependencyInstance) {
    forall i :: 0 <= i < |inst.word| ==> HasCurrSeg(inst.word[i])
  }

  /** The current segmentation size of every word. */
  function Sizes(inst: DependencyInstance): (r: seq<nat>)
    requires Shaped(inst)
    ensures |r| == |inst.word|
    ensures forall i :: 0 <= i < |r| ==> r[i] == SegSize(inst.word[i])
  {
    seq(|inst.word|, i requires 0 <= i < |inst.word| => SegSize(inst.word[i]))
  }

  /** Sum of a sequence of sizes, accumulated from the back. */
  function Total(s: seq<nat>): nat
  {
    if |s| == 0 then 0 else Total(s[..|s| - 1]) + s[|s| - 1]
  }

  lemma TotalStep(s: seq<nat>, k: nat)
    requires k < |s|
    ensures Total(s[..k + 1]) == Total(s[..k]) + s[k]
  {
    assert s[..k + 1][..k] == s[..k];
  }

  lemma {:induction false} TotalMonotone(s: seq<nat>, i: nat, j: nat)
    requires i <= j <= |s|
    ensures Total(s[..i]) <= Total(s[..j])
    decreases j - i
  {
    if i < j {
      TotalStep(s, j - 1);
      TotalMonotone(s, i, j - 1);
    }
  }

  lemma TotalMonotoneAll(s: seq<nat>)
    ensures forall i, j :: 0 <= i <= j <= |s| ==> Total(s[..i]) <= Total(s[..j])
  {
    forall i, j | 0 <= i <= j <= |s|
      ensures Total(s[..i]) <= Total(s[..j])
    {
      TotalMonotone(s, i, j);
    }
  }

  /** h names a unit of the current segmentation of its word. */
  predicate IsAddr(inst: DependencyInstance, h: HeadIndex) {
    && 0 <= h.hWord < |inst.word|
    && HasCurrSeg(inst.word[h.hWord])
    && 0 <= h.hSeg < SegSize(inst.word[h.hWord])
  }

  /** getElement(h) */
  function GetElement(inst: DependencyInstance, h: HeadIndex): SegElement
    requires IsAddr(inst, h)
  {
    CurrSeg(inst.word[h.hWord]).element[h.hSeg]
  }

  function Dep(inst: DependencyInstance, h: HeadIndex): HeadIndex
    requires IsAddr(inst, h)
  {
    GetElement(inst, h).dep
  }

  function Child(inst: DependencyInstance, h: HeadIndex): seq<HeadIndex>
    requires IsAddr(inst, h)
  {
    GetElement(inst, h).child
  }

  /** An element with its tree fields blanked. */
  function Bare(e: SegElement): SegElement {
    e.(dep := Sentinel, child := [])
  }

  predicate SegSkeleton(s: SegInstance, t: SegInstance) {
    && |s.element| == |t.element|
    && forall k :: 0 <= k < |s.element| ==> Bare(s.element[k]) == Bare(t.element[k])
  }

  predicate WordSkeleton(v: WordInstance, w: WordInstance) {
    && v.currSegCandID == w.currSegCandID
    && v.optPosCount == w.optPosCount
    && v.inMap == w.inMap
    && v.outMap == w.outMap
    && |v.candSeg| == |w.candSeg|
    && (forall j :: 0 <= j < |v.candSeg| && j != v.currSegCandID ==> v.candSeg[j] == w.candSeg[j])
    && (HasCurrSeg(v) ==> SegSkeleton(CurrSeg(v), CurrSeg(w)))
  }

  /** a and b agree on everything except the heads and child lists of current units. */
  predicate SameSkeleton(a: DependencyInstance, b: DependencyInstance) {
    && |a.word| == |b.word|
    && a.numSeg == b.numSeg
    && a.seg2Word == b.seg2Word
    && a.optSegCount == b.optSegCount
    && forall i :: 0 <= i < |a.word| ==> WordSkeleton(a.word[i], b.word[i])
  }

  /** a and b give every unit the same head. */
  ghost predicate SameDeps(a: DependencyInstance, b: DependencyInstance) {
    forall x :: IsAddr(a, x) && IsAddr(b, x) ==> Dep(a, x) == Dep(b, x)
  }

  /** a and b differ at most in the child lists of current units. */
  ghost predicate SameButChildren(a: DependencyInstance, b: DependencyInstance) {
    SameSkeleton(a, b) && SameDeps(a, b)
  }

  lemma SkeletonShape(a: DependencyInstance, b: DependencyInstance)
    requires SameSkeleton(a, b)
    ensures Shaped(a) <==> Shaped(b)
    ensures Shaped(a) ==> Sizes(a) == Sizes(b)
    ensures forall x :: IsAddr(a, x) <==> IsAddr(b, x)
    ensures forall x :: IsAddr(a, x) ==> Bare(GetElement(a, x)) == Bare(GetElement(b, x))
  {
    assert forall i :: 0 <= i < |a.word| ==> WordSkeleton(a.word[i], b.word[i]);
  }

  lemma SkeletonSymmetric(a: DependencyInstance, b: DependencyInstance)
    requires SameSkeleton(a, b)
    ensures SameSkeleton(b, a)
  {
    forall i | 0 <= i < |a.word|
      ensures WordSkeleton(b.word[i], a.word[i])
    {
      assert WordSkeleton(a.word[i], b.word[i]);
    }
  }

  lemma SkeletonTransitive(a: DependencyInstance, b: DependencyInstance, c: DependencyInstance)
    requires SameSkeleton(a, b) && SameSkeleton(b, c)
    ensures SameSkeleton(a, c)
  {
    forall i | 0 <= i < |a.word|
      ensures WordSkeleton(a.word[i], c.word[i])
    {
      assert WordSkeleton(a.word[i], b.word[i]);
      assert WordSkeleton(b.word[i], c.word[i]);
    }
  }

  lemma SameButChildrenTransitive(a: DependencyInstance, b: DependencyInstance, c: DependencyInstance)
    requires SameButChildren(a, b) && SameButChildren(b, c)
    ensures SameButChildren(a, c)
  {
    SkeletonTransitive(a, b, c);
    SkeletonShape(a, b);
    SkeletonShape(b, c);
  }

  /** Two instances with the same skeleton, heads and child lists are equal. */
  lemma SkeletonExtensional(a: DependencyInstance, b: DependencyInstance)
    requires SameSkeleton(a, b) && SameDeps(a, b)
    requires forall x :: IsAddr(a, x) ==> Child(a, x) == Child(b, x)
    ensures a == b
  {
    SkeletonShape(a, b);
    forall i | 0 <= i < |a.word|
      ensures a.word[i] == b.word[i]
    {
      var v, w := a.word[i], b.word[i];
      assert WordSkeleton(v, w);
      if HasCurrSeg(v) {
        var c := v.currSegCandID;
        forall k | 0 <= k < SegSize(v)
          ensures CurrSeg(v).element[k] == CurrSeg(w).element[k]
        {
          var x := HeadIndex(i, k);
          assert IsAddr(a, x) && IsAddr(b, x);
          assert Dep(a, x) == Dep(b, x);
          assert Child(a, x) == Child(b, x);
          assert Bare(CurrSeg(v).element[k]) == Bare(CurrSeg(w).element[k]);
        }
        assert CurrSeg(v).element == CurrSeg(w).element;
        assert v.candSeg[c] == w.candSeg[c];
        assert v.candSeg == w.candSeg;
      } else {
        assert v.candSeg == w.candSeg;
      }
    }
    assert a.word == b.word;
  }

  /** Overwrites the element at address h. */
  function SetElement(inst: DependencyInstance, h: HeadIndex, e: SegElement): (r: DependencyInstance)
    requires IsAddr(inst, h)
    ensures |r.word| == |inst.word|
    ensures r.numSeg == inst.numSeg && r.seg2Word == inst.seg2Word && r.optSegCount == inst.optSegCount
    ensures forall i :: 0 <= i < |inst.word| && i != h.hWord ==> r.word[i] == inst.word[i]
    ensures forall x :: IsAddr(r, x) <==> IsAddr(inst, x)
    ensures Shaped(r) <==> Shaped(inst)
    ensures Shaped(inst) ==> Sizes(r) == Sizes(inst)
    ensures GetElement(r, h) == e
    ensures forall x :: IsAddr(inst, x) && x != h ==> GetElement(r, x) == GetElement(inst, x)
    ensures Bare(e) == Bare(GetElement(inst, h)) ==> SameSkeleton(inst, r)
  {
    var w := inst.word[h.hWord];
    var s := CurrSeg(w);
    var w' := w.(candSeg := w.candSeg[w.currSegCandID := SegInstance(s.element[h.hSeg := e])]);
    var r := inst.(word := inst.word[h.hWord := w']);
    assert forall i :: 0 <= i < |inst.word| && i != h.hWord ==> r.word[i] == inst.word[i];
    assert Bare(e) == Bare(GetElement(inst, h)) ==> WordSkeleton(inst.word[h.hWord], w');
    r
  }

  /** Points unit h at head d. */
  function SetDep(inst: DependencyInstance, h: HeadIndex, d: HeadIndex): (r: DependencyInstance)
    requires IsAddr(inst, h)
    ensures SameSkeleton(inst, r)
    ensures forall x :: IsAddr(r, x) <==> IsAddr(inst, x)
    ensures Dep(r, h) == d
    ensures forall x :: IsAddr(inst, x) && x != h ==> Dep(r, x) == Dep(inst, x)
    ensures forall x :: IsAddr(inst, x) ==> Child(r, x) == Child(inst, x)
  {
    SetElement(inst, h, GetElement(inst, h).(dep := d))
  }

  /** Replaces the child list of unit h. */
  function SetChild(inst: DependencyInstance, h: HeadIndex, c: seq<HeadIndex>): (r: DependencyInstance)
    requires IsAddr(inst, h)
    ensures SameButChildren(inst, r)
    ensures forall x :: IsAddr(r, x) <==> IsAddr(inst, x)
    ensures Child(r, h) == c
    ensures forall x :: IsAddr(inst, x) && x != h ==> Child(r, x) == Child(inst, x)
  {
    SetElement(inst, h, GetElement(inst, h).(child := c))
  }

  /** Two child-list replacements in a row touch only those two lists. */
  lemma SetChildTwice(inst: DependencyInstance, h1: HeadIndex, c1: seq<HeadIndex>, h2: HeadIndex, c2: seq<HeadIndex>)
    requires IsAddr(inst, h1) && IsAddr(inst, h2)
    ensures IsAddr(SetChild(inst, h1, c1), h2)
    ensures SameButChildren(inst, SetChild(SetChild(inst, h1, c1), h2, c2))
    ensures forall x :: IsAddr(SetChild(SetChild(inst, h1, c1), h2, c2), x) <==> IsAddr(inst, x)
    ensures Child(SetChild(SetChild(inst, h1, c1), h2, c2), h2) == c2
    ensures h1 != h2 ==> Child(SetChild(SetChild(inst, h1, c1), h2, c2), h1) == c1
    ensures forall x :: IsAddr(inst, x) && x != h1 && x != h2 ==>
      Child(SetChild(SetChild(inst, h1, c1), h2, c2), x) == Child(inst, x)
  {
    var mid := SetChild(inst, h1, c1);
    var r := SetChild(mid, h2, c2);
    SameButChildrenTransitive(inst, mid, r);
    forall x | IsAddr(inst, x) && x != h1 && x != h2
      ensures Child(r, x) == Child(inst, x)
    {
      assert IsAddr(mid, x);
    }
  }

  /** Re-pointing a unit at the head it already had changes nothing. */
  lemma SetDepSame(inst: DependencyInstance, h: HeadIndex)
    requires IsAddr(inst, h)
    ensures SetDep(inst, h, Dep(inst, h)) == inst
  {
    var r := SetDep(inst, h, Dep(inst, h));
    SkeletonExtensional(r, inst);
  }

  /** A second re-pointing of the same unit overrides the first. */
  lemma SetDepTwice(inst: DependencyInstance, h: HeadIndex, a: HeadIndex, b: HeadIndex)
    requires IsAddr(inst, h)
    ensures SetDep(SetDep(inst, h, a), h, b) == SetDep(inst, h, b)
  {
    var mid := SetDep(inst, h, a);
    var r1 := SetDep(mid, h, b);
    var r2 := SetDep(inst, h, b);
    SkeletonTransitive(inst, mid, r1);
    SkeletonSymmetric(inst, r1);
    SkeletonTransitive(r1, inst, r2);
    SkeletonExtensional(r1, r2);
  }

  /** The units of word w, in segment order. */
  function Row(w: int, n: nat): (r: seq<HeadIndex>)
    ensures |r| == n
    ensures forall j :: 0 <= j < n ==> r[j] == HeadIndex(w, j)
  {
    seq(n, j => HeadIndex(w, j))
  }

  /** The units of words i, i+1, ... in flat (word-major) order. */
  function UnitsFrom(sizes: seq<nat>, i: nat): seq<HeadIndex>
    decreases |sizes| - i
  {
    if i >= |sizes| then [] else Row(i, sizes[i]) + UnitsFrom(sizes, i + 1)
  }

  /** All units of the sentence in flat order. */
  function Units(inst: DependencyInstance): seq<HeadIndex>
    requires Shaped(inst)
  {
    UnitsFrom(Sizes(inst), 0)
  }

  /** Units of words 1 .. numWord-1 in flat order: every unit that gets a head. */
  function NonRootUnits(inst: DependencyInstance): seq<HeadIndex>
    requires Shaped(inst)
  {
    UnitsFrom(Sizes(inst), 1)
  }

  lemma {:induction false} UnitsFromMembers(sizes: seq<nat>, i: nat)
    ensures forall x :: x in UnitsFrom(sizes, i) <==> i <= x.hWord < |sizes| && 0 <= x.hSeg < sizes[x.hWord]
    decreases |sizes| - i
  {
    if i < |sizes| {
      UnitsFromMembers(sizes, i + 1);
      var row := Row(i, sizes[i]);
      forall x
        ensures x in row <==> x.hWord == i && 0 <= x.hSeg < sizes[i]
      {
        if x.hWord == i && 0 <= x.hSeg < sizes[i] {
          assert row[x.hSeg] == x;
        }
      }
    }
  }

  lemma {:induction false} UnitsFromSorted(sizes: seq<nat>, i: nat)
    ensures StrictlySorted(UnitsFrom(sizes, i))
    decreases |sizes| - i
  {
    if i < |sizes| {
      UnitsFromSorted(sizes, i + 1);
      UnitsFromMembers(sizes, i + 1);
      var row := Row(i, sizes[i]);
      var rest := UnitsFrom(sizes, i + 1);
      var all := row + rest;
      forall a, b | 0 <= a < b < |all|
        ensures Less(all[a], all[b])
      {
        if b >= |row| && a < |row| {
          assert all[b] == rest[b - |row|];
          assert rest[b - |row|] in rest;
        }
        if a >= |row| {
          assert all[a] == rest[a - |row|] && all[b] == rest[b - |row|];
        }
      }
    }
  }

  lemma {:induction false} UnitsFromLength(sizes: seq<nat>, i: nat)
    requires i <= |sizes|
    ensures |UnitsFrom(sizes, i)| == Total(sizes) - Total(sizes[..i])
    decreases |sizes| - i
  {
    if i < |sizes| {
      UnitsFromLength(sizes, i + 1);
      TotalStep(sizes, i);
      TotalMonotone(sizes, i + 1, |sizes|);
    }
    assert sizes[..|sizes|] == sizes;
  }

  /** The unit at flat position k (counted from word i) is the k-th unit. */
  lemma {:induction false} UnitsFromAt(sizes: seq<nat>, i: nat, x: HeadIndex)
    requires i <= x.hWord < |sizes| && 0 <= x.hSeg < sizes[x.hWord]
    ensures 0 <= Total(sizes[..x.hWord]) - Total(sizes[..i]) + x.hSeg < |UnitsFrom(sizes, i)|
    ensures UnitsFrom(sizes, i)[Total(sizes[..x.hWord]) - Total(sizes[..i]) + x.hSeg] == x
    decreases |sizes| - i
  {
    var row := Row(i, sizes[i]);
    var rest := UnitsFrom(sizes, i + 1);
    assert UnitsFrom(sizes, i) == row + rest;
    if x.hWord == i {
      assert row[x.hSeg] == x;
    } else {
      UnitsFromAt(sizes, i + 1, x);
      TotalStep(sizes, i);
      var j := Total(sizes[..x.hWord]) - Total(sizes[..i + 1]) + x.hSeg;
      assert 0 <= j < |rest| && rest[j] == x;
      assert Total(sizes[..x.hWord]) - Total(sizes[..i]) + x.hSeg == |row| + j;
    }
  }

  lemma UnitsAreAddrs(inst: DependencyInstance)
    requires Shaped(inst)
    ensures forall x :: x in Units(inst) <==> IsAddr(inst, x)
    ensures forall x :: x in NonRootUnits(inst) <==> IsAddr(inst, x) && x.hWord >= 1
    ensures StrictlySorted(Units(inst)) && StrictlySorted(NonRootUnits(inst))
  {
    UnitsFromMembers(Sizes(inst), 0);
    UnitsFromMembers(Sizes(inst), 1);
    UnitsFromSorted(Sizes(inst), 0);
    UnitsFromSorted(Sizes(inst), 1);
  }
}
