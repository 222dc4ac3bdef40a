/**
 * getBottomUpOrder: writes the units below a head into an index array from
 * a position downwards, children before grandchildren, so that a sweep from
 * index 1 upwards visits every unit before its head.
 */
module BottomUp {
  import opened Wrappers
  import opened Heads
  import opened Instance
  import opened ChildLists
  import opened Ancestry

  /** Child lists name units only. */
  ghost predicate ChildrenValid(inst: DependencyInstance) {
    forall u, k :: IsAddr(inst, u) && 0 <= k < |Child(inst, u)| ==> IsAddr(inst, Child(inst, u)[k])
  }

  lemma ConsistentChildrenValid(inst: DependencyInstance)
    requires Consistent(inst)
    ensures ChildrenValid(inst)
  {
    forall u, k | IsAddr(inst, u) && 0 <= k < |Child(inst, u)|
      ensures IsAddr(inst, Child(inst, u)[k])
    {
      assert Child(inst, u)[k] in Child(inst, u);
    }
  }

  /**
   * The units getBottomUpOrder writes below x, in writing order: x's children,
   * then, child by child, what is written below that child. None when the
   * child lists run deeper than fuel.
   */
  function Written(inst: DependencyInstance, x: HeadIndex, fuel: nat): Option<seq<HeadIndex>>
    requires ChildrenValid(inst) && IsAddr(inst, x)
    decreases fuel, 0
  {
    if fuel == 0 then None
    else
      var cs := Child(inst, x);
      match WrittenAll(inst, cs, fuel - 1)
      case None => None
      case Some(rest) => Some(cs + rest)
  }

  function WrittenAll(inst: DependencyInstance, cs: seq<HeadIndex>, fuel: nat): Option<seq<HeadIndex>>
    requires ChildrenValid(inst) && forall k :: 0 <= k < |cs| ==> IsAddr(inst, cs[k])
    decreases fuel, 1, |cs|
  {
    if |cs| == 0 then Some([])
    else
      match Written(inst, cs[0], fuel)
      case None => None
      case Some(first) =>
        match WrittenAll(inst, cs[1..], fuel)
        case None => None
        case Some(rest) => Some(first + rest)
  }

  /** The first loop of getBottomUpOrder: cs goes to positions id, id-1, ... */
  function WriteDown(idx: seq<HeadIndex>, cs: seq<HeadIndex>, id: int): (r: seq<HeadIndex>)
    requires |cs| <= id + 1 && id < |idx|
    ensures |r| == |idx|
    ensures forall k :: 0 <= k < |cs| ==> r[id - k] == cs[k]
    ensures forall j :: 0 <= j < |idx| && !(id - |cs| < j <= id) ==> r[j] == idx[j]
    decreases |cs|
  {
    if |cs| == 0 then idx
    else
      var r := WriteDown(idx[id := cs[0]], cs[1..], id - 1);
      assert forall k :: 1 <= k < |cs| ==> cs[k] == cs[1..][k - 1];
      r
  }

  /**
   * getBottomUpOrder(inst, arg, idx, id): writes arg's children downwards from
   * id, then recurses into each child in turn; returns the next free position.
   * Its result is the reference order Written placed downwards from id.
   */
  function BottomUpOrder(inst: DependencyInstance, arg: HeadIndex, idx: seq<HeadIndex>, id: int, fuel: nat): (r: (seq<HeadIndex>, int))
    requires ChildrenValid(inst) && IsAddr(inst, arg)
    requires Written(inst, arg, fuel).Some?
    requires |Written(inst, arg, fuel).value| <= id + 1 && id < |idx|
    ensures r.1 == id - |Written(inst, arg, fuel).value|
    ensures |r.0| == |idx|
    ensures forall k :: 0 <= k < |Written(inst, arg, fuel).value| ==> r.0[id - k] == Written(inst, arg, fuel).value[k]
    ensures forall j :: 0 <= j < |idx| && !(r.1 < j <= id) ==> r.0[j] == idx[j]
    decreases fuel, 0
  {
    var cs := Child(inst, arg);
    var idx1 := WriteDown(idx, cs, id);
    var r := RecurseAll(inst, cs, idx1, id - |cs|, fuel - 1);
    r
  }

  /** The second loop of getBottomUpOrder: recursion into each child, threading the position. */
  function RecurseAll(inst: DependencyInstance, cs: seq<HeadIndex>, idx: seq<HeadIndex>, id: int, fuel: nat): (r: (seq<HeadIndex>, int))
    requires ChildrenValid(inst) && forall k :: 0 <= k < |cs| ==> IsAddr(inst, cs[k])
    requires WrittenAll(inst, cs, fuel).Some?
    requires |WrittenAll(inst, cs, fuel).value| <= id + 1 && id < |idx|
    ensures r.1 == id - |WrittenAll(inst, cs, fuel).value|
    ensures |r.0| == |idx|
    ensures forall k :: 0 <= k < |WrittenAll(inst, cs, fuel).value| ==> r.0[id - k] == WrittenAll(inst, cs, fuel).value[k]
    ensures forall j :: 0 <= j < |idx| && !(r.1 < j <= id) ==> r.0[j] == idx[j]
    decreases fuel, 1, |cs|
  {
    if |cs| == 0 then (idx, id)
    else
      var first := Written(inst, cs[0], fuel).value;
      var rest := WrittenAll(inst, cs[1..], fuel).value;
      var step := BottomUpOrder(inst, cs[0], idx, id, fuel);
      var r := RecurseAll(inst, cs[1..], step.0, step.1, fuel);
      assert WrittenAll(inst, cs, fuel).value == first + rest;
      assert forall k :: |first| <= k < |first| + |rest| ==> (first + rest)[k] == rest[k - |first|];
      r
  }

  /** Every unit of ws has its head in pre or earlier in ws. */
  ghost predicate HeadsBefore(inst: DependencyInstance, pre: seq<HeadIndex>, ws: seq<HeadIndex>) {
    forall k :: 0 <= k < |ws| ==> IsAddr(inst, ws[k]) && (Dep(inst, ws[k]) in pre || Dep(inst, ws[k]) in ws[..k])
  }

  lemma HeadsBeforeConcat(inst: DependencyInstance, p: seq<HeadIndex>, a: seq<HeadIndex>, q: seq<HeadIndex>, b: seq<HeadIndex>)
    requires HeadsBefore(inst, p, a) && HeadsBefore(inst, q, b)
    requires forall z :: z in q ==> z in p || z in a
    ensures HeadsBefore(inst, p, a + b)
  {
    var ws := a + b;
    forall k | 0 <= k < |ws|
      ensures IsAddr(inst, ws[k]) && (Dep(inst, ws[k]) in p || Dep(inst, ws[k]) in ws[..k])
    {
      if k < |a| {
        assert ws[k] == a[k] && ws[..k] == a[..k];
      } else {
        var k' := k - |a|;
        assert ws[k] == b[k'];
        var d := Dep(inst, b[k']);
        if d in b[..k'] {
          var j :| 0 <= j < k' && b[j] == d;
          assert ws[..k][|a| + j] == d;
        } else if d in a {
          var j :| 0 <= j < |a| && a[j] == d;
          assert ws[..k][j] == d;
        }
      }
    }
  }

  lemma HeadsBeforeWeaken(inst: DependencyInstance, p: seq<HeadIndex>, p': seq<HeadIndex>, a: seq<HeadIndex>)
    requires HeadsBefore(inst, p, a)
    requires forall z :: z in p ==> z in p'
    ensures HeadsBefore(inst, p', a)
  {
  }

  lemma DistinctConcat(a: seq<HeadIndex>, b: seq<HeadIndex>)
    requires Distinct(a) && Distinct(b)
    requires forall y :: y in a ==> y !in b
    ensures Distinct(a + b)
  {
    var ws := a + b;
    forall i, j | 0 <= i < j < |ws|
      ensures ws[i] != ws[j]
    {
      if i < |a| && j >= |a| {
        assert ws[i] in a && ws[j] == b[j - |a|];
      } else if i >= |a| {
        assert ws[i] == b[i - |a|] && ws[j] == b[j - |a|];
      }
    }
  }

  lemma StrictlySortedDistinct(s: seq<HeadIndex>)
    requires StrictlySorted(s)
    ensures Distinct(s)
  {
    forall i, j | 0 <= i < j < |s|
      ensures s[i] != s[j]
    {
      assert Less(s[i], s[j]);
    }
  }

  /** Child k of x is a unit one level below x. */
  lemma ChildFacts(inst: DependencyInstance, x: HeadIndex, k: int)
    requires RootedTree(inst) && Consistent(inst) && IsAddr(inst, x) && 0 <= k < |Child(inst, x)|
    ensures IsAddr(inst, Child(inst, x)[k]) && Dep(inst, Child(inst, x)[k]) == x
    ensures Child(inst, x)[k] != Root && Depth(inst, Child(inst, x)[k]) == Depth(inst, x) + 1
    ensures ProperDesc(inst, Child(inst, x)[k], x)
  {
    var c := Child(inst, x)[k];
    assert c in Child(inst, x);
    assert IsChildOf(inst, c, x);
    TreeStep(inst, c);
    UpCons(inst, c);
    UpDepth(inst, c, x);
  }

  /** Units below a child of x are below x and are not children of x themselves. */
  lemma BelowChild(inst: DependencyInstance, x: HeadIndex, k: int, y: HeadIndex)
    requires RootedTree(inst) && Consistent(inst) && IsAddr(inst, x) && 0 <= k < |Child(inst, x)|
    requires ProperDesc(inst, y, Child(inst, x)[k])
    ensures ProperDesc(inst, y, x)
    ensures y !in Child(inst, x)
  {
    var c := Child(inst, x)[k];
    ChildFacts(inst, x, k);
    UpCons(inst, c);
    UpTransitive(inst, y, c, x);
    UpDepth(inst, y, c);
    if y in Child(inst, x) {
      var k' :| 0 <= k' < |Child(inst, x)| && Child(inst, x)[k'] == y;
      ChildFacts(inst, x, k');
      UpCons(inst, y);
      UpDepth(inst, x, c);
    }
  }

  /** A unit below x is a child of x or below one. */
  lemma AboveSomeChild(inst: DependencyInstance, x: HeadIndex, y: HeadIndex)
    requires RootedTree(inst) && Consistent(inst) && IsAddr(inst, x) && ProperDesc(inst, y, x)
    ensures y in Child(inst, x) || exists k :: 0 <= k < |Child(inst, x)| && ProperDesc(inst, y, Child(inst, x)[k])
  {
    var c := ChildToward(inst, y, x);
    assert IsChildOf(inst, c, x);
    assert c in Child(inst, x);
    var k :| 0 <= k < |Child(inst, x)| && Child(inst, x)[k] == c;
    if c != y {
      assert ProperDesc(inst, y, Child(inst, x)[k]);
    }
  }

  /** Subtrees of two different children of x do not meet. */
  lemma SiblingSubtreesDisjoint(inst: DependencyInstance, x: HeadIndex, i: int, k: int, y: HeadIndex)
    requires RootedTree(inst) && Consistent(inst) && IsAddr(inst, x)
    requires 0 <= i < k < |Child(inst, x)|
    requires ProperDesc(inst, y, Child(inst, x)[i])
    ensures !ProperDesc(inst, y, Child(inst, x)[k])
  {
    ChildFacts(inst, x, i);
    ChildFacts(inst, x, k);
    StrictlySortedDistinct(Child(inst, x));
    if ProperDesc(inst, y, Child(inst, x)[k]) {
      UpSameDepth(inst, y, Child(inst, x)[i], Child(inst, x)[k]);
    }
  }

  /** On a rooted tree with consistent child lists, what is written below x is x's subtree, once each, heads first. */
  lemma {:induction false} WrittenTree(inst: DependencyInstance, x: HeadIndex, fuel: nat)
    requires RootedTree(inst) && Consistent(inst) && IsAddr(inst, x)
    requires ChildrenValid(inst)
    requires fuel >= NumUnits(inst) - Depth(inst, x) + 1
    ensures Written(inst, x, fuel).Some?
    ensures forall y :: y in Written(inst, x, fuel).value <==> ProperDesc(inst, y, x)
    ensures Distinct(Written(inst, x, fuel).value)
    ensures HeadsBefore(inst, [x], Written(inst, x, fuel).value)
    decreases NumUnits(inst) - Depth(inst, x), 1
  {
    TreeStep(inst, x);
    var cs := Child(inst, x);
    assert cs[0..] == cs;
    WrittenAllTree(inst, x, 0, fuel - 1);
    var rest := WrittenAll(inst, cs, fuel - 1).value;
    var ws := cs + rest;
    assert Written(inst, x, fuel) == Some(ws);
    forall y
      ensures y in ws <==> ProperDesc(inst, y, x)
    {
      if y in cs {
        var k :| 0 <= k < |cs| && cs[k] == y;
        ChildFacts(inst, x, k);
      } else if y in rest {
        var k :| 0 <= k < |cs| && ProperDesc(inst, y, cs[k]);
        BelowChild(inst, x, k, y);
      }
      if ProperDesc(inst, y, x) {
        AboveSomeChild(inst, x, y);
      }
    }
    forall y | y in cs
      ensures y !in rest
    {
      if y in rest {
        var k :| 0 <= k < |cs| && ProperDesc(inst, y, cs[k]);
        BelowChild(inst, x, k, y);
      }
    }
    StrictlySortedDistinct(cs);
    DistinctConcat(cs, rest);
    forall k | 0 <= k < |cs|
      ensures IsAddr(inst, cs[k]) && (Dep(inst, cs[k]) in [x] || Dep(inst, cs[k]) in cs[..k])
    {
      ChildFacts(inst, x, k);
    }
    HeadsBeforeConcat(inst, [x], cs, cs, rest);
  }

  /** The units below entries i.. of cs are those below entry i together with those below entries i+1.. . */
  lemma SubtreesUnion(inst: DependencyInstance, cs: seq<HeadIndex>, i: nat, first: seq<HeadIndex>, rest: seq<HeadIndex>)
    requires Shaped(inst) && HeadsValid(inst)
    requires i < |cs|
    requires forall y :: y in first <==> ProperDesc(inst, y, cs[i])
    requires forall y :: y in rest <==> exists k :: i + 1 <= k < |cs| && ProperDesc(inst, y, cs[k])
    ensures forall y :: y in first + rest <==> exists k :: i <= k < |cs| && ProperDesc(inst, y, cs[k])
  {
    forall y
      ensures y in first + rest <==> exists k :: i <= k < |cs| && ProperDesc(inst, y, cs[k])
    {
      if y in first {
        assert ProperDesc(inst, y, cs[i]);
      } else if y in rest {
        var k :| i + 1 <= k < |cs| && ProperDesc(inst, y, cs[k]);
      } else {
        forall k | i <= k < |cs|
          ensures !ProperDesc(inst, y, cs[k])
        {
          if k == i {
            assert y !in first;
          } else {
            assert y !in rest;
          }
        }
      }
    }
  }

  /** The subtree of child i shares no unit with the subtrees of the later children. */
  lemma SubtreesDisjoint(inst: DependencyInstance, x: HeadIndex, i: nat, first: seq<HeadIndex>, rest: seq<HeadIndex>)
    requires RootedTree(inst) && Consistent(inst) && IsAddr(inst, x)
    requires i < |Child(inst, x)|
    requires forall y :: y in first ==> ProperDesc(inst, y, Child(inst, x)[i])
    requires forall y :: y in rest ==> exists k :: i + 1 <= k < |Child(inst, x)| && ProperDesc(inst, y, Child(inst, x)[k])
    ensures forall y :: y in first ==> y !in rest
  {
    forall y | y in first && y in rest
      ensures false
    {
      var k :| i + 1 <= k < |Child(inst, x)| && ProperDesc(inst, y, Child(inst, x)[k]);
      SiblingSubtreesDisjoint(inst, x, i, k, y);
    }
  }

  /** What is written below children i.. of x: their subtrees, once each, heads first. */
  lemma {:induction false} WrittenAllTree(inst: DependencyInstance, x: HeadIndex, i: nat, fuel: nat)
    requires RootedTree(inst) && Consistent(inst) && IsAddr(inst, x)
    requires ChildrenValid(inst)
    requires i <= |Child(inst, x)|
    requires fuel >= NumUnits(inst) - Depth(inst, x)
    ensures WrittenAll(inst, Child(inst, x)[i..], fuel).Some?
    ensures forall y :: y in WrittenAll(inst, Child(inst, x)[i..], fuel).value <==>
      exists k :: i <= k < |Child(inst, x)| && ProperDesc(inst, y, Child(inst, x)[k])
    ensures Distinct(WrittenAll(inst, Child(inst, x)[i..], fuel).value)
    ensures HeadsBefore(inst, Child(inst, x)[i..], WrittenAll(inst, Child(inst, x)[i..], fuel).value)
    decreases NumUnits(inst) - Depth(inst, x), 0, |Child(inst, x)| - i
  {
    var cs := Child(inst, x);
    if i < |cs| {
      var c := cs[i];
      ChildFacts(inst, x, i);
      WrittenTree(inst, c, fuel);
      WrittenAllTree(inst, x, i + 1, fuel);
      assert cs[i..][0] == c && cs[i..][1..] == cs[i + 1..];
      var first := Written(inst, c, fuel).value;
      var rest := WrittenAll(inst, cs[i + 1..], fuel).value;
      var ws := first + rest;
      assert WrittenAll(inst, cs[i..], fuel) == Some(ws);
      SubtreesUnion(inst, cs, i, first, rest);
      SubtreesDisjoint(inst, x, i, first, rest);
      DistinctConcat(first, rest);
      HeadsBeforeWeaken(inst, [c], cs[i..], first);
      HeadsBeforeWeaken(inst, cs[i + 1..], cs[i..], rest);
      HeadsBeforeConcat(inst, cs[i..], first, cs[i..], rest);
    } else {
      assert cs[i..] == [];
    }
  }

  lemma {:induction false} DistinctCard(s: seq<HeadIndex>)
    requires Distinct(s)
    ensures |set y | y in s| == |s|
  {
    if |s| > 0 {
      var t := s[1..];
      DistinctCard(t);
      assert (set y | y in s) == {s[0]} + (set y | y in t);
      assert s[0] !in t;
    }
  }

  /** Two duplicate-free sequences with the same members have the same length. */
  lemma SameMembersSameLength(a: seq<HeadIndex>, b: seq<HeadIndex>)
    requires Distinct(a) && Distinct(b)
    requires forall y :: y in a <==> y in b
    ensures |a| == |b|
  {
    DistinctCard(a);
    DistinctCard(b);
    assert (set y | y in a) == (set y | y in b);
  }

  /** On a rooted tree, the units written below the root are exactly the non-root units, once each. */
  lemma WrittenFromRoot(inst: DependencyInstance)
    requires RootedTree(inst) && Consistent(inst)
    ensures ChildrenValid(inst) && IsAddr(inst, Root)
    ensures Written(inst, Root, NumUnits(inst)).Some?
    ensures forall y :: y in Written(inst, Root, NumUnits(inst)).value <==> IsAddr(inst, y) && y != Root
    ensures Distinct(Written(inst, Root, NumUnits(inst)).value)
    ensures |Written(inst, Root, NumUnits(inst)).value| == NumUnits(inst) - 1
    ensures HeadsBefore(inst, [Root], Written(inst, Root, NumUnits(inst)).value)
  {
    ConsistentChildrenValid(inst);
    var n := NumUnits(inst);
    TreeStep(inst, Root);
    WrittenTree(inst, Root, n);
    var ws := Written(inst, Root, n).value;
    forall y
      ensures y in ws <==> IsAddr(inst, y) && y != Root
    {
      if IsAddr(inst, y) && y != Root {
        RootAboveAll(inst, y);
      }
    }
    var nr := NonRootUnits(inst);
    UnitsAreAddrs(inst);
    StrictlySortedDistinct(nr);
    forall y
      ensures y in ws <==> y in nr
    {
      if IsAddr(inst, y) && y.hWord == 0 {
        assert y == Root;
      }
    }
    SameMembersSameLength(ws, nr);
    UnitsFromLength(Sizes(inst), 1);
    assert Sizes(inst)[..1] == [SegSize(inst.word[0])];
    TotalStep(Sizes(inst), 0);
    assert Sizes(inst)[..0] == [];
  }

  /** y sits in one of the slots 1 .. |out|-1 (slot 0 is left for the root). */
  predicate InSlots(out: seq<HeadIndex>, y: HeadIndex) {
    exists j :: 1 <= j < |out| && out[j] == y
  }

  /** Units laid out backwards into slots 1 .. n-1 keep their membership ... */
  lemma PlacedMembers(inst: DependencyInstance, ws: seq<HeadIndex>, out: seq<HeadIndex>)
    requires |out| >= 1 && |ws| == |out| - 1
    requires forall k :: 0 <= k < |ws| ==> out[|out| - 1 - k] == ws[k]
    requires forall y :: y in ws <==> IsAddr(inst, y) && y != Root
    ensures forall y :: IsAddr(inst, y) && y != Root <==> InSlots(out, y)
  {
    var n := |out|;
    forall y
      ensures IsAddr(inst, y) && y != Root <==> InSlots(out, y)
    {
      if y in ws {
        var k :| 0 <= k < |ws| && ws[k] == y;
        assert out[n - 1 - k] == y;
      }
      if InSlots(out, y) {
        var j :| 1 <= j < n && out[j] == y;
        var k := n - 1 - j;
        assert out[n - 1 - k] == ws[k];
        assert ws[k] in ws;
      }
    }
  }

  /** ... their distinctness ... */
  lemma PlacedDistinct(ws: seq<HeadIndex>, out: seq<HeadIndex>)
    requires |out| >= 1 && |ws| == |out| - 1
    requires forall k :: 0 <= k < |ws| ==> out[|out| - 1 - k] == ws[k]
    requires Distinct(ws)
    ensures forall i, j :: 1 <= i < j < |out| ==> out[i] != out[j]
  {
    var n := |out|;
    forall i, j | 1 <= i < j < n
      ensures out[i] != out[j]
    {
      assert out[i] == ws[n - 1 - i] && out[j] == ws[n - 1 - j];
    }
  }

  /** ... and every head is the root or in a higher slot. */
  lemma PlacedHeadsAbove(inst: DependencyInstance, ws: seq<HeadIndex>, out: seq<HeadIndex>)
    requires |out| >= 1 && |ws| == |out| - 1
    requires forall k :: 0 <= k < |ws| ==> out[|out| - 1 - k] == ws[k]
    requires HeadsBefore(inst, [Root], ws)
    ensures forall j :: 1 <= j < |out| ==>
      (IsAddr(inst, out[j]) && (Dep(inst, out[j]) == Root || exists j' :: j < j' < |out| && out[j'] == Dep(inst, out[j])))
  {
    var n := |out|;
    forall j | 1 <= j < n
      ensures IsAddr(inst, out[j]) && (Dep(inst, out[j]) == Root || exists j' :: j < j' < n && out[j'] == Dep(inst, out[j]))
    {
      var k := n - 1 - j;
      assert out[j] == ws[k];
      assert IsAddr(inst, ws[k]) && (Dep(inst, ws[k]) in [Root] || Dep(inst, ws[k]) in ws[..k]);
      if Dep(inst, ws[k]) in ws[..k] {
        var k' :| 0 <= k' < k && ws[..k][k'] == Dep(inst, ws[k]);
        assert out[n - 1 - k'] == Dep(inst, out[j]);
      }
    }
  }

  /**
   * The decoder's call getBottomUpOrder(root, idx, |idx|-1) with one slot per
   * unit: it returns 0, slots 1 .. |idx|-1 hold every non-root unit once, and
   * every unit's head is the root or sits in a higher slot.
   */
  lemma BottomUpFromRoot(inst: DependencyInstance, idx: seq<HeadIndex>)
    requires RootedTree(inst) && Consistent(inst)
    requires |idx| == NumUnits(inst)
    ensures ChildrenValid(inst) && IsAddr(inst, Root)
    ensures Written(inst, Root, |idx|).Some? && |Written(inst, Root, |idx|).value| == |idx| - 1
    ensures BottomUpOrder(inst, Root, idx, |idx| - 1, |idx|).1 == 0
    ensures var out := BottomUpOrder(inst, Root, idx, |idx| - 1, |idx|).0;
      && (forall y :: IsAddr(inst, y) && y != Root <==> InSlots(out, y))
      && (forall i, j :: 1 <= i < j < |idx| ==> out[i] != out[j])
      && (forall j :: 1 <= j < |idx| ==>
            (IsAddr(inst, out[j]) && (Dep(inst, out[j]) == Root || exists j' :: j < j' < |idx| && out[j'] == Dep(inst, out[j]))))
  {
    WrittenFromRoot(inst);
    var ws := Written(inst, Root, |idx|).value;
    var out := BottomUpOrder(inst, Root, idx, |idx| - 1, |idx|).0;
    PlacedMembers(inst, ws, out);
    PlacedDistinct(ws, out);
    PlacedHeadsAbove(inst, ws, out);
  }
}
