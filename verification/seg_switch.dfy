/**
 * The segmentation switch used by the local search: word m.hWord moves from
 * candidate oldSeg to candidate newSeg. Each new unit j descends from old
 * unit inMap[index][j] and keeps that unit's POS tag when it can; heads are
 * remapped through outMap[index], which sends each old unit to a new one.
 * Here index = oldSeg * |candSeg| + newSeg.
 */
module SegSwitch {
  import opened Wrappers
  import opened Heads
  import opened Instance
  import opened Counters

  /**
   * The POS scan over the candidate ids, from index k on: every candidate
   * equal to tag overwrites the choice, and a match at index 0 adds one to
   * the count.
   */
  function ScanPos(cands: seq<int>, tag: int, k: nat, pos: int, found: bool, cnt: int): (int, bool, int)
    requires k <= |cands|
    decreases |cands| - k
  {
    if k == |cands| then (pos, found, cnt)
    else if cands[k] == tag then ScanPos(cands, tag, k + 1, k, true, cnt + (if k == 0 then 1 else 0))
    else ScanPos(cands, tag, k + 1, pos, found, cnt)
  }

  lemma {:induction false} ScanPosSpec(cands: seq<int>, tag: int, k: nat, pos: int, found: bool, cnt: int)
    requires k <= |cands|
    ensures ScanPos(cands, tag, k, pos, found, cnt).1 <==> found || tag in cands[k..]
    ensures tag in cands[k..] ==>
      var p := ScanPos(cands, tag, k, pos, found, cnt).0;
      k <= p < |cands| && cands[p] == tag && forall i :: p < i < |cands| ==> cands[i] != tag
    ensures tag !in cands[k..] ==> ScanPos(cands, tag, k, pos, found, cnt).0 == pos
    ensures ScanPos(cands, tag, k, pos, found, cnt).2 == cnt + (if k == 0 && |cands| > 0 && cands[0] == tag then 1 else 0)
    decreases |cands| - k
  {
    if k < |cands| {
      assert cands[k..] == [cands[k]] + cands[k + 1..];
      if cands[k] == tag {
        ScanPosSpec(cands, tag, k + 1, k, true, cnt + (if k == 0 then 1 else 0));
      } else {
        ScanPosSpec(cands, tag, k + 1, pos, found, cnt);
      }
    }
  }

  /**
   * The POS choice of a new unit whose old unit had POS id tag, and what it
   * adds to the word's candidate-0 counter: the last candidate with that id,
   * or candidate 0 (counted) when there is none.
   */
  function ChoosePos(cands: seq<int>, tag: int): (r: (int, int))
    ensures tag in cands ==> 0 <= r.0 < |cands| && cands[r.0] == tag && forall i :: r.0 < i < |cands| ==> cands[i] != tag
    ensures tag !in cands ==> r.0 == 0
    ensures r.1 == if tag in cands then (if cands[0] == tag then 1 else 0) else 1
  {
    ScanPosSpec(cands, tag, 0, 0, false, 0);
    assert cands[0..] == cands;
    var s := ScanPos(cands, tag, 0, 0, false, 0);
    if s.1 then (s.0, s.2) else (0, s.2 + 1)
  }

  predicate DistinctIds(cands: seq<int>) {
    forall i, j :: 0 <= i < j < |cands| ==> cands[i] != cands[j]
  }

  /** With distinct candidate ids, the counter grows by one exactly when candidate 0 is chosen. */
  lemma ChoosePosCounts(cands: seq<int>, tag: int)
    requires DistinctIds(cands)
    ensures ChoosePos(cands, tag).1 == if ChoosePos(cands, tag).0 == 0 then 1 else 0
  {
    var r := ChoosePos(cands, tag);
    if tag in cands && r.0 != 0 {
      assert cands[0] != cands[r.0];
    }
  }

  /**
   * The self-loop walk for new unit j, starting from the old head
   * (wd, seg): while the head lies in the switched word w and outRow maps it
   * onto j itself, step to the head of that old unit. A head in w is then
   * mapped through outRow; a head elsewhere is kept. Both coordinates of each
   * step are read from the same old unit. None when an index leaves its
   * table or the fuel runs out.
   */
  function Walk(oldHead: seq<HeadIndex>, outRow: seq<int>, w: int, j: int, seg: int, wd: int, fuel: nat): Option<HeadIndex>
    decreases fuel
  {
    if wd != w then Some(HeadIndex(wd, seg))
    else if !(0 <= seg < |outRow|) then None
    else if outRow[seg] != j then Some(HeadIndex(w, outRow[seg]))
    else if fuel == 0 || !(0 <= seg < |oldHead|) then None
    else Walk(oldHead, outRow, w, j, oldHead[seg].hSeg, oldHead[seg].hWord, fuel - 1)
  }

  /**
   * A head chosen by the walk is never unit j itself, and a head outside the
   * switched word is one of the old heads (the walk starts at one).
   */
  lemma {:induction false} WalkSound(oldHead: seq<HeadIndex>, outRow: seq<int>, w: int, j: int, seg: int, wd: int, fuel: nat)
    requires HeadIndex(wd, seg) in oldHead
    ensures Walk(oldHead, outRow, w, j, seg, wd, fuel).Some? ==>
      var d := Walk(oldHead, outRow, w, j, seg, wd, fuel).value;
      && (d.hWord == w ==> d.hSeg != j && d.hSeg in outRow)
      && (d.hWord != w ==> d in oldHead)
    decreases fuel
  {
    if wd == w && 0 <= seg < |outRow| && outRow[seg] == j && fuel > 0 && 0 <= seg < |oldHead| {
      assert HeadIndex(oldHead[seg].hWord, oldHead[seg].hSeg) == oldHead[seg];
      WalkSound(oldHead, outRow, w, j, oldHead[seg].hSeg, oldHead[seg].hWord, fuel - 1);
    }
  }

  /**
   * The walk as the source writes it: after stepping, the word of the next
   * head is read from the old unit at the already-advanced index.
   */
  function WalkAsWritten(oldHead: seq<HeadIndex>, outRow: seq<int>, w: int, j: int, seg: int, wd: int, fuel: nat): Option<HeadIndex>
    decreases fuel
  {
    if wd != w then Some(HeadIndex(wd, seg))
    else if !(0 <= seg < |outRow|) then None
    else if outRow[seg] != j then Some(HeadIndex(w, outRow[seg]))
    else if fuel == 0 || !(0 <= seg < |oldHead|) then None
    else
      var next := oldHead[seg].hSeg;
      if !(0 <= next < |oldHead|) then None
      else WalkAsWritten(oldHead, outRow, w, j, next, oldHead[next].hWord, fuel - 1)
  }

  /**
   * Word 3 switches to a single new unit 0, descended from old unit 0, and
   * both old units map onto it. Old unit 0's head is old unit 1 of the same
   * word, whose head is unit (5, 0). The walk as written settles on (5, 1),
   * which is no old head at all; the fixed walk settles on (5, 0).
   */
  lemma WalkAsWrittenInventsHead()
    ensures WalkAsWritten([HeadIndex(3, 1), HeadIndex(5, 0)], [0, 0], 3, 0, 1, 3, 10) == Some(HeadIndex(5, 1))
    ensures HeadIndex(5, 1) !in [HeadIndex(3, 1), HeadIndex(5, 0)]
    ensures Walk([HeadIndex(3, 1), HeadIndex(5, 0)], [0, 0], 3, 0, 1, 3, 10) == Some(HeadIndex(5, 0))
  {
    var oldHead := [HeadIndex(3, 1), HeadIndex(5, 0)];
    assert WalkAsWritten(oldHead, [0, 0], 3, 0, 1, 5, 8) == Some(HeadIndex(5, 1));
    assert WalkAsWritten(oldHead, [0, 0], 3, 0, 0, 3, 9) == Some(HeadIndex(5, 1));
    assert Walk(oldHead, [0, 0], 3, 0, 0, 5, 9) == Some(HeadIndex(5, 0));
  }

  /** The old units the first n new units descend from are all recorded. */
  predicate FromsOk(inRow: seq<int>, n: int, oldPos: seq<int>, oldHead: seq<HeadIndex>) {
    && |inRow| >= n
    && forall j :: 0 <= j < n ==> 0 <= inRow[j] < |oldPos| && inRow[j] < |oldHead|
  }

  /** The head new unit j receives: the walk from the head of the old unit it descends from. */
  function HeadFor(inRow: seq<int>, oldHead: seq<HeadIndex>, outRow: seq<int>, w: int, j: int, fuel: nat): Option<HeadIndex>
    requires 0 <= j < |inRow| && 0 <= inRow[j] < |oldHead|
  {
    Walk(oldHead, outRow, w, j, oldHead[inRow[j]].hSeg, oldHead[inRow[j]].hWord, fuel)
  }

  /** The units whose POS choice is candidate 0. */
  function ZeroPos(es: seq<SegElement>): set<int> {
    set k | 0 <= k < |es| && es[k].currPos == 0
  }

  /** Appending a unit adds its index to the zero-POS set exactly when its POS choice is 0. */
  lemma ZeroPosSnoc(es: seq<SegElement>, e: SegElement)
    ensures |ZeroPos(es + [e])| == |ZeroPos(es)| + (if e.currPos == 0 then 1 else 0)
  {
    assert ZeroPos(es + [e]) == ZeroPos(es) + (if e.currPos == 0 then {|es|} else {});
  }

  /**
   * The first n units of the new segmentation with their POS choices and
   * heads filled in, and the sum of their counter increments; None when
   * some unit's walk fails.
   */
  function NewUnits(es: seq<SegElement>, inRow: seq<int>, oldPos: seq<int>, oldHead: seq<HeadIndex>,
                    outRow: seq<int>, w: int, fuel: nat, n: nat): (r: Option<(seq<SegElement>, int)>)
    requires n <= |es| && FromsOk(inRow, |es|, oldPos, oldHead)
    ensures r.Some? <==> forall j :: 0 <= j < n ==> HeadFor(inRow, oldHead, outRow, w, j, fuel).Some?
    ensures r.Some? ==> |r.value.0| == n
    ensures r.Some? ==> forall j :: 0 <= j < n ==>
      r.value.0[j] == es[j].(currPos := ChoosePos(es[j].candPosId, oldPos[inRow[j]]).0,
                             dep := HeadFor(inRow, oldHead, outRow, w, j, fuel).value)
    ensures r.Some? && (forall j :: 0 <= j < n ==> DistinctIds(es[j].candPosId)) ==>
      r.value.1 == |ZeroPos(r.value.0)|
  {
    if n == 0 then Some(([], 0))
    else
      var prev := NewUnits(es, inRow, oldPos, oldHead, outRow, w, fuel, n - 1);
      var d := HeadFor(inRow, oldHead, outRow, w, n - 1, fuel);
      if prev.None? || d.None? then None
      else
        var c := ChoosePos(es[n - 1].candPosId, oldPos[inRow[n - 1]]);
        var e := es[n - 1].(currPos := c.0, dep := d.value);
        var us := prev.value.0 + [e];
        ZeroPosSnoc(prev.value.0, e);
        assert DistinctIds(es[n - 1].candPosId) ==> c.1 == if c.0 == 0 then 1 else 0 by {
          if DistinctIds(es[n - 1].candPosId) { ChoosePosCounts(es[n - 1].candPosId, oldPos[inRow[n - 1]]); }
        }
        Some((us, prev.value.1 + c.1))
  }

  /** No later entry of related names the same unit as entry i. */
  predicate LastFor(related: seq<HeadIndex>, i: int)
    requires 0 <= i < |related|
  {
    forall i' :: i < i' < |related| ==> related[i'] != related[i]
  }

  /**
   * Re-points related[k..] at the images of their old parents, in order, so
   * a later entry for a unit overrides an earlier one.
   */
  function Relink(inst: DependencyInstance, related: seq<HeadIndex>, parents: seq<int>, w: int, outRow: seq<int>, k: nat): (r: DependencyInstance)
    requires k <= |related| <= |parents|
    requires forall i :: k <= i < |related| ==> IsAddr(inst, related[i]) && 0 <= parents[i] < |outRow|
    ensures SameSkeleton(inst, r)
    ensures forall x :: IsAddr(r, x) <==> IsAddr(inst, x)
    ensures forall x :: IsAddr(inst, x) ==> Child(r, x) == Child(inst, x)
    ensures forall i :: k <= i < |related| && LastFor(related, i) ==> Dep(r, related[i]) == HeadIndex(w, outRow[parents[i]])
    ensures forall x :: IsAddr(inst, x) && x !in related[k..] ==> Dep(r, x) == Dep(inst, x)
    decreases |related| - k
  {
    if k == |related| then inst
    else
      var mid := SetDep(inst, related[k], HeadIndex(w, outRow[parents[k]]));
      var r := Relink(mid, related, parents, w, outRow, k + 1);
      RelinkStep(inst, mid, r, related, parents, w, outRow, k);
      r
  }

  lemma RelinkStep(inst: DependencyInstance, mid: DependencyInstance, r: DependencyInstance,
                   related: seq<HeadIndex>, parents: seq<int>, w: int, outRow: seq<int>, k: nat)
    requires k < |related| <= |parents|
    requires forall i :: k <= i < |related| ==> IsAddr(inst, related[i]) && 0 <= parents[i] < |outRow|
    requires mid == SetDep(inst, related[k], HeadIndex(w, outRow[parents[k]]))
    requires SameSkeleton(mid, r)
    requires forall x :: IsAddr(r, x) <==> IsAddr(mid, x)
    requires forall x :: IsAddr(mid, x) ==> Child(r, x) == Child(mid, x)
    requires forall i :: k + 1 <= i < |related| && LastFor(related, i) ==> Dep(r, related[i]) == HeadIndex(w, outRow[parents[i]])
    requires forall x :: IsAddr(mid, x) && x !in related[k + 1..] ==> Dep(r, x) == Dep(mid, x)
    ensures SameSkeleton(inst, r)
    ensures forall x :: IsAddr(r, x) <==> IsAddr(inst, x)
    ensures forall x :: IsAddr(inst, x) ==> Child(r, x) == Child(inst, x)
    ensures forall i :: k <= i < |related| && LastFor(related, i) ==> Dep(r, related[i]) == HeadIndex(w, outRow[parents[i]])
    ensures forall x :: IsAddr(inst, x) && x !in related[k..] ==> Dep(r, x) == Dep(inst, x)
  {
    SkeletonTransitive(inst, mid, r);
    RelinkStepFrame(inst, mid, r, related, k);
    RelinkStepLast(inst, mid, r, related, parents, w, outRow, k);
  }

  /** The frame half of RelinkStep: units outside related[k..] keep their heads. */
  lemma RelinkStepFrame(inst: DependencyInstance, mid: DependencyInstance, r: DependencyInstance,
                        related: seq<HeadIndex>, k: nat)
    requires k < |related| && IsAddr(inst, related[k])
    requires forall x :: IsAddr(mid, x) <==> IsAddr(inst, x)
    requires forall x :: IsAddr(r, x) <==> IsAddr(mid, x)
    requires forall x :: IsAddr(inst, x) && x != related[k] ==> Dep(mid, x) == Dep(inst, x)
    requires forall x :: IsAddr(mid, x) && x !in related[k + 1..] ==> Dep(r, x) == Dep(mid, x)
    ensures forall x :: IsAddr(inst, x) && x !in related[k..] ==> Dep(r, x) == Dep(inst, x)
  {
    forall x | IsAddr(inst, x) && x !in related[k..]
      ensures Dep(r, x) == Dep(inst, x)
    {
      assert related[k..] == [related[k]] + related[k + 1..];
      assert x != related[k] && x !in related[k + 1..];
    }
  }

  /** The override half of RelinkStep: the last entry for each unit decides its head. */
  lemma RelinkStepLast(inst: DependencyInstance, mid: DependencyInstance, r: DependencyInstance,
                       related: seq<HeadIndex>, parents: seq<int>, w: int, outRow: seq<int>, k: nat)
    requires k < |related| <= |parents| && 0 <= parents[k] < |outRow|
    requires forall i :: k <= i < |related| ==> IsAddr(mid, related[i]) && 0 <= parents[i] < |outRow|
    requires forall x :: IsAddr(r, x) <==> IsAddr(mid, x)
    requires IsAddr(mid, related[k]) && Dep(mid, related[k]) == HeadIndex(w, outRow[parents[k]])
    requires forall i :: k + 1 <= i < |related| && LastFor(related, i) ==> Dep(r, related[i]) == HeadIndex(w, outRow[parents[i]])
    requires forall x :: IsAddr(mid, x) && x !in related[k + 1..] ==> Dep(r, x) == Dep(mid, x)
    ensures forall i :: k <= i < |related| && LastFor(related, i) ==> Dep(r, related[i]) == HeadIndex(w, outRow[parents[i]])
  {
    if LastFor(related, k) {
      var tail := related[k + 1..];
      assert forall t :: 0 <= t < |tail| ==> tail[t] != related[k];
      assert related[k] !in tail;
    }
  }

  /** The index of the switch from oldSeg to newSeg into the word's map tables. */
  function MapIndex(v: WordInstance, oldSeg: int, newSeg: int): int {
    oldSeg * |v.candSeg| + newSeg
  }

  /**
   * The arguments of a switch of word m.hWord from oldSeg to newSeg: the
   * counters without the word's own contribution, the POS ids and heads of
   * the old units, and the units of other words headed in the switched word
   * with the old segment index of their heads.
   */
  datatype SwitchCall = SwitchCall(
    m: HeadIndex, newSeg: int, oldSeg: int, baseOptSeg: int, baseOptPos: int,
    oldPos: seq<int>, oldHead: seq<HeadIndex>, related: seq<HeadIndex>, parents: seq<int>)

  /**
   * What the switch needs of its caller: a valid word and new candidate,
   * map rows for the switch, a recorded POS id and head for every old unit
   * a new unit descends from, and related children that are units of the
   * switched sentence whose old parents outMap covers.
   */
  predicate SwitchArgs(pred: DependencyInstance, c: SwitchCall) {
    && 0 <= c.m.hWord < |pred.word|
    && var v := pred.word[c.m.hWord];
    && 0 <= c.newSeg < |v.candSeg|
    && 0 <= MapIndex(v, c.oldSeg, c.newSeg) < |v.inMap|
    && MapIndex(v, c.oldSeg, c.newSeg) < |v.outMap|
    && FromsOk(v.inMap[MapIndex(v, c.oldSeg, c.newSeg)], |v.candSeg[c.newSeg].element|, c.oldPos, c.oldHead)
    && |c.related| <= |c.parents|
    && forall k :: 0 <= k < |c.related| ==>
         && IsAddr(UpdateSeg(pred, c.m.hWord, c.newSeg), c.related[k])
         && 0 <= c.parents[k] < |v.outMap[MapIndex(v, c.oldSeg, c.newSeg)]|
  }

  /** The units of the new segmentation before any head or POS choice is made. */
  function NewSeg(pred: DependencyInstance, c: SwitchCall): seq<SegElement>
    requires SwitchArgs(pred, c)
  {
    pred.word[c.m.hWord].candSeg[c.newSeg].element
  }

  function InRow(pred: DependencyInstance, c: SwitchCall): seq<int>
    requires SwitchArgs(pred, c)
  {
    var v := pred.word[c.m.hWord];
    v.inMap[MapIndex(v, c.oldSeg, c.newSeg)]
  }

  function OutRow(pred: DependencyInstance, c: SwitchCall): seq<int>
    requires SwitchArgs(pred, c)
  {
    var v := pred.word[c.m.hWord];
    v.outMap[MapIndex(v, c.oldSeg, c.newSeg)]
  }

  /** The head new unit j of the switch receives, or None when its walk fails. */
  function SwitchHead(pred: DependencyInstance, c: SwitchCall, j: int, fuel: nat): Option<HeadIndex>
    requires SwitchArgs(pred, c) && 0 <= j < |NewSeg(pred, c)|
  {
    HeadFor(InRow(pred, c), c.oldHead, OutRow(pred, c), c.m.hWord, j, fuel)
  }

  /** The state after the first half of the switch, before related children are re-pointed. */
  function Switch(pred: DependencyInstance, c: SwitchCall, p: (seq<SegElement>, int)): DependencyInstance
    requires SwitchArgs(pred, c)
  {
    var v := pred.word[c.m.hWord];
    var v' := v.(currSegCandID := c.newSeg, optPosCount := c.baseOptPos + p.1,
                 candSeg := v.candSeg[c.newSeg := SegInstance(p.0)]);
    pred.(optSegCount := c.baseOptSeg + (if c.newSeg == 0 then 1 else 0), word := pred.word[c.m.hWord := v'])
  }

  /** The units of the half-switched state are those of the plain switch. */
  lemma SwitchAddrs(pred: DependencyInstance, c: SwitchCall, p: (seq<SegElement>, int))
    requires SwitchArgs(pred, c) && |p.0| == |NewSeg(pred, c)|
    ensures forall x :: IsAddr(Switch(pred, c, p), x) <==> IsAddr(UpdateSeg(pred, c.m.hWord, c.newSeg), x)
  {
    var s := Switch(pred, c, p);
    var u := UpdateSeg(pred, c.m.hWord, c.newSeg);
    forall x
      ensures IsAddr(s, x) <==> IsAddr(u, x)
    {
      if 0 <= x.hWord < |pred.word| && x.hWord != c.m.hWord {
        assert s.word[x.hWord] == u.word[x.hWord];
      }
    }
  }

  /**
   * updateSeg for a segmentation switch of word m.hWord: set the choice and
   * the sentence counter, fill in the new units' POS choices, counter
   * increments and heads, then re-point the related children. None when a
   * self-loop walk fails.
   */
  function SegSwitch(pred: DependencyInstance, c: SwitchCall, fuel: nat): (r: Option<DependencyInstance>)
    requires SwitchArgs(pred, c)
    ensures r.Some? <==> forall j :: 0 <= j < |NewSeg(pred, c)| ==> SwitchHead(pred, c, j, fuel).Some?
    ensures r.Some? ==> r.value.optSegCount == c.baseOptSeg + (if c.newSeg == 0 then 1 else 0)
    ensures r.Some? ==> |r.value.word| == |pred.word| && r.value.numSeg == pred.numSeg && r.value.seg2Word == pred.seg2Word
  {
    var es := NewSeg(pred, c);
    var p := NewUnits(es, InRow(pred, c), c.oldPos, c.oldHead, OutRow(pred, c), c.m.hWord, fuel, |es|);
    assert forall j :: 0 <= j < |es| ==>
      SwitchHead(pred, c, j, fuel) == HeadFor(InRow(pred, c), c.oldHead, OutRow(pred, c), c.m.hWord, j, fuel);
    if p.None? then None
    else
      var s := Switch(pred, c, p.value);
      SwitchAddrs(pred, c, p.value);
      Some(Relink(s, c.related, c.parents, c.m.hWord, OutRow(pred, c), 0))
  }

  /**
   * The half-switched state of a successful switch: what NewUnits built,
   * and the final state is its relinking.
   */
  lemma SwitchSplit(pred: DependencyInstance, c: SwitchCall, fuel: nat) returns (p: (seq<SegElement>, int), s: DependencyInstance)
    requires SwitchArgs(pred, c) && SegSwitch(pred, c, fuel).Some?
    ensures NewUnits(NewSeg(pred, c), InRow(pred, c), c.oldPos, c.oldHead, OutRow(pred, c), c.m.hWord, fuel, |NewSeg(pred, c)|) == Some(p)
    ensures |p.0| == |NewSeg(pred, c)|
    ensures s == Switch(pred, c, p)
    ensures forall x :: IsAddr(s, x) <==> IsAddr(UpdateSeg(pred, c.m.hWord, c.newSeg), x)
    ensures forall k :: 0 <= k < |c.related| ==> IsAddr(s, c.related[k]) && 0 <= c.parents[k] < |OutRow(pred, c)|
    ensures SegSwitch(pred, c, fuel).value == Relink(s, c.related, c.parents, c.m.hWord, OutRow(pred, c), 0)
  {
    var es := NewSeg(pred, c);
    p := NewUnits(es, InRow(pred, c), c.oldPos, c.oldHead, OutRow(pred, c), c.m.hWord, fuel, |es|).value;
    s := Switch(pred, c, p);
    SwitchAddrs(pred, c, p);
  }

  /**
   * The switched word: the new choice, the same tables and other
   * candidates, and as many current units as the new candidate has.
   */
  lemma SegSwitchWord(pred: DependencyInstance, c: SwitchCall, fuel: nat)
    requires SwitchArgs(pred, c) && SegSwitch(pred, c, fuel).Some?
    ensures var v, v' := pred.word[c.m.hWord], SegSwitch(pred, c, fuel).value.word[c.m.hWord];
      && v'.currSegCandID == c.newSeg && HasCurrSeg(v')
      && v'.inMap == v.inMap && v'.outMap == v.outMap
      && |v'.candSeg| == |v.candSeg|
      && (forall j :: 0 <= j < |v.candSeg| && j != c.newSeg ==> v'.candSeg[j] == v.candSeg[j])
      && SegSize(v') == |NewSeg(pred, c)|
  {
    var p, s := SwitchSplit(pred, c, fuel);
    var r := SegSwitch(pred, c, fuel).value;
    assert WordSkeleton(s.word[c.m.hWord], r.word[c.m.hWord]);
    SwitchWordAt(pred, c, p);
    SwitchedWordShape(pred.word[c.m.hWord], s.word[c.m.hWord], r.word[c.m.hWord], c.newSeg, |NewSeg(pred, c)|);
  }

  /** The switched word of the half-switched state: the new choice, whose units are p's. */
  lemma SwitchWordAt(pred: DependencyInstance, c: SwitchCall, p: (seq<SegElement>, int))
    requires SwitchArgs(pred, c)
    ensures var v, vs := pred.word[c.m.hWord], Switch(pred, c, p).word[c.m.hWord];
      && vs.currSegCandID == c.newSeg && HasCurrSeg(vs) && SegSize(vs) == |p.0|
      && vs.inMap == v.inMap && vs.outMap == v.outMap && |vs.candSeg| == |v.candSeg|
      && forall j :: 0 <= j < |v.candSeg| && j != c.newSeg ==> vs.candSeg[j] == v.candSeg[j]
  {
  }

  /** The shape of the switched word, carried from the half-switched state to the relinked one. */
  lemma SwitchedWordShape(v: WordInstance, vs: WordInstance, vr: WordInstance, newSeg: int, size: nat)
    requires vs.currSegCandID == newSeg && HasCurrSeg(vs) && SegSize(vs) == size
    requires vs.inMap == v.inMap && vs.outMap == v.outMap && |vs.candSeg| == |v.candSeg|
    requires forall j :: 0 <= j < |v.candSeg| && j != newSeg ==> vs.candSeg[j] == v.candSeg[j]
    requires WordSkeleton(vs, vr)
    ensures vr.currSegCandID == newSeg && HasCurrSeg(vr) && SegSize(vr) == size
    ensures vr.inMap == v.inMap && vr.outMap == v.outMap && |vr.candSeg| == |v.candSeg|
    ensures forall j :: 0 <= j < |v.candSeg| && j != newSeg ==> vr.candSeg[j] == v.candSeg[j]
  {
  }

  /** What the half-switched state holds at new unit j. */
  lemma SwitchUnit(pred: DependencyInstance, c: SwitchCall, fuel: nat, p: (seq<SegElement>, int), s: DependencyInstance, j: int)
    requires SwitchArgs(pred, c) && 0 <= j < |NewSeg(pred, c)|
    requires NewUnits(NewSeg(pred, c), InRow(pred, c), c.oldPos, c.oldHead, OutRow(pred, c), c.m.hWord, fuel, |NewSeg(pred, c)|) == Some(p)
    requires s == Switch(pred, c, p)
    ensures IsAddr(s, HeadIndex(c.m.hWord, j))
    ensures GetElement(s, HeadIndex(c.m.hWord, j)) ==
      NewSeg(pred, c)[j].(currPos := ChoosePos(NewSeg(pred, c)[j].candPosId, c.oldPos[InRow(pred, c)[j]]).0,
                          dep := SwitchHead(pred, c, j, fuel).value)
  {
  }

  /**
   * Each new unit keeps the POS id of the old unit it descends from when
   * that id is among its candidates (the last such candidate), and takes
   * candidate 0 otherwise; its candidates are untouched.
   */
  lemma SegSwitchPos(pred: DependencyInstance, c: SwitchCall, fuel: nat, j: int)
    requires SwitchArgs(pred, c) && SegSwitch(pred, c, fuel).Some? && 0 <= j < |NewSeg(pred, c)|
    ensures IsAddr(SegSwitch(pred, c, fuel).value, HeadIndex(c.m.hWord, j))
    ensures var e, e' := NewSeg(pred, c)[j], GetElement(SegSwitch(pred, c, fuel).value, HeadIndex(c.m.hWord, j));
      var tag := c.oldPos[InRow(pred, c)[j]];
      && e'.candPosId == e.candPosId && e'.candProb == e.candProb
      && (tag in e.candPosId ==>
            && 0 <= e'.currPos < |e.candPosId| && e.candPosId[e'.currPos] == tag
            && forall i :: e'.currPos < i < |e.candPosId| ==> e.candPosId[i] != tag)
      && (tag !in e.candPosId ==> e'.currPos == 0)
  {
    var p, s := SwitchSplit(pred, c, fuel);
    var r := SegSwitch(pred, c, fuel).value;
    var x := HeadIndex(c.m.hWord, j);
    SwitchUnit(pred, c, fuel, p, s, j);
    SkeletonShape(s, r);
    assert Bare(GetElement(s, x)) == Bare(GetElement(r, x));
  }

  /**
   * A new unit that is not a related child gets the head of the old unit
   * it descends from when that head lies outside the switched word, and
   * otherwise the end of the walk: never itself, and outside the word
   * always one of the old heads.
   */
  lemma SegSwitchHeads(pred: DependencyInstance, c: SwitchCall, fuel: nat, j: int)
    requires SwitchArgs(pred, c) && SegSwitch(pred, c, fuel).Some? && 0 <= j < |NewSeg(pred, c)|
    requires HeadIndex(c.m.hWord, j) !in c.related
    ensures IsAddr(SegSwitch(pred, c, fuel).value, HeadIndex(c.m.hWord, j))
    ensures var d := Dep(SegSwitch(pred, c, fuel).value, HeadIndex(c.m.hWord, j));
      var from := c.oldHead[InRow(pred, c)[j]];
      && d == SwitchHead(pred, c, j, fuel).value
      && (from.hWord != c.m.hWord ==> d == from)
      && (d.hWord == c.m.hWord ==> d.hSeg != j && d.hSeg in OutRow(pred, c))
      && (d.hWord != c.m.hWord ==> d in c.oldHead)
  {
    var p, s := SwitchSplit(pred, c, fuel);
    var x := HeadIndex(c.m.hWord, j);
    SwitchUnit(pred, c, fuel, p, s, j);
    assert c.related[0..] == c.related;
    var from := c.oldHead[InRow(pred, c)[j]];
    assert HeadIndex(from.hWord, from.hSeg) == from;
    WalkSound(c.oldHead, OutRow(pred, c), c.m.hWord, j, from.hSeg, from.hWord, fuel);
  }

  /** Each related child, at its last entry, is re-pointed at the new image of its old parent. */
  lemma SegSwitchRelated(pred: DependencyInstance, c: SwitchCall, fuel: nat, k: int)
    requires SwitchArgs(pred, c) && SegSwitch(pred, c, fuel).Some? && 0 <= k < |c.related|
    requires LastFor(c.related, k)
    ensures IsAddr(SegSwitch(pred, c, fuel).value, c.related[k])
    ensures Dep(SegSwitch(pred, c, fuel).value, c.related[k]) == HeadIndex(c.m.hWord, OutRow(pred, c)[c.parents[k]])
  {
    var p, s := SwitchSplit(pred, c, fuel);
  }

  /** Relinking a state that agrees with pred outside word w keeps that agreement away from the related children. */
  lemma RelinkFrame(pred: DependencyInstance, s: DependencyInstance, r: DependencyInstance, w: int, related: seq<HeadIndex>)
    requires 0 <= w < |pred.word| && |s.word| == |pred.word|
    requires forall i :: 0 <= i < |pred.word| && i != w ==> s.word[i] == pred.word[i]
    requires SameSkeleton(s, r)
    requires forall x :: IsAddr(s, x) ==> Child(r, x) == Child(s, x)
    requires forall x :: IsAddr(s, x) && x !in related ==> Dep(r, x) == Dep(s, x)
    ensures forall i :: 0 <= i < |pred.word| && i != w ==> WordSkeleton(pred.word[i], r.word[i])
    ensures forall x :: IsAddr(pred, x) && x.hWord != w && x !in related ==> IsAddr(r, x) && GetElement(r, x) == GetElement(pred, x)
  {
    SkeletonShape(s, r);
    forall i | 0 <= i < |pred.word| && i != w
      ensures WordSkeleton(pred.word[i], r.word[i])
    {
      assert s.word[i] == pred.word[i];
      assert WordSkeleton(s.word[i], r.word[i]);
    }
    forall x | IsAddr(pred, x) && x.hWord != w && x !in related
      ensures IsAddr(r, x) && GetElement(r, x) == GetElement(pred, x)
    {
      assert s.word[x.hWord] == pred.word[x.hWord];
      assert IsAddr(s, x) && GetElement(s, x) == GetElement(pred, x);
      assert Bare(GetElement(s, x)) == Bare(GetElement(r, x));
    }
  }

  /**
   * Nothing else changes: other words keep their skeleton, and their units
   * that are not related children keep their whole element.
   */
  lemma SegSwitchFrame(pred: DependencyInstance, c: SwitchCall, fuel: nat)
    requires SwitchArgs(pred, c) && SegSwitch(pred, c, fuel).Some?
    ensures var r := SegSwitch(pred, c, fuel).value;
      forall i :: 0 <= i < |pred.word| && i != c.m.hWord ==> WordSkeleton(pred.word[i], r.word[i])
    ensures var r := SegSwitch(pred, c, fuel).value;
      forall x :: IsAddr(pred, x) && x.hWord != c.m.hWord && x !in c.related ==>
        IsAddr(r, x) && GetElement(r, x) == GetElement(pred, x)
  {
    var p, s := SwitchSplit(pred, c, fuel);
    assert c.related[0..] == c.related;
    RelinkFrame(pred, s, SegSwitch(pred, c, fuel).value, c.m.hWord, c.related);
  }

  /** The candidate-0 units of a word are read off its current units. */
  lemma OptPosOfElements(v: WordInstance, es: seq<SegElement>)
    requires HasCurrSeg(v) && CurrSeg(v).element == es
    ensures OptPosUnits(v) == ZeroPos(es)
  {
  }

  /** The half-switched state has exact counters when the base counts and the increments are right. */
  lemma SwitchCounts(pred: DependencyInstance, c: SwitchCall, p: (seq<SegElement>, int))
    requires SwitchArgs(pred, c) && |p.0| == |NewSeg(pred, c)|
    requires CountsExact(pred)
    requires c.baseOptSeg == pred.optSegCount - (if pred.word[c.m.hWord].currSegCandID == 0 then 1 else 0)
    requires c.baseOptPos == pred.word[c.m.hWord].optPosCount - |OptPosUnits(pred.word[c.m.hWord])|
    requires p.1 == |ZeroPos(p.0)|
    ensures CountsExact(Switch(pred, c, p))
  {
    var s := Switch(pred, c, p);
    var w := c.m.hWord;
    var u := UpdateSeg(pred, w, c.newSeg);
    assert OptSegWords(s) == OptSegWords(u);
    assert PosCountExact(pred.word[w]);
    assert HasCurrSeg(s.word[w]) && CurrSeg(s.word[w]).element == p.0;
    OptPosOfElements(s.word[w], p.0);
    forall i | 0 <= i < |s.word|
      ensures PosCountExact(s.word[i])
    {
      if i != w {
        assert s.word[i] == pred.word[i];
      }
    }
  }

  /**
   * With the base counts the caller computes (the counters minus the
   * switched word's own contribution) and distinct candidate POS ids,
   * the switch keeps both counters exact.
   */
  lemma SegSwitchKeepsCounts(pred: DependencyInstance, c: SwitchCall, fuel: nat)
    requires SwitchArgs(pred, c) && SegSwitch(pred, c, fuel).Some?
    requires CountsExact(pred)
    requires c.baseOptSeg == pred.optSegCount - (if pred.word[c.m.hWord].currSegCandID == 0 then 1 else 0)
    requires c.baseOptPos == pred.word[c.m.hWord].optPosCount - |OptPosUnits(pred.word[c.m.hWord])|
    requires forall j :: 0 <= j < |NewSeg(pred, c)| ==> DistinctIds(NewSeg(pred, c)[j].candPosId)
    ensures CountsExact(SegSwitch(pred, c, fuel).value)
  {
    var p, s := SwitchSplit(pred, c, fuel);
    SwitchCounts(pred, c, p);
    SkeletonKeepsCounts(s, SegSwitch(pred, c, fuel).value);
  }
}
