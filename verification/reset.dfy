/**
 * Resetting a sentence before decoding: removeGoldInfo and the no-pruner path
 * of initInst (every unit attached to the root, candidate 0 chosen
 * everywhere), and setGoldSegAndPos (gold's segmentation and POS choices,
 * heads cleared).
 */
module Reset {
  import opened Heads
  import opened Instance
  import opened Conversion
  import opened Counters
  import opened ChildLists
  import opened Ancestry

  /** The head the reset gives every unit of word i: none for the root word, the root otherwise. */
  function ResetHead(i: int): HeadIndex {
    if i == 0 then Sentinel else Root
  }

  /** Every word has at least one candidate segmentation (the reset selects candidate 0). */
  predicate HasCandidates(inst: DependencyInstance) {
    forall i :: 0 <= i < |inst.word| ==> |inst.word[i].candSeg| >= 1
  }

  /** When any word after the root has a unit under candidate 0, so does the root word. */
  predicate RootAvailable(inst: DependencyInstance)
    requires HasCandidates(inst)
  {
    forall i :: 1 <= i < |inst.word| && |inst.word[i].candSeg[0].element| > 0 ==>
      |inst.word[0].candSeg[0].element| > 0
  }

  /** Every unit of s pointed at d; with clearPos also every POS choice set to candidate 0. */
  function ResetElements(s: SegInstance, d: HeadIndex, clearPos: bool): SegInstance {
    SegInstance(seq(|s.element|, k requires 0 <= k < |s.element| =>
      s.element[k].(dep := d, currPos := if clearPos then 0 else s.element[k].currPos)))
  }

  function ResetWord(w: WordInstance, i: int): WordInstance
    requires |w.candSeg| >= 1
  {
    w.(candSeg := seq(|w.candSeg|, j requires 0 <= j < |w.candSeg| => ResetElements(w.candSeg[j], ResetHead(i), j == 0)),
       currSegCandID := 0)
  }

  /** The first loop of removeGoldInfo / initInst: heads, segmentation and POS choices reset. */
  function ClearChoices(inst: DependencyInstance): DependencyInstance
    requires HasCandidates(inst)
  {
    inst.(word := seq(|inst.word|, i requires 0 <= i < |inst.word| => ResetWord(inst.word[i], i)))
  }

  /**
   * t is s after the reset: the same units, each with head d and, when
   * clearPos, POS candidate 0. Child lists of the chosen candidate may differ.
   */
  predicate SegReset(s: SegInstance, t: SegInstance, d: HeadIndex, clearPos: bool) {
    && |t.element| == |s.element|
    && forall k :: 0 <= k < |s.element| ==>
      && t.element[k] == s.element[k].(dep := d, currPos := if clearPos then 0 else s.element[k].currPos, child := t.element[k].child)
      && (!clearPos ==> t.element[k].child == s.element[k].child)
  }

  /** v is word i of w after the reset: candidate 0 chosen and every candidate's units reset. */
  predicate WordReset(w: WordInstance, v: WordInstance, i: int) {
    && v.currSegCandID == 0
    && v.inMap == w.inMap && v.outMap == w.outMap
    && |v.candSeg| == |w.candSeg|
    && forall j :: 0 <= j < |w.candSeg| ==> SegReset(w.candSeg[j], v.candSeg[j], ResetHead(i), j == 0)
  }

  /** r is inst reset word by word. */
  predicate ResetOf(inst: DependencyInstance, r: DependencyInstance) {
    && |r.word| == |inst.word|
    && forall i :: 0 <= i < |inst.word| ==> WordReset(inst.word[i], r.word[i], i)
  }

  lemma ClearChoicesReset(inst: DependencyInstance)
    requires HasCandidates(inst)
    ensures ResetOf(inst, ClearChoices(inst))
    ensures Shaped(ClearChoices(inst))
  {
    var c := ClearChoices(inst);
    forall i | 0 <= i < |inst.word|
      ensures WordReset(inst.word[i], c.word[i], i)
    {
      var w := inst.word[i];
      forall j | 0 <= j < |w.candSeg|
        ensures SegReset(w.candSeg[j], c.word[i].candSeg[j], ResetHead(i), j == 0)
      {
      }
    }
  }

  /** The units of a reset sentence: those of candidate 0 of every word. */
  lemma ResetAddrs(inst: DependencyInstance, r: DependencyInstance)
    requires HasCandidates(inst) && ResetOf(inst, r)
    ensures Shaped(r)
    ensures forall x :: IsAddr(r, x) <==> 0 <= x.hWord < |inst.word| && 0 <= x.hSeg < |inst.word[x.hWord].candSeg[0].element|
    ensures forall x :: IsAddr(r, x) ==> Dep(r, x) == ResetHead(x.hWord)
  {
    forall x | IsAddr(r, x)
      ensures Dep(r, x) == ResetHead(x.hWord)
    {
      assert WordReset(inst.word[x.hWord], r.word[x.hWord], x.hWord);
      assert SegReset(inst.word[x.hWord].candSeg[0], r.word[x.hWord].candSeg[0], ResetHead(x.hWord), true);
    }
    forall x: HeadIndex | 0 <= x.hWord < |inst.word| && 0 <= x.hSeg < |inst.word[x.hWord].candSeg[0].element|
      ensures IsAddr(r, x)
    {
      assert WordReset(inst.word[x.hWord], r.word[x.hWord], x.hWord);
    }
  }

  /** Every unit of a reset sentence hangs from the root, which exists when needed. */
  lemma ResetAttached(inst: DependencyInstance, r: DependencyInstance)
    requires HasCandidates(inst) && RootAvailable(inst) && ResetOf(inst, r)
    ensures Attached(r)
  {
    ResetAddrs(inst, r);
    forall x | IsAddr(r, x) && x.hWord >= 1
      ensures IsAddr(r, Dep(r, x))
    {
      assert |inst.word[x.hWord].candSeg[0].element| > 0;
    }
  }

  /** Recounting keeps a reset: the counters are not part of it. */
  lemma RecountKeepsReset(inst: DependencyInstance, t: DependencyInstance)
    requires HasCandidates(inst) && ResetOf(inst, t) && Shaped(t)
    ensures ResetOf(inst, SetOptSegPosCount(t))
  {
    var u := SetOptSegPosCount(t);
    forall i | 0 <= i < |inst.word|
      ensures WordReset(inst.word[i], u.word[i], i)
    {
      assert WordReset(inst.word[i], t.word[i], i);
      assert u.word[i].candSeg == t.word[i].candSeg;
    }
  }

  /** Rebuilding child lists keeps a reset: only child lists of the chosen candidate change. */
  lemma RebuildKeepsReset(inst: DependencyInstance, t: DependencyInstance, r: DependencyInstance)
    requires HasCandidates(inst) && ResetOf(inst, t) && SameButChildren(t, r)
    ensures ResetOf(inst, r)
  {
    ResetAddrs(inst, t);
    SkeletonShape(t, r);
    forall i | 0 <= i < |inst.word|
      ensures WordReset(inst.word[i], r.word[i], i)
    {
      var w, v, v' := inst.word[i], t.word[i], r.word[i];
      assert WordReset(w, v, i);
      assert WordSkeleton(v, v');
      forall j | 0 <= j < |w.candSeg|
        ensures SegReset(w.candSeg[j], v'.candSeg[j], ResetHead(i), j == 0)
      {
        assert SegReset(w.candSeg[j], v.candSeg[j], ResetHead(i), j == 0);
        if j == 0 {
          forall k | 0 <= k < |w.candSeg[0].element|
            ensures v'.candSeg[0].element[k] == w.candSeg[0].element[k].(dep := ResetHead(i), currPos := 0, child := v'.candSeg[0].element[k].child)
          {
            var x := HeadIndex(i, k);
            assert IsAddr(t, x) && IsAddr(r, x);
            assert Dep(t, x) == Dep(r, x);
            assert Bare(GetElement(t, x)) == Bare(GetElement(r, x));
          }
        }
      }
    }
  }

  /** Recounting keeps the flat tables valid. */
  lemma RecountKeepsIndexed(t: DependencyInstance)
    requires Indexed(t)
    ensures Indexed(SetOptSegPosCount(t))
  {
    var u := SetOptSegPosCount(t);
    forall i | 0 <= i < |t.word|
      ensures HasCurrSeg(u.word[i]) && SegSize(u.word[i]) == SegSize(t.word[i])
    {
    }
    assert Sizes(u) == Sizes(t);
  }

  /** The state removeGoldInfo hands to buildChild. */
  lemma ResetBeforeRebuild(inst: DependencyInstance)
    requires HasCandidates(inst) && RootAvailable(inst)
    ensures Shaped(ClearChoices(inst))
    ensures var t := SetOptSegPosCount(ConstructConversionList(ClearChoices(inst)));
      Indexed(t) && Attached(t) && ResetOf(inst, t) && CountsExact(t)
  {
    var c := ClearChoices(inst);
    ClearChoicesReset(inst);
    var cc := ConstructConversionList(c);
    var t := SetOptSegPosCount(cc);
    RecountKeepsReset(inst, cc);
    RecountKeepsIndexed(cc);
    ResetAttached(inst, t);
  }

  /** What buildChild keeps of the reset state. */
  lemma ResetAfterRebuild(inst: DependencyInstance, t: DependencyInstance)
    requires HasCandidates(inst) && Indexed(t) && Attached(t) && ResetOf(inst, t) && CountsExact(t)
    ensures ResetOf(inst, BuildChild(t))
    ensures Indexed(BuildChild(t)) && CountsExact(BuildChild(t)) && Consistent(BuildChild(t))
  {
    var r := BuildChild(t);
    RebuildKeepsReset(inst, t, r);
    SkeletonShape(t, r);
    SkeletonKeepsCounts(t, r);
  }

  /**
   * removeGoldInfo(inst): candidate 0 chosen everywhere, units of the root
   * word without a head and every other unit (of every candidate) attached to
   * the root, candidate-0 POS tags, then the flat tables, the counters and
   * the child lists rebuilt.
   */
  function RemoveGoldInfo(inst: DependencyInstance): (r: DependencyInstance)
    requires HasCandidates(inst) && RootAvailable(inst)
    ensures ResetOf(inst, r)
    ensures Indexed(r) && CountsExact(r) && Consistent(r)
  {
    ResetBeforeRebuild(inst);
    var t := SetOptSegPosCount(ConstructConversionList(ClearChoices(inst)));
    ResetAfterRebuild(inst, t);
    BuildChild(t)
  }

  /** A reset sentence is left as it is by the clearing loop. */
  lemma ClearChoicesFixed(inst: DependencyInstance, r: DependencyInstance)
    requires HasCandidates(inst) && ResetOf(inst, r)
    ensures HasCandidates(r) && ClearChoices(r) == r
  {
    forall i | 0 <= i < |r.word|
      ensures |r.word[i].candSeg| >= 1 && ResetWord(r.word[i], i) == r.word[i]
    {
      var w, v := inst.word[i], r.word[i];
      assert WordReset(w, v, i);
      forall j | 0 <= j < |v.candSeg|
        ensures ResetElements(v.candSeg[j], ResetHead(i), j == 0) == v.candSeg[j]
      {
        assert SegReset(w.candSeg[j], v.candSeg[j], ResetHead(i), j == 0);
        assert ResetElements(v.candSeg[j], ResetHead(i), j == 0).element == v.candSeg[j].element;
      }
      assert ResetWord(v, i).candSeg == v.candSeg;
    }
    assert ClearChoices(r).word == r.word;
  }

  /** removeGoldInfo is idempotent. */
  lemma RemoveGoldInfoIdempotent(inst: DependencyInstance)
    requires HasCandidates(inst) && RootAvailable(inst)
    ensures HasCandidates(RemoveGoldInfo(inst)) && RootAvailable(RemoveGoldInfo(inst))
    ensures RemoveGoldInfo(RemoveGoldInfo(inst)) == RemoveGoldInfo(inst)
  {
    var r := RemoveGoldInfo(inst);
    ClearChoicesFixed(inst, r);
    forall i | 0 <= i < |r.word|
      ensures |r.word[i].candSeg[0].element| == |inst.word[i].candSeg[0].element|
    {
      assert WordReset(inst.word[i], r.word[i], i);
      assert SegReset(inst.word[i].candSeg[0], r.word[i].candSeg[0], ResetHead(i), true);
    }
    ConstructConversionListOfIndexed(r);
    SetOptSegPosCountOfExact(r);
    ResetAttached(inst, r);
    BuildChildOfConsistent(r);
  }

  lemma {:induction false} CountTrueAll(n: nat)
    ensures CountTrue(seq(n, _ => true)) == n
  {
    if n > 0 {
      assert seq(n, _ => true)[..n - 1] == seq(n - 1, _ => true);
      CountTrueAll(n - 1);
    }
  }

  lemma ResetWordCount(inst: DependencyInstance, r: DependencyInstance, i: int)
    requires HasCandidates(inst) && ResetOf(inst, r) && 0 <= i < |inst.word| && PosCountExact(r.word[i])
    ensures r.word[i].optPosCount == |inst.word[i].candSeg[0].element|
  {
    var v := r.word[i];
    assert WordReset(inst.word[i], v, i);
    assert SegReset(inst.word[i].candSeg[0], v.candSeg[0], ResetHead(i), true);
    assert PosFlags(v) == seq(SegSize(v), _ => true);
    PosFlagsCount(v);
    CountTrueAll(SegSize(v));
  }

  lemma ResetSegCount(inst: DependencyInstance, r: DependencyInstance)
    requires ResetOf(inst, r) && SegCountExact(r)
    ensures r.optSegCount == |inst.word|
  {
    forall i | 0 <= i < |r.word|
      ensures r.word[i].currSegCandID == 0
    {
      assert WordReset(inst.word[i], r.word[i], i);
    }
    assert SegFlags(r) == seq(|r.word|, _ => true);
    SegFlagsCount(r);
    CountTrueAll(|r.word|);
  }

  /** After the reset every word counts as candidate-0 segmented and every unit as candidate-0 tagged. */
  lemma ResetCounts(inst: DependencyInstance)
    requires HasCandidates(inst) && RootAvailable(inst)
    ensures RemoveGoldInfo(inst).optSegCount == |inst.word|
    ensures forall i :: 0 <= i < |inst.word| ==>
      RemoveGoldInfo(inst).word[i].optPosCount == |inst.word[i].candSeg[0].element|
  {
    var r := RemoveGoldInfo(inst);
    ResetSegCount(inst, r);
    forall i | 0 <= i < |inst.word|
      ensures r.word[i].optPosCount == |inst.word[i].candSeg[0].element|
    {
      ResetWordCount(inst, r, i);
    }
  }

  lemma TwoUnits(inst: DependencyInstance, x: HeadIndex)
    requires Shaped(inst) && IsAddr(inst, x) && IsAddr(inst, Root) && x != Root
    ensures NumUnits(inst) >= 2
  {
    UnitsAreAddrs(inst);
    UnitsFromLength(Sizes(inst), 0);
    assert Sizes(inst)[..0] == [];
    var u := Units(inst);
    assert x in u && Root in u;
    var i :| 0 <= i < |u| && u[i] == x;
    var j :| 0 <= j < |u| && u[j] == Root;
    assert i != j;
  }

  lemma OneUnit(inst: DependencyInstance)
    requires Shaped(inst) && IsAddr(inst, Root)
    ensures NumUnits(inst) >= 1
  {
    UnitsAreAddrs(inst);
    UnitsFromLength(Sizes(inst), 0);
    assert Sizes(inst)[..0] == [];
    assert Root in Units(inst);
  }

  lemma ChainOfFlat(inst: DependencyInstance, x: HeadIndex, n: nat)
    requires HeadsValid(inst) && IsAddr(inst, Root) && IsNone(Dep(inst, Root))
    requires IsAddr(inst, x) && (x == Root || Dep(inst, x) == Root)
    requires n >= if x == Root then 1 else 2
    ensures Chain(inst, x, n) == if x == Root then [Root] else [x, Root]
  {
    if x != Root {
      assert Chain(inst, Root, n - 1) == [Root];
    }
  }

  /** A sentence whose single root unit heads every other unit is a tree. */
  lemma FlatIsTree(inst: DependencyInstance)
    requires Shaped(inst) && |inst.word| >= 1 && SegSize(inst.word[0]) == 1
    requires forall x :: IsAddr(inst, x) ==> Dep(inst, x) == ResetHead(x.hWord)
    ensures RootedTree(inst)
  {
    var n := NumUnits(inst);
    assert IsAddr(inst, Root);
    assert HeadsValid(inst);
    OneUnit(inst);
    forall x | IsAddr(inst, x)
      ensures Rooted(inst, x)
    {
      if x != Root {
        TwoUnits(inst, x);
      }
      ChainOfFlat(inst, x, n + 1);
    }
  }

  /** With a single root unit, the reset sentence is a tree: every other unit hangs directly from the root. */
  lemma ResetIsTree(inst: DependencyInstance)
    requires HasCandidates(inst) && RootAvailable(inst)
    requires |inst.word| >= 1 && |inst.word[0].candSeg[0].element| == 1
    ensures RootedTree(RemoveGoldInfo(inst))
  {
    var r := RemoveGoldInfo(inst);
    ResetAddrs(inst, r);
    assert WordReset(inst.word[0], r.word[0], 0);
    assert SegReset(inst.word[0].candSeg[0], r.word[0].candSeg[0], Sentinel, true);
    FlatIsTree(r);
  }

  /** The second loop of initInst without a pruner: current units of words 1.. attached to the root. */
  function AttachCurrent(inst: DependencyInstance): DependencyInstance
    requires Shaped(inst)
  {
    inst.(word := seq(|inst.word|, i requires 0 <= i < |inst.word| =>
      var w := inst.word[i];
      if i == 0 then w
      else
        var s := CurrSeg(w);
        w.(candSeg := w.candSeg[w.currSegCandID := SegInstance(seq(|s.element|, k requires 0 <= k < |s.element| => s.element[k].(dep := Root)))])))
  }

  lemma AttachCurrentFixed(inst: DependencyInstance, c: DependencyInstance)
    requires HasCandidates(inst) && ResetOf(inst, c)
    ensures Shaped(c) && AttachCurrent(c) == c
  {
    ResetAddrs(inst, c);
    forall i | 1 <= i < |c.word|
      ensures AttachCurrent(c).word[i] == c.word[i]
    {
      var w := c.word[i];
      assert WordReset(inst.word[i], w, i);
      assert SegReset(inst.word[i].candSeg[0], w.candSeg[0], Root, true);
      var s := CurrSeg(w);
      assert seq(|s.element|, k requires 0 <= k < |s.element| => s.element[k].(dep := Root)) == s.element;
      assert w.candSeg[0 := SegInstance(s.element)] == w.candSeg;
    }
    assert AttachCurrent(c).word == c.word;
  }

  /**
   * initInst(inst) without a pruner: the clearing loop, then the current
   * units of words 1.. attached to the root once more, then the tables,
   * counters and child lists. It ends in the same state as removeGoldInfo.
   */
  function InitInstNoPruner(inst: DependencyInstance): (r: DependencyInstance)
    requires HasCandidates(inst) && RootAvailable(inst)
    ensures r == RemoveGoldInfo(inst)
  {
    ClearChoicesReset(inst);
    AttachCurrentFixed(inst, ClearChoices(inst));
    var c := AttachCurrent(ClearChoices(inst));
    ResetBeforeRebuild(inst);
    BuildChild(SetOptSegPosCount(ConstructConversionList(c)))
  }

  /**
   * gold can supply the choices of every word after the root: its chosen
   * candidate exists in pred and has at least as many units as pred's copy of
   * it. The root word must have a valid choice for the tables to be rebuilt.
   */
  predicate GoldFits(pred: DependencyInstance, gold: DependencyInstance) {
    && |gold.word| >= |pred.word|
    && (|pred.word| >= 1 ==> HasCurrSeg(pred.word[0]))
    && forall i :: 1 <= i < |pred.word| ==>
      && HasCurrSeg(gold.word[i])
      && gold.word[i].currSegCandID < |pred.word[i].candSeg|
      && |pred.word[i].candSeg[gold.word[i].currSegCandID].element| <= SegSize(gold.word[i])
  }

  function GoldWord(w: WordInstance, g: WordInstance): WordInstance
    requires HasCurrSeg(g) && g.currSegCandID < |w.candSeg| && |w.candSeg[g.currSegCandID].element| <= SegSize(g)
  {
    var c := g.currSegCandID;
    var s := w.candSeg[c];
    w.(currSegCandID := c,
       candSeg := w.candSeg[c := SegInstance(seq(|s.element|, k requires 0 <= k < |s.element| =>
         s.element[k].(currPos := CurrSeg(g).element[k].currPos, dep := Sentinel)))])
  }

  /** The loop of setGoldSegAndPos: words 1.. take gold's choices and lose their heads. */
  function CopyGold(pred: DependencyInstance, gold: DependencyInstance): DependencyInstance
    requires GoldFits(pred, gold)
  {
    pred.(word := seq(|pred.word|, i requires 0 <= i < |pred.word| =>
      if i == 0 then pred.word[0] else GoldWord(pred.word[i], gold.word[i])))
  }

  /**
   * v is w with gold's segmentation choice and, on the chosen candidate,
   * gold's POS choices and no heads; nothing else differs (the counter aside).
   */
  predicate GoldCopied(w: WordInstance, g: WordInstance, v: WordInstance) {
    && HasCurrSeg(g)
    && v.currSegCandID == g.currSegCandID
    && 0 <= v.currSegCandID < |v.candSeg| == |w.candSeg|
    && v.inMap == w.inMap && v.outMap == w.outMap
    && (forall j :: 0 <= j < |w.candSeg| && j != v.currSegCandID ==> v.candSeg[j] == w.candSeg[j])
    && |CurrSeg(v).element| == |w.candSeg[v.currSegCandID].element| <= |g.candSeg[g.currSegCandID].element|
    && forall k :: 0 <= k < |CurrSeg(v).element| ==>
      && CurrSeg(v).element[k].currPos == g.candSeg[g.currSegCandID].element[k].currPos
      && CurrSeg(v).element[k].dep == Sentinel
      && CurrSeg(v).element[k] == w.candSeg[v.currSegCandID].element[k].(currPos := CurrSeg(v).element[k].currPos, dep := Sentinel)
  }

  lemma CopyGoldFacts(pred: DependencyInstance, gold: DependencyInstance)
    requires GoldFits(pred, gold)
    ensures Shaped(CopyGold(pred, gold))
    ensures forall i :: 1 <= i < |pred.word| ==> GoldCopied(pred.word[i], gold.word[i], CopyGold(pred, gold).word[i])
  {
  }

  /**
   * setGoldSegAndPos(pred, gold): words 1.. take gold's segmentation and POS
   * choices with every head cleared; the root word is kept; the flat tables
   * and counters are rebuilt.
   */
  function SetGoldSegAndPos(pred: DependencyInstance, gold: DependencyInstance): (r: DependencyInstance)
    requires GoldFits(pred, gold)
    ensures Indexed(r) && CountsExact(r)
    ensures |r.word| == |pred.word|
    ensures |pred.word| >= 1 ==> r.word[0] == pred.word[0].(optPosCount := r.word[0].optPosCount)
    ensures forall i :: 1 <= i < |pred.word| ==> GoldCopied(pred.word[i], gold.word[i], r.word[i])
  {
    CopyGoldFacts(pred, gold);
    var c := ConstructConversionList(CopyGold(pred, gold));
    RecountKeepsIndexed(c);
    var r := SetOptSegPosCount(c);
    assert forall i :: 0 <= i < |r.word| ==> r.word[i].candSeg == c.word[i].candSeg;
    r
  }

  /** A word that already carries gold's choices is left as it is by the copy. */
  lemma GoldWordFixed(w: WordInstance, g: WordInstance, v: WordInstance)
    requires GoldCopied(w, g, v)
    ensures GoldWord(v, g) == v
  {
    var c := g.currSegCandID;
    var s := v.candSeg[c];
    var s' := SegInstance(seq(|s.element|, k requires 0 <= k < |s.element| =>
      s.element[k].(currPos := CurrSeg(g).element[k].currPos, dep := Sentinel)));
    assert s'.element == s.element;
    assert v.candSeg[c := s'] == v.candSeg;
  }

  /** Gold still fits words that already carry its choices. */
  lemma GoldFitsCopied(pred: DependencyInstance, gold: DependencyInstance, r: DependencyInstance)
    requires GoldFits(pred, gold) && |r.word| == |pred.word|
    requires |r.word| >= 1 ==> HasCurrSeg(r.word[0])
    requires forall i :: 1 <= i < |pred.word| ==> GoldCopied(pred.word[i], gold.word[i], r.word[i])
    ensures GoldFits(r, gold)
  {
  }

  /** Copying gold's choices onto words that already carry them changes nothing. */
  lemma CopyGoldFixed(pred: DependencyInstance, gold: DependencyInstance, r: DependencyInstance)
    requires GoldFits(r, gold) && |r.word| == |pred.word|
    requires forall i :: 1 <= i < |pred.word| ==> GoldCopied(pred.word[i], gold.word[i], r.word[i])
    ensures CopyGold(r, gold) == r
  {
    forall i | 1 <= i < |r.word|
      ensures GoldWord(r.word[i], gold.word[i]) == r.word[i]
    {
      GoldWordFixed(pred.word[i], gold.word[i], r.word[i]);
    }
    assert CopyGold(r, gold).word == r.word;
  }

  /** setGoldSegAndPos is idempotent. */
  lemma SetGoldSegAndPosIdempotent(pred: DependencyInstance, gold: DependencyInstance)
    requires GoldFits(pred, gold)
    ensures GoldFits(SetGoldSegAndPos(pred, gold), gold)
    ensures SetGoldSegAndPos(SetGoldSegAndPos(pred, gold), gold) == SetGoldSegAndPos(pred, gold)
  {
    var r := SetGoldSegAndPos(pred, gold);
    GoldFitsCopied(pred, gold, r);
    CopyGoldFixed(pred, gold, r);
    ConstructConversionListOfIndexed(r);
    SetOptSegPosCountOfExact(r);
  }
}
