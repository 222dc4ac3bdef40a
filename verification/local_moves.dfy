/**
 * The hill-climbing local moves: re-heading one unit (findOptHead), two
 * flat-adjacent siblings together (findOptBigramHead), and re-tagging one
 * unit (findOptPos). Each is an argmax over candidates that only accepts a
 * candidate beating the best so far by Eps. Scores come from a feature
 * model that is not part of this model; they are a function of the whole
 * state (partial score plus the gold loss, when training).
 */
module LocalMoves {
  import opened Wrappers
  import opened Heads
  import opened Instance
  import opened Conversion
  import opened ChildLists
  import opened Ancestry
  import opened Counters
  import opened Argmax

  /** What moving m needs: consistent child lists, and m a unit of words 1.. whose head is a unit. */
  ghost predicate Movable(inst: DependencyInstance, m: HeadIndex) {
    && Shaped(inst)
    && Consistent(inst)
    && IsAddr(inst, m) && m.hWord >= 1
    && IsAddr(inst, Dep(inst, m))
  }

  /**
   * One head move: m's head becomes h, and updateChildList moves m from its
   * old head's child list into h's.
   */
  function MoveHead(inst: DependencyInstance, m: HeadIndex, h: HeadIndex): (r: DependencyInstance)
    requires Movable(inst, m) && IsAddr(inst, h)
    ensures Consistent(r) && SameSkeleton(inst, r)
    ensures forall x :: IsAddr(r, x) <==> IsAddr(inst, x)
    ensures Dep(r, m) == h
    ensures forall x :: IsAddr(inst, x) && x != m ==> Dep(r, x) == Dep(inst, x)
  {
    var oldH := Dep(inst, m);
    var s := SetDep(inst, m, h);
    SetDepTwice(inst, m, h, oldH);
    SetDepSame(inst, m);
    UpdateChildListConsistent(s, h, oldH, m);
    var r := UpdateChildList(s, h, oldH, m);
    SkeletonTransitive(inst, s, r);
    r
  }

  lemma MoveHeadMovable(inst: DependencyInstance, m: HeadIndex, h: HeadIndex)
    requires Movable(inst, m) && IsAddr(inst, h)
    ensures Movable(MoveHead(inst, m, h), m)
    ensures HeadsValid(inst) ==> HeadsValid(MoveHead(inst, m, h))
  {
    SkeletonShape(inst, MoveHead(inst, m, h));
  }

  /** After a move, m is listed as a child of the new head and of no other unit. */
  lemma MoveHeadChildOf(inst: DependencyInstance, m: HeadIndex, h: HeadIndex)
    requires Movable(inst, m) && IsAddr(inst, h)
    ensures forall u :: IsAddr(inst, u) ==> (m in Child(MoveHead(inst, m, h), u) <==> u == h)
  {
    var r := MoveHead(inst, m, h);
    forall u | IsAddr(inst, u)
      ensures m in Child(r, u) <==> u == h
    {
      assert IsAddr(r, u);
      assert m in Child(r, u) <==> IsChildOf(r, m, u);
    }
  }

  /** Two sentences with the same units whose heads agree everywhere have the same heads. */
  lemma SameDepsAt(a: DependencyInstance, b: DependencyInstance, m: HeadIndex)
    requires forall x :: IsAddr(b, x) <==> IsAddr(a, x)
    requires IsAddr(a, m) && Dep(a, m) == Dep(b, m)
    requires forall x :: IsAddr(a, x) && x != m ==> Dep(b, x) == Dep(a, x)
    ensures SameDeps(a, b)
  {
  }

  /** Moves of the same unit compose: only the last one counts. */
  lemma MoveHeadOverrides(inst: DependencyInstance, m: HeadIndex, h1: HeadIndex, h2: HeadIndex)
    requires Movable(inst, m) && IsAddr(inst, h1) && IsAddr(inst, h2)
    ensures Movable(MoveHead(inst, m, h1), m)
    ensures MoveHead(MoveHead(inst, m, h1), m, h2) == MoveHead(inst, m, h2)
  {
    var mid := MoveHead(inst, m, h1);
    MoveHeadMovable(inst, m, h1);
    var a := MoveHead(mid, m, h2);
    var b := MoveHead(inst, m, h2);
    SkeletonTransitive(inst, mid, a);
    SkeletonSymmetric(inst, a);
    SkeletonTransitive(a, inst, b);
    SameDepsAt(a, b, m);
    ConsistentUnique(a, b);
  }

  /** Moving m back to the head it has changes nothing. */
  lemma MoveHeadBack(inst: DependencyInstance, m: HeadIndex)
    requires Movable(inst, m)
    ensures MoveHead(inst, m, Dep(inst, m)) == inst
  {
    var r := MoveHead(inst, m, Dep(inst, m));
    SameDepsAt(inst, r, m);
    ConsistentUnique(inst, r);
  }

  /** Re-pointing a unit at a unit keeps the flat tables valid and every head of words 1.. a unit. */
  lemma SetDepKeepsAttached(inst: DependencyInstance, m: HeadIndex, h: HeadIndex)
    requires IsAddr(inst, m) && IsAddr(inst, h) && Indexed(inst) && Attached(inst)
    ensures Indexed(SetDep(inst, m, h)) && Attached(SetDep(inst, m, h))
  {
    var s := SetDep(inst, m, h);
    SkeletonShape(inst, s);
    forall x | IsAddr(s, x) && x.hWord >= 1
      ensures IsAddr(s, Dep(s, x))
    {
      if x != m {
        assert IsAddr(inst, Dep(inst, x));
      }
    }
  }

  /** The incremental move gives the child lists a full buildChild of the re-pointed sentence would. */
  lemma MoveHeadIsRebuild(inst: DependencyInstance, m: HeadIndex, h: HeadIndex)
    requires Movable(inst, m) && IsAddr(inst, h)
    requires Indexed(inst) && Attached(inst)
    ensures Indexed(SetDep(inst, m, h)) && Attached(SetDep(inst, m, h))
    ensures MoveHead(inst, m, h) == BuildChild(SetDep(inst, m, h))
  {
    var s := SetDep(inst, m, h);
    SetDepKeepsAttached(inst, m, h);
    var a := MoveHead(inst, m, h);
    var b := BuildChild(s);
    SkeletonSymmetric(inst, s);
    SkeletonTransitive(s, inst, a);
    SkeletonSymmetric(s, a);
    SkeletonTransitive(a, s, b);
    SkeletonShape(s, b);
    SameDepsAt(a, b, m);
    ConsistentUnique(a, b);
  }

  /** Flat position k is not pruned for the modifier. */
  ghost predicate Unpruned(inst: DependencyInstance, pruned: seq<bool>, h: HeadIndex)
    requires Shaped(inst) && |pruned| == |Units(inst)|
  {
    exists k :: 0 <= k < |pruned| && Units(inst)[k] == h && !pruned[k]
  }

  /**
   * A head findOptHead tries for m: unpruned, not in m's subtree (so not m
   * itself), and not the old head.
   */
  ghost predicate Tried(inst: DependencyInstance, m: HeadIndex, pruned: seq<bool>, h: HeadIndex)
    requires Movable(inst, m) && HeadsValid(inst) && |pruned| == |Units(inst)|
  {
    && Unpruned(inst, pruned, h)
    && IsAddr(inst, h)
    && IsAncestor(inst, m, h) == Some(false)
    && h != Dep(inst, m)
  }

  /** A tried head is a unit other than m that does not have m on its head chain. */
  lemma TriedFacts(inst: DependencyInstance, m: HeadIndex, pruned: seq<bool>, h: HeadIndex)
    requires Movable(inst, m) && HeadsValid(inst) && |pruned| == |Units(inst)|
    requires Tried(inst, m, pruned, h)
    ensures IsAddr(inst, h) && h != m && m !in Chain(inst, h, Cap)
  {
  }

  /** The ancestor test for m gives the same answer in every trial state, since it never reads m's own head. */
  lemma AncestorInTrial(inst: DependencyInstance, m: HeadIndex, curH: HeadIndex, h: HeadIndex)
    requires Movable(inst, m) && HeadsValid(inst) && IsAddr(inst, curH) && IsAddr(inst, h)
    ensures HeadsValid(MoveHead(inst, m, curH)) && IsAddr(MoveHead(inst, m, curH), h)
    ensures IsAncestor(MoveHead(inst, m, curH), m, h) == IsAncestor(inst, m, h)
  {
    MoveHeadMovable(inst, m, curH);
    AncestorIgnoresOwnHead(inst, MoveHead(inst, m, curH), m, h, 0);
  }

  /** findOptHead's subtree test for candidate h while m hangs from c: isAncestor(pred, m, h) on the trial state. */
  function HeadTest(inst: DependencyInstance, m: HeadIndex): (test: (HeadIndex, HeadIndex) -> Option<bool>)
    requires Movable(inst, m) && HeadsValid(inst)
  {
    (c: HeadIndex, h: HeadIndex) =>
      if IsAddr(inst, c) && IsAddr(inst, h) then
        AncestorInTrial(inst, m, c, h);
        IsAncestor(MoveHead(inst, m, c), m, h)
      else None
  }

  /**
   * findOptHead's score of candidate h. The source moves m from the last head
   * tried to h; by MoveHeadOverrides that is the same state as moving m from
   * its original head to h.
   */
  function HeadTrial(inst: DependencyInstance, m: HeadIndex, score: DependencyInstance -> real): (trial: HeadIndex -> real)
    requires Movable(inst, m)
  {
    (h: HeadIndex) => if IsAddr(inst, h) then score(MoveHead(inst, m, h)) else 0.0
  }

  /** The trial-state subtree test is the test on the input sentence, whatever head m hangs from. */
  lemma HeadTestStable(inst: DependencyInstance, m: HeadIndex)
    requires Movable(inst, m) && HeadsValid(inst)
    ensures Stable(Units(inst), HeadTest(inst, m), Dep(inst, m))
    ensures forall c, h :: IsAddr(inst, c) && IsAddr(inst, h) ==> HeadTest(inst, m)(c, h) == IsAncestor(inst, m, h)
  {
    UnitsAreAddrs(inst);
    forall c, h | IsAddr(inst, c) && IsAddr(inst, h)
      ensures HeadTest(inst, m)(c, h) == IsAncestor(inst, m, h)
    {
      AncestorInTrial(inst, m, c, h);
    }
  }

  /** Every unpruned flat position is a unit other than m whose ancestor test finishes: findOptHead's assertions hold. */
  ghost predicate CandidatesOk(inst: DependencyInstance, m: HeadIndex, pruned: seq<bool>)
    requires Shaped(inst) && HeadsValid(inst) && |pruned| == |Units(inst)|
  {
    UnitsAreAddrs(inst);
    forall i :: 0 <= i < |pruned| && !pruned[i] ==> Units(inst)[i] != m && IsAncestor(inst, m, Units(inst)[i]).Some?
  }

  /** The candidate loop of findOptHead, started from m's old head with its score. */
  function HeadClimb(inst: DependencyInstance, m: HeadIndex, pruned: seq<bool>, score: DependencyInstance -> real)
    : Option<(HeadIndex, HeadIndex, real)>
    requires Movable(inst, m) && HeadsValid(inst) && |pruned| == |Units(inst)|
  {
    Climb(Units(inst), pruned, m, Dep(inst, m), HeadTest(inst, m), HeadTrial(inst, m, score), 0, Dep(inst, m), Dep(inst, m), score(inst))
  }

  /**
   * findOptHead: tries every unpruned unit in flat order as m's head, skipping
   * m's descendants and the old head, keeps the first candidate that beats
   * the best score by Eps, and finally moves m from the last head tried to the
   * best one. The result is (gain, new sentence), or None where the source's
   * assertions fail (m itself unpruned, or an ancestor test running into its
   * step bound). The score folds in the gold loss when training.
   */
  function FindOptHead(inst: DependencyInstance, m: HeadIndex, pruned: seq<bool>, score: DependencyInstance -> real)
    : (r: Option<(real, DependencyInstance)>)
    requires Movable(inst, m) && HeadsValid(inst) && |pruned| == |Units(inst)|
    ensures r.Some? ==> IsAddr(r.value.1, m) && IsAddr(inst, Dep(r.value.1, m)) && r.value.1 == MoveHead(inst, m, Dep(r.value.1, m))
    ensures var c := HeadClimb(inst, m, pruned, score);
      (r.Some? <==> c.Some?) && (r.Some? ==> r.value.0 == c.value.2 - score(inst) && Dep(r.value.1, m) == c.value.1)
  {
    match HeadClimb(inst, m, pruned, score)
    case None => None
    case Some((last, best, bestScore)) =>
      UnitsAreAddrs(inst);
      ClimbLast(Units(inst), pruned, m, Dep(inst, m), HeadTest(inst, m), HeadTrial(inst, m, score), 0, Dep(inst, m), Dep(inst, m), score(inst));
      MoveHeadBack(inst, m);
      ClimbScores(Units(inst), pruned, m, Dep(inst, m), HeadTest(inst, m), HeadTrial(inst, m, score), 0, Dep(inst, m), Dep(inst, m), score(inst));
      MoveHeadOverrides(inst, m, last, best);
      Some((bestScore - score(inst), MoveHead(MoveHead(inst, m, last), m, best)))
  }

  /** The loop's assertions, read through the trial-state test, are findOptHead's assertions on the input sentence. */
  lemma PassesIsCandidatesOk(inst: DependencyInstance, m: HeadIndex, pruned: seq<bool>)
    requires Movable(inst, m) && HeadsValid(inst) && |pruned| == |Units(inst)|
    ensures Passes(Units(inst), pruned, m, HeadTest(inst, m), Dep(inst, m), 0) <==> CandidatesOk(inst, m, pruned)
  {
    UnitsAreAddrs(inst);
    var units, test := Units(inst), HeadTest(inst, m);
    forall i | 0 <= i < |units|
      ensures test(Dep(inst, m), units[i]) == IsAncestor(inst, m, units[i])
    {
      AncestorInTrial(inst, m, Dep(inst, m), units[i]);
    }
    if Passes(units, pruned, m, test, Dep(inst, m), 0) {
      forall i | 0 <= i < |pruned| && !pruned[i]
        ensures units[i] != m && IsAncestor(inst, m, units[i]).Some?
      {
      }
    }
    if CandidatesOk(inst, m, pruned) {
      forall i | 0 <= i < |units| && !pruned[i]
        ensures units[i] != m && test(Dep(inst, m), units[i]).Some?
      {
      }
    }
  }

  /** findOptHead finishes exactly when its assertions hold for every unpruned flat position. */
  lemma FindOptHeadDefined(inst: DependencyInstance, m: HeadIndex, pruned: seq<bool>, score: DependencyInstance -> real)
    requires Movable(inst, m) && HeadsValid(inst) && |pruned| == |Units(inst)|
    ensures FindOptHead(inst, m, pruned, score).Some? <==> CandidatesOk(inst, m, pruned)
  {
    HeadTestStable(inst, m);
    ClimbDefined(Units(inst), pruned, m, Dep(inst, m), HeadTest(inst, m), HeadTrial(inst, m, score),
                 Dep(inst, m), 0, Dep(inst, m), Dep(inst, m), score(inst));
    PassesIsCandidatesOk(inst, m, pruned);
  }

  /** The loop's best head is a unit, and its score is the score of moving m there. */
  lemma HeadClimbScores(inst: DependencyInstance, m: HeadIndex, pruned: seq<bool>, score: DependencyInstance -> real)
    requires Movable(inst, m) && HeadsValid(inst) && |pruned| == |Units(inst)|
    ensures var c := HeadClimb(inst, m, pruned, score);
      c.Some? ==> IsAddr(inst, c.value.0) && IsAddr(inst, c.value.1) && c.value.2 == score(MoveHead(inst, m, c.value.1))
  {
    UnitsAreAddrs(inst);
    var units, test, trial := Units(inst), HeadTest(inst, m), HeadTrial(inst, m, score);
    var oldDep := Dep(inst, m);
    MoveHeadBack(inst, m);
    assert trial(oldDep) == score(inst);
    ClimbScores(units, pruned, m, oldDep, test, trial, 0, oldDep, oldDep, score(inst));
    ClimbLast(units, pruned, m, oldDep, test, trial, 0, oldDep, oldDep, score(inst));
  }

  /** The loop's best score is at least the old one, and above it by Eps when the best head is a tried one instead of the old head. */
  lemma HeadClimbRises(inst: DependencyInstance, m: HeadIndex, pruned: seq<bool>, score: DependencyInstance -> real)
    requires Movable(inst, m) && HeadsValid(inst) && |pruned| == |Units(inst)|
    ensures var c := HeadClimb(inst, m, pruned, score);
      c.Some? ==>
        && c.value.2 >= score(inst)
        && (c.value.1 != Dep(inst, m) ==> c.value.2 > score(inst) + Eps && Tried(inst, m, pruned, c.value.1))
  {
    UnitsAreAddrs(inst);
    var units, test, trial := Units(inst), HeadTest(inst, m), HeadTrial(inst, m, score);
    var oldDep := Dep(inst, m);
    ClimbRises(units, pruned, m, oldDep, test, trial, 0, oldDep, oldDep, score(inst));
    var c := HeadClimb(inst, m, pruned, score);
    if c.Some? && c.value.1 != oldDep {
      var b := c.value.1;
      assert Picked(units, pruned, m, oldDep, test, 0, b);
      var c0 :| test(c0, b) == Some(false);
      HeadTestStable(inst, m);
      var i :| 0 <= i < |units| && !pruned[i] && units[i] == b;
      assert Unpruned(inst, pruned, b);
    }
  }

  /** A tried head sits at an unpruned flat position, passes the loop's subtree test, and is scored by moving m there. */
  lemma TriedPosition(inst: DependencyInstance, m: HeadIndex, pruned: seq<bool>, score: DependencyInstance -> real, h: HeadIndex)
    returns (i: int)
    requires Movable(inst, m) && HeadsValid(inst) && |pruned| == |Units(inst)|
    requires Tried(inst, m, pruned, h)
    ensures 0 <= i < |pruned| && !pruned[i] && Units(inst)[i] == h
    ensures HeadTest(inst, m)(Dep(inst, m), h) == Some(false) && h != Dep(inst, m)
    ensures HeadTrial(inst, m, score)(h) == score(MoveHead(inst, m, h))
  {
    i :| 0 <= i < |pruned| && Units(inst)[i] == h && !pruned[i];
    AncestorInTrial(inst, m, Dep(inst, m), h);
  }

  /** No tried head scores more than Eps above the loop's best score. */
  lemma HeadClimbBound(inst: DependencyInstance, m: HeadIndex, pruned: seq<bool>, score: DependencyInstance -> real)
    requires Movable(inst, m) && HeadsValid(inst) && |pruned| == |Units(inst)|
    ensures var c := HeadClimb(inst, m, pruned, score);
      c.Some? ==> forall h :: Tried(inst, m, pruned, h) ==> score(MoveHead(inst, m, h)) <= c.value.2 + Eps
  {
    var units, test, trial := Units(inst), HeadTest(inst, m), HeadTrial(inst, m, score);
    var oldDep := Dep(inst, m);
    HeadTestStable(inst, m);
    ClimbBound(units, pruned, m, oldDep, test, trial, oldDep, 0, oldDep, oldDep, score(inst));
    var c := HeadClimb(inst, m, pruned, score);
    if c.Some? {
      forall h | Tried(inst, m, pruned, h)
        ensures score(MoveHead(inst, m, h)) <= c.value.2 + Eps
      {
        var i := TriedPosition(inst, m, pruned, score, h);
      }
    }
  }

  /**
   * findOptHead's gain is the score difference it makes and is non-negative;
   * m's head changes only for a gain above Eps, and then to a tried head.
   */
  lemma FindOptHeadGain(inst: DependencyInstance, m: HeadIndex, pruned: seq<bool>, score: DependencyInstance -> real)
    requires Movable(inst, m) && HeadsValid(inst) && |pruned| == |Units(inst)|
    ensures var r := FindOptHead(inst, m, pruned, score);
      r.Some? ==>
        && r.value.0 == score(r.value.1) - score(inst)
        && r.value.0 >= 0.0
        && (Dep(r.value.1, m) != Dep(inst, m) ==> r.value.0 > Eps && Tried(inst, m, pruned, Dep(r.value.1, m)))
  {
    HeadClimbScores(inst, m, pruned, score);
    HeadClimbRises(inst, m, pruned, score);
  }

  /** No tried head scores more than Eps above the head findOptHead keeps. */
  lemma FindOptHeadBest(inst: DependencyInstance, m: HeadIndex, pruned: seq<bool>, score: DependencyInstance -> real)
    requires Movable(inst, m) && HeadsValid(inst) && |pruned| == |Units(inst)|
    ensures var r := FindOptHead(inst, m, pruned, score);
      r.Some? ==> forall h :: Tried(inst, m, pruned, h) ==> score(MoveHead(inst, m, h)) <= score(r.value.1) + Eps
  {
    HeadClimbScores(inst, m, pruned, score);
    HeadClimbBound(inst, m, pruned, score);
  }

  /** After findOptHead, m is in the child list of its chosen head and of no other unit. */
  lemma FindOptHeadChildOf(inst: DependencyInstance, m: HeadIndex, pruned: seq<bool>, score: DependencyInstance -> real)
    requires Movable(inst, m) && HeadsValid(inst) && |pruned| == |Units(inst)|
    ensures var r := FindOptHead(inst, m, pruned, score);
      r.Some? ==> forall u :: IsAddr(inst, u) ==> (m in Child(r.value.1, u) <==> u == Dep(r.value.1, m))
  {
    var r := FindOptHead(inst, m, pruned, score);
    if r.Some? {
      MoveHeadChildOf(inst, m, Dep(r.value.1, m));
    }
  }

  /** A unit other than m keeps its head and stays movable when m moves. */
  lemma MoveHeadKeepsOther(inst: DependencyInstance, m: HeadIndex, h: HeadIndex, n: HeadIndex)
    requires Movable(inst, m) && IsAddr(inst, h) && Movable(inst, n) && n != m
    ensures Movable(MoveHead(inst, m, h), n) && Dep(MoveHead(inst, m, h), n) == Dep(inst, n)
  {
    SkeletonShape(inst, MoveHead(inst, m, h));
  }

  /**
   * The pair findOptBigramHead moves: two distinct movable units sharing a
   * head (the caller takes n as m's flat successor and skips the pair when
   * the heads differ).
   */
  ghost predicate BigramPair(inst: DependencyInstance, m: HeadIndex, n: HeadIndex) {
    Movable(inst, m) && Movable(inst, n) && m != n && Dep(inst, m) == Dep(inst, n)
  }

  /** One bigram move: m and then n are re-pointed to h, each with its child-list update from their shared old head. */
  function MoveBoth(inst: DependencyInstance, m: HeadIndex, n: HeadIndex, h: HeadIndex): (r: DependencyInstance)
    requires BigramPair(inst, m, n) && IsAddr(inst, h)
    ensures Consistent(r) && SameSkeleton(inst, r)
    ensures forall x :: IsAddr(r, x) <==> IsAddr(inst, x)
    ensures Dep(r, m) == h && Dep(r, n) == h
    ensures forall x :: IsAddr(inst, x) && x != m && x != n ==> Dep(r, x) == Dep(inst, x)
    ensures BigramPair(r, m, n)
    ensures HeadsValid(inst) ==> HeadsValid(r)
  {
    MoveHeadKeepsOther(inst, m, h, n);
    MoveHeadMovable(inst, m, h);
    var s := MoveHead(inst, m, h);
    MoveHeadMovable(s, n, h);
    MoveHeadKeepsOther(s, n, h, m);
    var r := MoveHead(s, n, h);
    SkeletonTransitive(inst, s, r);
    r
  }

  /** Two sentences with the same units whose heads agree everywhere have the same heads (two-unit version). */
  lemma SameDepsAt2(a: DependencyInstance, b: DependencyInstance, m: HeadIndex, n: HeadIndex)
    requires forall x :: IsAddr(b, x) <==> IsAddr(a, x)
    requires IsAddr(a, m) && Dep(a, m) == Dep(b, m)
    requires IsAddr(a, n) && Dep(a, n) == Dep(b, n)
    requires forall x :: IsAddr(a, x) && x != m && x != n ==> Dep(b, x) == Dep(a, x)
    ensures SameDeps(a, b)
  {
  }

  /** Bigram moves compose: only the last one counts. */
  lemma MoveBothOverrides(inst: DependencyInstance, m: HeadIndex, n: HeadIndex, h1: HeadIndex, h2: HeadIndex)
    requires BigramPair(inst, m, n) && IsAddr(inst, h1) && IsAddr(inst, h2)
    ensures MoveBoth(MoveBoth(inst, m, n, h1), m, n, h2) == MoveBoth(inst, m, n, h2)
  {
    var mid := MoveBoth(inst, m, n, h1);
    var a := MoveBoth(mid, m, n, h2);
    var b := MoveBoth(inst, m, n, h2);
    SkeletonTransitive(inst, mid, a);
    SkeletonSymmetric(inst, a);
    SkeletonTransitive(a, inst, b);
    SameDepsAt2(a, b, m, n);
    ConsistentUnique(a, b);
  }

  /** Moving the pair back to the head they share changes nothing. */
  lemma MoveBothBack(inst: DependencyInstance, m: HeadIndex, n: HeadIndex)
    requires BigramPair(inst, m, n)
    ensures MoveBoth(inst, m, n, Dep(inst, m)) == inst
  {
    var r := MoveBoth(inst, m, n, Dep(inst, m));
    SameDepsAt2(inst, r, m, n);
    ConsistentUnique(inst, r);
  }

  /** h is outside both subtrees in state t: neither m nor n is on h's head chain, and both tests finish. */
  ghost predicate OutsideBoth(t: DependencyInstance, m: HeadIndex, n: HeadIndex, h: HeadIndex)
    requires HeadsValid(t) && IsAddr(t, h)
  {
    IsAncestor(t, m, h) == Some(false) && IsAncestor(t, n, h) == Some(false)
  }

  /**
   * findOptBigramHead's subtree test for h while m and n hang from c:
   * isAncestor(pred, m, h) || isAncestor(pred, n, h) on the trial state, the
   * second test only run when the first is false.
   */
  function BigramTest(inst: DependencyInstance, m: HeadIndex, n: HeadIndex): (test: (HeadIndex, HeadIndex) -> Option<bool>)
    requires BigramPair(inst, m, n) && HeadsValid(inst)
  {
    (c: HeadIndex, h: HeadIndex) =>
      if IsAddr(inst, c) && IsAddr(inst, h) then
        var t := MoveBoth(inst, m, n, c);
        match IsAncestor(t, m, h)
        case None => None
        case Some(inM) => if inM then Some(true) else IsAncestor(t, n, h)
      else None
  }

  /** findOptBigramHead's score of candidate h: both units moved to h (by MoveBothOverrides, from any trial state). */
  function BigramTrial(inst: DependencyInstance, m: HeadIndex, n: HeadIndex, score: DependencyInstance -> real): (trial: HeadIndex -> real)
    requires BigramPair(inst, m, n)
  {
    (h: HeadIndex) => if IsAddr(inst, h) then score(MoveBoth(inst, m, n, h)) else 0.0
  }

  /** A flat position is skipped when it is pruned for m or for n. */
  function EitherPruned(mPruned: seq<bool>, nPruned: seq<bool>): (skip: seq<bool>)
    requires |mPruned| == |nPruned|
    ensures |skip| == |mPruned|
    ensures forall i :: 0 <= i < |skip| ==> (skip[i] <==> mPruned[i] || nPruned[i])
  {
    seq(|mPruned|, i requires 0 <= i < |mPruned| => mPruned[i] || nPruned[i])
  }

  /** The candidate loop of findOptBigramHead, started from the pair's shared head with its score. */
  function BigramClimb(inst: DependencyInstance, m: HeadIndex, n: HeadIndex, mPruned: seq<bool>, nPruned: seq<bool>,
                       score: DependencyInstance -> real): Option<(HeadIndex, HeadIndex, real)>
    requires BigramPair(inst, m, n) && HeadsValid(inst)
    requires |mPruned| == |Units(inst)| && |nPruned| == |Units(inst)|
  {
    Climb(Units(inst), EitherPruned(mPruned, nPruned), m, Dep(inst, m), BigramTest(inst, m, n), BigramTrial(inst, m, n, score),
          0, Dep(inst, m), Dep(inst, m), score(inst))
  }

  /**
   * findOptBigramHead: the findOptHead loop for the pair m, n, skipping heads
   * pruned for either and heads in either subtree, then moving both from the
   * last head tried to the best one. None where the source's assertions fail.
   */
  function FindOptBigramHead(inst: DependencyInstance, m: HeadIndex, n: HeadIndex, mPruned: seq<bool>, nPruned: seq<bool>,
                             score: DependencyInstance -> real): (r: Option<(real, DependencyInstance)>)
    requires BigramPair(inst, m, n) && HeadsValid(inst)
    requires |mPruned| == |Units(inst)| && |nPruned| == |Units(inst)|
    ensures r.Some? ==>
      && IsAddr(r.value.1, m) && IsAddr(r.value.1, n) && IsAddr(inst, Dep(r.value.1, m))
      && Dep(r.value.1, n) == Dep(r.value.1, m)
      && r.value.1 == MoveBoth(inst, m, n, Dep(r.value.1, m))
    ensures var c := BigramClimb(inst, m, n, mPruned, nPruned, score);
      (r.Some? <==> c.Some?) && (r.Some? ==> r.value.0 == c.value.2 - score(inst) && Dep(r.value.1, m) == c.value.1)
  {
    match BigramClimb(inst, m, n, mPruned, nPruned, score)
    case None => None
    case Some((last, best, bestScore)) =>
      UnitsAreAddrs(inst);
      var units, skip := Units(inst), EitherPruned(mPruned, nPruned);
      var test, trial := BigramTest(inst, m, n), BigramTrial(inst, m, n, score);
      ClimbLast(units, skip, m, Dep(inst, m), test, trial, 0, Dep(inst, m), Dep(inst, m), score(inst));
      MoveBothBack(inst, m, n);
      ClimbScores(units, skip, m, Dep(inst, m), test, trial, 0, Dep(inst, m), Dep(inst, m), score(inst));
      MoveBothOverrides(inst, m, n, last, best);
      Some((bestScore - score(inst), MoveBoth(MoveBoth(inst, m, n, last), m, n, best)))
  }

  /**
   * A head findOptBigramHead scores for the pair: a unit other than m and the
   * old head, unpruned for both, and outside both subtrees in the trial state
   * it was tested in.
   */
  ghost predicate BigramTried(inst: DependencyInstance, m: HeadIndex, n: HeadIndex, mPruned: seq<bool>, nPruned: seq<bool>, h: HeadIndex)
    requires BigramPair(inst, m, n) && HeadsValid(inst)
    requires |mPruned| == |Units(inst)| && |nPruned| == |Units(inst)|
  {
    && IsAddr(inst, h) && h != m && h != Dep(inst, m)
    && (exists i :: 0 <= i < |mPruned| && Units(inst)[i] == h && !mPruned[i] && !nPruned[i])
    && (exists c :: IsAddr(inst, c) && OutsideBoth(MoveBoth(inst, m, n, c), m, n, h))
  }

  /** The loop's best head for the pair is a unit, and its score is the score of moving both there. */
  lemma BigramClimbScores(inst: DependencyInstance, m: HeadIndex, n: HeadIndex, mPruned: seq<bool>, nPruned: seq<bool>,
                          score: DependencyInstance -> real)
    requires BigramPair(inst, m, n) && HeadsValid(inst)
    requires |mPruned| == |Units(inst)| && |nPruned| == |Units(inst)|
    ensures var c := BigramClimb(inst, m, n, mPruned, nPruned, score);
      c.Some? ==> IsAddr(inst, c.value.1) && c.value.2 == score(MoveBoth(inst, m, n, c.value.1))
  {
    UnitsAreAddrs(inst);
    var units, skip := Units(inst), EitherPruned(mPruned, nPruned);
    var test, trial := BigramTest(inst, m, n), BigramTrial(inst, m, n, score);
    var oldDep := Dep(inst, m);
    MoveBothBack(inst, m, n);
    assert trial(oldDep) == score(inst);
    ClimbScores(units, skip, m, oldDep, test, trial, 0, oldDep, oldDep, score(inst));
  }

  /** A candidate that fails the bigram subtree test in trial state c is a unit outside both subtrees there. */
  lemma BigramTestFalse(inst: DependencyInstance, m: HeadIndex, n: HeadIndex, c: HeadIndex, h: HeadIndex)
    requires BigramPair(inst, m, n) && HeadsValid(inst)
    requires BigramTest(inst, m, n)(c, h) == Some(false)
    ensures IsAddr(inst, c) && IsAddr(inst, h) && OutsideBoth(MoveBoth(inst, m, n, c), m, n, h)
  {
  }

  /** A head the bigram loop picked is a tried head for the pair. */
  lemma BigramPickedIsTried(inst: DependencyInstance, m: HeadIndex, n: HeadIndex, mPruned: seq<bool>, nPruned: seq<bool>, b: HeadIndex)
    requires BigramPair(inst, m, n) && HeadsValid(inst)
    requires |mPruned| == |Units(inst)| && |nPruned| == |Units(inst)|
    requires Picked(Units(inst), EitherPruned(mPruned, nPruned), m, Dep(inst, m), BigramTest(inst, m, n), 0, b)
    ensures BigramTried(inst, m, n, mPruned, nPruned, b)
  {
    var c0 :| BigramTest(inst, m, n)(c0, b) == Some(false);
    BigramTestFalse(inst, m, n, c0, b);
    var i :| 0 <= i < |Units(inst)| && !EitherPruned(mPruned, nPruned)[i] && Units(inst)[i] == b;
    assert !mPruned[i] && !nPruned[i];
  }

  /** The loop's best score for the pair is at least the old one, and above it by Eps when the best head is a tried one. */
  lemma BigramClimbRises(inst: DependencyInstance, m: HeadIndex, n: HeadIndex, mPruned: seq<bool>, nPruned: seq<bool>,
                         score: DependencyInstance -> real)
    requires BigramPair(inst, m, n) && HeadsValid(inst)
    requires |mPruned| == |Units(inst)| && |nPruned| == |Units(inst)|
    ensures var c := BigramClimb(inst, m, n, mPruned, nPruned, score);
      c.Some? ==>
        && c.value.2 >= score(inst)
        && (c.value.1 != Dep(inst, m) ==> c.value.2 > score(inst) + Eps && BigramTried(inst, m, n, mPruned, nPruned, c.value.1))
  {
    var units, skip := Units(inst), EitherPruned(mPruned, nPruned);
    var test, trial := BigramTest(inst, m, n), BigramTrial(inst, m, n, score);
    var oldDep := Dep(inst, m);
    ClimbRises(units, skip, m, oldDep, test, trial, 0, oldDep, oldDep, score(inst));
    var c := BigramClimb(inst, m, n, mPruned, nPruned, score);
    if c.Some? && c.value.1 != oldDep {
      BigramPickedIsTried(inst, m, n, mPruned, nPruned, c.value.1);
    }
  }

  /**
   * findOptBigramHead's gain is the score difference it makes and is
   * non-negative; the pair's head changes only for a gain above Eps, and then
   * to a tried head.
   */
  lemma FindOptBigramHeadGain(inst: DependencyInstance, m: HeadIndex, n: HeadIndex, mPruned: seq<bool>, nPruned: seq<bool>,
                              score: DependencyInstance -> real)
    requires BigramPair(inst, m, n) && HeadsValid(inst)
    requires |mPruned| == |Units(inst)| && |nPruned| == |Units(inst)|
    ensures var r := FindOptBigramHead(inst, m, n, mPruned, nPruned, score);
      r.Some? ==>
        && r.value.0 == score(r.value.1) - score(inst)
        && r.value.0 >= 0.0
        && (Dep(r.value.1, m) != Dep(inst, m) ==> r.value.0 > Eps && BigramTried(inst, m, n, mPruned, nPruned, Dep(r.value.1, m)))
  {
    BigramClimbScores(inst, m, n, mPruned, nPruned, score);
    BigramClimbRises(inst, m, n, mPruned, nPruned, score);
  }

  /** findOptPos's score of POS candidate i: the unit re-tagged to i (by UpdatePosTwice, from any trial state). */
  function PosTrial(inst: DependencyInstance, m: HeadIndex, score: DependencyInstance -> real): (trial: int -> real)
    requires IsAddr(inst, m)
  {
    (i: int) => score(UpdatePos(inst, m, i))
  }

  /** What findOptPos needs of m: a unit whose POS candidates and their log-probabilities are aligned. */
  predicate Retaggable(inst: DependencyInstance, m: HeadIndex) {
    IsAddr(inst, m) && |GetElement(inst, m).candProb| == |GetElement(inst, m).candPosId|
  }

  /** The candidate loop of findOptPos, started from m's current POS choice with its score. */
  function PosClimb(inst: DependencyInstance, m: HeadIndex, score: DependencyInstance -> real): (int, int, real)
    requires Retaggable(inst, m)
  {
    var e := GetElement(inst, m);
    RetagClimb(e.candProb, e.currPos, PosTrial(inst, m, score), 0, e.currPos, e.currPos, score(inst))
  }

  /**
   * findOptPos: with a single POS candidate nothing changes and the gain is 0;
   * otherwise every candidate other than the current one and not below
   * PosProbFloor is tried, the first to beat the best by Eps is kept, and the
   * unit is finally re-tagged from the last candidate tried to the best one.
   */
  function FindOptPos(inst: DependencyInstance, m: HeadIndex, score: DependencyInstance -> real): (r: (real, DependencyInstance))
    requires Retaggable(inst, m)
    ensures IsAddr(r.1, m) && r.1 == UpdatePos(inst, m, GetElement(r.1, m).currPos)
    ensures PosCountExact(inst.word[m.hWord]) ==> PosCountExact(r.1.word[m.hWord])
    ensures |GetElement(inst, m).candPosId| == 1 ==> r == (0.0, inst)
    ensures var c := PosClimb(inst, m, score);
      |GetElement(inst, m).candPosId| != 1 ==> r.0 == c.2 - score(inst) && GetElement(r.1, m).currPos == c.1
  {
    var e := GetElement(inst, m);
    if |e.candPosId| == 1 then
      UpdatePosSame(inst, m);
      (0.0, inst)
    else
      var (last, best, bestScore) := PosClimb(inst, m, score);
      UpdatePosTwice(inst, m, last, best);
      (bestScore - score(inst), UpdatePos(UpdatePos(inst, m, last), m, best))
  }

  /**
   * findOptPos's gain is the score difference it makes and is non-negative;
   * the POS choice changes only for a gain above Eps, and then to a candidate
   * other than the old one whose log-probability is not below the floor.
   */
  lemma FindOptPosGain(inst: DependencyInstance, m: HeadIndex, score: DependencyInstance -> real)
    requires Retaggable(inst, m)
    ensures var r, e := FindOptPos(inst, m, score), GetElement(inst, m);
      && r.0 == score(r.1) - score(inst)
      && r.0 >= 0.0
      && (GetElement(r.1, m).currPos != e.currPos ==>
            r.0 > Eps && RetagTried(e.candProb, e.currPos, GetElement(r.1, m).currPos))
  {
    var e := GetElement(inst, m);
    var trial := PosTrial(inst, m, score);
    UpdatePosSame(inst, m);
    assert trial(e.currPos) == score(inst);
    RetagRises(e.candProb, e.currPos, trial, 0, e.currPos, e.currPos, score(inst));
    RetagScores(e.candProb, e.currPos, trial, 0, e.currPos, e.currPos, score(inst));
  }

  /** With more than one candidate, no candidate findOptPos tries scores more than Eps above the one it keeps. */
  lemma FindOptPosBest(inst: DependencyInstance, m: HeadIndex, score: DependencyInstance -> real)
    requires Retaggable(inst, m)
    ensures var r, e := FindOptPos(inst, m, score), GetElement(inst, m);
      |e.candPosId| != 1 ==>
        forall i :: RetagTried(e.candProb, e.currPos, i) ==> score(UpdatePos(inst, m, i)) <= score(r.1) + Eps
  {
    var e := GetElement(inst, m);
    var trial := PosTrial(inst, m, score);
    UpdatePosSame(inst, m);
    RetagBound(e.candProb, e.currPos, trial, 0, e.currPos, e.currPos, score(inst));
    RetagScores(e.candProb, e.currPos, trial, 0, e.currPos, e.currPos, score(inst));
  }
}
