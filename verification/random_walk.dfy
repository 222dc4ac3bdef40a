/**
 * First-order candidate heads of a unit (getFirstOrderVec) and the
 * cycle-popping random-walk sampler that redraws the heads of flagged units
 * (randomWalkSampler). The sampler's draws are an oracle; the theorem is that
 * a run that succeeds leaves a tree in which every unit climbs to the root.
 */
module RandomWalk {
  import opened Wrappers
  import opened Heads
  import opened Instance
  import opened Conversion
  import opened Ancestry

  /** getArcScore plus the optional gold loss, read on the trial state (head, modifier). */
  type ArcScore = (DependencyInstance, HeadIndex, HeadIndex) -> real

  // ---------------------------------------------------------------------------
  // getFirstOrderVec
  // ---------------------------------------------------------------------------

  /** Unit us[j] ends up in the candidate list of m: not pruned and, under the tree constraint, not below m. */
  ghost predicate Keep(inst: DependencyInstance, m: HeadIndex, pruned: seq<bool>, tree: bool, us: seq<HeadIndex>, j: int)
    requires 0 <= j < |us| == |pruned| && IsAddr(inst, us[j])
    requires tree ==> HeadsValid(inst)
  {
    !pruned[j] && (tree ==> IsAncestor(inst, m, us[j]) == Some(false))
  }

  /** No assertion of the scan from position k on fails: m's own slot is pruned and every ancestor test settles. */
  ghost predicate ScanOk(inst: DependencyInstance, m: HeadIndex, pruned: seq<bool>, tree: bool, us: seq<HeadIndex>, k: int)
    requires |us| == |pruned| && forall j :: 0 <= j < |us| ==> IsAddr(inst, us[j])
    requires tree ==> HeadsValid(inst)
  {
    forall j :: 0 <= j < |us| && k <= j ==>
      && (us[j] == m ==> pruned[j])
      && (tree && !pruned[j] ==> IsAncestor(inst, m, us[j]).Some?)
  }

  /** Re-pointing m at d does not change whether m lies above h. */
  lemma TrialAncestor(inst: DependencyInstance, m: HeadIndex, d: HeadIndex, h: HeadIndex)
    requires HeadsValid(inst) && IsAddr(inst, m) && HeadOrNone(inst, d) && IsAddr(inst, h)
    ensures HeadsValid(SetDep(inst, m, d)) && IsAddr(SetDep(inst, m, d), h)
    ensures IsAncestor(SetDep(inst, m, d), m, h) == IsAncestor(inst, m, h)
  {
    var t := SetDep(inst, m, d);
    assert DepsAgreeExcept(t, inst, m);
    AncestorIgnoresOwnHead(t, inst, m, h, 0);
  }

  /** The ancestor test of the scan, read on the trial state where m points at d. */
  function TrialTest(inst: DependencyInstance, m: HeadIndex, d: HeadIndex, h: HeadIndex): (r: Option<bool>)
    requires HeadsValid(inst) && IsAddr(inst, m) && HeadOrNone(inst, d) && IsAddr(inst, h)
    ensures r == IsAncestor(inst, m, h)
  {
    TrialAncestor(inst, m, d, h);
    IsAncestor(SetDep(inst, m, d), m, h)
  }

  /**
   * The scan from flat position k on, with m's head currently d (the source
   * leaves m pointing at the last accepted candidate while it scans).
   */
  function Scan(inst: DependencyInstance, m: HeadIndex, pruned: seq<bool>, tree: bool, arc: ArcScore,
                us: seq<HeadIndex>, k: nat, d: HeadIndex): (r: Option<(seq<HeadIndex>, seq<real>)>)
    requires IsAddr(inst, m) && |pruned| == |us| && k <= |us|
    requires forall j :: 0 <= j < |us| ==> IsAddr(inst, us[j])
    requires tree ==> HeadsValid(inst) && HeadOrNone(inst, d)
    ensures r.Some? ==> |r.value.0| == |r.value.1|
    ensures r.Some? ==> forall i :: 0 <= i < |r.value.0| ==> IsAddr(inst, r.value.0[i])
    decreases |us| - k
  {
    if k == |us| then Some(([], []))
    else
      var h := us[k];
      if h == m && !pruned[k] then None
      else if pruned[k] then Scan(inst, m, pruned, tree, arc, us, k + 1, d)
      else if !tree then Push(inst, m, arc, h, Scan(inst, m, pruned, tree, arc, us, k + 1, h))
      else
        var up := TrialTest(inst, m, d, h);
        if up.None? then None
        else if up.value then Scan(inst, m, pruned, tree, arc, us, k + 1, d)
        else Push(inst, m, arc, h, Scan(inst, m, pruned, tree, arc, us, k + 1, h))
  }

  /** Which way one step of the scan goes: a failed assertion, a skip, or an accepted candidate. */
  lemma ScanStep(inst: DependencyInstance, m: HeadIndex, pruned: seq<bool>, tree: bool, arc: ArcScore,
                 us: seq<HeadIndex>, k: nat, d: HeadIndex)
    requires IsAddr(inst, m) && |pruned| == |us| && k < |us|
    requires forall j :: 0 <= j < |us| ==> IsAddr(inst, us[j])
    requires tree ==> HeadsValid(inst) && HeadOrNone(inst, d)
    ensures (us[k] == m && !pruned[k]) || (tree && !pruned[k] && IsAncestor(inst, m, us[k]).None?) ==>
      Scan(inst, m, pruned, tree, arc, us, k, d).None?
    ensures !(us[k] == m && !pruned[k]) && !Keep(inst, m, pruned, tree, us, k) && !(tree && !pruned[k] && IsAncestor(inst, m, us[k]).None?) ==>
      Scan(inst, m, pruned, tree, arc, us, k, d) == Scan(inst, m, pruned, tree, arc, us, k + 1, d)
    ensures !(us[k] == m && !pruned[k]) && Keep(inst, m, pruned, tree, us, k) ==>
      Scan(inst, m, pruned, tree, arc, us, k, d) == Push(inst, m, arc, us[k], Scan(inst, m, pruned, tree, arc, us, k + 1, us[k]))
  {
  }

  /** The scan succeeds exactly when none of its assertions fails. */
  lemma {:induction false} ScanDefined(inst: DependencyInstance, m: HeadIndex, pruned: seq<bool>, tree: bool, arc: ArcScore,
                                       us: seq<HeadIndex>, k: nat, d: HeadIndex)
    requires IsAddr(inst, m) && |pruned| == |us| && k <= |us|
    requires forall j :: 0 <= j < |us| ==> IsAddr(inst, us[j])
    requires tree ==> HeadsValid(inst) && HeadOrNone(inst, d)
    ensures Scan(inst, m, pruned, tree, arc, us, k, d).Some? <==> ScanOk(inst, m, pruned, tree, us, k)
    decreases |us| - k
  {
    if k < |us| {
      ScanStep(inst, m, pruned, tree, arc, us, k, d);
      ScanOkStep(inst, m, pruned, tree, us, k);
      var d' := if Keep(inst, m, pruned, tree, us, k) then us[k] else d;
      ScanDefined(inst, m, pruned, tree, arc, us, k + 1, d');
    }
  }

  lemma ScanOkStep(inst: DependencyInstance, m: HeadIndex, pruned: seq<bool>, tree: bool, us: seq<HeadIndex>, k: nat)
    requires |pruned| == |us| && k < |us|
    requires forall j :: 0 <= j < |us| ==> IsAddr(inst, us[j])
    requires tree ==> HeadsValid(inst)
    ensures ScanOk(inst, m, pruned, tree, us, k) <==>
      (!(us[k] == m && !pruned[k]) && !(tree && !pruned[k] && IsAncestor(inst, m, us[k]).None?)
       && ScanOk(inst, m, pruned, tree, us, k + 1))
  {
  }

  /** After step k the candidates are those of step k+1, with us[k] in front when it is kept. */
  lemma ScanCands(inst: DependencyInstance, m: HeadIndex, pruned: seq<bool>, tree: bool, arc: ArcScore,
                  us: seq<HeadIndex>, k: nat, d: HeadIndex) returns (d': HeadIndex)
    requires IsAddr(inst, m) && |pruned| == |us| && k < |us|
    requires forall j :: 0 <= j < |us| ==> IsAddr(inst, us[j])
    requires tree ==> HeadsValid(inst) && HeadOrNone(inst, d)
    requires Scan(inst, m, pruned, tree, arc, us, k, d).Some?
    ensures tree ==> HeadOrNone(inst, d')
    ensures Scan(inst, m, pruned, tree, arc, us, k + 1, d').Some?
    ensures Scan(inst, m, pruned, tree, arc, us, k, d).value.0 ==
      (if Keep(inst, m, pruned, tree, us, k) then [us[k]] else []) + Scan(inst, m, pruned, tree, arc, us, k + 1, d').value.0
  {
    ScanStep(inst, m, pruned, tree, arc, us, k, d);
    d' := if Keep(inst, m, pruned, tree, us, k) then us[k] else d;
  }

  /** The same step, for the scores. */
  lemma ScanCandScores(inst: DependencyInstance, m: HeadIndex, pruned: seq<bool>, tree: bool, arc: ArcScore,
                       us: seq<HeadIndex>, k: nat, d: HeadIndex) returns (d': HeadIndex)
    requires IsAddr(inst, m) && |pruned| == |us| && k < |us|
    requires forall j :: 0 <= j < |us| ==> IsAddr(inst, us[j])
    requires tree ==> HeadsValid(inst) && HeadOrNone(inst, d)
    requires Scan(inst, m, pruned, tree, arc, us, k, d).Some?
    ensures tree ==> HeadOrNone(inst, d')
    ensures Scan(inst, m, pruned, tree, arc, us, k + 1, d').Some?
    ensures var p := Scan(inst, m, pruned, tree, arc, us, k, d).value;
      var q := Scan(inst, m, pruned, tree, arc, us, k + 1, d').value;
      if Keep(inst, m, pruned, tree, us, k) then p == ([us[k]] + q.0, [ArcAt(inst, m, arc, us[k])] + q.1) else p == q
  {
    ScanStep(inst, m, pruned, tree, arc, us, k, d);
    d' := if Keep(inst, m, pruned, tree, us, k) then us[k] else d;
  }

  /** us[k] followed (or not) by a sublist of us[k+1..] is a sublist of us[k..] with the same membership law. */
  lemma FilterStep(us: seq<HeadIndex>, kept: seq<bool>, k: nat, cs: seq<HeadIndex>, rest: seq<HeadIndex>)
    requires StrictlySorted(us) && |kept| == |us| && k < |us|
    requires cs == (if kept[k] then [us[k]] else []) + rest
    requires forall h :: h in rest ==> h in us[k + 1..]
    requires forall j :: k + 1 <= j < |us| ==> (us[j] in rest <==> kept[j])
    ensures forall h :: h in cs ==> h in us[k..]
    ensures forall j :: k <= j < |us| ==> (us[j] in cs <==> kept[j])
    ensures StrictlySorted(rest) ==> StrictlySorted(cs)
  {
    assert us[k..] == [us[k]] + us[k + 1..];
    forall h | h in rest
      ensures Less(us[k], h)
    {
      var j :| 0 <= j < |us[k + 1..]| && us[k + 1..][j] == h;
      assert Less(us[k], us[k + 1 + j]);
    }
  }

  /** Whether each unit is kept, as flags aligned with us. */
  ghost function KeptFlags(inst: DependencyInstance, m: HeadIndex, pruned: seq<bool>, tree: bool, us: seq<HeadIndex>): (r: seq<bool>)
    requires |pruned| == |us| && forall j :: 0 <= j < |us| ==> IsAddr(inst, us[j])
    requires tree ==> HeadsValid(inst)
    ensures |r| == |us| && forall j :: 0 <= j < |us| ==> r[j] == Keep(inst, m, pruned, tree, us, j)
  {
    seq(|us|, j requires 0 <= j < |us| => Keep(inst, m, pruned, tree, us, j))
  }

  /** From position k on, the candidates are exactly the kept units, in flat order. */
  lemma {:induction false} ScanKept(inst: DependencyInstance, m: HeadIndex, pruned: seq<bool>, tree: bool, arc: ArcScore,
                                    us: seq<HeadIndex>, k: nat, d: HeadIndex)
    requires IsAddr(inst, m) && |pruned| == |us| && k <= |us|
    requires forall j :: 0 <= j < |us| ==> IsAddr(inst, us[j])
    requires StrictlySorted(us)
    requires tree ==> HeadsValid(inst) && HeadOrNone(inst, d)
    requires Scan(inst, m, pruned, tree, arc, us, k, d).Some?
    ensures forall h :: h in Scan(inst, m, pruned, tree, arc, us, k, d).value.0 ==> h in us[k..]
    ensures forall j :: k <= j < |us| ==>
      (us[j] in Scan(inst, m, pruned, tree, arc, us, k, d).value.0 <==> KeptFlags(inst, m, pruned, tree, us)[j])
    ensures StrictlySorted(Scan(inst, m, pruned, tree, arc, us, k, d).value.0)
    decreases |us| - k
  {
    if k < |us| {
      var d' := ScanCands(inst, m, pruned, tree, arc, us, k, d);
      ScanKept(inst, m, pruned, tree, arc, us, k + 1, d');
      FilterStep(us, KeptFlags(inst, m, pruned, tree, us), k,
                 Scan(inst, m, pruned, tree, arc, us, k, d).value.0, Scan(inst, m, pruned, tree, arc, us, k + 1, d').value.0);
    }
  }

  /** Each score is the arc score of the candidate beside it. */
  lemma {:induction false} ScanScores(inst: DependencyInstance, m: HeadIndex, pruned: seq<bool>, tree: bool, arc: ArcScore,
                                      us: seq<HeadIndex>, k: nat, d: HeadIndex)
    requires IsAddr(inst, m) && |pruned| == |us| && k <= |us|
    requires forall j :: 0 <= j < |us| ==> IsAddr(inst, us[j])
    requires tree ==> HeadsValid(inst) && HeadOrNone(inst, d)
    requires Scan(inst, m, pruned, tree, arc, us, k, d).Some?
    ensures var p := Scan(inst, m, pruned, tree, arc, us, k, d).value;
      |p.0| == |p.1| && forall i :: 0 <= i < |p.0| ==> p.1[i] == ArcAt(inst, m, arc, p.0[i])
    decreases |us| - k
  {
    if k < |us| {
      var d' := ScanCandScores(inst, m, pruned, tree, arc, us, k, d);
      ScanScores(inst, m, pruned, tree, arc, us, k + 1, d');
      var p := Scan(inst, m, pruned, tree, arc, us, k, d).value;
      var q := Scan(inst, m, pruned, tree, arc, us, k + 1, d').value;
      ConsAligned(inst, m, arc, us[k], q.0, q.1, Keep(inst, m, pruned, tree, us, k), p);
    }
  }

  lemma ConsAligned(inst: DependencyInstance, m: HeadIndex, arc: ArcScore, h: HeadIndex, cs: seq<HeadIndex>, ss: seq<real>,
                    b: bool, p: (seq<HeadIndex>, seq<real>))
    requires IsAddr(inst, m)
    requires |cs| == |ss| && forall i :: 0 <= i < |cs| ==> ss[i] == ArcAt(inst, m, arc, cs[i])
    requires if b then p == ([h] + cs, [ArcAt(inst, m, arc, h)] + ss) else p == (cs, ss)
    ensures |p.0| == |p.1| && forall i :: 0 <= i < |p.0| ==> p.1[i] == ArcAt(inst, m, arc, p.0[i])
  {
  }

  /** Accepts candidate h in front of the rest of the scan, scored with m pointing at h. */
  function Push(inst: DependencyInstance, m: HeadIndex, arc: ArcScore, h: HeadIndex,
                rest: Option<(seq<HeadIndex>, seq<real>)>): Option<(seq<HeadIndex>, seq<real>)>
    requires IsAddr(inst, m)
  {
    match rest
    case None => None
    case Some(p) => Some(([h] + p.0, [ArcAt(inst, m, arc, h)] + p.1))
  }

  /** The arc score of h as m's head, read with m pointing at h. */
  function ArcAt(inst: DependencyInstance, m: HeadIndex, arc: ArcScore, h: HeadIndex): real
    requires IsAddr(inst, m)
  {
    arc(SetDep(inst, m, h), h, m)
  }

  /**
   * getFirstOrderVec: the unpruned units, in flat order, that m may take as
   * head (under the tree constraint: those m is not an ancestor of), each
   * with its arc score. None is a failed assertion: a pruning vector of the
   * wrong length, m's own slot left unpruned, or an ancestor walk that runs
   * out of steps.
   */
  function FirstOrderVec(inst: DependencyInstance, m: HeadIndex, pruned: seq<bool>, tree: bool, arc: ArcScore)
    : (r: Option<(seq<HeadIndex>, seq<real>)>)
    requires Shaped(inst) && IsAddr(inst, m) && (tree ==> HeadsValid(inst))
    ensures r.Some? ==> |pruned| == |Units(inst)| && |r.value.0| == |r.value.1|
    ensures r.Some? ==> forall i :: 0 <= i < |r.value.0| ==> IsAddr(inst, r.value.0[i])
  {
    UnitsAreAddrs(inst);
    if |pruned| != |Units(inst)| then None
    else Scan(inst, m, pruned, tree, arc, Units(inst), 0, Dep(inst, m))
  }

  /** The candidate scan is defined exactly when its assertions hold. */
  lemma FirstOrderVecDefined(inst: DependencyInstance, m: HeadIndex, pruned: seq<bool>, tree: bool, arc: ArcScore)
    requires Shaped(inst) && IsAddr(inst, m) && (tree ==> HeadsValid(inst))
    ensures UnitsAreAddrsFact(inst)
    ensures FirstOrderVec(inst, m, pruned, tree, arc).Some? <==>
      |pruned| == |Units(inst)| && ScanOk(inst, m, pruned, tree, Units(inst), 0)
  {
    UnitsAreAddrs(inst);
    if |pruned| == |Units(inst)| {
      ScanDefined(inst, m, pruned, tree, arc, Units(inst), 0, Dep(inst, m));
    }
  }

  predicate UnitsAreAddrsFact(inst: DependencyInstance)
    requires Shaped(inst)
  {
    forall j :: 0 <= j < |Units(inst)| ==> IsAddr(inst, Units(inst)[j])
  }

  /**
   * The candidates are exactly the kept units, in flat order; m is never its
   * own candidate; under the tree constraint no candidate lies below m.
   */
  lemma FirstOrderVecCandidates(inst: DependencyInstance, m: HeadIndex, pruned: seq<bool>, tree: bool, arc: ArcScore)
    requires Shaped(inst) && IsAddr(inst, m) && (tree ==> HeadsValid(inst))
    requires FirstOrderVec(inst, m, pruned, tree, arc).Some?
    ensures UnitsAreAddrsFact(inst) && |pruned| == |Units(inst)|
    ensures forall h :: h in FirstOrderVec(inst, m, pruned, tree, arc).value.0 <==>
      exists j :: 0 <= j < |Units(inst)| && Units(inst)[j] == h && Keep(inst, m, pruned, tree, Units(inst), j)
    ensures StrictlySorted(FirstOrderVec(inst, m, pruned, tree, arc).value.0)
    ensures m !in FirstOrderVec(inst, m, pruned, tree, arc).value.0
    ensures tree ==> forall h :: h in FirstOrderVec(inst, m, pruned, tree, arc).value.0 ==> m !in Chain(inst, h, Cap)
    ensures var p := FirstOrderVec(inst, m, pruned, tree, arc).value;
      forall i :: 0 <= i < |p.0| ==> p.1[i] == arc(SetDep(inst, m, p.0[i]), p.0[i], m)
  {
    UnitsAreAddrs(inst);
    var us := Units(inst);
    var cs := FirstOrderVec(inst, m, pruned, tree, arc).value.0;
    ScanDefined(inst, m, pruned, tree, arc, us, 0, Dep(inst, m));
    ScanKept(inst, m, pruned, tree, arc, us, 0, Dep(inst, m));
    ScanScores(inst, m, pruned, tree, arc, us, 0, Dep(inst, m));
    assert us[0..] == us;
    forall h | h in cs
      ensures h != m
      ensures tree ==> m !in Chain(inst, h, Cap)
    {
      var j :| 0 <= j < |us| && us[j] == h;
      assert Keep(inst, m, pruned, tree, us, j);
    }
  }

  // ---------------------------------------------------------------------------
  // randomWalkSampler
  // ---------------------------------------------------------------------------

  /** How a sampler run ends: with a value, with the walk cap reached ("return false"), or with a failed assertion. */
  datatype Outcome<T> = Done(value: T) | Stuck | Broken

  /** A single walk gives up (the sampler returns false) once it has taken this many steps. */
  const WalkCap: nat := 5000

  /** The marking pass asserts it takes fewer steps than this. */
  const MarkCap: nat := 10000

  /** The d-th draw of the run: from the temperature-scaled candidate scores, the position sampled. */
  type Draw = (nat, seq<real>) -> int

  /** Every score multiplied by the temperature. */
  function Scale(s: seq<real>, t: real): seq<real> {
    seq(|s|, i requires 0 <= i < |s| => s[i] * t)
  }

  /** Unit x is flagged in toBeSampled, looked up by its flat id. */
  function Flagged(q: DependencyInstance, tbs: seq<bool>, x: HeadIndex): bool
    requires Indexed(q) && |tbs| == NumSeg(q) && IsAddr(q, x)
  {
    tbs[WordToSeg(q, x)]
  }

  /** Instances with the same skeleton share the flat-id tables. */
  lemma SkeletonIndexed(a: DependencyInstance, b: DependencyInstance)
    requires SameSkeleton(a, b) && Indexed(a)
    ensures Indexed(b) && NumSeg(a) == NumSeg(b)
    ensures forall x :: IsAddr(a, x) <==> IsAddr(b, x)
    ensures forall x :: IsAddr(a, x) ==> WordToSeg(a, x) == WordToSeg(b, x)
  {
    SkeletonShape(a, b);
  }

  /**
   * The entry assertions: one flag per unit, word 0 holds the root alone (the
   * flat ids of words 1.. start at 1), and every unit that keeps its head has one.
   */
  predicate EntryOk(inst: DependencyInstance, tbs: seq<bool>)
    requires Indexed(inst)
  {
    && |tbs| == NumSeg(inst)
    && |inst.word| >= 1
    && SegSize(inst.word[0]) == 1
    && forall x :: x in NonRootUnits(inst) && IsAddr(inst, x) && !tbs[WordToSeg(inst, x)] ==> !IsNone(Dep(inst, x))
  }

  /** The first pass at one unit u: a flagged unit loses its head. */
  function ClearOne(q: DependencyInstance, tbs: seq<bool>, u: HeadIndex): (r: DependencyInstance)
    requires Indexed(q) && |tbs| == NumSeg(q) && IsAddr(q, u)
    ensures SameSkeleton(q, r)
  {
    if Flagged(q, tbs, u) then SetDep(q, u, Sentinel) else q
  }

  /** The first pass over the units us[i..]. */
  function ClearFrom(q: DependencyInstance, tbs: seq<bool>, us: seq<HeadIndex>, i: nat): (r: DependencyInstance)
    requires Indexed(q) && |tbs| == NumSeg(q) && i <= |us|
    requires forall j :: 0 <= j < |us| ==> IsAddr(q, us[j])
    decreases |us| - i
  {
    if i == |us| then q
    else
      var q' := ClearOne(q, tbs, us[i]);
      SkeletonIndexed(q, q');
      AddrsKept(q, q', us);
      ClearFrom(q', tbs, us, i + 1)
  }

  /** One pass of a walk's loop body: from (instance, unit, draws used) to the next, or None when the pass fails. */
  type Stepper = (DependencyInstance, HeadIndex, nat) -> Option<(DependencyInstance, HeadIndex, nat)>

  /**
   * The loop body of the walk at c: a flagged unit draws a fresh head among
   * its first-order candidates (the d-th draw); then the walk moves to c's
   * head. None when an assertion of the source would fail, or when c or its
   * head is not a unit (the source would index out of range).
   */
  function Advance(q: DependencyInstance, tbs: seq<bool>, prune: HeadIndex -> seq<bool>,
                   arc: ArcScore, pick: Draw, temp: real, c: HeadIndex, d: nat)
    : (r: Option<(DependencyInstance, HeadIndex, nat)>)
  {
    if !(Indexed(q) && |tbs| == NumSeg(q) && IsAddr(q, c)) then None
    else if Flagged(q, tbs, c) then
      match FirstOrderVec(q, c, prune(c), false, arc)
      case None => None
      case Some(p) =>
        if |p.1| == 0 then None
        else
          var k := pick(d, Scale(p.1, temp));
          if !(0 <= k < |p.0|) then None
          else Some((SetDep(q, c, p.0[k]), p.0[k], d + 1))
    else if IsAddr(q, Dep(q, c)) then Some((q, Dep(q, c), d))
    else None
  }

  /** The sampler's step: Advance with the run's flags, pruning, scores, draws and temperature fixed. */
  function Walker(tbs: seq<bool>, prune: HeadIndex -> seq<bool>, arc: ArcScore, pick: Draw, temp: real): Stepper {
    (q, c, d) => Advance(q, tbs, prune, arc, pick, temp, c, d)
  }

  /**
   * One walk from c, repeating the step until it reaches a unit already in
   * the tree T, or gives up once it has taken WalkCap steps. Returns the
   * final instance, the tree unit reached and the number of draws used.
   */
  function WalkFrom(q: DependencyInstance, T: set<HeadIndex>, next: Stepper, c: HeadIndex, loop: nat, d: nat)
    : (r: Outcome<(DependencyInstance, HeadIndex, nat)>)
    decreases WalkCap - loop
  {
    if loop >= WalkCap then Stuck
    else if c in T then Done((q, c, d))
    else
      match next(q, c, d)
      case None => Broken
      case Some(n) => WalkFrom(n.0, T, next, n.1, loop + 1, n.2)
  }

  /** The second pass: marks the units from c up to the first one already in the tree. */
  function Mark(q: DependencyInstance, T: set<HeadIndex>, c: HeadIndex, loop: nat): (r: Option<set<HeadIndex>>)
    decreases MarkCap - loop
  {
    if loop >= MarkCap || !IsAddr(q, c) then None
    else if c in T then Some(T)
    else Mark(q, T + {c}, Dep(q, c), loop + 1)
  }

  /** The main loop over the units us[i..] in order: a walk, then the marking pass. */
  function SampleFrom(q: DependencyInstance, T: set<HeadIndex>, next: Stepper, us: seq<HeadIndex>, i: nat, d: nat)
    : (r: Outcome<DependencyInstance>)
    requires i <= |us|
    decreases |us| - i
  {
    if i == |us| then Done(q)
    else
      match WalkFrom(q, T, next, us[i], 0, d)
      case Stuck => Stuck
      case Broken => Broken
      case Done(w) =>
        match Mark(w.0, T, us[i], 0)
        case None => Broken
        case Some(T') => SampleFrom(w.0, T', next, us, i + 1, w.2)
  }

  /**
   * randomWalkSampler: clears the heads of the flagged units, then grows a
   * tree from the root by loop-erased random walks from the units of words
   * 1.. in flat order. The tree is kept as the set of units whose inTree
   * flag is set.
   */
  function RandomWalkSampler(inst: DependencyInstance, tbs: seq<bool>, prune: HeadIndex -> seq<bool>,
                             arc: ArcScore, pick: Draw, temp: real): (r: Outcome<DependencyInstance>)
    requires Indexed(inst)
    ensures r.Done? ==> EntryOk(inst, tbs)
  {
    if !EntryOk(inst, tbs) then Broken
    else
      UnitsAreAddrs(inst);
      var q := ClearFrom(inst, tbs, NonRootUnits(inst), 0);
      SampleFrom(q, {Root}, Walker(tbs, prune, arc, pick, temp), NonRootUnits(inst), 0, 0)
  }

  // ---------------------------------------------------------------------------
  // Why a successful run leaves a tree
  // ---------------------------------------------------------------------------

  /** Following heads from x reaches y in exactly k steps, passing only units outside T before y. */
  ghost predicate Path(q: DependencyInstance, x: HeadIndex, y: HeadIndex, k: nat, T: set<HeadIndex>)
    decreases k
  {
    IsAddr(q, x) &&
    if k == 0 then x == y
    else x !in T && IsAddr(q, Dep(q, x)) && Path(q, Dep(q, x), y, k - 1, T)
  }

  /** Following heads from x reaches the root within n units (x and the root included). */
  ghost predicate Settles(q: DependencyInstance, x: HeadIndex, n: nat)
    decreases n
  {
    IsAddr(q, x) && n >= 1 && (x == Root || (IsAddr(q, Dep(q, x)) && Settles(q, Dep(q, x), n - 1)))
  }

  /**
   * The marked units T form part of a tree: the root is marked, the head of
   * every marked unit is marked, and every marked unit reaches the root
   * within |T| units.
   */
  ghost predicate Grown(q: DependencyInstance, T: set<HeadIndex>) {
    && Root in T
    && (forall x :: x in T ==> Settles(q, x, |T|))
    && (forall x :: x in T && IsAddr(q, x) && x != Root ==> Dep(q, x) in T)
  }

  function Elems(s: seq<HeadIndex>): set<HeadIndex> {
    set x | x in s
  }

  lemma {:induction false} SettlesMono(q: DependencyInstance, x: HeadIndex, n: nat, n': nat)
    requires Settles(q, x, n) && n <= n'
    ensures Settles(q, x, n')
    decreases n
  {
    if x != Root {
      SettlesMono(q, Dep(q, x), n - 1, n' - 1);
    }
  }

  /** Settling depends only on the heads of the marked units, when the marked units are closed under heads. */
  lemma {:induction false} SettlesFrame(q: DependencyInstance, q': DependencyInstance, T: set<HeadIndex>, x: HeadIndex, n: nat)
    requires forall y :: IsAddr(q, y) <==> IsAddr(q', y)
    requires forall y :: y in T && IsAddr(q, y) ==> Dep(q', y) == Dep(q, y)
    requires forall y :: y in T && IsAddr(q, y) && y != Root ==> Dep(q, y) in T
    requires x in T && Settles(q, x, n)
    ensures Settles(q', x, n)
    decreases n
  {
    if x != Root {
      SettlesFrame(q, q', T, Dep(q, x), n - 1);
    }
  }

  lemma GrownFrame(q: DependencyInstance, q': DependencyInstance, T: set<HeadIndex>)
    requires Grown(q, T)
    requires forall y :: IsAddr(q, y) <==> IsAddr(q', y)
    requires forall y :: y in T && IsAddr(q, y) ==> Dep(q', y) == Dep(q, y)
    ensures Grown(q', T)
  {
    forall x | x in T
      ensures Settles(q', x, |T|)
    {
      SettlesFrame(q, q', T, x, |T|);
    }
  }

  /** The distance to a unit of T along the head chain is unique. */
  lemma {:induction false} PathUnique(q: DependencyInstance, x: HeadIndex, y: HeadIndex, k1: nat, k2: nat, T: set<HeadIndex>)
    requires y in T && Path(q, x, y, k1, T) && Path(q, x, y, k2, T)
    ensures k1 == k2
    decreases k1
  {
    if k1 > 0 && k2 > 0 {
      PathUnique(q, Dep(q, x), y, k1 - 1, k2 - 1, T);
    }
  }

  /** A shorter path into T from z never passes through the start x of a longer one. */
  lemma {:induction false} PathAvoid(q: DependencyInstance, x: HeadIndex, y: HeadIndex, k: nat, T: set<HeadIndex>,
                                     z: HeadIndex, j: nat)
    requires HeadsValid(q) && y in T
    requires Path(q, z, y, j, T) && Path(q, x, y, k, T) && j < k
    ensures x !in Chain(q, z, j)
    decreases j
  {
    if j > 0 {
      if z == x {
        PathUnique(q, x, y, j, k, T);
      }
      PathAvoid(q, x, y, k, T, Dep(q, z), j - 1);
    }
  }

  lemma {:induction false} PathWiden(q: DependencyInstance, z: HeadIndex, y: HeadIndex, j: nat, T: set<HeadIndex>, x: HeadIndex)
    requires HeadsValid(q) && Path(q, z, y, j, T) && x !in Chain(q, z, j)
    ensures Path(q, z, y, j, T + {x})
    decreases j
  {
    if j > 0 {
      PathWiden(q, Dep(q, z), y, j - 1, T, x);
    }
  }

  /** The marking pass marks exactly the units on the path into the tree. */
  lemma {:induction false} MarkResult(q: DependencyInstance, T: set<HeadIndex>, c: HeadIndex, y: HeadIndex, k: nat, loop: nat)
    requires HeadsValid(q) && IsAddr(q, c) && y in T
    requires Path(q, c, y, k, T) && loop + k < MarkCap
    ensures Mark(q, T, c, loop) == Some(T + Elems(Chain(q, c, k)))
    decreases k
  {
    if k > 0 {
      var c' := Dep(q, c);
      PathAvoid(q, c, y, k, T, c', k - 1);
      PathWiden(q, c', y, k - 1, T, c);
      MarkResult(q, T + {c}, c', y, k - 1, loop + 1);
      MarkedCons(q, T, c, k);
    } else {
      assert Chain(q, c, 0) == [];
      assert T + Elems([]) == T;
    }
  }

  /** Marking the path from c into a grown tree leaves a grown tree that contains c. */
  lemma {:induction false} GrowPath(q: DependencyInstance, T: set<HeadIndex>, c: HeadIndex, y: HeadIndex, k: nat)
    requires HeadsValid(q) && Grown(q, T) && y in T && Path(q, c, y, k, T)
    ensures Grown(q, T + Elems(Chain(q, c, k)))
    ensures c in T + Elems(Chain(q, c, k))
    decreases k
  {
    if k == 0 {
      assert Chain(q, c, 0) == [];
      assert T + Elems([]) == T;
    } else {
      var c' := Dep(q, c);
      GrowPath(q, T, c', y, k - 1);
      NotYetMarked(q, T, c, y, k);
      var T1 := T + Elems(Chain(q, c', k - 1));
      MarkedCons(q, T, c, k);
      GrowOne(q, T1, c, T + Elems(Chain(q, c, k)));
    }
  }

  /** The start of a path into T is neither in T nor further along the path. */
  lemma NotYetMarked(q: DependencyInstance, T: set<HeadIndex>, c: HeadIndex, y: HeadIndex, k: nat)
    requires HeadsValid(q) && y in T && Path(q, c, y, k, T) && k > 0
    ensures IsAddr(q, c) && IsAddr(q, Dep(q, c)) && Path(q, Dep(q, c), y, k - 1, T)
    ensures c !in T + Elems(Chain(q, Dep(q, c), k - 1))
  {
    PathAvoid(q, c, y, k, T, Dep(q, c), k - 1);
  }

  /** Marking the first k units from c is marking c and then the first k-1 units from its head. */
  lemma MarkedCons(q: DependencyInstance, T: set<HeadIndex>, c: HeadIndex, k: nat)
    requires HeadsValid(q) && IsAddr(q, c) && k > 0
    ensures T + Elems(Chain(q, c, k)) == T + Elems(Chain(q, Dep(q, c), k - 1)) + {c}
    ensures T + {c} + Elems(Chain(q, Dep(q, c), k - 1)) == T + Elems(Chain(q, c, k))
  {
    var rest := Chain(q, Dep(q, c), k - 1);
    assert Chain(q, c, k) == [c] + rest;
    ElemsCons(c, rest);
  }

  lemma ElemsCons(c: HeadIndex, s: seq<HeadIndex>)
    ensures Elems([c] + s) == {c} + Elems(s)
  {
  }

  /** A unit whose head is marked can be marked. */
  lemma GrowOne(q: DependencyInstance, T: set<HeadIndex>, c: HeadIndex, T2: set<HeadIndex>)
    requires Grown(q, T) && IsAddr(q, c) && c !in T && IsAddr(q, Dep(q, c)) && Dep(q, c) in T
    requires T2 == T + {c}
    ensures Grown(q, T2)
  {
    assert |T2| == |T| + 1;
    forall x | x in T2
      ensures Settles(q, x, |T2|)
    {
      if x == c {
        SettlesMono(q, Dep(q, c), |T|, |T2| - 1);
      } else {
        SettlesMono(q, x, |T|, |T2|);
      }
    }
  }

  /** Re-pointing c (a unit outside T) at h turns a path from s to c into a path from s to h, possibly shorter. */
  lemma {:induction false} PathExtend(q: DependencyInstance, s: HeadIndex, c: HeadIndex, k: nat, T: set<HeadIndex>, h: HeadIndex)
    returns (k': nat)
    requires Path(q, s, c, k, T) && c !in T && IsAddr(q, c) && IsAddr(q, h)
    ensures k' <= k + 1 && Path(SetDep(q, c, h), s, h, k', T)
    decreases k
  {
    var q' := SetDep(q, c, h);
    if s == c {
      k' := 1;
      PathOne(q, c, h, T);
    } else {
      assert k > 0;
      var k'' := PathExtend(q, Dep(q, s), c, k - 1, T, h);
      PathPrepend(q, c, h, s, k'', T);
      k' := k'' + 1;
    }
  }

  /** A re-pointed unit outside T is one step from its new head. */
  lemma PathOne(q: DependencyInstance, c: HeadIndex, h: HeadIndex, T: set<HeadIndex>)
    requires IsAddr(q, c) && IsAddr(q, h) && c !in T
    ensures Path(SetDep(q, c, h), c, h, 1, T)
  {
    assert Path(SetDep(q, c, h), h, h, 0, T);
  }

  /** A path from s's head in the re-pointed instance extends back to s, a unit other than the re-pointed one. */
  lemma PathPrepend(q: DependencyInstance, c: HeadIndex, h: HeadIndex, s: HeadIndex, k: nat, T: set<HeadIndex>)
    requires IsAddr(q, c) && IsAddr(q, s) && s != c && s !in T
    requires Path(SetDep(q, c, h), Dep(q, s), h, k, T)
    ensures Path(SetDep(q, c, h), s, h, k + 1, T)
  {
    assert Dep(SetDep(q, c, h), s) == Dep(q, s);
  }

  /**
   * One application of a stepper. The properties below quantify over this
   * term rather than over next(q, c, d), so that they are used only where a
   * proof names the step it needs (RepointsAt, SparesAt).
   */
  ghost function Step(next: Stepper, q: DependencyInstance, c: HeadIndex, d: nat): Option<(DependencyInstance, HeadIndex, nat)> {
    next(q, c, d)
  }

  /** A step re-points the current unit c at the unit it moves to (a no-op when c keeps its head). */
  ghost predicate Repoints(next: Stepper) {
    forall q, c, d {:trigger Step(next, q, c, d)} :: Step(next, q, c, d).Some? ==>
      IsAddr(q, c) && IsAddr(q, next(q, c, d).value.1) && next(q, c, d).value.0 == SetDep(q, c, next(q, c, d).value.1)
  }

  /** A step at an unflagged unit leaves the instance as it is. */
  ghost predicate SparesUnflagged(next: Stepper, tbs: seq<bool>) {
    forall q, c, d {:trigger Step(next, q, c, d)} ::
      Step(next, q, c, d).Some? && Indexed(q) && |tbs| == NumSeg(q) && IsAddr(q, c) && !Flagged(q, tbs, c) ==>
        next(q, c, d).value.0 == q
  }

  /** The sampler's step moves along a unit's head, redrawn among its candidates when the unit is flagged. */
  lemma WalkerSteps(tbs: seq<bool>, prune: HeadIndex -> seq<bool>, arc: ArcScore, pick: Draw, temp: real)
    ensures Repoints(Walker(tbs, prune, arc, pick, temp))
    ensures SparesUnflagged(Walker(tbs, prune, arc, pick, temp), tbs)
  {
    var next := Walker(tbs, prune, arc, pick, temp);
    forall q, c, d | Step(next, q, c, d).Some?
      ensures IsAddr(q, c) && IsAddr(q, next(q, c, d).value.1) && next(q, c, d).value.0 == SetDep(q, c, next(q, c, d).value.1)
      ensures Indexed(q) && |tbs| == NumSeg(q) && IsAddr(q, c) && !Flagged(q, tbs, c) ==> next(q, c, d).value.0 == q
    {
      AdvanceShape(q, tbs, prune, arc, pick, temp, c, d);
    }
  }

  /** A step of Advance re-points c at the unit it moves to; an unflagged unit keeps its head. */
  lemma AdvanceShape(q: DependencyInstance, tbs: seq<bool>, prune: HeadIndex -> seq<bool>,
                     arc: ArcScore, pick: Draw, temp: real, c: HeadIndex, d: nat)
    requires Advance(q, tbs, prune, arc, pick, temp, c, d).Some?
    ensures var n := Advance(q, tbs, prune, arc, pick, temp, c, d).value;
      && Indexed(q) && |tbs| == NumSeg(q) && IsAddr(q, c)
      && IsAddr(q, n.1) && n.0 == SetDep(q, c, n.1)
      && (!Flagged(q, tbs, c) ==> n.0 == q)
  {
    if !Flagged(q, tbs, c) {
      SetDepSame(q, c);
    }
  }

  /** A walk only ever re-points units, so the skeleton is untouched. */
  lemma {:induction false} WalkSkeleton(q: DependencyInstance, T: set<HeadIndex>, next: Stepper, c: HeadIndex, loop: nat, d: nat)
    requires Repoints(next)
    ensures var r := WalkFrom(q, T, next, c, loop, d);
      r.Done? ==> SameSkeleton(q, r.value.0)
    decreases WalkCap - loop
  {
    if loop < WalkCap && c !in T && next(q, c, d).Some? {
      var n := next(q, c, d).value;
      RepointsAt(next, q, c, d);
      WalkSkeleton(n.0, T, next, n.1, loop + 1, n.2);
      var r := WalkFrom(n.0, T, next, n.1, loop + 1, n.2);
      if r.Done? {
        SkeletonTransitive(q, n.0, r.value.0);
      }
    }
  }

  /**
   * A walk that ends stops at a unit e of T, and along the final heads the
   * start s leads to e in fewer than WalkCap steps (the walk's loops are
   * erased by the later draws), given a path from s to the current unit c.
   */
  lemma {:induction false} WalkReaches(q: DependencyInstance, T: set<HeadIndex>, next: Stepper, c: HeadIndex, loop: nat, d: nat,
                                       s: HeadIndex, k0: nat, w: (DependencyInstance, HeadIndex, nat)) returns (k: nat)
    requires Repoints(next) && Path(q, s, c, k0, T) && k0 <= loop
    requires WalkFrom(q, T, next, c, loop, d) == Done(w)
    ensures w.1 in T && k < WalkCap && Path(w.0, s, w.1, k, T)
    decreases WalkCap - loop
  {
    if c !in T {
      var k1, q1, c1, d1 := ReachStep(q, T, next, c, loop, d, s, k0, w);
      k := WalkReaches(q1, T, next, c1, loop + 1, d1, s, k1, w);
    } else {
      k := k0;
      ReachBase(q, T, next, c, loop, d, s, k0, w);
    }
  }

  /** A walk that starts in T stops at once, where it is. */
  lemma ReachBase(q: DependencyInstance, T: set<HeadIndex>, next: Stepper, c: HeadIndex, loop: nat, d: nat,
                  s: HeadIndex, k0: nat, w: (DependencyInstance, HeadIndex, nat))
    requires Path(q, s, c, k0, T) && k0 <= loop && c in T
    requires WalkFrom(q, T, next, c, loop, d) == Done(w)
    ensures w.1 in T && k0 < WalkCap && Path(w.0, s, w.1, k0, T)
  {
  }

  /** One pass of the walk loop extends the path from s to the unit the walk moves to. */
  lemma ReachStep(q: DependencyInstance, T: set<HeadIndex>, next: Stepper, c: HeadIndex, loop: nat, d: nat,
                  s: HeadIndex, k0: nat, w: (DependencyInstance, HeadIndex, nat))
    returns (k1: nat, q1: DependencyInstance, c1: HeadIndex, d1: nat)
    requires Repoints(next) && Path(q, s, c, k0, T) && k0 <= loop && c !in T
    requires WalkFrom(q, T, next, c, loop, d) == Done(w)
    ensures loop < WalkCap && next(q, c, d) == Some((q1, c1, d1)) && k1 <= loop + 1
    ensures Path(q1, s, c1, k1, T)
    ensures WalkFrom(q1, T, next, c1, loop + 1, d1) == Done(w)
  {
    var n := next(q, c, d).value;
    q1, c1, d1 := n.0, n.1, n.2;
    RepointsAt(next, q, c, d);
    k1 := PathExtend(q, s, c, k0, T, n.1);
  }

  /** One step of a re-pointing stepper, spelled out. */
  lemma RepointsAt(next: Stepper, q: DependencyInstance, c: HeadIndex, d: nat)
    requires Repoints(next) && next(q, c, d).Some?
    ensures IsAddr(q, c) && IsAddr(q, next(q, c, d).value.1)
    ensures next(q, c, d).value.0 == SetDep(q, c, next(q, c, d).value.1)
  {
    assert Step(next, q, c, d).Some?;
  }

  /** One step of a stepper that spares unflagged units, spelled out. */
  lemma SparesAt(next: Stepper, tbs: seq<bool>, q: DependencyInstance, c: HeadIndex, d: nat)
    requires SparesUnflagged(next, tbs) && next(q, c, d).Some?
    requires Indexed(q) && |tbs| == NumSeg(q) && IsAddr(q, c) && !Flagged(q, tbs, c)
    ensures next(q, c, d).value.0 == q
  {
    assert Step(next, q, c, d).Some?;
  }

  /** A walk re-points only flagged units outside T: x, if in T or unflagged, keeps its head. */
  lemma {:induction false} WalkKeeps(q: DependencyInstance, T: set<HeadIndex>, next: Stepper, tbs: seq<bool>,
                                     c: HeadIndex, loop: nat, d: nat, x: HeadIndex, w: (DependencyInstance, HeadIndex, nat))
    requires Repoints(next) && SparesUnflagged(next, tbs)
    requires Indexed(q) && |tbs| == NumSeg(q) && IsAddr(q, x) && (x in T || !Flagged(q, tbs, x))
    requires WalkFrom(q, T, next, c, loop, d) == Done(w)
    ensures IsAddr(w.0, x) && Dep(w.0, x) == Dep(q, x)
    decreases WalkCap - loop
  {
    if c !in T {
      var n := next(q, c, d).value;
      RepointsAt(next, q, c, d);
      if !Flagged(q, tbs, c) {
        SparesAt(next, tbs, q, c, d);
      }
      FlagAfterStep(q, tbs, c, n.1, x);
      WalkKeeps(n.0, T, next, tbs, n.1, loop + 1, n.2, x, w);
    }
  }

  /** Re-pointing c leaves the flags alone, and x keeps its head unless x is c. */
  lemma FlagAfterStep(q: DependencyInstance, tbs: seq<bool>, c: HeadIndex, h: HeadIndex, x: HeadIndex)
    requires Indexed(q) && |tbs| == NumSeg(q) && IsAddr(q, c) && IsAddr(q, x)
    ensures var q1 := SetDep(q, c, h);
      && Indexed(q1) && |tbs| == NumSeg(q1) && IsAddr(q1, x)
      && Flagged(q1, tbs, x) == Flagged(q, tbs, x)
      && (x != c ==> Dep(q1, x) == Dep(q, x))
  {
    SkeletonIndexed(q, SetDep(q, c, h));
  }

  /** Every head a walk sets is a unit: a valid head of x stays valid. */
  lemma {:induction false} WalkValidAt(q: DependencyInstance, T: set<HeadIndex>, next: Stepper, c: HeadIndex, loop: nat, d: nat,
                                       x: HeadIndex)
    requires Repoints(next) && IsAddr(q, x) && HeadOrNone(q, Dep(q, x))
    ensures var r := WalkFrom(q, T, next, c, loop, d);
      r.Done? ==> IsAddr(r.value.0, x) && HeadOrNone(r.value.0, Dep(r.value.0, x))
    decreases WalkCap - loop
  {
    if loop < WalkCap && c !in T && next(q, c, d).Some? {
      var n := next(q, c, d).value;
      RepointsAt(next, q, c, d);
      WalkValidAt(n.0, T, next, n.1, loop + 1, n.2, x);
    }
  }

  /** Valid heads stay valid through a walk. */
  lemma WalkValid(q: DependencyInstance, T: set<HeadIndex>, next: Stepper, c: HeadIndex, loop: nat, d: nat)
    requires Repoints(next) && HeadsValid(q)
    ensures var r := WalkFrom(q, T, next, c, loop, d);
      r.Done? ==> HeadsValid(r.value.0)
  {
    var r := WalkFrom(q, T, next, c, loop, d);
    if r.Done? {
      WalkSkeleton(q, T, next, c, loop, d);
      SkeletonShape(q, r.value.0);
      forall x | IsAddr(r.value.0, x)
        ensures HeadOrNone(r.value.0, Dep(r.value.0, x))
      {
        WalkValidAt(q, T, next, c, loop, d, x);
      }
    }
  }

  /** A walk, followed by its marking pass, leaves a grown tree that contains the walk's start. */
  lemma WalkThenMark(q: DependencyInstance, T: set<HeadIndex>, next: Stepper, tbs: seq<bool>, c: HeadIndex, d: nat,
                     w: (DependencyInstance, HeadIndex, nat)) returns (T': set<HeadIndex>)
    requires Repoints(next) && SparesUnflagged(next, tbs)
    requires Indexed(q) && |tbs| == NumSeg(q) && HeadsValid(q) && Grown(q, T) && IsAddr(q, c)
    requires WalkFrom(q, T, next, c, 0, d) == Done(w)
    ensures SameSkeleton(q, w.0) && Indexed(w.0) && HeadsValid(w.0)
    ensures Mark(w.0, T, c, 0) == Some(T') && Grown(w.0, T') && c in T' && T <= T'
  {
    WalkSkeleton(q, T, next, c, 0, d);
    SkeletonIndexed(q, w.0);
    WalkValid(q, T, next, c, 0, d);
    assert Path(q, c, c, 0, T);
    var k := WalkReaches(q, T, next, c, 0, d, c, 0, w);
    forall y | y in T && IsAddr(q, y)
      ensures Dep(w.0, y) == Dep(q, y)
    {
      WalkKeeps(q, T, next, tbs, c, 0, d, y, w);
    }
    GrownFrame(q, w.0, T);
    MarkResult(w.0, T, c, w.1, k, 0);
    GrowPath(w.0, T, c, w.1, k);
    T' := T + Elems(Chain(w.0, c, k));
  }

  /**
   * The main loop grows the tree: from a grown tree that holds the units
   * before us[i], a run that ends leaves valid heads and a grown tree that
   * holds every unit of us.
   */
  lemma {:induction false} SampleGrows(q: DependencyInstance, T: set<HeadIndex>, next: Stepper, tbs: seq<bool>,
                                       us: seq<HeadIndex>, i: nat, d: nat, f: DependencyInstance)
    returns (Tf: set<HeadIndex>)
    requires Repoints(next) && SparesUnflagged(next, tbs)
    requires Indexed(q) && |tbs| == NumSeg(q) && HeadsValid(q) && Grown(q, T) && i <= |us|
    requires forall j :: 0 <= j < |us| ==> IsAddr(q, us[j])
    requires forall j :: 0 <= j < i ==> us[j] in T
    requires SampleFrom(q, T, next, us, i, d) == Done(f)
    ensures Grown(f, Tf) && forall j :: 0 <= j < |us| ==> us[j] in Tf
    decreases |us| - i
  {
    if i == |us| {
      Tf := T;
    } else {
      var w, T' := GrowStep(q, T, next, tbs, us, i, d, f);
      Tf := SampleGrows(w.0, T', next, tbs, us, i + 1, w.2, f);
    }
  }

  /** The marking pass only adds to the tree. */
  lemma {:induction false} MarkGrows(q: DependencyInstance, T: set<HeadIndex>, c: HeadIndex, loop: nat)
    requires Mark(q, T, c, loop).Some?
    ensures T <= Mark(q, T, c, loop).value
    decreases MarkCap - loop
  {
    if c !in T {
      MarkGrows(q, T + {c}, Dep(q, c), loop + 1);
    }
  }

  /** A run re-points only flagged units outside the tree: x, if in T or unflagged, keeps its head. */
  lemma {:induction false} SampleKeeps(q: DependencyInstance, T: set<HeadIndex>, next: Stepper, tbs: seq<bool>,
                                       us: seq<HeadIndex>, i: nat, d: nat, f: DependencyInstance, x: HeadIndex)
    requires Repoints(next) && SparesUnflagged(next, tbs)
    requires Indexed(q) && |tbs| == NumSeg(q) && i <= |us| && IsAddr(q, x) && (x in T || !Flagged(q, tbs, x))
    requires SampleFrom(q, T, next, us, i, d) == Done(f)
    ensures IsAddr(f, x) && Dep(f, x) == Dep(q, x)
    decreases |us| - i
  {
    if i < |us| {
      var w, T' := SampleUnfold(q, T, next, us, i, d, f);
      WalkKeeps(q, T, next, tbs, us[i], 0, d, x, w);
      WalkSkeleton(q, T, next, us[i], 0, d);
      FlagAfterSkeleton(q, w.0, tbs, x);
      MarkGrows(w.0, T, us[i], 0);
      SampleKeeps(w.0, T', next, tbs, us, i + 1, w.2, f, x);
    }
  }

  /** A run that ends took its first walk and marking pass and then ran on. */
  lemma SampleUnfold(q: DependencyInstance, T: set<HeadIndex>, next: Stepper, us: seq<HeadIndex>, i: nat, d: nat,
                     f: DependencyInstance) returns (w: (DependencyInstance, HeadIndex, nat), T': set<HeadIndex>)
    requires i < |us| && SampleFrom(q, T, next, us, i, d) == Done(f)
    ensures WalkFrom(q, T, next, us[i], 0, d) == Done(w)
    ensures Mark(w.0, T, us[i], 0) == Some(T')
    ensures SampleFrom(w.0, T', next, us, i + 1, w.2) == Done(f)
  {
    w := WalkFrom(q, T, next, us[i], 0, d).value;
    T' := Mark(w.0, T, us[i], 0).value;
  }

  /** Instances with the same skeleton flag the same units. */
  lemma FlagAfterSkeleton(a: DependencyInstance, b: DependencyInstance, tbs: seq<bool>, x: HeadIndex)
    requires SameSkeleton(a, b) && Indexed(a) && |tbs| == NumSeg(a) && IsAddr(a, x)
    ensures Indexed(b) && |tbs| == NumSeg(b) && IsAddr(b, x) && Flagged(b, tbs, x) == Flagged(a, tbs, x)
  {
    SkeletonIndexed(a, b);
  }

  /** A run only re-points units, so the skeleton is untouched. */
  lemma {:induction false} SampleSkeleton(q: DependencyInstance, T: set<HeadIndex>, next: Stepper,
                                          us: seq<HeadIndex>, i: nat, d: nat, f: DependencyInstance)
    requires Repoints(next) && i <= |us| && SampleFrom(q, T, next, us, i, d) == Done(f)
    ensures SameSkeleton(q, f)
    decreases |us| - i
  {
    if i < |us| {
      var w, T' := SampleUnfold(q, T, next, us, i, d, f);
      WalkSkeleton(q, T, next, us[i], 0, d);
      SampleSkeleton(w.0, T', next, us, i + 1, w.2, f);
      SkeletonTransitive(q, w.0, f);
    }
  }

  /** Every head a run sets is a unit: a valid head of x stays valid. */
  lemma {:induction false} SampleValidAt(q: DependencyInstance, T: set<HeadIndex>, next: Stepper,
                                         us: seq<HeadIndex>, i: nat, d: nat, f: DependencyInstance, x: HeadIndex)
    requires Repoints(next) && i <= |us| && SampleFrom(q, T, next, us, i, d) == Done(f)
    requires IsAddr(q, x) && HeadOrNone(q, Dep(q, x))
    ensures IsAddr(f, x) && HeadOrNone(f, Dep(f, x))
    decreases |us| - i
  {
    if i < |us| {
      var w, T' := SampleUnfold(q, T, next, us, i, d, f);
      WalkValidAt(q, T, next, us[i], 0, d, x);
      SampleValidAt(w.0, T', next, us, i + 1, w.2, f, x);
    }
  }

  /** One walk and marking pass of a run keeps the invariant of SampleGrows, one unit further on. */
  lemma GrowStep(q: DependencyInstance, T: set<HeadIndex>, next: Stepper, tbs: seq<bool>,
                 us: seq<HeadIndex>, i: nat, d: nat, f: DependencyInstance)
    returns (w: (DependencyInstance, HeadIndex, nat), T': set<HeadIndex>)
    requires Repoints(next) && SparesUnflagged(next, tbs)
    requires Indexed(q) && |tbs| == NumSeg(q) && HeadsValid(q) && Grown(q, T) && i < |us|
    requires forall j :: 0 <= j < |us| ==> IsAddr(q, us[j])
    requires forall j :: 0 <= j < i ==> us[j] in T
    requires SampleFrom(q, T, next, us, i, d) == Done(f)
    ensures Indexed(w.0) && |tbs| == NumSeg(w.0) && HeadsValid(w.0) && Grown(w.0, T')
    ensures forall j :: 0 <= j < |us| ==> IsAddr(w.0, us[j])
    ensures forall j :: 0 <= j < i + 1 ==> us[j] in T'
    ensures SampleFrom(w.0, T', next, us, i + 1, w.2) == Done(f)
  {
    var T'';
    w, T'' := SampleUnfold(q, T, next, us, i, d, f);
    T' := WalkThenMark(q, T, next, tbs, us[i], d, w);
    AddrsKept(q, w.0, us);
    MembersKept(T, T', us, i);
  }

  lemma AddrsKept(a: DependencyInstance, b: DependencyInstance, us: seq<HeadIndex>)
    requires SameSkeleton(a, b) && forall j :: 0 <= j < |us| ==> IsAddr(a, us[j])
    ensures forall j :: 0 <= j < |us| ==> IsAddr(b, us[j])
  {
    SkeletonShape(a, b);
  }

  lemma MembersKept(T: set<HeadIndex>, T': set<HeadIndex>, us: seq<HeadIndex>, i: nat)
    requires T <= T' && i < |us| && us[i] in T' && forall j :: 0 <= j < i ==> us[j] in T
    ensures forall j :: 0 <= j < i + 1 ==> us[j] in T'
  {
  }

  /**
   * The first pass, unit by unit: a flagged unit among us[i..] ends with no
   * head (the Sentinel); every other unit keeps its head.
   */
  lemma {:induction false} ClearAt(q: DependencyInstance, tbs: seq<bool>, us: seq<HeadIndex>, i: nat, x: HeadIndex,
                                   r: DependencyInstance)
    requires Indexed(q) && |tbs| == NumSeg(q) && i <= |us| && IsAddr(q, x)
    requires forall j :: 0 <= j < |us| ==> IsAddr(q, us[j])
    requires r == ClearFrom(q, tbs, us, i)
    ensures IsAddr(r, x)
    ensures Flagged(q, tbs, x) && x in us[i..] ==> Dep(r, x) == Sentinel
    ensures !Flagged(q, tbs, x) || x !in us[i..] ==> Dep(r, x) == Dep(q, x)
    decreases |us| - i
  {
    if i < |us| {
      var q' := ClearStep(q, tbs, us, i, x);
      ClearAt(q', tbs, us, i + 1, x, r);
    }
  }

  /** One unit of the first pass: us[i] loses its head if flagged; flags and other heads stay. */
  lemma ClearStep(q: DependencyInstance, tbs: seq<bool>, us: seq<HeadIndex>, i: nat, x: HeadIndex)
    returns (q': DependencyInstance)
    requires Indexed(q) && |tbs| == NumSeg(q) && i < |us| && IsAddr(q, x)
    requires forall j :: 0 <= j < |us| ==> IsAddr(q, us[j])
    ensures Indexed(q') && |tbs| == NumSeg(q') && IsAddr(q', x) && forall j :: 0 <= j < |us| ==> IsAddr(q', us[j])
    ensures ClearFrom(q', tbs, us, i + 1) == ClearFrom(q, tbs, us, i)
    ensures Flagged(q', tbs, x) == Flagged(q, tbs, x)
    ensures x in us[i..] <==> x == us[i] || x in us[i + 1..]
    ensures Dep(q', x) == (if x == us[i] && Flagged(q, tbs, x) then Sentinel else Dep(q, x))
  {
    q' := ClearOne(q, tbs, us[i]);
    ClearOneAt(q, tbs, us[i], x);
    AddrsKept(q, q', us);
    TailCons(us, i, x);
  }

  lemma ClearOneAt(q: DependencyInstance, tbs: seq<bool>, u: HeadIndex, x: HeadIndex)
    requires Indexed(q) && |tbs| == NumSeg(q) && IsAddr(q, u) && IsAddr(q, x)
    ensures var q' := ClearOne(q, tbs, u);
      && Indexed(q') && |tbs| == NumSeg(q') && IsAddr(q', x) && Flagged(q', tbs, x) == Flagged(q, tbs, x)
      && Dep(q', x) == (if x == u && Flagged(q, tbs, x) then Sentinel else Dep(q, x))
  {
    FlagAfterSkeleton(q, ClearOne(q, tbs, u), tbs, x);
  }

  lemma TailCons(us: seq<HeadIndex>, i: nat, x: HeadIndex)
    requires i < |us|
    ensures x in us[i..] <==> x == us[i] || x in us[i + 1..]
  {
    assert us[i..] == [us[i]] + us[i + 1..];
  }

  /** Following heads from x within n units reaches the root, the last unit of x's chain when the root has no head. */
  lemma {:induction false} SettlesChain(q: DependencyInstance, x: HeadIndex, n: nat, m: nat)
    requires HeadsValid(q) && IsAddr(q, Root) && IsNone(Dep(q, Root))
    requires Settles(q, x, n) && n <= m
    ensures 1 <= |Chain(q, x, m)| <= n && Chain(q, x, m)[|Chain(q, x, m)| - 1] == Root
    decreases n
  {
    var c := Chain(q, x, m);
    assert c == [x] + Chain(q, Dep(q, x), m - 1);
    if x == Root {
      assert Chain(q, Dep(q, x), m - 1) == [];
    } else {
      SettlesChain(q, Dep(q, x), n - 1, m - 1);
    }
  }

  lemma {:induction false} ElemsCard(s: seq<HeadIndex>)
    ensures |Elems(s)| <= |s|
  {
    if s != [] {
      ElemsCons(s[0], s[1..]);
      assert s == [s[0]] + s[1..];
      ElemsCard(s[1..]);
    }
  }

  /** A set of units has at most NumUnits members. */
  lemma UnitSetCard(q: DependencyInstance, T: set<HeadIndex>)
    requires Indexed(q) && forall x :: x in T ==> IsAddr(q, x)
    ensures |T| <= NumUnits(q)
  {
    UnitsAreAddrs(q);
    FlatIdsEnumerateUnits(q);
    ElemsCard(Units(q));
    assert T <= Elems(Units(q));
    SubsetCard(T, Elems(Units(q)));
  }

  lemma SubsetCard(A: set<HeadIndex>, B: set<HeadIndex>)
    requires A <= B
    ensures |A| <= |B|
  {
    assert B == A + (B - A);
  }

  /** The first pass only re-points units. */
  lemma {:induction false} ClearSkeleton(q: DependencyInstance, tbs: seq<bool>, us: seq<HeadIndex>, i: nat)
    requires Indexed(q) && |tbs| == NumSeg(q) && i <= |us|
    requires forall j :: 0 <= j < |us| ==> IsAddr(q, us[j])
    ensures SameSkeleton(q, ClearFrom(q, tbs, us, i))
    decreases |us| - i
  {
    if i < |us| {
      var q' := ClearOne(q, tbs, us[i]);
      SkeletonIndexed(q, q');
      AddrsKept(q, q', us);
      ClearSkeleton(q', tbs, us, i + 1);
      SkeletonTransitive(q, q', ClearFrom(q', tbs, us, i + 1));
    }
  }

  /** The units of words 1.. are units. */
  lemma NonRootAddrs(inst: DependencyInstance)
    requires Shaped(inst)
    ensures forall j :: 0 <= j < |NonRootUnits(inst)| ==> IsAddr(inst, NonRootUnits(inst)[j])
    ensures forall x :: x in NonRootUnits(inst) ==> x.hWord >= 1
  {
    UnitsAreAddrs(inst);
  }

  /**
   * The state after the first pass: valid heads, the root alone in the tree
   * and still without a head, and every unit of words 1.. still a unit.
   */
  lemma Cleared(inst: DependencyInstance, tbs: seq<bool>) returns (q: DependencyInstance)
    requires Indexed(inst) && HeadsValid(inst) && EntryOk(inst, tbs) && IsNone(Dep(inst, Root))
    ensures forall j :: 0 <= j < |NonRootUnits(inst)| ==> IsAddr(inst, NonRootUnits(inst)[j])
    ensures q == ClearFrom(inst, tbs, NonRootUnits(inst), 0)
    ensures SameSkeleton(inst, q) && Indexed(q) && |tbs| == NumSeg(q) && HeadsValid(q)
    ensures forall j :: 0 <= j < |NonRootUnits(inst)| ==> IsAddr(q, NonRootUnits(inst)[j])
    ensures Grown(q, {Root}) && IsNone(Dep(q, Root))
  {
    NonRootAddrs(inst);
    var us := NonRootUnits(inst);
    q := ClearFrom(inst, tbs, us, 0);
    ClearSkeleton(inst, tbs, us, 0);
    SkeletonIndexed(inst, q);
    AddrsKept(inst, q, us);
    ClearValid(inst, tbs, us, q);
    ClearAt(inst, tbs, us, 0, Root, q);
    RootGrown(q);
  }

  lemma ClearValid(inst: DependencyInstance, tbs: seq<bool>, us: seq<HeadIndex>, q: DependencyInstance)
    requires Indexed(inst) && |tbs| == NumSeg(inst) && HeadsValid(inst)
    requires forall j :: 0 <= j < |us| ==> IsAddr(inst, us[j])
    requires q == ClearFrom(inst, tbs, us, 0)
    ensures HeadsValid(q)
  {
    ClearSkeleton(inst, tbs, us, 0);
    SkeletonShape(inst, q);
    forall x | IsAddr(q, x)
      ensures HeadOrNone(q, Dep(q, x))
    {
      ClearAt(inst, tbs, us, 0, x, q);
    }
  }

  /** The tree of the root alone is grown. */
  lemma RootGrown(q: DependencyInstance)
    requires IsAddr(q, Root)
    ensures Grown(q, {Root})
  {
    assert Settles(q, Root, 1);
  }

  /** Every unit of an instance with the skeleton of inst is the root or a unit of words 1... */
  lemma AllMarked(inst: DependencyInstance, f: DependencyInstance, Tf: set<HeadIndex>)
    requires Indexed(inst) && SameSkeleton(inst, f) && |inst.word| >= 1 && SegSize(inst.word[0]) == 1
    requires Root in Tf && forall j :: 0 <= j < |NonRootUnits(inst)| ==> NonRootUnits(inst)[j] in Tf
    ensures forall x :: IsAddr(f, x) ==> x in Tf
  {
    UnitsAreAddrs(inst);
    SkeletonShape(inst, f);
    forall x | IsAddr(f, x)
      ensures x in Tf
    {
      if x.hWord >= 1 {
        var j :| 0 <= j < |NonRootUnits(inst)| && NonRootUnits(inst)[j] == x;
      }
    }
  }

  /** A grown tree holding every unit, over valid heads with a headless root, is a rooted tree. */
  lemma FinalTree(f: DependencyInstance, Tf: set<HeadIndex>)
    requires Indexed(f) && HeadsValid(f) && Grown(f, Tf) && forall x :: IsAddr(f, x) ==> x in Tf
    requires |f.word| >= 1 && SegSize(f.word[0]) == 1 && IsNone(Dep(f, Root))
    ensures RootedTree(f)
  {
    GrownCard(f, Tf);
    forall x | IsAddr(f, x)
      ensures Rooted(f, x)
    {
      SettledRooted(f, Tf, x);
    }
  }

  lemma SettledRooted(f: DependencyInstance, Tf: set<HeadIndex>, x: HeadIndex)
    requires Indexed(f) && HeadsValid(f) && Grown(f, Tf) && x in Tf && |Tf| <= NumUnits(f)
    requires IsAddr(f, Root) && IsNone(Dep(f, Root)) && IsAddr(f, x)
    ensures Rooted(f, x)
  {
    SettlesChain(f, x, |Tf|, NumUnits(f) + 1);
  }

  /** The marked units are units, so there are at most NumUnits of them. */
  lemma GrownCard(f: DependencyInstance, Tf: set<HeadIndex>)
    requires Indexed(f) && Grown(f, Tf)
    ensures |Tf| <= NumUnits(f)
  {
    forall x | x in Tf
      ensures IsAddr(f, x)
    {
      assert Settles(f, x, |Tf|);
    }
    UnitSetCard(f, Tf);
  }

  /**
   * A successful run of randomWalkSampler leaves a tree: every unit's head
   * chain ends at the root within NumUnits units.
   */
  lemma SamplerTree(inst: DependencyInstance, tbs: seq<bool>, prune: HeadIndex -> seq<bool>,
                    arc: ArcScore, pick: Draw, temp: real)
    requires Indexed(inst) && HeadsValid(inst) && (IsAddr(inst, Root) ==> IsNone(Dep(inst, Root)))
    ensures var r := RandomWalkSampler(inst, tbs, prune, arc, pick, temp);
      r.Done? ==> RootedTree(r.value)
  {
    var r := RandomWalkSampler(inst, tbs, prune, arc, pick, temp);
    if r.Done? {
      var f := r.value;
      var next := Walker(tbs, prune, arc, pick, temp);
      var q := Cleared(inst, tbs);
      var us := NonRootUnits(inst);
      WalkerSteps(tbs, prune, arc, pick, temp);
      var Tf := SampleGrows(q, {Root}, next, tbs, us, 0, 0, f);
      SampleSkeleton(q, {Root}, next, us, 0, 0, f);
      SkeletonTransitive(inst, q, f);
      SkeletonIndexed(inst, f);
      SampleValid(q, {Root}, next, us, 0, 0, f);
      SampleKeeps(q, {Root}, next, tbs, us, 0, 0, f, Root);
      AllMarked(inst, f, Tf);
      SkeletonShape(inst, f);
      FinalTree(f, Tf);
    }
  }

  /** Valid heads stay valid through a run. */
  lemma SampleValid(q: DependencyInstance, T: set<HeadIndex>, next: Stepper,
                    us: seq<HeadIndex>, i: nat, d: nat, f: DependencyInstance)
    requires Repoints(next) && i <= |us| && SampleFrom(q, T, next, us, i, d) == Done(f) && HeadsValid(q)
    ensures HeadsValid(f)
  {
    SampleSkeleton(q, T, next, us, i, d, f);
    SkeletonShape(q, f);
    forall x | IsAddr(f, x)
      ensures HeadOrNone(f, Dep(f, x))
    {
      SampleValidAt(q, T, next, us, i, d, f, x);
    }
  }

  /**
   * A successful run keeps the unit and the head of the root and of every
   * unflagged unit.
   */
  lemma SamplerKeeps(inst: DependencyInstance, tbs: seq<bool>, prune: HeadIndex -> seq<bool>,
                     arc: ArcScore, pick: Draw, temp: real, x: HeadIndex)
    requires Indexed(inst) && |tbs| == NumSeg(inst) && IsAddr(inst, x) && (x == Root || !Flagged(inst, tbs, x))
    ensures var r := RandomWalkSampler(inst, tbs, prune, arc, pick, temp);
      r.Done? ==> IsAddr(r.value, x) && Dep(r.value, x) == Dep(inst, x)
  {
    var r := RandomWalkSampler(inst, tbs, prune, arc, pick, temp);
    if r.Done? {
      UnitsAreAddrs(inst);
      var us := NonRootUnits(inst);
      var q := ClearFrom(inst, tbs, us, 0);
      ClearSkeleton(inst, tbs, us, 0);
      SkeletonIndexed(inst, q);
      ClearAt(inst, tbs, us, 0, x, q);
      FlagAfterSkeleton(inst, q, tbs, x);
      WalkerSteps(tbs, prune, arc, pick, temp);
      SampleKeeps(q, {Root}, Walker(tbs, prune, arc, pick, temp), tbs, us, 0, 0, r.value, x);
    }
  }
}
