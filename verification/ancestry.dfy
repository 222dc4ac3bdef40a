/**
 * Head chains: the ancestor test with its 10000-step guard, the chain of
 * heads from a unit, and the rooted-tree shape the decoder maintains.
 */
module Ancestry {
  import opened Wrappers
  import opened Heads
  import opened Instance

  /** isAncestor asserts its step counter stays below this bound. */
  const Cap: nat := 10000

  /** h is a unit or "no head" (hWord == -1). */
  predicate HeadOrNone(inst: DependencyInstance, h: HeadIndex) {
    IsNone(h) || IsAddr(inst, h)
  }

  /** Every unit's head is a unit or "no head", so head chains can be followed. */
  ghost predicate HeadsValid(inst: DependencyInstance) {
    forall x :: IsAddr(inst, x) ==> HeadOrNone(inst, Dep(inst, x))
  }

  /** The first n units on the head chain starting at m (m included), stopping at "no head". */
  function Chain(inst: DependencyInstance, m: HeadIndex, n: nat): (r: seq<HeadIndex>)
    requires HeadsValid(inst) && HeadOrNone(inst, m)
    ensures |r| <= n
    ensures forall k :: 0 <= k < |r| ==> IsAddr(inst, r[k])
    ensures |r| > 0 ==> r[0] == m
    decreases n
  {
    if n == 0 || IsNone(m) then [] else [m] + Chain(inst, Dep(inst, m), n - 1)
  }

  /**
   * The isAncestor loop from step cnt on: h is looked for at m, then the walk
   * moves to m's head; reaching Cap steps is the failed assertion (None).
   */
  function AncestorFrom(inst: DependencyInstance, h: HeadIndex, m: HeadIndex, cnt: nat): (r: Option<bool>)
    requires HeadsValid(inst) && HeadOrNone(inst, m) && cnt < Cap
    ensures r == Some(true) <==> h in Chain(inst, m, Cap - cnt)
    ensures r == Some(false) <==> h !in Chain(inst, m, Cap - cnt) && |Chain(inst, m, Cap - cnt)| < Cap - cnt
    decreases Cap - cnt
  {
    if IsNone(m) then Some(false)
    else if h == m then Some(true)
    else if cnt + 1 >= Cap then None
    else AncestorFrom(inst, h, Dep(inst, m), cnt + 1)
  }

  /** isAncestor(s, h, m): whether h lies on the head chain from m (m itself included). */
  function IsAncestor(inst: DependencyInstance, h: HeadIndex, m: HeadIndex): (r: Option<bool>)
    requires HeadsValid(inst) && HeadOrNone(inst, m)
    ensures r == Some(true) <==> h in Chain(inst, m, Cap)
    ensures r == Some(false) <==> h !in Chain(inst, m, Cap) && |Chain(inst, m, Cap)| < Cap
    ensures r.None? <==> h !in Chain(inst, m, Cap) && |Chain(inst, m, Cap)| == Cap
  {
    var r := AncestorFrom(inst, h, m, 0);
    assert r.Some? && r.value ==> r == Some(true);
    assert r.Some? && !r.value ==> r == Some(false);
    r
  }

  /** A chain that stopped at "no head" before its bound is the whole chain: more fuel adds nothing. */
  lemma {:induction false} ChainSettled(inst: DependencyInstance, m: HeadIndex, n: nat, n': nat)
    requires HeadsValid(inst) && HeadOrNone(inst, m)
    requires |Chain(inst, m, n)| < n <= n'
    ensures Chain(inst, m, n') == Chain(inst, m, n)
    decreases n
  {
    if !IsNone(m) {
      ChainSettled(inst, Dep(inst, m), n - 1, n' - 1);
    }
  }

  /** Dropping k >= 1 entries of x :: t drops k - 1 entries of t. */
  lemma ConsDrop(x: HeadIndex, t: seq<HeadIndex>, k: nat)
    requires 1 <= k <= |t|
    ensures ([x] + t)[k] == t[k - 1] && ([x] + t)[k..] == t[k - 1..]
  {
  }

  /** Every tail of a chain is the chain from its first unit. */
  lemma {:induction false} ChainSuffix(inst: DependencyInstance, m: HeadIndex, n: nat, k: nat)
    requires HeadsValid(inst) && HeadOrNone(inst, m)
    requires k < |Chain(inst, m, n)|
    ensures Chain(inst, m, n)[k..] == Chain(inst, Chain(inst, m, n)[k], n - k)
    decreases k
  {
    if k > 0 {
      var t := Chain(inst, Dep(inst, m), n - 1);
      assert Chain(inst, m, n) == [m] + t;
      ChainSuffix(inst, Dep(inst, m), n - 1, k - 1);
      ConsDrop(m, t, k);
    }
  }

  /** Each unit's head follows it on the chain. */
  lemma ChainStep(inst: DependencyInstance, m: HeadIndex, n: nat, k: nat)
    requires HeadsValid(inst) && HeadOrNone(inst, m)
    requires k + 1 < |Chain(inst, m, n)|
    ensures Chain(inst, m, n)[k + 1] == Dep(inst, Chain(inst, m, n)[k])
  {
    ChainSuffix(inst, m, n, k);
  }

  /** Number of units of the sentence. */
  function NumUnits(inst: DependencyInstance): nat
    requires Shaped(inst)
  {
    Total(Sizes(inst))
  }

  /** The head chain from x ends at the root within NumUnits steps. */
  ghost predicate Rooted(inst: DependencyInstance, x: HeadIndex)
    requires Shaped(inst) && HeadsValid(inst) && IsAddr(inst, x)
  {
    var c := Chain(inst, x, NumUnits(inst) + 1);
    |c| <= NumUnits(inst) && c[|c| - 1] == Root
  }

  /**
   * The decoder's tree shape: word 0 holds the single root unit, the root has
   * no head, and every unit's head chain climbs to the root.
   */
  ghost predicate RootedTree(inst: DependencyInstance) {
    && Shaped(inst)
    && HeadsValid(inst)
    && |inst.word| >= 1
    && SegSize(inst.word[0]) == 1
    && IsNone(Dep(inst, Root))
    && forall x :: IsAddr(inst, x) ==> Rooted(inst, x)
  }

  /** Depth of a unit: the length of its head chain (the root has depth 1). */
  ghost function Depth(inst: DependencyInstance, x: HeadIndex): nat
    requires Shaped(inst) && HeadsValid(inst) && IsAddr(inst, x)
  {
    |Chain(inst, x, NumUnits(inst) + 1)|
  }

  predicate Distinct(s: seq<HeadIndex>) {
    forall i, j :: 0 <= i < j < |s| ==> s[i] != s[j]
  }

  /** A rooted unit with a head: its chain is the unit followed by its head's chain, one shorter. */
  lemma RootedCons(inst: DependencyInstance, x: HeadIndex)
    requires Shaped(inst) && HeadsValid(inst) && IsAddr(inst, x) && Rooted(inst, x)
    requires !IsNone(Dep(inst, x))
    ensures IsAddr(inst, Dep(inst, x))
    ensures Chain(inst, x, NumUnits(inst) + 1) == [x] + Chain(inst, Dep(inst, x), NumUnits(inst) + 1)
  {
    var n := NumUnits(inst);
    var d := Dep(inst, x);
    assert Chain(inst, x, n + 1) == [x] + Chain(inst, d, n);
    ChainSettled(inst, d, n, n + 1);
  }

  /** In a rooted tree the root is the only unit without a head, and heads sit one level up. */
  lemma TreeStep(inst: DependencyInstance, x: HeadIndex)
    requires RootedTree(inst) && IsAddr(inst, x)
    ensures x == Root <==> IsNone(Dep(inst, x))
    ensures x != Root ==> IsAddr(inst, Dep(inst, x)) && Depth(inst, x) == Depth(inst, Dep(inst, x)) + 1
    ensures 1 <= Depth(inst, x) <= NumUnits(inst)
    ensures x != Root ==> x.hWord >= 1
  {
    var n := NumUnits(inst);
    var c := Chain(inst, x, n + 1);
    assert Rooted(inst, x);
    if IsNone(Dep(inst, x)) {
      assert c == [x] + Chain(inst, Dep(inst, x), n);
      assert c == [x];
    } else {
      RootedCons(inst, x);
    }
  }

  /** A chain that stopped at "no head" never revisits a unit. */
  lemma ChainNoRepeat(inst: DependencyInstance, m: HeadIndex, n: nat, i: nat, j: nat)
    requires HeadsValid(inst) && HeadOrNone(inst, m)
    requires |Chain(inst, m, n)| < n
    requires i < j < |Chain(inst, m, n)|
    ensures Chain(inst, m, n)[i] != Chain(inst, m, n)[j]
  {
    var c := Chain(inst, m, n);
    ChainSuffix(inst, m, n, i);
    ChainSuffix(inst, m, n, j);
    assert |Chain(inst, c[i], n - i)| == |c| - i;
    assert |Chain(inst, c[j], n - j)| == |c| - j;
    if c[i] == c[j] {
      ChainSettled(inst, c[j], n - j, n - i);
      assert false;
    }
  }

  /** Head chains in a rooted tree never revisit a unit. */
  lemma TreeChainDistinct(inst: DependencyInstance, x: HeadIndex)
    requires RootedTree(inst) && IsAddr(inst, x)
    ensures Distinct(Chain(inst, x, NumUnits(inst) + 1))
  {
    var n := NumUnits(inst);
    assert Rooted(inst, x);
    var c := Chain(inst, x, n + 1);
    forall i, j | 0 <= i < j < |c|
      ensures c[i] != c[j]
    {
      ChainNoRepeat(inst, x, n + 1, i, j);
    }
  }

  /** The chain of a unit is the unit followed by the chain of its head. */
  lemma TreeChainCons(inst: DependencyInstance, x: HeadIndex)
    requires RootedTree(inst) && IsAddr(inst, x) && x != Root
    ensures Chain(inst, x, NumUnits(inst) + 1) == [x] + Chain(inst, Dep(inst, x), NumUnits(inst) + 1)
  {
    TreeStep(inst, x);
    assert Rooted(inst, x);
    RootedCons(inst, x);
  }

  /** Once the chain from m is known to stop within n < Cap units, isAncestor answers exactly membership. */
  lemma SettledAncestor(inst: DependencyInstance, h: HeadIndex, m: HeadIndex, n: nat)
    requires HeadsValid(inst) && HeadOrNone(inst, m)
    requires |Chain(inst, m, n)| < n <= Cap
    ensures IsAncestor(inst, h, m) == Some(h in Chain(inst, m, n))
  {
    ChainSettled(inst, m, n, Cap);
    var r := IsAncestor(inst, h, m);
    assert r.Some? && r.value ==> r == Some(true);
    assert r.Some? && !r.value ==> r == Some(false);
  }

  /** In a rooted tree with fewer than Cap units, isAncestor never trips its assertion. */
  lemma TreeAncestorDefined(inst: DependencyInstance, h: HeadIndex, m: HeadIndex)
    requires RootedTree(inst) && NumUnits(inst) < Cap && IsAddr(inst, m)
    ensures IsAncestor(inst, h, m) == Some(h in Chain(inst, m, NumUnits(inst) + 1))
  {
    assert Rooted(inst, m);
    SettledAncestor(inst, h, m, NumUnits(inst) + 1);
  }

  /** The whole head chain of a unit, from the unit up to the root in a rooted tree. */
  ghost function Up(inst: DependencyInstance, y: HeadIndex): seq<HeadIndex>
    requires Shaped(inst) && HeadsValid(inst) && IsAddr(inst, y)
  {
    Chain(inst, y, NumUnits(inst) + 1)
  }

  /** y lies strictly below x: x is on y's head chain and differs from y. */
  ghost predicate ProperDesc(inst: DependencyInstance, y: HeadIndex, x: HeadIndex)
    requires Shaped(inst) && HeadsValid(inst)
  {
    IsAddr(inst, y) && y != x && x in Up(inst, y)
  }

  lemma UpCons(inst: DependencyInstance, y: HeadIndex)
    requires RootedTree(inst) && IsAddr(inst, y)
    ensures y == Root ==> Up(inst, y) == [Root]
    ensures y != Root ==> IsAddr(inst, Dep(inst, y)) && Up(inst, y) == [y] + Up(inst, Dep(inst, y))
    ensures Depth(inst, y) == |Up(inst, y)|
  {
    TreeStep(inst, y);
    if y != Root {
      TreeChainCons(inst, y);
    } else {
      assert Up(inst, y) == [y] + Chain(inst, Dep(inst, y), NumUnits(inst));
    }
  }

  /** Units above y sit at smaller depth; only y itself shares y's depth. */
  lemma {:induction false} UpDepth(inst: DependencyInstance, y: HeadIndex, z: HeadIndex)
    requires RootedTree(inst) && IsAddr(inst, y) && z in Up(inst, y)
    ensures IsAddr(inst, z) && Depth(inst, z) <= Depth(inst, y)
    ensures Depth(inst, z) == Depth(inst, y) ==> z == y
    decreases Depth(inst, y)
  {
    UpCons(inst, y);
    TreeStep(inst, y);
    if z != y {
      UpDepth(inst, Dep(inst, y), z);
    }
  }

  /** Being above is transitive. */
  lemma {:induction false} UpTransitive(inst: DependencyInstance, y: HeadIndex, z: HeadIndex, w: HeadIndex)
    requires RootedTree(inst) && IsAddr(inst, y) && z in Up(inst, y)
    requires IsAddr(inst, z) && w in Up(inst, z)
    ensures w in Up(inst, y)
    decreases Depth(inst, y)
  {
    UpCons(inst, y);
    TreeStep(inst, y);
    if z != y {
      UpTransitive(inst, Dep(inst, y), z, w);
    }
  }

  /** A head chain holds one unit per depth. */
  lemma {:induction false} UpSameDepth(inst: DependencyInstance, y: HeadIndex, z1: HeadIndex, z2: HeadIndex)
    requires RootedTree(inst) && IsAddr(inst, y) && z1 in Up(inst, y) && z2 in Up(inst, y)
    requires IsAddr(inst, z1) && IsAddr(inst, z2) && Depth(inst, z1) == Depth(inst, z2)
    ensures z1 == z2
    decreases Depth(inst, y)
  {
    UpCons(inst, y);
    TreeStep(inst, y);
    if z1 == y {
      UpDepth(inst, y, z2);
    } else if z2 == y {
      UpDepth(inst, y, z1);
    } else {
      UpSameDepth(inst, Dep(inst, y), z1, z2);
    }
  }

  /** The root is above every unit. */
  lemma RootAboveAll(inst: DependencyInstance, y: HeadIndex)
    requires RootedTree(inst) && IsAddr(inst, y)
    ensures Root in Up(inst, y)
  {
    assert Rooted(inst, y);
  }

  /** A unit strictly below x lies in the subtree of one of x's children (possibly being that child). */
  lemma {:induction false} ChildToward(inst: DependencyInstance, y: HeadIndex, x: HeadIndex) returns (c: HeadIndex)
    requires RootedTree(inst) && ProperDesc(inst, y, x)
    ensures IsAddr(inst, c) && c != Root && c.hWord >= 1 && Dep(inst, c) == x
    ensures c == y || ProperDesc(inst, y, c)
    decreases Depth(inst, y)
  {
    UpCons(inst, y);
    TreeStep(inst, y);
    var d := Dep(inst, y);
    if d == x {
      c := y;
    } else {
      var c' := ChildToward(inst, d, x);
      c := c';
      UpCons(inst, d);
      assert c in Up(inst, y);
      TreeStep(inst, c);
      UpDepth(inst, d, c);
    }
  }

  /** Heads of every unit except t agree (and so do the unit tables). */
  ghost predicate DepsAgreeExcept(a: DependencyInstance, b: DependencyInstance, t: HeadIndex) {
    && (forall x :: IsAddr(a, x) <==> IsAddr(b, x))
    && (forall x :: IsAddr(a, x) && x != t ==> Dep(a, x) == Dep(b, x))
  }

  /** Looking for t never reads t's own head, so re-pointing t does not change the answer. */
  lemma {:induction false} AncestorIgnoresOwnHead(a: DependencyInstance, b: DependencyInstance, t: HeadIndex, m: HeadIndex, cnt: nat)
    requires HeadsValid(a) && HeadsValid(b) && DepsAgreeExcept(a, b, t)
    requires HeadOrNone(a, m) && cnt < Cap
    ensures HeadOrNone(b, m)
    ensures AncestorFrom(a, t, m, cnt) == AncestorFrom(b, t, m, cnt)
    decreases Cap - cnt
  {
    if !IsNone(m) && t != m && cnt + 1 < Cap {
      AncestorIgnoresOwnHead(a, b, t, Dep(a, m), cnt + 1);
    }
  }
}
