/** The crossing-arc test isProj(h, m). */
module Projectivity {
  import opened Heads
  import opened Instance
  import opened Ancestry

  function Smaller(h: HeadIndex, m: HeadIndex): HeadIndex {
    if Less(m, h) then m else h
  }

  function Larger(h: HeadIndex, m: HeadIndex): HeadIndex {
    if Less(m, h) then h else m
  }

  /** The arc x <- hx crosses the span (small, large): one end strictly inside, the other strictly outside. */
  predicate Crosses(small: HeadIndex, large: HeadIndex, x: HeadIndex, hx: HeadIndex) {
    || ((Less(x, small) || Less(large, x)) && Less(small, hx) && Less(hx, large))
    || (Less(small, x) && Less(x, large) && (Less(hx, small) || Less(large, hx)))
  }

  /** The scan over the units us (in flat order), skipping h and m. */
  function ScanFrom(inst: DependencyInstance, h: HeadIndex, m: HeadIndex, us: seq<HeadIndex>): (r: bool)
    requires forall k :: 0 <= k < |us| ==> IsAddr(inst, us[k])
    ensures !r <==> exists k :: 0 <= k < |us| && us[k] != h && us[k] != m
                       && Crosses(Smaller(h, m), Larger(h, m), us[k], Dep(inst, us[k]))
  {
    if |us| == 0 then true
    else
      var x := us[0];
      var rest := ScanFrom(inst, h, m, us[1..]);
      assert forall k :: 1 <= k < |us| ==> us[k] == us[1..][k - 1];
      if x == h || x == m then rest
      else if Crosses(Smaller(h, m), Larger(h, m), x, Dep(inst, x)) then false
      else rest
  }

  /** isProj(s, h, m): false exactly when some other unit's arc crosses the span of h and m. */
  function IsProj(inst: DependencyInstance, h: HeadIndex, m: HeadIndex): (r: bool)
    requires Shaped(inst)
    ensures !r <==> exists x :: IsAddr(inst, x) && x != h && x != m
                       && Crosses(Smaller(h, m), Larger(h, m), x, Dep(inst, x))
  {
    UnitsAreAddrs(inst);
    var us := Units(inst);
    var r := ScanFrom(inst, h, m, us);
    assert !r ==> exists x :: x in us && x != h && x != m && Crosses(Smaller(h, m), Larger(h, m), x, Dep(inst, x));
    r
  }

  /** The test does not depend on which end is the head. */
  lemma IsProjSymmetric(inst: DependencyInstance, h: HeadIndex, m: HeadIndex)
    requires Shaped(inst)
    ensures IsProj(inst, h, m) == IsProj(inst, m, h)
  {
    assert Smaller(h, m) == Smaller(m, h) && Larger(h, m) == Larger(m, h);
  }

  /** With no unit strictly between h and m (say, flat neighbours) nothing can cross. */
  lemma NothingBetweenIsProj(inst: DependencyInstance, h: HeadIndex, m: HeadIndex)
    requires Shaped(inst) && HeadsValid(inst) && IsAddr(inst, h) && IsAddr(inst, m)
    requires forall x :: IsAddr(inst, x) ==> !(Less(Smaller(h, m), x) && Less(x, Larger(h, m)))
    ensures IsProj(inst, h, m)
  {
    forall x | IsAddr(inst, x) && x != h && x != m
      ensures !Crosses(Smaller(h, m), Larger(h, m), x, Dep(inst, x))
    {
      assert HeadOrNone(inst, Dep(inst, x));
    }
  }
}
