/**
 * Flat indexing of units: numSeg (prefix sums of current segmentation sizes),
 * seg2Word (owning word of each flat id) and the conversions between a
 * (word, segment) address and a flat id.
 */
module Conversion {
  import opened Heads
  import opened Instance

  /** numSeg[i..] as the filling loop writes it, given the running size acc at word i. */
  function PrefixFrom(sizes: seq<nat>, i: nat, acc: int): (r: seq<int>)
    requires i <= |sizes|
    ensures |r| == |sizes| - i + 1
    ensures forall k :: i <= k <= |sizes| ==> r[k - i] == acc + Total(sizes[..k]) - Total(sizes[..i])
    decreases |sizes| - i
  {
    if i == |sizes| then [acc]
    else
      TotalStep(sizes, i);
      [acc] + PrefixFrom(sizes, i + 1, acc + sizes[i])
  }

  /** seg2Word[numSeg[i]..] as the filling loop writes it. */
  function OwnersFrom(sizes: seq<nat>, i: nat): (r: seq<int>)
    requires i <= |sizes|
    ensures |r| == Total(sizes) - Total(sizes[..i])
    ensures forall s :: 0 <= s < |r| ==>
      && i <= r[s] < |sizes|
      && Total(sizes[..r[s]]) - Total(sizes[..i]) <= s < Total(sizes[..r[s] + 1]) - Total(sizes[..i])
    decreases |sizes| - i
  {
    assert sizes[..|sizes|] == sizes;
    if i == |sizes| then []
    else
      TotalStep(sizes, i);
      TotalMonotoneAll(sizes);
      var rest := OwnersFrom(sizes, i + 1);
      seq(sizes[i], _ => i) + rest
  }

  /** numSeg and seg2Word agree with the current segmentation sizes. */
  predicate Indexed(inst: DependencyInstance) {
    && Shaped(inst)
    && |inst.numSeg| == |inst.word| + 1
    && (forall i :: 0 <= i <= |inst.word| ==> inst.numSeg[i] == Total(Sizes(inst)[..i]))
    && |inst.seg2Word| == Total(Sizes(inst))
    && (forall s :: 0 <= s < |inst.seg2Word| ==>
          && 0 <= inst.seg2Word[s] < |inst.word|
          && inst.numSeg[inst.seg2Word[s]] <= s < inst.numSeg[inst.seg2Word[s] + 1])
  }

  /** getNumSeg() */
  function NumSeg(inst: DependencyInstance): nat {
    |inst.seg2Word|
  }

  /** In an indexed instance, word w owns exactly the flat ids numSeg[w] .. numSeg[w+1]-1. */
  lemma OwnerIff(inst: DependencyInstance, s: int, w: int)
    requires Indexed(inst)
    requires 0 <= s < NumSeg(inst) && 0 <= w < |inst.word|
    ensures inst.seg2Word[s] == w <==> inst.numSeg[w] <= s < inst.numSeg[w + 1]
  {
    var v := inst.seg2Word[s];
    if v < w {
      TotalMonotone(Sizes(inst), v + 1, w);
    } else if w < v {
      TotalMonotone(Sizes(inst), w + 1, v);
    }
  }

  lemma OwnerIffAll(inst: DependencyInstance)
    requires Indexed(inst)
    ensures forall s, w :: 0 <= s < NumSeg(inst) && 0 <= w < |inst.word| ==>
      (inst.seg2Word[s] == w <==> inst.numSeg[w] <= s < inst.numSeg[w + 1])
  {
    forall s, w | 0 <= s < NumSeg(inst) && 0 <= w < |inst.word|
      ensures inst.seg2Word[s] == w <==> inst.numSeg[w] <= s < inst.numSeg[w + 1]
    {
      OwnerIff(inst, s, w);
    }
  }

  /** constructConversionList(): rebuilds numSeg and seg2Word from the current segmentations. */
  function ConstructConversionList(inst: DependencyInstance): (r: DependencyInstance)
    requires Shaped(inst)
    ensures r.word == inst.word && r.optSegCount == inst.optSegCount
    ensures Indexed(r)
    ensures NumSeg(r) == Total(Sizes(inst))
    ensures forall s, w :: 0 <= s < NumSeg(r) && 0 <= w < |inst.word| ==>
      (r.seg2Word[s] == w <==> r.numSeg[w] <= s < r.numSeg[w + 1])
  {
    var sizes := Sizes(inst);
    assert sizes[..0] == [];
    var r := inst.(numSeg := PrefixFrom(sizes, 0, 0), seg2Word := OwnersFrom(sizes, 0));
    assert Sizes(r) == sizes;
    OwnerIffAll(r);
    r
  }

  /** On tables that already match the segmentation, constructConversionList changes nothing. */
  lemma ConstructConversionListOfIndexed(inst: DependencyInstance)
    requires Indexed(inst)
    ensures ConstructConversionList(inst) == inst
  {
    var r := ConstructConversionList(inst);
    assert Sizes(r) == Sizes(inst);
    assert r.numSeg == inst.numSeg;
    forall s | 0 <= s < |inst.seg2Word|
      ensures r.seg2Word[s] == inst.seg2Word[s]
    {
      var v := inst.seg2Word[s];
      assert r.numSeg[v] <= s < r.numSeg[v + 1];
    }
    assert r.seg2Word == inst.seg2Word;
  }

  /** A unit address or the exact sentinel (-1, 0). */
  predicate AddrOrSentinel(inst: DependencyInstance, h: HeadIndex) {
    h == Sentinel || IsAddr(inst, h)
  }

  /** The word index of h can be looked up in numSeg (or h is "no head"). */
  predicate Lookable(inst: DependencyInstance, h: HeadIndex) {
    IsNone(h) || 0 <= h.hWord < |inst.numSeg|
  }

  /** wordToSeg(h) and wordToSeg(hid, segid): the flat id of an address, -1 for no head. */
  function WordToSeg(inst: DependencyInstance, h: HeadIndex): (r: int)
    requires Lookable(inst, h)
    ensures IsNone(h) ==> r == -1
    ensures Indexed(inst) && IsAddr(inst, h) ==> 0 <= r < NumSeg(inst) && inst.seg2Word[r] == h.hWord
  {
    if h.hWord == -1 then -1
    else
      var r := inst.numSeg[h.hWord] + h.hSeg;
      if Indexed(inst) && IsAddr(inst, h) then
        TotalStep(Sizes(inst), h.hWord);
        TotalMonotone(Sizes(inst), h.hWord + 1, |inst.word|);
        assert Sizes(inst)[..|inst.word|] == Sizes(inst);
        OwnerIff(inst, r, h.hWord);
        r
      else r
  }

  /** segToWord(id): the address of a flat id, the sentinel for -1. */
  function SegToWord(inst: DependencyInstance, id: int): (r: HeadIndex)
    requires id == -1 || (0 <= id < NumSeg(inst) && 0 <= inst.seg2Word[id] < |inst.numSeg|)
    ensures id == -1 ==> r == Sentinel
    ensures Indexed(inst) && id != -1 ==> IsAddr(inst, r) && r.hWord == inst.seg2Word[id]
  {
    if id == -1 then HeadIndex(-1, 0)
    else
      var w := inst.seg2Word[id];
      var r := HeadIndex(w, id - inst.numSeg[w]);
      if Indexed(inst) then
        TotalStep(Sizes(inst), w);
        r
      else r
  }

  /** Address -> flat id -> address is the identity. */
  lemma SegToWordOfWordToSeg(inst: DependencyInstance, h: HeadIndex)
    requires Indexed(inst) && AddrOrSentinel(inst, h)
    ensures SegToWord(inst, WordToSeg(inst, h)) == h
  {
    if h != Sentinel {
      var id := WordToSeg(inst, h);
      assert inst.seg2Word[id] == h.hWord;
    }
  }

  /** Flat id -> address -> flat id is the identity on -1 .. getNumSeg()-1. */
  lemma WordToSegOfSegToWord(inst: DependencyInstance, id: int)
    requires Indexed(inst) && -1 <= id < NumSeg(inst)
    ensures Lookable(inst, SegToWord(inst, id))
    ensures WordToSeg(inst, SegToWord(inst, id)) == id
  {
  }

  /** Flat ids follow the lexicographic order of addresses. */
  lemma WordToSegMonotone(inst: DependencyInstance, a: HeadIndex, b: HeadIndex)
    requires Indexed(inst) && AddrOrSentinel(inst, a) && AddrOrSentinel(inst, b)
    ensures Less(a, b) <==> WordToSeg(inst, a) < WordToSeg(inst, b)
  {
    if IsAddr(inst, a) && IsAddr(inst, b) {
      if a.hWord < b.hWord {
        FlatBefore(inst, a, b);
      } else if b.hWord < a.hWord {
        FlatBefore(inst, b, a);
      }
    }
  }

  /** A unit of an earlier word has a smaller flat id. */
  lemma FlatBefore(inst: DependencyInstance, a: HeadIndex, b: HeadIndex)
    requires Indexed(inst) && IsAddr(inst, a) && IsAddr(inst, b) && a.hWord < b.hWord
    ensures WordToSeg(inst, a) < WordToSeg(inst, b)
  {
    TotalStep(Sizes(inst), a.hWord);
    TotalMonotone(Sizes(inst), a.hWord + 1, b.hWord);
  }

  function Abs(x: int): nat {
    if x < 0 then -x else x
  }

  /** segDist(head, mod): flat distance between two units, computed as large minus small. */
  function SegDist(inst: DependencyInstance, head: HeadIndex, mod: HeadIndex): (r: int)
    requires Lookable(inst, head) && Lookable(inst, mod)
    ensures Indexed(inst) && AddrOrSentinel(inst, head) && AddrOrSentinel(inst, mod) ==>
      r >= 0 && r == Abs(WordToSeg(inst, head) - WordToSeg(inst, mod))
  {
    var small := if Less(head, mod) then head else mod;
    var large := if Less(head, mod) then mod else head;
    if Indexed(inst) && AddrOrSentinel(inst, head) && AddrOrSentinel(inst, mod) then
      WordToSegMonotone(inst, head, mod);
      WordToSegMonotone(inst, mod, head);
      WordToSeg(inst, large) - WordToSeg(inst, small)
    else WordToSeg(inst, large) - WordToSeg(inst, small)
  }

  lemma SegDistSymmetric(inst: DependencyInstance, a: HeadIndex, b: HeadIndex)
    requires Lookable(inst, a) && Lookable(inst, b)
    ensures SegDist(inst, a, b) == SegDist(inst, b, a)
  {
  }

  /** Flat id s names the s-th unit of the flat enumeration, and the unit list is the address table. */
  lemma FlatIdsEnumerateUnits(inst: DependencyInstance)
    requires Indexed(inst)
    ensures |Units(inst)| == NumSeg(inst)
    ensures forall s :: 0 <= s < NumSeg(inst) ==> Units(inst)[s] == SegToWord(inst, s)
    ensures forall h :: IsAddr(inst, h) ==> Units(inst)[WordToSeg(inst, h)] == h
  {
    var sizes := Sizes(inst);
    assert sizes[..0] == [];
    UnitsFromLength(sizes, 0);
    forall h | IsAddr(inst, h)
      ensures Units(inst)[WordToSeg(inst, h)] == h
    {
      UnitsFromAt(sizes, 0, h);
    }
    forall s | 0 <= s < NumSeg(inst)
      ensures Units(inst)[s] == SegToWord(inst, s)
    {
      var h := SegToWord(inst, s);
      UnitsFromAt(sizes, 0, h);
      WordToSegOfSegToWord(inst, s);
    }
  }
}
