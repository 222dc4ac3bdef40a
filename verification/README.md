# SegParser decoder core in Dafny

This project models the core of SegParser's joint word-segmentation, POS-tagging and dependency decoder. It covers three parts.

- **The sentence data model** (`DependencyInstance.cpp`):
  - words, each with candidate segmentations, and segmentation units, each with POS candidates, a head and a child list;
  - the flat-index tables (`numSeg`, `seg2Word`) and the conversions between a `(word, segment)` address and a flat id;
  - the two candidate-0 counters;
  - `buildChild` and `updateChildList`.
- **The search primitives** (`decoder/DependencyDecoder.cpp`):
  - the ancestor and crossing-arc tests, and the bottom-up order;
  - inverse-CDF selection (`samplePoint`);
  - counter maintenance;
  - the resets (`initInst` without a pruner, `removeGoldInfo`, `setGoldSegAndPos`) and the structural effect of the per-word samplers;
  - the segmentation switch;
  - `getFirstOrderVec` and the cycle-popping random-walk tree sampler `randomWalkSampler`.
- **The hill-climbing layer** (`decoder/HillClimbingDecoder.cpp`):
  - the local moves `findOptHead`, `findOptBigramHead` and `findOptPos`;
  - a worker's best-score and convergence bookkeeping;
  - the update decision in `train`.

Every mutation of the C++ code is a pure state transition on immutable datatypes. Most fatal `assert`s in the source, and most indices the source would read out of range, become an explicit error value (`None`, `Broken`). The few asserts about the caller's arguments are preconditions instead; each is listed under "## Left out". The following become parameters:

- scores from the feature model, as uninterpreted `real`-valued functions;
- random draws;
- the pruning vectors;
- whole decoder runs.

The modules follow the source:

- `Heads`: the `HeadIndex` pair, its order and sorted lists.
- `Instance`: the datatypes, element access and frame predicates.
- `Conversion`: the flat indexing.
- `ChildLists`: `buildChild` and `updateChildList`.
- `Counters`: the candidate-0 counters.
- `Ancestry`: `isAncestor`, head chains and the rooted-tree shape.
- `Projectivity`: `isProj`.
- `BottomUp`: `getBottomUpOrder`.
- `Sampling`: `samplePoint`.
- `Reset`: the resets.
- `Resample`: `samplePos1O` and `sampleSeg1O`.
- `SegSwitch`: the segmentation switch.
- `RandomWalk`: `getFirstOrderVec` and `randomWalkSampler`.
- `Argmax`: the candidate loops of the local moves.
- `LocalMoves`: the local moves.
- `RunControl`: the worker bookkeeping.
- `Training`: the decision in `train`.
- `Wrappers`: `Option`.

## Model

| member | source | states |
|---|---|---|
| Heads.LessIsStrictTotalOrder | DependencyInstance.cpp:283 | `HeadIndex` order is a strict total order, lexicographic on (word, segment) |
| Heads.StrictlySortedUnique | DependencyInstance.cpp:261-295 | two strictly ascending child lists with the same members are the same list |
| Heads.StrictlySortedCount | DependencyInstance.cpp:231-259 | a strictly ascending list holds each unit at most once |
| Heads.Remove | DependencyInstance.cpp:264-276 | the removal loop leaves exactly the list's multiset minus every copy of arg |
| Heads.RemoveMembers | DependencyInstance.cpp:264-276 | after removal the members are exactly the old members other than arg |
| Heads.RemoveKeepsOrder | DependencyInstance.cpp:264-276 | removal keeps a (strictly) ascending list (strictly) ascending |
| Heads.RemoveLength | DependencyInstance.cpp:264-276 | removal shortens the list by the number of copies of arg |
| Heads.Insert | DependencyInstance.cpp:278-294 | insertion before the first greater entry adds exactly one copy of arg |
| Heads.InsertMembers | DependencyInstance.cpp:278-294 | after insertion the members are the old ones plus arg |
| Heads.InsertKeepsOrder | DependencyInstance.cpp:278-294 | insertion keeps an ascending list ascending, and a strictly ascending list without arg strictly ascending |
| Heads.InsertAfterRemove | DependencyInstance.cpp:261-295 | removing a member of a strictly ascending list and inserting it again gives back the list |
| Instance.TotalMonotone | DependencyInstance.cpp:25-44 | prefix sums of sizes never decrease |
| Instance.SkeletonShape | DependencyInstance.cpp:223-229 | instances with the same skeleton have the same units, sizes and elements apart from heads and child lists |
| Instance.SkeletonSymmetric | DependencyInstance.cpp:223-229 | having the same skeleton is symmetric |
| Instance.SkeletonTransitive | DependencyInstance.cpp:223-229 | having the same skeleton is transitive |
| Instance.SkeletonExtensional | DependencyInstance.cpp:223-229 | same skeleton, same heads and same child lists mean the same instance |
| Instance.SetElement | DependencyInstance.cpp:223-229 | writing through getElement(h) changes only the element at h and keeps every address valid |
| Instance.SetDep | DependencyInstance.cpp:223-229 | re-pointing h sets its head, keeps every other head and every child list, and keeps the skeleton |
| Instance.SetChild | DependencyInstance.cpp:223-229 | replacing h's child list changes no other list and nothing but child lists |
| Instance.SetChildTwice | DependencyInstance.cpp:261-295 | two list replacements touch only those two lists |
| Instance.SetDepSame | DependencyInstance.cpp:223-229 | re-pointing a unit at its own head is the identity |
| Instance.SetDepTwice | DependencyInstance.cpp:223-229 | a second re-pointing of a unit overrides the first |
| Instance.UnitsFromMembers | DependencyInstance.cpp:25-44 | the flat enumeration from word i holds exactly the units of words i.. |
| Instance.UnitsFromSorted | DependencyInstance.cpp:25-44 | the flat enumeration is strictly ascending in address order |
| Instance.UnitsFromLength | DependencyInstance.cpp:25-44 | the flat enumeration from word i has as many units as words i.. hold |
| Instance.UnitsFromAt | DependencyInstance.cpp:54-60 | the unit at flat position prefix(w)+s is (w, s) |
| Instance.UnitsAreAddrs | DependencyInstance.cpp:25-44 | the units listed are exactly the valid addresses, and the non-root list exactly those of words 1.. |
| Conversion.PrefixFrom | DependencyInstance.cpp:25-35 | the filling loop writes numSeg[k] as the sum of the sizes of words before k |
| Conversion.OwnersFrom | DependencyInstance.cpp:36-42 | the filling loop writes for each flat id the word whose prefix range holds it |
| Conversion.OwnerIff | DependencyInstance.cpp:36-42 | seg2Word[s] == w exactly when numSeg[w] <= s < numSeg[w+1] |
| Conversion.OwnerIffAll | DependencyInstance.cpp:36-42 | the owner characterisation holds for every flat id and word at once |
| Conversion.ConstructConversionList | DependencyInstance.cpp:21-44 | the rebuilt tables agree with the segmentation, getNumSeg() is the total size, owners are characterised as above, and nothing else changes |
| Conversion.ConstructConversionListOfIndexed | DependencyInstance.cpp:25-44 | rebuilding tables that already agree changes nothing |
| Conversion.WordToSeg | DependencyInstance.cpp:54-67 | the sentinel maps to -1, and an address to a flat id in range that its word owns |
| Conversion.SegToWord | DependencyInstance.cpp:69-76 | -1 maps to the sentinel (-1, 0), and a flat id to a valid address in the owning word |
| Conversion.SegToWordOfWordToSeg | DependencyInstance.cpp:54-76 | address to flat id to address is the identity on addresses and the sentinel |
| Conversion.WordToSegOfSegToWord | DependencyInstance.cpp:54-76 | flat id to address to flat id is the identity on -1 .. getNumSeg()-1 |
| Conversion.WordToSegMonotone | DependencyInstance.cpp:54-67 | flat ids follow the lexicographic address order in both directions |
| Conversion.SegDist | DependencyInstance.cpp:209-221 | segDist is non-negative and equals the absolute difference of the two flat ids |
| Conversion.SegDistSymmetric | DependencyInstance.cpp:209-221 | segDist(a, b) == segDist(b, a) |
| Conversion.FlatIdsEnumerateUnits | DependencyInstance.cpp:54-76 | flat id s names the s-th unit of the flat enumeration, in both directions |
| ChildLists.DependentsIn | DependencyInstance.cpp:238-258 | the dependents of u among xs are exactly the units of xs headed by u, in the order of xs |
| ChildLists.BuildChild | DependencyInstance.cpp:231-259 | each child list holds exactly the units of words 1.. headed by its unit, strictly ascending; heads and skeleton unchanged |
| ChildLists.BuildChildFacts | DependencyInstance.cpp:231-259 | the rebuilt lists are the reference lists of dependents, and agree with heads in both directions |
| ChildLists.ConsistentUnique | DependencyInstance.cpp:231-259 | child lists consistent with the heads are determined by the heads |
| ChildLists.BuildChildIdempotent | DependencyInstance.cpp:231-259 | calling buildChild twice gives the same lists as once |
| ChildLists.BuildChildOfConsistent | DependencyInstance.cpp:231-259 | buildChild leaves consistent lists unchanged |
| ChildLists.UpdateChildList | DependencyInstance.cpp:261-295 | oldH loses one copy of arg and newH gains one, no other list changes, and moving within one list keeps its members |
| ChildLists.UpdateChildListLists | DependencyInstance.cpp:261-295 | the two touched lists are the removal from oldH's list and the sorted insertion into newH's list |
| ChildLists.UpdateChildListKeepsOrder | DependencyInstance.cpp:261-295 | sorted lists stay sorted, and with newH == oldH a strictly sorted list is left as it was |
| ChildLists.UpdateChildListConsistent | DependencyInstance.cpp:261-295 | after arg is re-pointed, the incremental move turns consistent lists into lists consistent with the new heads |
| ChildLists.ChildOfAfterMove | DependencyInstance.cpp:261-295 | re-pointing arg changes only which list arg belongs in |
| Counters.CountTrueIsCard | DependencyInstance.cpp:46-52 | counting flags equals the size of the set of flagged positions |
| Counters.SegFlagsCount | DependencyInstance.cpp:46-52 | the segmentation flags count the words whose choice is candidate 0 |
| Counters.PosFlagsCount | DependencyInstance.cpp:46-52 | the POS flags count the current units whose tag is candidate 0 |
| Counters.RecountWord | DependencyInstance.cpp:46-52 | the recount makes a word's optPosCount exact and touches nothing else |
| Counters.SetOptSegPosCount | DependencyInstance.cpp:46-52 | both counters become exact and nothing else changes |
| Counters.SkeletonKeepsCounts | DependencyInstance.cpp:46-52 | heads and child lists do not affect the counters |
| Counters.SetOptSegPosCountOfExact | DependencyInstance.cpp:46-52 | recounting exact counters changes nothing |
| Counters.UpdateSeg | decoder/DependencyDecoder.cpp:311-315 | only word w's choice changes, and an exact optSegCount stays exact |
| Counters.OptSegWordsAfterSwitch | decoder/DependencyDecoder.cpp:311-315 | the set of candidate-0 words changes by exactly the switched word's old and new membership |
| Counters.UpdatePos | decoder/DependencyDecoder.cpp:317-321 | only unit h's tag changes, and an exact optPosCount of its word stays exact |
| Counters.OptPosUnitsAfterRetag | decoder/DependencyDecoder.cpp:317-321 | the set of candidate-0 units changes by exactly the re-tagged unit |
| Counters.UpdatePosTwice | decoder/DependencyDecoder.cpp:317-321 | of two re-tags of one unit only the last matters |
| Counters.UpdatePosSame | decoder/DependencyDecoder.cpp:317-321 | re-tagging a unit with its own tag changes nothing |
| Ancestry.Chain | decoder/DependencyDecoder.cpp:135-147 | the bounded head chain from m consists of units and starts at m |
| Ancestry.AncestorFrom | decoder/DependencyDecoder.cpp:135-147 | from step cnt the loop answers true iff h is on the remaining chain, false iff it is not and the chain stops early, else the assertion fails |
| Ancestry.IsAncestor | decoder/DependencyDecoder.cpp:135-147 | true iff h is on m's chain (m included), false iff not and the chain ends within 10000 units, None (failed assertion) otherwise |
| Ancestry.ChainSettled | decoder/DependencyDecoder.cpp:135-147 | a chain that ended at "no head" gains nothing from a larger bound |
| Ancestry.ChainSuffix | decoder/DependencyDecoder.cpp:135-147 | every tail of a chain is the chain of its first unit |
| Ancestry.ChainStep | decoder/DependencyDecoder.cpp:135-147 | each unit's head follows it on the chain |
| Ancestry.TreeStep | decoder/DependencyDecoder.cpp:135-147 | in a rooted tree only the root lacks a head, and every head is one level up |
| Ancestry.ChainNoRepeat | decoder/DependencyDecoder.cpp:135-147 | a chain that ended at "no head" never revisits a unit |
| Ancestry.TreeChainDistinct | decoder/DependencyDecoder.cpp:135-147 | in a rooted tree head chains are repetition-free, so their length is bounded by the number of units |
| Ancestry.TreeChainCons | decoder/DependencyDecoder.cpp:135-147 | a unit's chain is the unit followed by its head's chain |
| Ancestry.SettledAncestor | decoder/DependencyDecoder.cpp:135-147 | once the chain is known to end below the bound, isAncestor decides membership exactly |
| Ancestry.TreeAncestorDefined | decoder/DependencyDecoder.cpp:135-147 | in a rooted tree smaller than the bound, isAncestor never fails its assertion |
| Ancestry.UpCons | decoder/DependencyDecoder.cpp:135-147 | the full chain of a non-root unit is the unit followed by its head's chain, with length equal to its depth |
| Ancestry.UpDepth | decoder/DependencyDecoder.cpp:135-147 | units above y have smaller depth, and only y has y's depth on its chain |
| Ancestry.UpTransitive | decoder/DependencyDecoder.cpp:135-147 | being above is transitive |
| Ancestry.UpSameDepth | decoder/DependencyDecoder.cpp:135-147 | a chain holds one unit per depth |
| Ancestry.RootAboveAll | decoder/DependencyDecoder.cpp:135-147 | the root is above every unit of a rooted tree |
| Ancestry.ChildToward | decoder/DependencyDecoder.cpp:171-181 | a unit strictly below x is a child of x or below one |
| Ancestry.AncestorIgnoresOwnHead | decoder/DependencyDecoder.cpp:135-147 | the search for t never reads t's own head, so re-pointing t does not change the answer |
| Projectivity.ScanFrom | decoder/DependencyDecoder.cpp:149-169 | the scan reports a crossing iff some listed unit other than h and m has an arc crossing the span |
| Projectivity.IsProj | decoder/DependencyDecoder.cpp:149-169 | false iff some unit other than h and m lies outside the span with its head strictly inside, or strictly inside with its head strictly outside |
| Projectivity.IsProjSymmetric | decoder/DependencyDecoder.cpp:149-169 | the test does not depend on which end is the head |
| Projectivity.NothingBetweenIsProj | decoder/DependencyDecoder.cpp:149-169 | with no unit strictly between h and m, nothing crosses |
| BottomUp.ConsistentChildrenValid | DependencyInstance.cpp:231-259 | consistent child lists name units only |
| BottomUp.WriteDown | decoder/DependencyDecoder.cpp:172-175 | the first loop writes the children at id, id-1, ... and nothing else |
| BottomUp.BottomUpOrder | decoder/DependencyDecoder.cpp:171-181 | the result is the reference order written downwards from id, and the returned position is id minus its length |
| BottomUp.RecurseAll | decoder/DependencyDecoder.cpp:176-180 | the recursion over the children writes their reference orders in turn and threads the position |
| BottomUp.HeadsBeforeConcat | decoder/DependencyDecoder.cpp:171-181 | "heads come first" composes over concatenation |
| BottomUp.ChildFacts | decoder/DependencyDecoder.cpp:171-181 | each listed child is a unit one level below x |
| BottomUp.BelowChild | decoder/DependencyDecoder.cpp:171-181 | units below a child of x are below x and are not children of x |
| BottomUp.AboveSomeChild | decoder/DependencyDecoder.cpp:171-181 | a unit below x is a child of x or below one |
| BottomUp.SiblingSubtreesDisjoint | decoder/DependencyDecoder.cpp:171-181 | the subtrees of two different children do not meet |
| BottomUp.WrittenTree | decoder/DependencyDecoder.cpp:171-181 | on a rooted tree, what is written below x is x's proper subtree, once each, every unit after its head |
| BottomUp.WrittenAllTree | decoder/DependencyDecoder.cpp:176-180 | what is written below children i.. is their subtrees, once each, heads first |
| BottomUp.SameMembersSameLength | decoder/DependencyDecoder.cpp:171-181 | repetition-free sequences with the same members have the same length |
| BottomUp.WrittenFromRoot | decoder/DependencyDecoder.cpp:171-181 | from the root, the written units are exactly the non-root units, once each |
| BottomUp.PlacedMembers | decoder/HillClimbingDecoder.cpp:133-139 | slots 1 .. len-1 hold exactly the non-root units |
| BottomUp.PlacedDistinct | decoder/HillClimbingDecoder.cpp:133-139 | no unit occupies two slots |
| BottomUp.PlacedHeadsAbove | decoder/HillClimbingDecoder.cpp:133-139 | every unit's head is the root or sits in a higher slot, so an upward sweep visits descendants first |
| BottomUp.BottomUpFromRoot | decoder/HillClimbingDecoder.cpp:133-139 | the caller's call from the root returns 0, fills slots 1 .. len-1 with every non-root unit once, and puts heads above |
| Sampling.SamplePoint | decoder/DependencyDecoder.cpp:194-213 | returns the least index whose prefix sum exceeds the draw (or the length when none does) and restores the vector |
| Sampling.PickUnique | decoder/DependencyDecoder.cpp:194-213 | that characterisation determines a single index |
| Sampling.Pick | decoder/DependencyDecoder.cpp:194-213 | the reference scan returns an index between its start and the length |
| Sampling.PickIsLeast | decoder/DependencyDecoder.cpp:194-213 | the reference scan returns the least index whose prefix sum exceeds the draw |
| Sampling.SamplePointIsPick | decoder/DependencyDecoder.cpp:194-213 | samplePoint agrees with the reference scan |
| Sampling.PickSingle | decoder/DependencyDecoder.cpp:194-213 | a single-entry vector with the draw below its entry picks 0 |
| Reset.ClearChoicesReset | decoder/DependencyDecoder.cpp:111-124 | the clearing loop chooses candidate 0 everywhere, gives the root word no heads and every other unit the root, and resets POS choices |
| Reset.ResetAddrs | decoder/DependencyDecoder.cpp:111-124 | the units of a reset sentence are candidate 0's units |
| Reset.ResetAttached | decoder/DependencyDecoder.cpp:111-124 | every unit of words 1.. of a reset sentence hangs from the root, which exists |
| Reset.RecountKeepsReset | decoder/DependencyDecoder.cpp:125-133 | recounting keeps the reset |
| Reset.RebuildKeepsReset | decoder/DependencyDecoder.cpp:125-133 | rebuilding child lists keeps the reset |
| Reset.RecountKeepsIndexed | decoder/DependencyDecoder.cpp:125-133 | recounting keeps the flat tables valid |
| Reset.RemoveGoldInfo | decoder/DependencyDecoder.cpp:111-133 | candidate 0 everywhere, root word headless, every other unit of every candidate headed by the root, exact counters, consistent lists |
| Reset.ClearChoicesFixed | decoder/DependencyDecoder.cpp:111-124 | a reset sentence is a fixed point of the clearing loop |
| Reset.RemoveGoldInfoIdempotent | decoder/DependencyDecoder.cpp:111-133 | removeGoldInfo twice is removeGoldInfo once |
| Reset.ResetCounts | decoder/DependencyDecoder.cpp:111-133 | after the reset every word counts as candidate-0 segmented and every unit as candidate-0 tagged |
| Reset.FlatIsTree | decoder/DependencyDecoder.cpp:111-133 | a single headless root that heads every other unit forms a rooted tree |
| Reset.ResetIsTree | decoder/DependencyDecoder.cpp:111-133 | with a single root unit, the reset sentence is a rooted tree |
| Reset.AttachCurrentFixed | decoder/DependencyDecoder.cpp:42-109 | re-attaching the current units of a reset sentence to the root changes nothing |
| Reset.InitInstNoPruner | decoder/DependencyDecoder.cpp:42-109 | initInst without a pruner ends in the state removeGoldInfo gives |
| Reset.CopyGoldFacts | decoder/DependencyDecoder.cpp:535-546 | the copy keeps the sentence shaped, and each word after the root carries gold's choices with no heads |
| Reset.SetGoldSegAndPos | decoder/DependencyDecoder.cpp:535-546 | words 1.. take gold's segmentation and POS choices with heads cleared, the root word is kept, and tables and counters are exact |
| Reset.GoldWordFixed | decoder/DependencyDecoder.cpp:535-546 | a word already carrying gold's choices is left as it is |
| Reset.SetGoldSegAndPosIdempotent | decoder/DependencyDecoder.cpp:535-546 | setGoldSegAndPos twice is setGoldSegAndPos once |
| Resample.SamplePos1O | decoder/DependencyDecoder.cpp:215-265 | only word w changes: each current unit takes its drawn tag, the word's heads are cleared, and the running count leaves optPosCount exact |
| Resample.SampleSeg1O | decoder/DependencyDecoder.cpp:267-309 | word w switches to the drawn candidate, optSegCount stays exact, and units of other words headed in w lose their head while the rest keep theirs |
| SegSwitch.ScanPosSpec | decoder/DependencyDecoder.cpp:488-495 | the POS scan finds the last candidate equal to the old tag, and counts one when candidate 0 matches |
| SegSwitch.ChoosePos | decoder/DependencyDecoder.cpp:488-499 | the new unit keeps the old tag at its last matching candidate, else takes candidate 0, and the counter increment follows |
| SegSwitch.ChoosePosCounts | decoder/DependencyDecoder.cpp:488-499 | with distinct candidate ids the counter grows by one exactly when candidate 0 is chosen |
| SegSwitch.WalkSound | decoder/DependencyDecoder.cpp:502-520 | the corrected self-loop walk never heads a new unit with itself, and a head outside the switched word is one of the old heads |
| SegSwitch.WalkAsWrittenInventsHead | decoder/DependencyDecoder.cpp:509-515 | on a concrete input the walk as written yields a head that is no old head, where the corrected walk yields the right one |
| SegSwitch.NewUnits | decoder/DependencyDecoder.cpp:483-524 | the new units get their POS choices and heads (from the corrected walk of the Findings row), and the summed increments count candidate-0 choices; None exactly when some walk fails |
| SegSwitch.Relink | decoder/DependencyDecoder.cpp:527-531 | each related child, at its last entry, points at its old parent's image; other heads and the skeleton are kept |
| SegSwitch.SegSwitch | decoder/DependencyDecoder.cpp:474-532 | built on the corrected walk of the Findings row: succeeds iff every walk succeeds, and then sets optSegCount to baseOptSeg plus one for candidate 0 and keeps the tables |
| SegSwitch.SwitchSplit | decoder/DependencyDecoder.cpp:474-532 | a successful switch is the new units' fill-in followed by relinking |
| SegSwitch.SegSwitchWord | decoder/DependencyDecoder.cpp:477-481 | the switched word takes the new choice, keeps its tables and other candidates, and has the new candidate's unit count |
| SegSwitch.SegSwitchPos | decoder/DependencyDecoder.cpp:483-499 | each new unit keeps the old tag when it is among its candidates and takes candidate 0 otherwise |
| SegSwitch.SegSwitchHeads | decoder/DependencyDecoder.cpp:502-524 | a new unit that is not a related child gets its origin's head when that lies outside the word, otherwise the end of the corrected walk of the Findings row |
| SegSwitch.SegSwitchRelated | decoder/DependencyDecoder.cpp:527-531 | each related child is re-pointed to (m.hWord, outMap[index][oldParent]) |
| SegSwitch.SegSwitchFrame | decoder/DependencyDecoder.cpp:474-532 | other words keep their skeleton, and their units that are not related children keep their whole element |
| SegSwitch.SegSwitchKeepsCounts | decoder/DependencyDecoder.cpp:477-499 | with the caller's base counts and distinct candidate ids, both counters stay exact |
| RandomWalk.ScanDefined | decoder/DependencyDecoder.cpp:342-375 | the candidate scan finishes exactly when none of its assertions fails |
| RandomWalk.ScanKept | decoder/DependencyDecoder.cpp:342-375 | from position k on, the candidates are exactly the kept units, in flat order |
| RandomWalk.ScanScores | decoder/DependencyDecoder.cpp:359-372 | each score is the arc score of its candidate, read with m pointing at that candidate |
| RandomWalk.FirstOrderVec | decoder/DependencyDecoder.cpp:323-377 | a result has one score per candidate and only units as candidates |
| RandomWalk.FirstOrderVecDefined | decoder/DependencyDecoder.cpp:323-377 | getFirstOrderVec finishes iff the pruning vector has one flag per unit and every assertion holds |
| RandomWalk.FirstOrderVecCandidates | decoder/DependencyDecoder.cpp:323-377 | candidates are exactly the unpruned units m is not above, strictly ascending; m is never its own candidate; scores match candidates |
| RandomWalk.ClearOne | decoder/DependencyDecoder.cpp:392-399 | clearing one unit keeps the skeleton |
| RandomWalk.RandomWalkSampler | decoder/DependencyDecoder.cpp:379-454 | a run that ends has passed the entry assertions |
| RandomWalk.WalkerSteps | decoder/DependencyDecoder.cpp:413-431 | each loop pass re-points the current unit at the unit it moves to, and leaves an unflagged unit as it is |
| RandomWalk.WalkSkeleton | decoder/DependencyDecoder.cpp:413-431 | a walk changes only heads |
| RandomWalk.WalkReaches | decoder/DependencyDecoder.cpp:413-435 | a walk that ends stops at a tree unit, reached along the final heads from its start in fewer than 5000 steps |
| RandomWalk.WalkKeeps | decoder/DependencyDecoder.cpp:413-431 | a walk keeps the head of every unit in the tree or unflagged |
| RandomWalk.WalkValid | decoder/DependencyDecoder.cpp:413-431 | every head a walk sets is a unit |
| RandomWalk.MarkResult | decoder/DependencyDecoder.cpp:438-450 | the marking pass marks exactly the path into the tree and stays below its 10000-step assertion |
| RandomWalk.GrowPath | decoder/DependencyDecoder.cpp:438-450 | marking the path from c into a grown tree leaves a grown tree containing c |
| RandomWalk.PathUnique | decoder/DependencyDecoder.cpp:413-450 | the distance along heads to the tree is unique |
| RandomWalk.PathExtend | decoder/DependencyDecoder.cpp:425-427 | re-pointing the walk's current unit extends or shortens the path from the start |
| RandomWalk.WalkThenMark | decoder/DependencyDecoder.cpp:405-451 | one walk and its marking pass leave a grown tree containing the walk's start |
| RandomWalk.SampleGrows | decoder/DependencyDecoder.cpp:405-452 | the main loop ends with a grown tree holding every unit of words 1.. |
| RandomWalk.MarkGrows | decoder/DependencyDecoder.cpp:441-446 | marking only adds to the tree |
| RandomWalk.SampleKeeps | decoder/DependencyDecoder.cpp:405-452 | the main loop keeps the head of every unit in the tree or unflagged |
| RandomWalk.SampleSkeleton | decoder/DependencyDecoder.cpp:405-452 | the main loop changes only heads |
| RandomWalk.ClearAt | decoder/DependencyDecoder.cpp:388-402 | after the first pass a flagged unit has no head and every other unit keeps its head |
| RandomWalk.Cleared | decoder/DependencyDecoder.cpp:385-403 | after the first pass heads are valid, the root is alone in the tree and headless, and every unit of words 1.. is still a unit |
| RandomWalk.FinalTree | decoder/DependencyDecoder.cpp:379-454 | a grown tree holding every unit, over valid heads with a headless root, is a rooted tree |
| RandomWalk.SamplerTree | decoder/DependencyDecoder.cpp:379-454 | when the sampler returns true, every unit's head chain reaches the root with no cycle |
| RandomWalk.SamplerKeeps | decoder/DependencyDecoder.cpp:388-399 | when the sampler returns true, the root and every unflagged unit keep their heads |
| Argmax.ClimbRises | decoder/HillClimbingDecoder.cpp:527-547 | the best score never drops, and rises by more than 1e-6 whenever the best head changes to a scored candidate |
| Argmax.ClimbScores | decoder/HillClimbingDecoder.cpp:527-547 | the returned score is the trial score of the returned head |
| Argmax.ClimbLast | decoder/HillClimbingDecoder.cpp:527-547 | the trial state always hangs the modifier from the start head or a candidate |
| Argmax.ClimbDefined | decoder/HillClimbingDecoder.cpp:527-547 | with a stable subtree test, the loop finishes exactly when every unpruned position passes its assertions |
| Argmax.ClimbBound | decoder/HillClimbingDecoder.cpp:527-547 | no scored candidate beats the returned score by more than 1e-6 |
| Argmax.RetagRises | decoder/HillClimbingDecoder.cpp:478-499 | the best score never drops, and a change of best is a tried candidate beating it by more than 1e-6 |
| Argmax.RetagScores | decoder/HillClimbingDecoder.cpp:478-499 | the returned score is the trial score of the returned candidate |
| Argmax.RetagBound | decoder/HillClimbingDecoder.cpp:478-499 | no tried candidate beats the returned score by more than 1e-6 |
| LocalMoves.MoveHead | decoder/HillClimbingDecoder.cpp:536-547 | a head move sets m's head and moves m between child lists, keeping the sentence movable |
| LocalMoves.MoveHeadChildOf | decoder/HillClimbingDecoder.cpp:560-564 | after a move, m is in the new head's child list and in no other |
| LocalMoves.MoveHeadOverrides | decoder/HillClimbingDecoder.cpp:545-564 | moves of the same unit compose: only the last counts |
| LocalMoves.MoveHeadBack | decoder/HillClimbingDecoder.cpp:560-564 | moving m to its own head changes nothing |
| LocalMoves.MoveHeadIsRebuild | decoder/HillClimbingDecoder.cpp:560-564 | the incremental move gives the child lists buildChild would give |
| LocalMoves.TriedFacts | decoder/HillClimbingDecoder.cpp:527-543 | a tried head is a unit other than m that m is not above |
| LocalMoves.AncestorInTrial | decoder/HillClimbingDecoder.cpp:536-540 | the subtree test gives the same answer in every trial state |
| LocalMoves.HeadTestStable | decoder/HillClimbingDecoder.cpp:536-540 | the trial-state subtree test equals the test on the input sentence |
| LocalMoves.FindOptHead | decoder/HillClimbingDecoder.cpp:507-568 | the gain is the score difference the chosen head makes |
| LocalMoves.FindOptHeadDefined | decoder/HillClimbingDecoder.cpp:527-543 | findOptHead finishes exactly when its assertions hold for every unpruned position |
| LocalMoves.TriedPosition | decoder/HillClimbingDecoder.cpp:527-547 | a tried head sits at an unpruned flat position and is scored by moving m there |
| LocalMoves.FindOptHeadGain | decoder/HillClimbingDecoder.cpp:519-566 | the gain is non-negative, and m's head changes only for a gain above 1e-6, to a tried head |
| LocalMoves.FindOptHeadBest | decoder/HillClimbingDecoder.cpp:527-566 | no tried head scores more than 1e-6 above the head kept |
| LocalMoves.FindOptHeadChildOf | decoder/HillClimbingDecoder.cpp:560-564 | afterwards m is in exactly the chosen head's child list, and only m's head changed |
| LocalMoves.MoveHeadKeepsOther | decoder/HillClimbingDecoder.cpp:560-564 | moving m keeps every other unit's head |
| LocalMoves.MoveBoth | decoder/HillClimbingDecoder.cpp:606-651 | a bigram move points both units at h and keeps the sentence movable |
| LocalMoves.MoveBothOverrides | decoder/HillClimbingDecoder.cpp:606-651 | bigram moves compose: only the last counts |
| LocalMoves.MoveBothBack | decoder/HillClimbingDecoder.cpp:645-651 | moving the pair to its shared head changes nothing |
| LocalMoves.BigramTestFalse | decoder/HillClimbingDecoder.cpp:606-616 | a candidate that passes the bigram subtree test lies outside both subtrees |
| LocalMoves.BigramPickedIsTried | decoder/HillClimbingDecoder.cpp:606-630 | a head the bigram loop picks is unpruned for both, outside both subtrees, and not the old head |
| LocalMoves.FindOptBigramHead | decoder/HillClimbingDecoder.cpp:570-654 | the gain is the score difference the chosen head makes |
| LocalMoves.FindOptBigramHeadGain | decoder/HillClimbingDecoder.cpp:570-654 | the gain is non-negative, both units share the chosen head, and it changes only for a gain above 1e-6, to a tried head |
| LocalMoves.FindOptPos | decoder/HillClimbingDecoder.cpp:461-505 | with one candidate nothing changes and the gain is 0 |
| LocalMoves.FindOptPosGain | decoder/HillClimbingDecoder.cpp:461-505 | the gain is non-negative, and the tag changes only for a gain above 1e-6, to a candidate other than the old one and not below -15 |
| LocalMoves.FindOptPosBest | decoder/HillClimbingDecoder.cpp:478-505 | no tried candidate scores more than 1e-6 above the one kept |
| RunControl.Record | decoder/HillClimbingDecoder.cpp:221-237 | the stop flag is the convergence test on the state before the round; the best never drops and ends within 1e-6 of the round's score; best and snapshot change only on improvement; the counter goes down only on an improvement while not stopping |
| RunControl.ConvergedStable | decoder/HillClimbingDecoder.cpp:221-237 | a converged state stays converged after any further round |
| RunControl.Round | decoder/HillClimbingDecoder.cpp:72-114 | every round, failed or not, counts towards the iteration cap |
| RunControl.RunBounded | decoder/HillClimbingDecoder.cpp:66-72 | a worker runs at most 100 rounds, one per attempt, and stops before that only with done set |
| RunControl.RunTemp | decoder/HillClimbingDecoder.cpp:72-114 | T is the starting temperature halved once per failed sampler call |
| RunControl.RunBest | decoder/HillClimbingDecoder.cpp:228-237 | the best score never drops and ends within 1e-6 of every scored round |
| RunControl.RunSnapshot | decoder/HillClimbingDecoder.cpp:228-233 | the final best score and snapshot are the initial pair or the pair of one scored round |
| RunControl.RunDoneConverged | decoder/HillClimbingDecoder.cpp:221-226 | a worker that stops early has converged or early-stopped |
| RunControl.RunConvergedStops | decoder/HillClimbingDecoder.cpp:221-226 | a converged worker records at most one more round and stops right after it |
| RunControl.RunCounterStale | decoder/HillClimbingDecoder.cpp:228-237 | while the best score stays put, the counter rises once per scored round |
| RunControl.RunCounterReset | decoder/HillClimbingDecoder.cpp:228-237 | when the best improved and the worker is still running, the counter was reset: it is below the number of scored rounds |
| RunControl.WorkFacts | decoder/HillClimbingDecoder.cpp:59-114 | a whole run: at most 100 rounds, T = 0.25 halved per failure, best at least -DBL_MAX and within 1e-6 of every scored round |
| Training.UpdateMargin | decoder/HillClimbingDecoder.cpp:449-456 | the update fires iff the loss-augmented excess over gold is above 1e-4, and then the margin is that excess |
| Training.Train | decoder/HillClimbingDecoder.cpp:397-459 | it re-decodes from gold's choices iff oldScore + err < newScore - 1e-6, leaving both switches on afterwards; otherwise it keeps the first prediction; the update fires iff the final excess is above 1e-4 |
| Training.RegoldInput | decoder/HillClimbingDecoder.cpp:419-435 | the re-decode starts from gold's segmentation and POS choices with heads cleared and runs without sampling |

## Left out

- Threads: the worker pool (`hillClimbingThreadFunc` dispatch and wait, `initialize`, `shutdown`, `startTask`'s signalling, `waitAndGetResult`, `debug`) is concurrency. `RunControl` models one worker's rounds against the shared state, with no interleaving of other workers.
- The feature model (`FeatureExtractor`, `Parameters`, `CacheTable`), `Random` and `Timer` are foreign code. Scores are uninterpreted real-valued functions, and draws and pruning vectors are parameters. The cache refresh after a re-tag is not modelled.
- Floating point: scores are reals. `convertScoreToProb` (log-sum-exp) and the float scaling in `samplePos1O` and `sampleSeg1O` are left out. The sampler takes the drawn candidate index from an oracle applied to the temperature-scaled scores. `samplePoint` itself is modelled over reals.
- `Reset.RemoveGoldInfo`: dependency labels are not modelled, so `SegElement` has no `labid`. `initInst` and `removeGoldInfo` reset every unit's label to `ConstLab::NOTYPE` (decoder/DependencyDecoder.cpp:49, 67, 73, 118), and `setInstIds` sets gold labels; none of the modelled operations reads a label. The same holds for `Reset.ClearChoicesReset` and `Reset.InitInstNoPruner`.
- `findOptSeg` needs a whole-sentence score and is not modelled.
- `cycleErase` and `createDependencyDecoder` are an unused helper and a factory.
- `setInstIds`, `isPunc`, `isCoord` and `normalize` are alphabet lookups, regexes and language heuristics.
- `output` is console I/O.
- `Options.cpp` and `SegParser.h` (options and the training driver) are not part of this model.
- The header that defines `HeadIndex` and its `<` is not part of this model. The order is taken to be lexicographic on (word, segment), the order in which flat ids enumerate units.
- The sweep structure of a worker round is not modelled: the 20-by-20 improvement loops, the bottom-up sweeps calling the local moves, and the cache handling. A round's outcome (a failed sampler, or a final score with its snapshot) is an oracle in `RunControl`. The moves themselves are modelled in `LocalMoves`.
- `RunControl.Record`: `unChangeIter` is unbounded; the source's `int` cannot overflow within 100 rounds per worker.
- `RunControl.Lowest`: -DBL_MAX is the exact real value of the double. Comparisons with it follow real arithmetic, so -DBL_MAX + 1e-6 is not rounded back to -DBL_MAX.
- `RandomWalk.RandomWalkSampler`: `Stuck` (the source's `return false`) arises only from a walk reaching 5000 steps; that is by construction and not restated as a lemma. Its other failures are `Broken`, and cover a failed assertion or an index the source would read out of range (a walk onto a non-unit). The property that a successful run re-points every flagged unit is not stated; only the heads it keeps are.
- `RandomWalk.RandomWalkSampler`: the entry assertion that an unflagged unit has a head is checked (it is part of `EntryOk`) but is not needed by the tree theorem.
- `RandomWalk.RandomWalkSampler`: `inTree` is a set of units rather than a vector of flags over flat ids.
- `RandomWalk.FirstOrderVec`: it is a pure function, so restoring the modifier's head at the end is implicit. Each score is read on the trial state where the modifier points at its candidate, as the source's loop does.
- `SegSwitch.SegSwitch`: the self-loop walk never increments `loop`, so its 100-step cap is not enforced. The walk runs on explicit fuel, with no claim about its termination.
- `SegSwitch.SegSwitch`: it is composed on the corrected walk (`Walk`), not on the walk as written at decoder/DependencyDecoder.cpp:509-515. On the Findings input it yields head (5, 0) where the source yields (5, 1). The walk as written is modelled separately (`WalkAsWritten`).
- `SegSwitch.NewUnits`: its heads come from the corrected walk, for the same reason as `SegSwitch.SegSwitch`.
- `SegSwitch.SegSwitchHeads`: "the end of the walk" is the end of the corrected walk, for the same reason as `SegSwitch.SegSwitch`.
- `SegSwitch.SwitchArgs`: the asserts at decoder/DependencyDecoder.cpp:485 (`inMapIndex < oldPos.size()`) and 528 (`relatedOldParent[j] < outMap[index].size()`) are preconditions of the switch (`FromsOk` and the parent bounds), not error values. The caller builds these arguments from the same sentence, so they hold.
- `SegSwitch.SegSwitchKeepsCounts`: exactness needs the candidate POS ids of each new unit to be distinct. With a repeated id the scan counts a candidate-0 match even when a later duplicate is chosen.
- `LocalMoves.FindOptBigramHead`: there is no closed-form "defined iff" lemma, because the subtree test depends on the trial state. There is also no lemma saying that every tried head scores within 1e-6 of the kept one.
- `LocalMoves.FindOptPos`: it requires the POS candidates and their log-probabilities to be aligned (`Retaggable`).
- `ChildLists.UpdateChildList`: it requires arg to occur exactly once in oldH's list. Otherwise the source writes out of range or leaves default-constructed entries. The assert at DependencyInstance.cpp:264, that arg already points at newH, is a precondition (`Dep(inst, arg) == newH`) rather than an error value; every caller re-points arg first.
- `Sampling.SamplePoint`: the assert at decoder/DependencyDecoder.cpp:199, that the probabilities sum to one within 1e-4, is a precondition (`SumsToOne`) rather than an error value. Its callers pass the output of `convertScoreToProb`, which normalises.
- `LocalMoves.FindOptHead`: it requires one pruning flag per unit (`|pruned| == |Units(inst)|`), where the source would index the pruning vector out of range. The caller's pruning vector is built over the flat ids of the same sentence.
- `LocalMoves.FindOptBigramHead`: it requires one pruning flag per unit in both pruning vectors, for the same reason as `LocalMoves.FindOptHead`.
- `Training.Train`: the decoder runs, the model score and the word losses are oracles. When gold's choices do not fit the first prediction's candidates, the re-decode is `None`; the source would index out of range.

## Findings

| source | as written | input that shows it | evidently intended | confidence | as-written member | corrected member |
|---|---|---|---|---|---|---|
| decoder/DependencyDecoder.cpp:512-513 | after stepping to the old head's segment, the word of the next head is read at the already-updated index, so both coordinates come from different old units | word 3 switches to one new unit descended from old unit 0; outMap row [0, 0]; old unit 0's head is (3, 1) and old unit 1's head is (5, 0): the walk yields (5, 1), which is no old head | read both coordinates of the next head from the same old unit, giving (5, 0) | not executed | SegSwitch.WalkAsWrittenInventsHead | SegSwitch.WalkSound |
