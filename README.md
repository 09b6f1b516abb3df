# ACT array types and production-rule expansion

This project models two parts of the ACT hardware-description toolchain core.

**Array types (`act/array.cc`).** An `Array` is a chain of blocks linked by
`next`. Each block has a list of dimension ranges. Before expansion a range
holds unevaluated bound expressions. After expansion it holds integer pairs
`lo..hi`. A chain of more than one block is a sparse array. The model covers:

- construction, deep copy, structural comparison and concatenation;
- the per-block size cache (`range_sz`) and the total element count;
- the row-major offset of an index within the chain;
- validation of a dereference, and counting the ranged dimensions;
- expansion of the bounds in a scope.

It also covers the two enumerators. `Arraystep` walks every index of an
expanded array in offset order. `AExprstep` walks the leaves of an array
expression and steps into array-valued leaves.

**Production-rule expansion (`act/lang.cc`).** A production-rule body has
guard expressions, rules, gates, loops, trees and sub-circuits. Expansion
does the following:

- resolves identifiers and evaluates sizes and attributes;
- folds constant guards;
- unrolls loops, with the loop variable bound as a parameter integer in the
  scope.

The expression evaluator and the identifier resolver are parameters (`Ctx`).
The scope is a small class (`Collab.Scope`) whose environment is a value.

Modules:

- `Wrappers`: Option and Result.
- `Collab`: the collaborators, which are expressions, identifiers, the scope and the error kinds.
- `ArraySpec`: the value model of array chains, with lemmas.
- `ArrayTypes`: class `ActArray`, whose methods are proved against `ArraySpec`.
- `StepperSpec`: both enumerators as pure state machines, with lemmas.
- `Steppers`: the stepper classes, proved to follow `StepperSpec`.
- `PrsSpec`: production-rule expansion as functions, with lemmas.
- `PrsElab`: the imperative expansion over a `Scope`, proved equal to `PrsSpec`.

Each imperative method is specified against its function. On success it also
promises that the scope comes back unchanged.

## Model

| member | source | states |
|---|---|---|
| ArraySpec.CountZeroIff | act/array.cc:402-429 | the element count of a block is never negative, and is zero exactly when some dimension has hi < lo |
| ArraySpec.CountCons | act/array.cc:373-384 | the count with one more leading dimension is that dimension's span times the rest, or zero when the new dimension is empty |
| ArraySpec.CountAppend | act/array.cc:402-429 | the count of concatenated dimension lists is the product of their counts |
| ArraySpec.CountFactor | act/array.cc:373-384 | a non-empty dimension d contributes exactly its span as a factor of the block count |
| ArraySpec.Count | act/array.cc:413-421 | no contract of its own: the product of the spans, zero as soon as one dimension is inverted; CountZeroIff, CountCons, CountAppend and CountFactor state its properties |
| ArraySpec.TotalSize | act/array.cc:402-429 | no contract of its own: the block's count plus the size of the rest of the chain; TotalNonNeg and TotalIsSizeBefore state its properties |
| ArraySpec.SizeBeforeStep | act/array.cc:240-262 | the elements before block k+1 are those before block k plus block k's count |
| ArraySpec.TotalIsSizeBefore | act/array.cc:402-429 | the size of the whole chain equals the number of elements before its end |
| ArraySpec.SizeBeforeNonNeg | act/array.cc:240-262 | the elements before any block number between 0 and the total size |
| ArraySpec.TotalNonNeg | act/array.cc:402-429 | an expanded array's size is never negative |
| ArraySpec.HornerBounds | act/array.cc:195-232 | the row-major accumulation over in-range coordinates lies in [0, product of the spans) |
| ArraySpec.RowMajorBounds | act/array.cc:195-232 | the offset of an in-range index within a block is below the block count |
| ArraySpec.HornerInjective | act/array.cc:195-232 | two in-range indices with the same row-major offset are equal, so offsets identify elements |
| ArraySpec.FirstContaining | act/array.cc:240-262 | the block Offset stops at contains the index, and no earlier block does |
| ArraySpec.OffsetSpec | act/array.cc:240-262 | no contract of its own: the in-block position in the first containing block, else that block's count plus the offset in the rest; OffsetIsPosition states its meaning |
| ArraySpec.OffsetIsPosition | act/array.cc:240-262 | the offset equals the sizes of the earlier blocks plus the row-major position in the containing block, and lies in [0, size) |
| ArraySpec.ChainEqual | act/array.cc:105-140 | equal chains have the same length, and the same dimension count and dereference flag in every block |
| ArraySpec.StrictImpliesLoose | act/array.cc:105-140 | equal bounds imply equal spans, which imply equal spans from dimension 1 on |
| ArraySpec.ChainEqualReflexive | act/array.cc:105-140 | every array equals itself in every comparison mode |
| ArraySpec.ChainEqualSymmetric | act/array.cc:105-140 | the comparison gives the same answer with its arguments swapped |
| ArraySpec.DimCompatible | act/array.cc:146-156 | no contract of its own: the same dimension count, dereference flag and sparseness; DimCompatibleEquivalence and EqualIsCompatible state its properties |
| ArraySpec.DimCompatibleEquivalence | act/array.cc:146-156 | dimension compatibility is reflexive, symmetric and transitive |
| ArraySpec.EqualIsCompatible | act/array.cc:105-140 | arrays that compare equal in any mode are dimension-compatible |
| ArraySpec.ValidateSpec | act/array.cc:270-297 | a valid result needs both arrays expanded and the argument a dereference; true when some block of matching dimensions contains the successor of the indices; false when every block is concrete with matching dimensions and none contains it; with expanded arrays and matching dimensions the check never fails |
| ArraySpec.RangedDims | act/array.cc:348-367 | the count of dimensions written with an explicit lower bound: zero when none are, all when all are |
| ArraySpec.ConcatBlock | act/array.cc:163-185 | the ranges of the concatenation are the first array's followed by the second's; dereference is the conjunction; the count multiplies |
| ArraySpec.ExpandRanges | act/array.cc:440-508 | expansion succeeds exactly when every bound evaluates to an integer; `[n]` becomes 0..n-1, or n..n in a reference; `[a..b]` becomes a..b |
| ArraySpec.ExpandChain | act/array.cc:440-508 | an unexpanded chain expands exactly when BoundsEvaluate holds, i.e. when the bounds of every block evaluate to integers, the first block in the reference context and the later ones outside it; the result keeps length, dimension counts and dereference flags and is expanded block by block; an already expanded chain is returned unchanged |
| ArraySpec.BoundsEvaluateEvery | act/array.cc:440-508 | BoundsEvaluate holds exactly when the ranges of every block of the chain expand, block 0 in the reference context |
| ArrayTypes.ActArray.Empty | act/array.cc:17-24 | a single block with no dimensions, not expanded, not a dereference, and an empty cache |
| ArrayTypes.ActArray.Single | act/array.cc:30-48 | `[e]` is one dimension with no lower bound and is a dereference; `[e..f]` keeps both bounds and is not |
| ArrayTypes.ActArray.Clone | act/array.cc:71-94 | a fresh array with the same chain and an empty size cache |
| ArrayTypes.ActArray.CopyFrom | act/array.cc:79-81 | the recursive copy of next yields the rest of the chain from block k |
| ArrayTypes.ActArray.IsEqual | act/array.cc:105-140 | the comparison from block k equals the chain comparison of the two suffixes |
| ArrayTypes.ActArray.IsDimCompatible | act/array.cc:146-156 | no contract of its own: DimCompatible on the two chains |
| ArrayTypes.ActArray.Concat | act/array.cc:163-185 | the single block becomes the concatenation of the two blocks, and the cache is reset |
| ArrayTypes.ActArray.RangeSize | act/array.cc:373-384 | positive exactly when dimension d is non-empty; then the block count is this size times the count of the other dimensions |
| ArrayTypes.ActArray.UpdateRange | act/array.cc:389-397 | dimension d becomes lo..hi, nothing else in the chain changes, and the cache is reset |
| ArrayTypes.ActArray.EffDims | act/array.cc:348-367 | a sparse array reports its full dimension count; a dense one counts the dimensions with an explicit lower bound |
| ArrayTypes.CountRanged | act/array.cc:348-367 | the loop counts exactly the ranged dimensions |
| ArrayTypes.ActArray.Size | act/array.cc:402-429 | the size from block k is the total count of the remaining blocks; the cache is filled from k on, and the chain and earlier cache slots are untouched |
| ArrayTypes.ActArray.InRange | act/array.cc:195-232 | -1 when the index lies outside block k; otherwise its row-major position in the block; existing cache entries are kept |
| ArrayTypes.BlockOffset | act/array.cc:195-232 | the loop over dimensions computes the row-major position, or -1 outside the block |
| ArrayTypes.ActArray.Offset | act/array.cc:240-262 | the offset of the index from block k, which is the total of earlier blocks plus the position in the first block that contains it |
| ArrayTypes.ActArray.Validate | act/array.cc:270-297 | the result equals the specification of validating the chain suffix from block k |
| ArrayTypes.ActArray.Expand | act/array.cc:440-508 | an expanded array returns itself; otherwise a fresh array holding the expanded chain, failing exactly when the chain expansion fails |
| ArrayTypes.ActArray.ExpandFrom | act/array.cc:440-508 | the recursive expansion from block k equals the chain expansion of the suffix |
| StepperSpec.InitState | act/array.cc:535-550 | the stepper starts at block 0 with index 0, each coordinate at lo for a subrange and at hi+1 otherwise |
| StepperSpec.SetLows | act/array.cc:586-589 | moving to a block resets its dimensions to their lower bounds and leaves the other coordinates alone |
| StepperSpec.Carry | act/array.cc:567-576 | the carry loop only touches coordinates below dimension i |
| StepperSpec.CarryIsIncrement | act/array.cc:567-576 | incrementing with carry adds one to the row-major position and keeps coordinates in range; when everything wraps, the position was the block's last and all coordinates return to lo |
| StepperSpec.CarryFromAbove | act/array.cc:567-576 | coordinates at or past hi all wrap to lo, so the step leaves the block |
| StepperSpec.HornerAgree | act/array.cc:567-576 | the position depends only on the coordinates it reads |
| StepperSpec.HornerLows | act/array.cc:586-589 | the first element of a block has row-major position 0 |
| StepperSpec.Step | act/array.cc:563-591 | a step keeps a well-formed state, and a finished stepper stays put |
| StepperSpec.SubrangeStart | act/array.cc:535-550 | a subrange stepper starts on the first element of the first block, at index 0 |
| StepperSpec.StepAdvancesPosition | act/array.cc:563-591 | each step moves to the next element in offset order and adds one to the index; leaving the last block sets the index to -1 exactly after the last element |
| StepperSpec.StepAcrossBlock | act/array.cc:578-590 | wrapping out of a block enters the next block at its first element, or ends the walk after the last element |
| StepperSpec.Point | act/array.cc:240-262 | the single-element index for a coordinate vector has the coordinates as its lower bounds |
| StepperSpec.StepperIdxIsOffset | act/array.cc:240-262 | the stepper's index is the array offset of its current coordinates, and the current block is the first one that contains them |
| StepperSpec.DefaultFirstStepLeaves | act/array.cc:535-591 | a non-subrange stepper starts past its block, so its first step leaves block 0 |
| StepperSpec.Push | act/array.cc:714-716 | pushing a ready subtree keeps the stack ready |
| StepperSpec.Enter | act/array.cc:669-709 | no contract of its own: a constant leaf, a dereferenced variable without a slice stepper, a slice with a default-mode stepper, or an array value from offset 0 to size - 1; EnterValue and LeafOrder state its effect |
| StepperSpec.Descend | act/array.cc:667-723 | descending into a tree gives a ready state |
| StepperSpec.Advance | act/array.cc:658-665 | moving past a leaf gives a ready state |
| StepperSpec.AStep | act/array.cc:626-724 | a step keeps the state ready, and the end state is fixed |
| StepperSpec.IsEnd | act/array.cc:726-732 | no contract of its own: no leaf being visited, no current node and an empty stack; AStep fixes these states |
| StepperSpec.ChildOrder | act/array.cc:712-718 | for a concatenation or comma node, descending visits the left leaves, then the right leaves, then the pending stack |
| StepperSpec.DescendOptOrder | act/array.cc:660-723 | descending into an optional subtree leads in leaf order |
| StepperSpec.LeafOrder | act/array.cc:669-709 | reaching a leaf bumps the index by one and leaves the stack's leaves pending |
| StepperSpec.PushLeaves | act/array.cc:712-718 | the pending leaves after a push are the pushed subtree's leaves followed by the stack's |
| StepperSpec.StepOrder | act/array.cc:626-724 | a step stays at the current leaf with the next index exactly when a variable leaf's slice stepper has not ended or a value leaf is below its last offset; every other step hands on to the next pending leaf in left-to-right order |
| StepperSpec.LeafHandsOn | act/array.cc:626-658 | a constant leaf, a dereferenced variable without a slice stepper and a value leaf at its last offset yield one position each and then hand on to the next leaf |
| StepperSpec.UnstartedPending | act/array.cc:611-618 | before the first step, the pending leaves are all the expression's leaves in order |
| StepperSpec.ConstructedIdx | act/array.cc:611-618 | the constructor's first step reaches the first leaf in order, with index 0 |
| StepperSpec.AStepN | act/array.cc:626-724 | any number of steps keeps the state ready |
| StepperSpec.ValueOffsets | act/array.cc:645-651 | inside an array-valued leaf each step advances the element offset and the index by one |
| StepperSpec.EnterValue | act/array.cc:695-702 | entering an array-valued leaf starts at offset 0, with its last offset one less than the array size |
| Steppers.ArrayStepper.constructor | act/array.cc:535-550 | the stepper's state is the initial state of the chain |
| Steppers.ArrayStepper.Step | act/array.cc:563-591 | the new state is the specification step of the old one |
| Steppers.ArrayStepper.IsEnd | act/array.cc:599-603 | true exactly in the finished state |
| Steppers.CarryIn | act/array.cc:567-576 | the in-place carry loop on the coordinate array computes the carry function |
| Steppers.LoadLows | act/array.cc:586-589 | the coordinates of the new block are set to its lower bounds in place |
| Steppers.Stepper | act/array.cc:520-528 | an unexpanded array is refused; otherwise a fresh stepper over the array's chain in its initial non-subrange state |
| Steppers.AExprStepper.constructor | act/array.cc:611-618 | the state after construction is one specification step from the unstarted expression |
| Steppers.AExprStepper.Step | act/array.cc:626-724 | the new state is the specification step of the old one |
| Steppers.AExprStepper.Walk | act/array.cc:667-723 | the descent loop reaches the same state as the descent function |
| Steppers.AExprStepper.EnterLeaf | act/array.cc:669-709 | entering a leaf reaches the same state as descending into it |
| Steppers.AExprStepper.IsEnd | act/array.cc:726-732 | true exactly in an end state of the step function, the states that a step leaves unchanged |
| Collab.Env.Add | act/lang.cc:153 | binding a name adds exactly that name and leaves the integer slots alone |
| Collab.Env.AllocPInt | act/lang.cc:192-194 | allocation appends one unset slot and keeps the earlier ones |
| Collab.Env.SetPInt | act/lang.cc:466 | setting a slot changes only that slot |
| Collab.Env.SetPIntTwice | act/lang.cc:466 | a second assignment to a slot overrides the first |
| Collab.Env.DeallocPInt | act/lang.cc:266 | deallocation drops n slots and keeps the names |
| Collab.Env.Del | act/lang.cc:268 | unbinding removes exactly that name |
| Collab.LoopBindingRestores | act/lang.cc:151-269 | binding, allocating, setting, freeing and unbinding a fresh loop variable restores the scope exactly |
| Collab.SetAll | act/lang.cc:465-481 | setting one slot repeatedly changes no other slot |
| Collab.Scope.constructor | act/lang.cc:51-282 | the scope holds the given environment |
| Collab.Scope.Add | act/lang.cc:153 | succeeds exactly when the name is unbound, and then binds it |
| Collab.Scope.AllocPInt | act/lang.cc:192-194 | the new slot is the next free one |
| Collab.Scope.SetPInt | act/lang.cc:466 | the environment's slot gets the value |
| Collab.Scope.DeallocPInt | act/lang.cc:266 | the environment drops the slots |
| Collab.Scope.Del | act/lang.cc:268 | the environment drops the name |
| PrsSpec.ResolveVar | act/lang.cc:16-31 | succeeds exactly when the resolver yields a variable, and returns that variable |
| PrsSpec.ResolveOpt | act/lang.cc:16-31 | an absent identifier stays absent; a present one resolves as above |
| PrsSpec.ExpandDim | act/lang.cc:307-345 | an absent size stays absent; a present one must evaluate to an integer or a real |
| PrsSpec.ExpandSize | act/lang.cc:307-345 | width and length are evaluated and must be numeric; flavour and subflavour are kept |
| PrsSpec.ExpandSizeIdempotent | act/lang.cc:307-345 | with an evaluator that fixes constants, expanding an expanded size changes nothing |
| PrsSpec.AttrRejectsAll | act/lang.cc:292-293 | the attribute test as written holds for every value |
| PrsSpec.AttrExpandAsWritten | act/lang.cc:284-305 | as written, only the empty attribute list expands; any other list fails on its first attribute |
| PrsSpec.AttrAsWrittenRejectsConstants | act/lang.cc:284-305 | an all-constant attribute list, which the intended code accepts, is rejected as written |
| PrsSpec.AttrExpand | act/lang.cc:284-305 | succeeds exactly when every value evaluates to a constant, keeping names and evaluated values in order; otherwise fails on the first non-constant attribute |
| PrsSpec.FoldBin | act/lang.cc:61-121 | with no constant operand the node is rebuilt; otherwise it is replaced by one of its operands |
| PrsSpec.FoldNot | act/lang.cc:123-140 | a constant operand flips; any other is negated |
| PrsSpec.FoldBinSound | act/lang.cc:61-121 | constant folding of AND/OR preserves the Boolean value of the guard |
| PrsSpec.FoldNotSound | act/lang.cc:123-140 | folding NOT gives the negation of the operand's value |
| PrsSpec.LoopStep | act/lang.cc:212-254 | no contract of its own: one iteration's update of `ret`; LoopFoldInvariant and LoopFoldStops state its effect |
| PrsSpec.LoopFold | act/lang.cc:208-255 | no contract of its own: the accumulator after the iterations in order; LoopFoldInvariant states what it holds |
| PrsSpec.LoopResult | act/lang.cc:205-264 | no contract of its own: the accumulator, or the identity when it stayed NULL; LoopResultCases states its three outcomes |
| PrsSpec.LoopFoldInvariant | act/lang.cc:208-255 | the loop accumulator stops exactly at an absorbing constant, stays empty only while every iteration gives the identity, and otherwise holds the first non-constant iteration |
| PrsSpec.LoopResultCases | act/lang.cc:196-264 | an AND/OR loop gives the absorbing constant if any iteration does, the identity if all do, and otherwise the first non-constant iteration |
| PrsSpec.Repeat | act/lang.cc:208-211 | n copies of the body's expansion, one per iteration |
| PrsSpec.LoopOfSame | act/lang.cc:208-264 | a non-empty loop whose iterations all expand alike yields that expansion |
| PrsSpec.Unsigned | act/lang.cc:157 | the conversion to `unsigned int`: a value in [0, 2^32), unchanged when already in range, and raised by 2^32 when it is negative and small |
| PrsSpec.LoopBounds | act/lang.cc:160-189 | succeeds exactly when both bounds evaluate to integers; the indices are the `unsigned int` conversions of lo (or 0) and of hi - 1 with an explicit lo, or hi without one |
| PrsSpec.ExpandOpt | act/lang.cc:51-282 | an absent expression stays absent |
| PrsSpec.ExpandExpr | act/lang.cc:51-282 | no contract of its own: prs_expr_expand case by case; ExpandFolded, ExprLoopIsBody, FoldBinSound and FoldNotSound state its properties, and PrsElab.ExprExpand is proved equal to it |
| PrsSpec.ExprLoopIsBody | act/lang.cc:151-269 | an empty loop range yields the identity constant; a range that ends yields the body's expansion with the loop variable bound; a range whose index never passes its bound yields that expansion only when it is the absorbing constant, and fails otherwise |
| PrsSpec.ExpandFolded | act/lang.cc:51-282 | an expanded guard has no loops, and constants remain only at the top level |
| PrsSpec.ExpandTarget | act/lang.cc:365-375 | labels are kept and identifiers resolve to variables |
| PrsSpec.ExpandPrs | act/lang.cc:33-48 | an absent body stays absent; otherwise the rules are the expansion of the rule list |
| PrsSpec.ExpandRules | act/lang.cc:355-523 | no contract of its own: each element expanded in order and the outputs appended; ExpandRulesAppend, RulesPrefixStep and RulesPrefixFail state its properties |
| PrsSpec.ExpandOne | act/lang.cc:360-515 | no contract of its own: one rule, gate, loop, tree or sub-circuit; StructLoopRange states the loop case, and PrsElab.OneExpand is proved equal to it |
| PrsSpec.RulesLoop | act/lang.cc:465-481 | no contract of its own: the structural iterations from i to ihi with the slot set to each; RulesLoopUnrolls and RulesLoopSlotReset state its properties |
| PrsSpec.RulesLoopSlotReset | act/lang.cc:465-467 | the iterations do not depend on the value the loop slot held before them |
| PrsSpec.ExpandRulesAppend | act/lang.cc:355-523 | expanding a concatenated rule list is expanding each half and appending the outputs |
| PrsSpec.RulesLoopUnrolls | act/lang.cc:465-481 | a successful structural loop is the concatenation of its iterations' outputs, in order, each with the loop variable set |
| PrsSpec.StructLoopRange | act/lang.cc:419-487 | an empty range yields nothing; a range that never ends fails; otherwise the first iteration is non-empty and the output is all iterations flattened |
| PrsSpec.LoopFoldStops | act/lang.cc:208-255 | once the accumulation stops, later iterations do not change it |
| PrsSpec.LoopFoldNext | act/lang.cc:208-255 | one more iteration is one more accumulation step |
| PrsSpec.RulesPrefixStep | act/lang.cc:355-523 | expanding one more rule appends that rule's output |
| PrsSpec.RulesPrefixFail | act/lang.cc:355-523 | the first failing rule's error is the whole list's error |
| PrsElab.ExprExpand | act/lang.cc:51-282 | the guard expansion equals the specification, and on success the scope is unchanged |
| PrsElab.OptExpand | act/lang.cc:51-282 | the same for an optional guard |
| PrsElab.LoopExpand | act/lang.cc:151-269 | the AND/OR loop expansion, including the case of a range that never ends, equals the specification, and the loop variable is unbound again on success |
| PrsElab.ExprLoopCase | act/lang.cc:151-269 | a bound name, bad bounds, and good bounds give the three outcomes of the loop expansion |
| PrsElab.RepeatBody | act/lang.cc:205-264 | the iteration loop computes the fold of the body's expansion over the range |
| PrsElab.IterationAcc | act/lang.cc:208-255 | one step of the accumulator extends the fold by one iteration |
| PrsElab.AccStep | act/lang.cc:212-254 | one iteration's accumulator update is the specification step |
| PrsElab.AttrsExpand | act/lang.cc:284-305 | the attribute loop computes the intended attribute expansion |
| PrsElab.RulesExpand | act/lang.cc:355-523 | the rule-list loop equals the specification, and the scope is unchanged on success |
| PrsElab.OneExpand | act/lang.cc:360-515 | each rule, gate, loop, tree and sub-circuit expands as specified |
| PrsElab.StructLoop | act/lang.cc:419-487 | the structural loop equals the specification, including the wrapped second pass of a range that never ends, and restores the scope on success |
| PrsElab.StructIterations | act/lang.cc:465-481 | appending the iterations to the output gathered so far equals the loop specification, the emptiness test applying while nothing is gathered, and the loop slot is left at the last index |
| PrsElab.PrsExpand | act/lang.cc:33-48 | the body expansion equals the specification |
| PrsElab.Prepend | act/lang.cc:516-521 | prepending output keeps failure and puts earlier output first |
| PrsElab.PrependAppend | act/lang.cc:516-521 | prepending twice is prepending the concatenation |

## Left out

- `Array::Print` and `chp_expand` are not modelled: the first is output formatting, and the second is a separate language.
- Memory management is not modelled: MALLOC/FREE and the deletion of temporaries.
- `Array::Expand` returning `this` for an expanded array is modelled as returning the same object, but aliasing through later updates is not followed.
- The array stepper works on a snapshot of the chain, so an array changed during stepping is not modelled.
- Integers are unbounded: 32-bit overflow of sizes and offsets is not modelled.
- PrsSpec.LoopBounds: the bounds are converted to `unsigned int` as in the source. A negative explicit lower bound becomes a value near 2^32, so a loop such as `lo=-2, hi=3` has an empty range and yields the identity constant (or no rules). A resulting upper bound of 2^32 - 1 (an explicit lower bound with hi = 0, or hi = -1) makes `i <= ihi` always hold.
- PrsSpec.ExpandExpr: for a loop whose index never passes its bound, the source runs forever unless the body gives the absorbing constant; the model reports the error `LoopNeverEnds` instead of not terminating.
- PrsSpec.ExpandOne: for a structural loop whose index never passes its bound, the source repeats the iterations forever unless one of them fails; the model runs the iterations once round, reporting the first failure, and otherwise reports `LoopNeverEnds` instead of not terminating.
- PrsSpec.ExpandOne: rules and gates expand their attributes with the corrected PrsSpec.AttrExpand, not with the as-written behaviour PrsSpec.AttrExpandAsWritten, which rejects every non-empty attribute list; so a rule with a constant attribute such as `after=100`, which the source rejects with a fatal error, expands here.
- PrsElab.OneExpand: like PrsSpec.ExpandOne, expands the attributes of rules and gates with the corrected check, where the source rejects every non-empty attribute list.
- PrsElab.AttrsExpand: computes the corrected PrsSpec.AttrExpand, keeping constant attributes; the source rejects every non-empty attribute list, as PrsSpec.AttrExpandAsWritten states.
- ArraySpec.ChainEqual: requires both chains to be in the same expanded state. isEqual of an expanded array against an unexpanded one reads the other array's symbolic ranges as concrete ones (act/array.cc:115-135), so the model gives that case no meaning.
- ArrayTypes.ActArray.IsEqual: requires the same expanded state, for the same reason as ArraySpec.ChainEqual.
- ArrayTypes.ActArray.Concat: requires the argument to be a different array. For `Concat(this)`, `dims += a->dims` also doubles `a->dims`, so the copy loop (act/array.cc:171-177) writes each old range onto itself and leaves the new half of the ranges unset.
- PrsSpec.ExpandOne: a structural loop whose first iteration produces nothing crashes the source with a null dereference; this is modelled as the error `NullFirstIteration`.
- Asserts whose outcome depends on the input are modelled as errors: a name that is already bound in a loop gives `NameAlreadyBound`; the `Assert (E_VAR)` in identifier resolution gives `NotAVariable`; the dimension `Assert` in Validate (act/array.cc:281) gives `ValidateDimMismatch`.
- ArrayTypes.ActArray.Offset: demands that the index lie in some block and have at least as many dimensions as every block; the source dereferences a null `next` otherwise.
- Steppers.Stepper: demands that later blocks have no more dimensions than the first, which sizes the coordinate buffer; the source reads past it otherwise.
- The types header is not part of this model. These defaults are assumed:
  - `next->Expand` uses a non-reference context;
  - `stepper()` builds a non-subrange stepper;
  - an array is sparse exactly when `next` is non-null;
  - a never-computed range size is `None`;
  - `nDims()` is the block's `dims` (act/array.cc:281, 355).
- StepperSpec.SubrangeStart: proved only for chains without an empty block. The source starts a subrange stepper at the lower bounds of the first block even when that block is empty, so the index 0 it reports names no element.
- StepperSpec.StepAdvancesPosition: proved only for chains without an empty block. The step at act/array.cc:579-589 enters the next block at its lower bounds even when it is empty, so for a chain `[0..1]` followed by `[1..0]` the third index reported is 2, which names no element.
- StepperSpec.StepAcrossBlock: proved only for chains without an empty block, for the same reason as StepperSpec.StepAdvancesPosition.
- StepperSpec.StepperIdxIsOffset: proved only when no earlier block holds the current coordinate. With overlapping sparse blocks `[0..3]` and `[2..5]`, coordinate 2 of the second block is stepped at index 4, while Offset returns 2 for it. So the stepper's index equals Offset only where the blocks do not overlap.
- A variable leaf of an array expression always carries array information; a scalar variable leaf without it is not modelled.
- The expression evaluator and identifier resolver are abstract functions of `Ctx`, and the scope's own lookups are not modelled beyond its name map and integer slots.
- `act_prs` headers other than vdd/gnd/psc/nsc and the rule list, and the `next` link of `act_prs`, are not modelled.

## Findings

| source | as written | input that shows it | evidently intended | confidence | as-written member | corrected member |
|---|---|---|---|---|---|---|
| act/lang.cc:284-305 | the constant test joins four negated tag tests with `\|\|`, so it holds for every value; the list pointer is never advanced | any rule attribute with a constant value, such as `after=100`, is rejected with a fatal error | keep each attribute whose value is a constant, reject the first that is not, and advance through the list | not executed | PrsSpec.AttrExpandAsWritten | PrsSpec.AttrExpand |
