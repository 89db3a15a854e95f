# Elaboration and optimisation in the bundled Icarus Verilog

This project models the elaborator and the constant propagation pass of the Verilog
compiler in `iverilog-master/`, and proves what they promise. It covers four linked parts:

- **Expressions.** `test_width` sizes a tree with a mode that only rises
  (SIZED < UNSIZED < EXPAND < LOSSLESS < UPSIZE); `elaborate_expr` pushes the sign down,
  elaborates operands at the context width and folds constants. `Exprs` states both as
  functions of the tree, `ExprNodes` proves that the methods of mutable nodes compute
  them, `Verinums` that arithmetic on constants, bit by bit, is the operator on vectors,
  and `Reference` is a direct evaluator of section 5.5.2 of IEEE 1364-2005 that knows
  nothing of net expressions or folds. `SizingFacts`, `Modes` and `Growth` say what the
  widths, signs and modes come to without the sizing, and `ValueLaws` what whole
  assignments store, in integers.
- **Constant propagation.** A netlist of nodes and nexuses has a meaning: the valuations in
  which every nexus holds the resolution of its drivers (`Netlists`). `Cprop.Netlist`
  replaces and deletes nodes in place, as `cprop` does; a run is proved to stop, and to keep
  that meaning whenever no 2-state net can float (`GroundedNets.NeverFloats`), or else
  whenever each rewrite it made was harmless (`CpropRuns.Harmless`).
- **Selects and assignment targets.** Reads, procedural writes and continuous writes
  compute their ranges separately, and so do the two splitters of concatenated targets;
  each is compared with the concatenation of single-bit selects, or with the one way to
  cut a value into slices; `Targets` proves that a target reads back as what was assigned.
- **Types and scopes.** The cached elaboration of types, the tree of module scopes under
  any interleaving of steps, generate loops, enumeration numbering and the merging of
  class constructors.

A vector is a sequence over 0, 1, x and z, least significant bit first. Where the source
updates objects, fields, lists or counters, the model does too, and each such method is
tied to a function or relation about which the lemmas are proved.

Where a promise does not hold of the code, the code is modelled as it is and the exact
condition is proved:

- An unsized negative literal in an unsigned context is extended by its sign bit
  (`ElabCorrect.LiteralExact`).
- The guard that turns width pruning off covers `/`, `%`, `>>` and `>>>`, but lets `min`,
  `max` and `abs` through: for each of them an assignment can store other bits than the
  value at the full width has, for every integer width from 5 on
  (`Pruning.PruningGuardExact`, `Pruning.UnaryGuardExact`, `Pruning.ShiftGuardExact`,
  `PruningBreaks.PruningBreaksMinMax`, `PruningBreaks.PruningBreaksAbs`). Pruning also drops
  unknown bits that would spoil a sum (`PruningBreaks.PruningBreaksUnknown`).
- A left shift by a variable amount can be sized below its left operand, as one of an
  unsized literal longer than an integer is (`WidthsFit.ShiftClipExact`,
  `WidthsFit.LongLiteralIsClipped`).
- Folding a concatenation reads an undriven 2-state input as z, though it reads as 0
  elsewhere (`NetlistSteps.ConcatFoldExact`, `NetlistSteps.FloatingInputFolds`).
- Blending part selects fills the gaps of a 2-state target with 0, also where the target is
  a port whose gap bits the outside drives; a 1 from there then meets the 0 and gives x
  (`BlendStep.BlendExact`, `BlendStep.PortGapFolds`).
- A read `-:` returns the whole vector for a select as wide as the vector of which only the
  lowest bit lies on it, and on a vector of one bit neither the read nor the procedural
  write `-:` moves its base down (`Selects.ReadDoExact`, `SelectWrites.IdxWriteExact`).
- The overflow test of an enumeration is wrong for one signed bit
  (`Enums.OverflowTestExact`), and a value as wide as the enumeration is reinterpreted
  rather than checked (`Enums.SameWidthExact`).

The comment at `iverilog-master/PExpr.h:93-103` says that any unsized literal makes the mode LOSSLESS
unless the strict flag is set; the code does so only for those as long as an integer, and
makes it UNSIZED for shorter ones, as `Modes.ModeExactly` states.

The comment at `iverilog-master/elab_expr.cc:823-828` asks what operands of a comparison need to
behave like unbounded integers, and guesses one more bit. For lossless operands
`LosslessWidths.LosslessComparison` proves it, whether or not that bit is added.

## Model

| member | source | states |
|---|---|---|
| SizingFacts.OneRetestSuffices | iverilog-master/elab_expr.cc:468-561 | With the strict flag off, from any starting mode: the mode never drops, and if it ends at LOSSLESS or above the returned width is that of sizing the whole tree from LOSSLESS |
| SizingFacts.RetestPairSuffices | iverilog-master/elab_expr.cc:473-489 | The same for two operands with their single retest, in whichever order the mode rises |
| SizingFacts.SizedIsStandard | iverilog-master/PExpr.h:88-91 | When the mode stays SIZED, the width is the one in the width table of IEEE 1364-2005 section 5.4.1 |
| SizingFacts.ShortIsStandard | iverilog-master/elab_expr.cc:468-561 | In SIZED or UNSIZED mode, every tree without an unsized literal as long as an integer gets the width of that table, an unsized literal counting as an integer, and ends SIZED exactly if it has no unsized literal |
| SizingFacts.SelfIsStandard | iverilog-master/elab_expr.cc:1160-1193 | So a self-determined operand and a condition get their width from the table |
| SizingFacts.ComparedIsStandard | iverilog-master/elab_expr.cc:801-840 | And the operands of a comparison share the larger of their widths in the table |
| SizingFacts.SignIsStandard | iverilog-master/elab_expr.cc:508-516 | An expression is signed exactly if all the operands that its context reaches are (section 5.5.1 of IEEE 1364-2005): a comparison or reduction is not, and neither the amount of a shift nor a condition matters |
| Modes.ModeExactly | iverilog-master/PExpr.h:88-126 | Sizing ends at LOSSLESS or above exactly if it began there or some unsized literal is as long as an integer, and then in UPSIZE mode exactly if signs are mixed or a signed operand is shifted right anywhere, in whichever order they are met; stated for every tree and mode, but from SIZED for trees without shifts where the context reaches |
| Modes.StoredWidth | iverilog-master/elab_expr.cc:180-197 | In UPSIZE mode an operator keeps at least the integer width, in others the one it returns |
| SizingFacts.PairWidthFits | iverilog-master/elab_expr.cc:513-534 | No operand of a binary operator is sized wider than the result |
| SizingFacts.MinWidthFixed | iverilog-master/elab_expr.cc:513-539 | The minimum width is a function of the tree that no mode or retest changes |
| WidthsFit.ShiftClipExact | iverilog-master/elab_expr.cc:1055-1142 | A shift tree is sized below its left operand exactly when a lossless expansion for a variable amount is cut back to a smaller integer width |
| WidthsFit.LongLiteralIsClipped | iverilog-master/elab_expr.cc:1055-1142 | Every unsized literal longer than an integer, shifted left by a net, is sized at the integer width |
| WidthsFit.ClippedLiteralLosesBits | iverilog-master/elab_expr.cc:1055-1142 | The shift then evaluates without the upper bits of the literal, even when the amount is 0 |
| WidthsFit.SizingFits | iverilog-master/elab_expr.cc:468-561 | Away from clipped shifts and capped conditions, any width from the calculated one on is at least as wide as every leaf it reaches |
| WidthsFit.PairFits | iverilog-master/elab_expr.cc:473-489 | The same for a pair of operands with its retest |
| LosslessWidths.WidthsAreExact | iverilog-master/elab_expr.cc:508-561 | Sized in EXPAND mode or above, a tree of + - * & and or xor min max ~ ?: over signed leaves (or the same without - and ~ over unsigned ones) gets a width that holds its unbounded value, and evaluating every node modulo any width from there on gives exactly that value |
| LosslessWidths.BinaryIsExact | iverilog-master/elab_expr.cc:513-534 | One operator: operands exact at their widths give a result exact at the grown width |
| LosslessWidths.TernaryIsExact | iverilog-master/elab_expr.cc:7101-7125 | A conditional of exact clauses is exact at the larger of their widths |
| LosslessWidths.PairIsExact | iverilog-master/elab_expr.cc:473-489 | Both operands are exact at the widths they end up with, retested or not |
| LosslessWidths.LosslessElaboration | iverilog-master/PExpr.h:99-113 | The elaborated net expression, at the lossless width or wider, evaluates to the unbounded value in every environment of defined operands |
| LosslessWidths.LosslessComparison | iverilog-master/elab_expr.cc:801-840 | A comparison, with any of the eight operators, whose operands end in a lossless mode compares them as unbounded integers |
| LosslessWidths.NegationExact | iverilog-master/elab_expr.cc:7300-7346 | Unary minus, which keeps the width of its operand, is exact for every value of that width but the most negative one |
| Growth.GrowthIsTight | iverilog-master/elab_expr.cc:526-534 | The width that + - and * grow to is needed: for any smaller one there are values of the two nets whose result it does not hold, except for a product with an unsigned net of one bit |
| Growth.ShiftedWidth | iverilog-master/elab_expr.cc:1055-1142 | A lossless operand shifted left by a sized constant gets its lossless width and the amount |
| Growth.LeftShiftHolds | iverilog-master/elab_expr.cc:1160-1193 | At any width from there on the shift has the unbounded product |
| Growth.ShiftedByNet | iverilog-master/elab_expr.cc:1055-1142 | Shifted left by a net, it gets room for the largest amount the net can hold, or the integer width if that is less |
| Growth.NetShiftIsExact | iverilog-master/elab_expr.cc:1160-1193 | With that room the shift has the unbounded product for every amount in the net |
| Growth.LosslessAssignment | iverilog-master/netmisc.cc:836-884 | An assignment from a tree that ends in a lossless mode, within the width cap, stores the low bits of the unbounded value, pruned or not |
| ElabCorrect.ElabMeans | iverilog-master/elab_expr.cc:569-606 | For every tree, every width that fits the leaves and every sign the tree can take (SizingFacts.SignIsStandard), unless an unsized negative literal is extended in an unsigned context: the elaborated expression has that width and sign, and in every environment the value of the reference evaluator |
| ElabCorrect.ElabUnaryMeans | iverilog-master/elab_expr.cc:7349-7541 | Unary and reduction operators, whose operand is elaborated at the context width or by itself |
| ElabCorrect.ElabShiftMeans | iverilog-master/elab_expr.cc:1160-1193 | Shifts: the left operand takes the context, the amount is self-determined and unsigned, and the sign is that of the left operand (SizingFacts.SignIsStandard, ValueLaws.AshrIsFloor) |
| ElabCorrect.ConditionMeans | iverilog-master/elab_expr.cc:7161-7168 | The reduced, trimmed and evaluated condition of a conditional is one bit wide and as true, false or unknown as the reference value of the condition |
| ElabCorrect.MultFold | iverilog-master/elab_expr.cc:748-784 | Swapping constants to the right and the two multiply folds give the unfolded product for all operand vectors |
| ElabCorrect.ShiftFold | iverilog-master/elab_expr.cc:1229-1368 | The shift folds (zero operand, zero, undefined, over-wide and signed over-wide amount) give the unfolded shift for all operand vectors |
| ElabCorrect.UnaryFold | iverilog-master/elab_expr.cc:7349-7541 | Folding a constant operand of a unary operator gives the unfolded value |
| ElabCorrect.ReductionFold | iverilog-master/elab_expr.cc:7465-7515 | Reductions, and the fold of ! by counting bits, give the unfolded bit at the context width |
| ElabCorrect.NotByCountIsNot | iverilog-master/elab_expr.cc:7465-7515 | Counting ones and unknown bits decides ! as the operator does, for every vector |
| ElabCorrect.CompareFold | iverilog-master/elab_expr.cc:951-954 | A comparison padded to its context has the value of the comparison |
| ElabCorrect.BinaryFold | iverilog-master/elab_expr.cc:613-640 | Each binary operator's net expression has the operator's value |
| ElabCorrect.TernaryFold | iverilog-master/elab_expr.cc:7170-7211 | Keeping one clause of a conditional whose condition is the constant 1 or 0 gives the value of the conditional |
| ElabCorrect.TrimKeepsTruth | iverilog-master/netmisc.cc:928-933 | Trimming the repeated top bits of an unsized constant does not change whether it is true |
| ElabCorrect.ReducedCondition | iverilog-master/netmisc.cc:781-815 | Reducing a condition to one bit keeps whether it is true, false or unknown |
| ElabCorrect.LiteralExact | iverilog-master/elab_expr.cc:6945-6958 | A literal elaborates to its reference value exactly unless it is unsized, negative, and extended in an unsigned context |
| ValueLaws.AshrIsFloor | iverilog-master/elab_expr.cc:1160-1193 | Through sizing, elaboration and assignment, a net shifted by >>> stores the integer floor of its value over 2 to the amount, with the sign of the left net alone, signed amount or not |
| ValueLaws.ShrIsQuotient | iverilog-master/elab_expr.cc:1160-1193 | >> of an unsigned net stores the floor of its value over 2 to the amount |
| ValueLaws.ShlIsProduct | iverilog-master/elab_expr.cc:1160-1193 | << stores the product with a power of two |
| ValueLaws.ArithmeticOfNets | iverilog-master/elab_expr.cc:569-606 | + - and * of two nets store the low bits of the integer result, both read as signed exactly if both are |
| ValueLaws.ConditionalOfNets | iverilog-master/elab_expr.cc:7129-7245 | A conditional stores the value of the clause it takes, likewise |
| ValueLaws.ComparisonOfNets | iverilog-master/elab_expr.cc:786-871 | A comparison compares the integers, likewise |
| ValueLaws.SumWithComparison | iverilog-master/elab_expr.cc:951-954 | A sum with a comparison is unsigned: its signed operand is extended with 0 |
| ValueLaws.SumWithReduction | iverilog-master/elab_expr.cc:7349-7541 | So is a sum with a reduction |
| NetExprs.FoldKeepsValue | iverilog-master/eval_tree.cc:34-100 | Constant evaluation of a net expression, bottom up, keeps its value in every environment, unknown bits included; the regrouping of sums and the orderings decided from a range are the steps that are not an operator on constants |
| NetExprs.FoldCompIsRight | iverilog-master/eval_tree.cc:320-527 | A comparison with one constant operand that is unknown, or that the largest value of the other, 2-state side cannot pass, has the decided value in every environment |
| NetExprs.RegroupKeepsValue | iverilog-master/eval_tree.cc:149-193 | Joining the constants of nested additions and subtractions keeps the value, also when operands hold x or z |
| NetExprs.BoolIsDefined | iverilog-master/elab_expr.cc:762-776 | An expression of 2-state type never has an unknown bit, which the multiply folds rely on |
| Constants.FoldIsValue | iverilog-master/eval_tree.cc:34-100 | An expression without signals is folded all the way, to the constant it evaluates to |
| Constants.LiteralsFold | iverilog-master/elab_expr.cc:569-606 | A tree of literals elaborates to one constant, its reference value at the context width with the context sign |
| Verinums.AddBits | iverilog-master/verinum.cc:1061-1160 | The ripple-carry loop of + and -, inverting one operand for -, yields the sum or difference modulo the width |
| Verinums.Plus | iverilog-master/verinum.cc:1061-1108 | Adding constants of one length gives the operator on vectors, for either sign, unknown if an operand is |
| Verinums.Minus | iverilog-master/verinum.cc:1115-1160 | So does subtracting |
| Verinums.Negate | iverilog-master/verinum.cc:1165-1196 | So does unary minus |
| Verinums.Times | iverilog-master/verinum.cc:1207-1246 | Shift and add, accumulating in place, gives the product modulo the width, for either sign |
| Verinums.Before | iverilog-master/verinum.cc:886-985 | Comparing signs and then bits from the top decides < and <= of the integers, signed or unsigned |
| Verinums.EqEq | iverilog-master/eval_tree.cc:551-612 | The loop of == and != decides by a known difference, and otherwise by an unknown bit, as the operator does |
| Verinums.UnsignedDivide | iverilog-master/verinum.cc:1379-1416 | Long division of the significant bits gives the quotient of the unsigned values |
| Verinums.SignedDivide | iverilog-master/verinum.cc:1455-1531 | Dividing magnitudes and correcting the sign gives / on signed vectors, truncated toward zero, unknown for a zero divisor, and right for the most negative value |
| Pruning.PruningGuardExact | iverilog-master/elab_expr.cc:536-539 | The guard against pruning is right for a binary operator (low result bits depend on low operand bits only) exactly unless it is min or max |
| Pruning.UnaryGuardExact | iverilog-master/elab_expr.cc:7341-7345 | No unary operator has the guard, which is right exactly unless it is abs |
| Pruning.ShiftGuardExact | iverilog-master/elab_expr.cc:1145-1148 | The guard for shifts is exact: the low bits of the result depend on those of the operand for << only |
| Pruning.ReservedWidthAbsorbed | iverilog-master/elab_expr.cc:513-539 | The minimum width is the reserved UINT_MAX exactly when some / % >> or >>> lies where the context width reaches, whatever the other operators |
| Pruning.WidthsAgreeBelow | iverilog-master/PExpr.h:83-86 | For defined operands and a tree with none of / % >> >>> min max abs where the context reaches, evaluating at any two widths agrees on all shared low bits |
| Pruning.AssignmentStoresPruned | iverilog-master/netmisc.cc:836-884 | An assignment stores the low bits of the value at the pruned width |
| Pruning.AssignmentStoresFullValue | iverilog-master/netmisc.cc:836-884 | These are the low bits of the value at the full width, for defined operands and a tree without min, max and abs where the context reaches; AssignmentIsStandard and Growth.LosslessAssignment say what that width comes to |
| Pruning.CapExactly | iverilog-master/netmisc.cc:836-884 | Lossless modes, and no others, are held to the width cap, in conditions and in assignments from the width of the target on; pruning never goes below the target |
| Pruning.AssignmentIsStandard | iverilog-master/netmisc.cc:836-884 | For every tree without an unsized literal as long as an integer, an assignment stores the low bits of the reference value at the larger of the width of the target and the width in the table of section 5.4.1, with the sign of section 5.5.1; where that is wider than the target, for defined operands without min, max and abs |
| PruningBreaks.PruningBreaksMinMax | iverilog-master/elab_expr.cc:536-539 | A min and a max of a sum for which, at every integer width from 5 on, the pruned assignment stores other bits than the value at the full width has |
| PruningBreaks.PruningBreaksAbs | iverilog-master/elab_expr.cc:7341-7345 | The same for the abs of a signed sum |
| PruningBreaks.PruningBreaksUnknown | iverilog-master/netmisc.cc:836-884 | The same for a sum of a left shift whose operand has an unknown bit, without min, max or abs |
| ExprNodes.PExpr.TestWidth | iverilog-master/elab_expr.cc:468-561 | On any tree of nodes the method returns the width and mode of the sizing function and leaves its widths and signs in the nodes |
| ExprNodes.PExpr.TestOperands | iverilog-master/elab_expr.cc:473-489 | Sizing the right operand, then the left, then the right again if the mode became lossless, leaves both with the sizes of the pair |
| ExprNodes.PExpr.TestUnaryNode | iverilog-master/elab_expr.cc:7300-7346 | The same for unary nodes; a reduction sizes its operand again by itself |
| ExprNodes.PExpr.TestBinaryNode | iverilog-master/elab_expr.cc:468-561 | The same for binary nodes |
| ExprNodes.PExpr.TestCompNode | iverilog-master/elab_expr.cc:786-871 | The same for comparisons, which leave the mode alone and keep one operand width |
| ExprNodes.PExpr.TestShiftNode | iverilog-master/elab_expr.cc:995-1158 | The same for shifts, which elaborate their amount while they are being sized and have the sign of their left operand |
| ExprNodes.PExpr.TestTernaryNode | iverilog-master/elab_expr.cc:7068-7117 | The same for conditionals, true clause first |
| ExprNodes.PExpr.Elaborate | iverilog-master/elab_expr.cc:569-606 | Overwriting the signs of operands on the way down yields the net expression of the elaboration function, and leaves the stored widths alone |
| ExprNodes.PExpr.ElaborateComp | iverilog-master/elab_expr.cc:873-955 | The same for comparisons, where an unsigned operand makes the other unsigned |
| ExprNodes.PExpr.ElaborateShift | iverilog-master/elab_expr.cc:1160-1193 | The same for shifts |
| ExprNodes.PExpr.ElaborateTernary | iverilog-master/elab_expr.cc:7152-7245 | The same for conditionals, both clauses elaborated even when one is kept |
| ExprNodes.PExpr.ElaborateAsCondition | iverilog-master/elab_expr.cc:7161-7168 | A condition is sized, capped, elaborated and reduced as the function says |
| ExprNodes.PExpr.ElabAndEval | iverilog-master/netmisc.cc:817-935 | Sizing, pruning, capping and elaborating the right side of an assignment, whose stored bits AssignmentIsStandard gives |
| Netlists.ConstantNexus | iverilog-master/link_const.cc:32-270 | A nexus that counts as constantly driven holds its constant in every consistent valuation, with z read as 0 on a 2-state net |
| NetlistSteps.ConcatFoldExact | iverilog-master/cprop.cc:82-124 | The constant that replaces a concatenation drives the same bits, in every consistent valuation, exactly when no 2-state input floats |
| NetlistSteps.ConcatStep | iverilog-master/cprop.cc:82-124 | Then the value of every nexus stays the same function of the inputs |
| NetlistSteps.FloatingInputFolds | iverilog-master/cprop.cc:88-101 | A netlist for which folding a concatenation changes an observed value |
| NetlistSteps.MuxStep | iverilog-master/cprop.cc:152-193 | Replacing a two-way multiplexer with a known constant select by a buffer keeps the value of every nexus |
| NetlistSteps.FloatingConstStep | iverilog-master/cprop.cc:367-382 | Deleting a constant of z bits only keeps the value of every nexus |
| NetlistSteps.DanglingConstStep | iverilog-master/cprop.cc:384-442 | Deleting a constant whose nexus no node reads changes no other nexus |
| Blending.ChecksMeanDisjoint | iverilog-master/cprop.cc:265-293 | On a sorted list, the adjacent overlap check holds exactly when all parts are pairwise disjoint; with the tail check all are in range |
| Blending.ChecksMeanStacked | iverilog-master/cprop.cc:268-293 | The two checks make the parts a stack within the target |
| Blending.PiecesCoverTarget | iverilog-master/cprop.cc:295-308 | The part widths and the gaps between them add up to the target width |
| Blending.CoverIsResolution | iverilog-master/cprop.cc:200-211 | Resolving the original part selects, in any order, gives at each bit the bit of the one part that covers it |
| Blending.PiecesSpellCover | iverilog-master/cprop.cc:316-338 | The pins of the concatenation spell the target bit by bit: covering part or fill value |
| BlendStep.BlendedNexus | iverilog-master/cprop.cc:222-346 | Each bit of the blended nexus resolves as the original part selects did, an uncovered one to z, or to 0 on a 2-state net, unless the nexus is a 2-state port with a gap |
| BlendStep.BlendExact | iverilog-master/cprop.cc:211-346 | Blending keeps every bit of its target, whatever the nets and the outside hold, exactly unless the target is 2-state, driven from outside, and has a bit that no part select drives |
| BlendStep.PortGapFolds | iverilog-master/cprop.cc:318-338 | A netlist with such a port, for which blending changes an observed value |
| BlendStep.BlendingKeepsMeaning | iverilog-master/cprop.cc:211-346 | Unless its target is such a port, blending keeps the value of every old nexus as a function of the inputs |
| PartSelects.CheckedMeansBlendable | iverilog-master/cprop.cc:222-293 | On the sorted drivers of a nexus the checks pass exactly when they are part selects, disjoint and in range |
| PartSelects.CheckParts | iverilog-master/cprop.cc:268-293 | The loop over neighbours and the tail test decide exactly those checks |
| PartSelects.CountPins | iverilog-master/cprop.cc:295-308 | The counting pass yields the number of pins the filling pass makes |
| GroundedNets.GroundedFloatFree | iverilog-master/cprop.cc:88-101 | If some set of nexuses grounds itself (each has a driver that never becomes constant, or a z-free constant, or a full concatenation of nexuses of the set, or part selects of such that leave no gap unless it is filled with 0) and has every 2-state net that is read, no concatenation that can be folded has a floating 2-state input |
| GroundedNets.ConcatKeepsGrounded | iverilog-master/cprop.cc:82-124 | Folding a concatenation keeps such a set: its constant has no z |
| GroundedNets.MuxKeepsGrounded | iverilog-master/cprop.cc:152-193 | So does replacing a multiplexer by a buffer |
| GroundedNets.BlendKeepsGrounded | iverilog-master/cprop.cc:252-346 | So does blending, whose zero constants join the set, and its target is no 2-state port with a gap |
| GroundedNets.SafeNeverFloats | iverilog-master/cprop.cc:88-101 | There is such a set if each 2-state net that is read has a driver that is steady by itself and part selects drive no 2-state port |
| GroundedNets.FoldedTwiceNeverFloats | iverilog-master/cprop.cc:82-124 | A netlist that has such a set though its one 2-state driver is a concatenation of constants |
| CpropSteps.ConcatImproves | iverilog-master/cprop.cc:121-123 | The concatenation fold keeps the meaning if no 2-state input floats, which never happens if the netlist is grounded; it stays grounded, and the measure drops by one |
| CpropSteps.MuxImproves | iverilog-master/cprop.cc:190-192 | The multiplexer rewrite keeps the meaning without a condition, keeps the netlist grounded, and lowers the measure by one |
| CpropSteps.BlendImproves | iverilog-master/cprop.cc:310-345 | Blending keeps the meaning unless its target is a 2-state port with a gap, keeps the netlist grounded, and lowers the measure by twice the number of part selects less one |
| CpropRuns.RunRefines | iverilog-master/cprop.cc:445-457 | Any chain of rewrites keeps every old nexus as the same function of the inputs if each rewrite is harmless (no floating 2-state input, no gap filled in a 2-state port), as all are in a grounded netlist |
| CpropRuns.RunLowers | iverilog-master/cprop.cc:445-457 | A chain of rewrites is no longer than the measure of the netlist it starts from |
| CpropEnds.RewritableExactly | iverilog-master/cprop.cc:82-346 | A visit rewrites a node exactly if it is a two-way multiplexer whose one-bit select is driven by a constant 0 or 1 alone, a concatenation of nets that nothing or one constant drives, or a part select whose target has only part selects for drivers (more than one, unless it is 2-state), with no bit covered twice and none beyond the end |
| Cprop.Netlist.DriversConstant | iverilog-master/link_const.cc:32-137 | Walking the links of a nexus decides whether at most one constant drives it |
| Cprop.Netlist.DrivenVector | iverilog-master/link_const.cc:210-270 | The walk finds the constant, or z for an undriven nexus |
| Cprop.Netlist.SpliceConstants | iverilog-master/cprop.cc:88-101 | The loop over the inputs gives up on a driver that is not constant, and otherwise splices all constants in order over z |
| Cprop.Netlist.LpmConcat | iverilog-master/cprop.cc:82-124 | The netlist after a visit: one constant in place of a concatenation that can be folded, else no change |
| Cprop.Netlist.PickInput | iverilog-master/cprop.cc:152-193 | A constant known select of a two-way multiplexer is recognised exactly, with the input it picks |
| Cprop.Netlist.LpmMux | iverilog-master/cprop.cc:152-193 | One buffer in place of a multiplexer that can be folded, else no change |
| Cprop.Netlist.SortByBase | iverilog-master/cprop.cc:265-266 | The drivers in order of their base, none lost or repeated |
| Cprop.Netlist.SortedParts | iverilog-master/cprop.cc:222-293 | Collecting, sorting and checking succeeds exactly when the nexus can be blended |
| Cprop.Netlist.FillPins | iverilog-master/cprop.cc:316-338 | The filling pass makes one pin for each piece, a new constant for each gap, and touches nothing else |
| Cprop.Netlist.Blend | iverilog-master/cprop.cc:295-345 | The part selects are gone, the concatenation and its gap constants are there, and nothing else changed |
| Cprop.Netlist.LpmPartSelect | iverilog-master/cprop.cc:211-346 | A visit blends exactly when the target can be blended, and otherwise changes nothing |
| Cprop.Netlist.Visit | iverilog-master/cprop.cc:445-457 | A visit makes one rewrite, which is counted, exactly when the node could be rewritten, and otherwise changes nothing |
| Cprop.Netlist.Scan | iverilog-master/cprop.cc:449-457 | One scan in any order is a chain of as many rewrites as it counts; a count of 0 means that nothing can be rewritten |
| Cprop.Netlist.Propagate | iverilog-master/cprop.cc:445-457 | The loop on the count stops, with nothing left to rewrite, after a chain of rewrites |
| Cprop.Netlist.LpmConst | iverilog-master/cprop.cc:365-442 | A constant goes exactly when it is all z, or nothing reads or observes its nexus |
| Cprop.Netlist.RemoveDangling | iverilog-master/cprop.cc:459-463 | The second functor deletes constants only, all the useless ones, and keeps every nexus that is observed or read |
| Cprop.UselessExactly | iverilog-master/cprop.cc:365-442 | A constant stays exactly if it has a bit that is not z, and its nexus is observed or some node reads it |
| Cprop.Netlist.Run | iverilog-master/cprop.cc:445-468 | A full run: if each rewrite it made was harmless, and so whenever the netlist was grounded before the run, every old nexus that is observed, or that a remaining node reads, keeps its value as a function of the inputs; after the last rewrite none of the nodes of RewritableExactly is left, then only constants are deleted, and each constant that stays has a bit that is not z and is observed or read |
| Selects.ReadUpIsBitSelects | iverilog-master/elab_expr.cc:6000-6074 | A +: read equals the concatenated single-bit selects, in both directions and out of range |
| Selects.ReadDoExact | iverilog-master/elab_expr.cc:6168-6240 | So does a -: read, for all vectors, exactly unless the whole-vector shortcut fires for a select that is mostly off the vector, or a wider select lies near the bit of a one-bit vector |
| Selects.ReadRangeIsBitSelects | iverilog-master/elab_expr.cc:5891-5960 | A read [m:l] is an error exactly when it is against the declared direction, and otherwise the concatenated bit selects |
| Selects.ReadBitIsBit | iverilog-master/elab_expr.cc:6435-6480 | A bit select reads the bit, or x off the vector |
| Selects.PositionsExactly | iverilog-master/netlist.cc:776-790 | Positions count from the right end of the declared range to its left end, one for each declared index and none for any other |
| Selects.IndicesExactly | iverilog-master/elab_expr.cc:6000-6074 | The reference +: and -: name the indices from b up and from b down, each once, the one nearer the left end more significant |
| Selects.PlaceableExactly | iverilog-master/elab_expr.cc:6005-6023 | A base selects a place unless it is undefined, or unsigned and above the largest 32-bit integer |
| Selects.UnplacedReadsX | iverilog-master/elab_expr.cc:6000-6023 | And a read that selects none is x in every bit |
| SelectWrites.ElaborateLvalNetIdx | iverilog-master/elab_lval.cc:903-1054 | The method refuses exactly wrapped bases and leaves the part of the target function in the l-value |
| SelectWrites.ElaborateLvalNetPart | iverilog-master/elab_lval.cc:745-852 | A procedural [m:l] is refused exactly when a read is out of order, and otherwise leaves the part of the target function in the l-value |
| SelectWrites.RangeWriteExact | iverilog-master/elab_lval.cc:745-852 | A write [m:l] in the declared order stores each bit where the bit selects from l to m point and no other, in and out of range, for all variables and values |
| SelectWrites.RangeReadAfterWrite | iverilog-master/elab_expr.cc:5891-5960 | In range, a read [m:l] returns what a procedural write [m:l] stored, and a continuous one at its canonical ends stores the same |
| SelectWrites.IdxWriteExact | iverilog-master/elab_lval.cc:966-989 | A procedural indexed write stores each bit where the bit selects point and no other, for all variables and values, exactly unless it is a -: near the bit of a one-bit vector |
| SelectWrites.EvalIndexedPart | iverilog-master/elab_net.cc:243-384 | The continuous calculation, swapped into order, yields the range of the bit selects, and skips exactly undefined, wrapped and wholly outside ones |
| SelectWrites.EvalPart | iverilog-master/elab_net.cc:386-461 | A continuous [m:l] yields the canonical ends of l and m in order, swapped with one error exactly when they are reversed |
| SelectWrites.ReadAfterWrite | iverilog-master/elab_expr.cc:6056-6062 | For an in-range select the three calculations give one range, and a read returns what was written |
| SelectWrites.ReadElsewhere | iverilog-master/elab_lval.cc:966-989 | A write does not show in a select of other bits |
| ParamSelects.PartSelectBits | iverilog-master/elab_expr.cc:5132-5157 | The loop fills each bit from the value, its extension, or x |
| ParamSelects.ParamPart | iverilog-master/elab_expr.cc:5292-5349 | [m:l] of a parameter fails exactly against its direction, and otherwise spells the bit selects from l to m |
| ParamSelects.ParamIdxUp | iverilog-master/elab_expr.cc:5418-5461 | [b+:w] spells the single-bit selects, in or out of range, sized or unsized, for either direction |
| ParamSelects.ParamIdxDo | iverilog-master/elab_expr.cc:5506-5550 | [b-:w] likewise |
| ParamSelects.ParamBitExactly | iverilog-master/elab_expr.cc:5215-5246 | A bit of a parameter is that of its value, extended for ever to the left if it has no length, and otherwise x |
| ParamSelects.SizedReadsLikeNet | iverilog-master/elab_expr.cc:5215-5246 | Selects of a sized parameter equal those of a net with the same range and value |
| LValues.ElaborateLval | iverilog-master/elab_lval.cc:104-158 | The linked list holds exactly the leaves that elaborate to something packed, least significant first, and the errors are counted |
| LValues.ElaborateConcat | iverilog-master/elab_lval.cc:104-158 | The same for a concatenation: operands that fail or are not packed are counted and skipped |
| LValues.LinkAfter | iverilog-master/elab_lval.cc:149-155 | Walking to the end of the new list and linking the old one there joins the two, and changes no other link |
| LValues.AssignParts | iverilog-master/synth2.cc:324-348 | Giving each l-value of the list the next bits cuts the value into slices that rebuild it |
| LValues.CountLvalWidth | iverilog-master/net_assign.cc:35-43 | Walking the list adds up the widths of the leaves |
| LValues.CutIsSlice | iverilog-master/elab_lval.cc:94-103 | There is one way to cut a value: leaf k has the bits above those of all less significant leaves |
| LNets.ElaborateLnet | iverilog-master/elab_net.cc:45-171 | Whenever the part selects are obeyed, the leaves cut the value of the returned net in the order of the tree, which nothing else drives; each leaf is driven once for each time it is named; it fails exactly when errors are counted |
| LNets.ElaborateOperands | iverilog-master/elab_net.cc:63-108 | The operand nets, their total width and the errors |
| LNets.Slice | iverilog-master/elab_net.cc:152-167 | Counting the width down to 0 hands each operand its slice, all within the temporary net |
| LNets.SameTreesFail | iverilog-master/elab_net.cc:74-108 | The two kinds of target count errors for the same trees |
| LNets.SplittersAgree | iverilog-master/elab_net.cc:64-171 | Whatever value the target takes, each leaf gets from the part selects the slice that the linked list assigns it |
| Targets.AssignedReadsBack | iverilog-master/elab_lval.cc:94-158 | Procedural: when each leaf holds the slice that it is given, the target read as an expression, its first operand most significant, has the value assigned |
| Targets.DrivenReadsBack | iverilog-master/elab_net.cc:45-171 | Continuous: wherever the part selects are obeyed, the target reads as the value of its net |
| Targets.TakesAnyValue | iverilog-master/elab_net.cc:45-171 | The part selects never contradict each other: if the target names no signal twice, every value of its net can be obeyed |
| Targets.ErrorsExactly | iverilog-master/elab_lval.cc:104-158 | No error is counted exactly if every operand, at any depth, elaborates and is packed, none is missing and no concatenation is repeated; an identifier alone may be unpacked |
| TypeRuns.CircularExactly | iverilog-master/elab_type.cc:42-68 | From an empty cache a circularity error is counted exactly when a cycle is reachable, and then some type on it is cached as an integer |
| TypeRuns.AcyclicIsUncached | iverilog-master/elab_type.cc:42-68 | Without a reachable cycle the result is that of the recursion without a cache, and each finished type's errors are counted once; TypeFaults says which errors these are |
| TypeFaults.FaultsExactly | iverilog-master/elab_type.cc:139-272 | Without a reachable cycle, exactly the types that can be reached are elaborated, each once, and the errors are those that their definitions show: a packed array over a real, string, unpacked array or unpacked structure; an enumeration over anything but a vector or packed array, or over more than one packed dimension; each default value and each unpacked member of a packed structure; an undefined name; and a name forward declared as another kind |
| TypeFaults.CleanExactly | iverilog-master/elab_type.cc:42-272 | No error is counted exactly when no cycle can be reached and no reachable type has a fault |
| TypeFaults.ResultsExactly | iverilog-master/elab_type.cc:139-272 | Without a reachable cycle, every reachable type is cached with what its definition says of the types it names, a structure with one member for each name declared, in order |
| TypeRuns.RawRunsOnce | iverilog-master/elab_type.cc:42-68 | However types depend on each other, the raw elaboration of each runs at most once |
| TypeRuns.ElabCircular | iverilog-master/elab_type.cc:53-59 | In any state, a new circularity error comes with a chain of definitions that comes back to a type on it, which is cached as an integer from then on |
| TypeRuns.ElabClean | iverilog-master/elab_type.cc:42-68 | A call without circularity leaves in the cache, for every finished type, what it comes to from its cached operands |
| TypeRuns.ElabOnce | iverilog-master/elab_type.cc:42-68 | In any state, a call starts no raw elaboration that has started before |
| TypeElab.Elab | iverilog-master/elab_type.cc:42-68 | A call terminates, caches its type, keeps what was cached and restores the flags |
| Types.CacheIsUncached | iverilog-master/elab_type.cc:42-68 | A cache in finish order holds the results of the uncached recursion below any set of unfinished types |
| Types.NoCycleFromOrder | iverilog-master/elab_type.cc:53-64 | From a type that finished after all its operands no cycle can be reached |
| Elaborators.Elaborator.ElaborateType | iverilog-master/elab_type.cc:42-68 | The method, with its flags, cache and counter updated in place, makes exactly the step of the state function |
| Elaborators.Elaborator.ElaborateRaw | iverilog-master/elab_type.cc:139-272 | So does raw elaboration of each kind of type |
| Elaborators.Elaborator.ElaborateMembers | iverilog-master/elab_type.cc:217-263 | So does the loop over the members of a structure |
| Elaborators.Elaborator.Enumeration | iverilog-master/elab_type.cc:139-167 | So does an enumeration, with the checks on its base type |
| Elaborators.Elaborator.PackedArray | iverilog-master/elab_type.cc:199-215 | So does a packed array; TypeFaults.FaultsExactly says that its error is for a base that is not packed |
| Elaborators.Elaborator.UnpackedArray | iverilog-master/elab_type.cc:401-406 | So does an unpacked array |
| Elaborators.Elaborator.Reference | iverilog-master/elab_type.cc:408-467 | So does a type reference, through its typedef and the check of the forward declaration |
| Elaborators.AppendNames | iverilog-master/elab_type.cc:243-259 | The inner loop appends one member for each name and counts defaults and unpacked members in packed structures |
| ScopeTrees.Design.MayInstantiate | iverilog-master/elab_scope.cc:1421-1464 | The scan outwards accepts exactly if a generate block comes before the first scope of the module and at most the limit of them are above |
| ScopeTrees.Design.InstantiateModule | iverilog-master/elab_scope.cc:1406-1488 | An instance is refused with one error, queued if it is an array, or made at once |
| ScopeTrees.Design.AddInstances | iverilog-master/elab_scope.cc:1494-1616 | One child scope for each instance; a check made before the delay still holds |
| ScopeTrees.Design.Run | iverilog-master/elab_scope.cc:1375-1488 | Any run is a sequence of the steps of Take, and after it every path has at most limit + 1 scopes of each module, with a generate block between any two; RunConserves says which scopes there are |
| ScopeTrees.Design.Take | iverilog-master/elab_scope.cc:1406-1539 | The whole effect of each step: a root, another scope or a plain instance that may nest is one new scope, an array is queued, the oldest queued array becomes one scope for each instance, and a refused instance is one error |
| ScopeTrees.RunConserves | iverilog-master/elab_scope.cc:1406-1539 | Over any run, and for each module and parent, the scopes at the end, those still queued and those refused are as many as those at the start, those queued then and those asked for |
| ScopeTrees.MayNestExactly | iverilog-master/elab_scope.cc:1424-1464 | On the scopes themselves: an instance may nest exactly if at most the limit of the scopes around it are of its module and each has a generate block further in |
| ScopeTrees.PathBound | iverilog-master/elab_scope.cc:1421-1464 | So no path has more than (number of modules) * (limit + 1) module scopes |
| ScopeTrees.PathSeparated | iverilog-master/elab_scope.cc:1424-1439 | Where every module scope may nest, generate blocks separate the scopes of a module |
| ScopeTrees.PathCount | iverilog-master/elab_scope.cc:1438-1456 | And each module occurs at most limit + 1 times on a path |
| GenerateLoops.GenerateLoop | iverilog-master/elab_scope.cc:984-1121 | It succeeds exactly if the chain from the initial value through the step ends, by a value that fails the test, after at most 500000 distinct new values, each passing it; and then the scopes made are those values. The scopes made always have distinct new names |
| Enums.Enumeration.Elaborate | iverilog-master/elab_scope.cc:182-376 | No error is counted exactly if some list of values is good: names new and distinct, values distinct, each explicit one acceptable and each implicit one the successor of a defined value before that is not the largest; and then each name is inserted with its value from that list |
| Enums.Enumeration.Insert | iverilog-master/elab_scope.cc:347-365 | A value or a name that is taken counts an error, and only then |
| Enums.ImplicitIsSuccessor | iverilog-master/elab_scope.cc:367-372 | An implicit value is the integer successor of the one before, unless the enumeration is one signed bit |
| Enums.OverflowTestExact | iverilog-master/elab_scope.cc:199-210 | The overflow test is right for every value exactly unless the enumeration is one signed bit |
| Enums.FitValue | iverilog-master/elab_scope.cc:235-329 | An explicit value gives no error exactly if it is acceptable: of the enumeration's width, unless negative without a length for an unsigned enumeration; of another width, if it is in range, or undefined with cut bits that repeat the one kept; never undefined for a 2-state enumeration nor a literal of another length. It then keeps its integer value |
| Enums.UpperBitsMatch | iverilog-master/elab_scope.cc:274-310 | The loop over the bits to be cut off decides whether they all repeat the bit kept, or are all 0 for an unsigned enumeration |
| Enums.SameWidthExact | iverilog-master/elab_scope.cc:255-329 | A value as wide as the enumeration keeps its integer value exactly when the signs agree or its top bit is 0 |
| Enums.ValueOf | iverilog-master/elab_scope.cc:214-345 | An entry gives no error exactly if its explicit value is acceptable, or the next value is defined and has not wrapped; it then has the fitted or the next value |
| Enums.PlainExactly | iverilog-master/elab_scope.cc:182-376 | New and distinct names without values are good exactly as long as there are values from 0 on for all of them, if the enumeration is not one signed bit |
| Enums.GoodUnique | iverilog-master/elab_scope.cc:214-372 | There is at most one good list of values |
| Constructors.Block.ExtractChain | iverilog-master/Statement.cc:126-139 | The super call is taken out if it is first, and the others move up |
| Constructors.Block.PushFront | iverilog-master/Statement.cc:153-162 | The statement becomes the first, and the others keep their order |
| Constructors.Function.ExtractChain | iverilog-master/PFunction.cc:74-87 | The same for a constructor, whose statement may be the super call itself |
| Constructors.Function.PushFront | iverilog-master/PFunction.cc:45-67 | The same for a constructor, wrapping a single statement in a block |
| Constructors.BlendExplicit | iverilog-master/elab_scope.cc:430-475 | The statements become the super call, the statement of the implicit constructor, and the other explicit ones in order |
| Constructors.Class.BlendConstructors | iverilog-master/elab_scope.cc:404-476 | For every mix of constructors: which function remains, and its statements in order |
| Constructors.OneSuperCallFirst | iverilog-master/elab_scope.cc:430-475 | The merged constructor has its super call first and no other, if the explicit one has none later |
| Constructors.MergedOrder | iverilog-master/elab_scope.cc:430-475 | A constructor that calls its parent itself keeps that call and its arguments, else the arguments declared for the parent are passed, and without a parent there is no call; initialisers and body follow |

## Left out

- Power (`**`), the logical operators && and ||, the wildcard comparisons, increments, concatenation and replication as operands, and casts; real, string, class, queue and dynamic array operands.
- ElabCorrect.ElabMeans: does not model the special literals 'x and 'z of one repeated digit.
- NetExprs.FoldKeepsValue: takes the value of an operator on constant operands as the operator itself; the arithmetic behind + - * / < <= == != is proved separately in Verinums for constants of one length, that of bitwise operators, reductions, shifts, % and the division in a `long` is not modelled.
- Pruning.AssignmentStoresFullValue: is stated for defined operands where pruning applies, because a wider left shift can keep an x that a later addition spreads (PruningBreaks.PruningBreaksUnknown).
- LosslessWidths.WidthsAreExact: does not cover unary minus, division, shifts and power, which do not grow enough; NegationExact says when minus is exact all the same.
- Integers are unbounded; widths stay below the reserved value UINT_MAX, a `long` holds 64 bits where a shift amount is clipped, and the product of widths is not wrapped.
- Cprop.Netlist.Run: the condition on the netlist before the run (GroundedNets.NeverFloats) suffices for every rewrite to be harmless and is not shown necessary; for a single rewrite the exact conditions are ConcatFoldExact and BlendExact, and MuxStep needs none.
- Supply and pull nets, `tran` switches, drive strengths, delays, `NetSubstitute`, the cached guess of a nexus and its invalidation, the removal of flip-flops, and whether nodes added during a scan are visited in that scan.
- Selects of more than one dimension, struct members, words of arrays and variable bases; the trimming of continuous ranges that are partly outside the net; the conflict check with other drivers of the same variable.
- A base of `long` width; only its low 32 bits decide whether an unsigned base has wrapped.
- Modes.ModeExactly: says nothing of a tree sized from SIZED mode in which the context reaches a shift, whose mode then depends on where the shift stands.
- Growth.GrowthIsTight: is about two different nets as operands, and for - about signed ones, since only those differences are unbounded integers of one sign.
- LNets.ElaborateLnet: models the part selects of an l-value; the bidirectional variant, which makes `tran` nodes at the same offsets, is not modelled.
- Targets.TakesAnyValue: says nothing of a target that names a signal twice, whose two part selects then drive one net.
- Types: the scope of each type is fixed, dimensions are counted but not evaluated, and unions, dynamic arrays, queues, classes and type parameters are not modelled.
- Scopes: parameters, defparams, named overrides, conditional and case generate schemes, and instance names; the steps of a run stand for whatever the elaborator does next.
- Enumerations: names that stand for several names, and the strings stored for each value.
- Constructors: a constructor without a statement onto which something must be pushed, or with a parallel block as its body, is refused by the source with an assertion and by a precondition here.
- Diagnostics, line numbers, debugging output and memory ownership; only error counts remain.
- `39040cpu/gen_roms.py`, `fsm_player/gen_roms.py` and the scripts that package releases.
