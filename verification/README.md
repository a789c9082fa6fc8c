# Galerina compiler: verified models

This project models the parts of the Galerina compiler package whose correctness is not visible from one
function body, and proves what the package promises of them. Each module models one piece:

- **Bytecode compiler and VM** (`bytecode-vm.ts`, `i32-arith.ts`). `FlowSemantics` is the reference: a cap-free
  big-step semantics over one flat environment, `&&` and `||` evaluating both sides, and a budgeted interpreter
  that decides it. `BytecodeCompiler` is the compiler, a class that pushes cells, allocates slots and patches
  jumps; `BytecodeVM` is the loop over typed arrays, with what JavaScript does outside their bounds;
  `StackMachine` is the same machine with a fault instead. `StackNeed` says how many operand cells an evaluation takes;
  `CompilerCorrectness`, `CompiledFlows`, `CodeShape`, `OperandStack`, `FlowAdmission` and `FlowForms` hold the
  theorems.
- **Decimal arithmetic** (`decimal-arith.ts`). `Rounding` states the seven modes on reals by distance and
  direction, after the rounding-direction attributes of section 4.3 of IEEE 754-2008; `DecimalText`,
  `DecimalArith` and `DecimalDivision` work on the strings that the program takes and answers. `DecimalSpelling` and
  `DecimalAnswers` say what each text means and how each answer is spelled, character by character, with
  `CharacterClasses` and `TextForms`.
- **Graph traversals** (`effect-checker.ts`, `flow-dependency-analysis.ts`), against paths in `CallGraph`;
  `DependencyForms` tells the same from the declarations.
- **Source rewriting** (`fix-edit.ts`, `flow-dependency-analysis.ts`): `FixEdits` with `EditSubstitution`, and
  `GeneratedComments`, each against a single left-to-right pass. `FixAcceptance` says which edits are applied,
  `FlowLines` and `CommentForms` what declarations and generated lines look like.
- **Alias carry** (`governance-verifier.ts`): `AliasCarry` holds the two passes. `AliasFlow` measures their report
  against the runs of a body, tracking where each value came from, exactly; `AliasRuns` and `AliasReports` say which
  runs are always accounted for, `AliasGaps` has two bodies that are not. `AliasBinds` and `AliasNames` say which names
  are reported, from the places in the tree.
- **Lexer** (`lexer.ts`): `Lexemes` says which token stands at an offset, `Lexer` is the scan loop,
  `LexerProperties` what holds of the tokens of every text; `StringForms`, `LexemeForms` and `ScanForms` write the form
  of each token out in characters.
- **Governance diff, suite digest, leak witness** (`governance-diff.ts`, `leak-proof.ts`): `GovernanceDiff`,
  `SuiteDigest` with `SuiteIdentity`, `LeakWitness`; `ChangeClasses` and `WitnessForms` say the same without their
  functions.

Where the program updates state in place, the model is a class or a method with a loop, proved equal to a
function; the theorems are about that function.

## What the code does not do

Each of these is proved; where there is an exact condition under which the code is right, the lemma states it:

- The operand stack has 256 cells and is not checked: exactly the runs that come to an evaluation of more leave it
  (`CompiledFlows.FaultsIffOverflows`), and a right-nested sum of that kind is answered wrongly, without a trap
  (`OperandStack.DeepSumsGoWrong`).
- Arguments beyond the parameters land in the slots of local variables and give them an initial value
  (`FlowAdmission.SurplusArgumentsVisible`).
- A flow name declared twice keeps the edges of its last declaration only, although the comments at
  flow-dependency-analysis.ts:92 and 103-105 say they are united (`FlowDependencies.LastDeclWins`); a flow that only
  an earlier declaration calls is then called safe to delete (`FlowDependencies.SafeToDeleteIsTrueIff`).
- An accepted insertion listed before an accepted replacement at the same column is swallowed by it for some texts,
  and only then (`EditSubstitution.SubstitutesIff`).
- The alias pass misses returned values (`AliasFlow.ReportIsCompleteIff` says exactly which), among them some that
  travel backwards through a loop (`AliasGaps.LoopLaunders`) and parameters that a branch rebinds
  (`AliasGaps.ReboundParameterIsMissed`).
- A quote that opens a character literal as the last character of the text gives a token and an end of file one past
  the text (`LexerProperties.TokensStayInside`).
- Non-widening steps do not compose when a flow is dropped and brought back (`GovernanceDiff.NonWideningComposes`).
- The text under the suite digest identifies a suite among all suites if and only if the suite has no obligation, or
  exactly one without a NUL (`SuiteIdentity.IdentifiedIff`); suites whose ids hold no NUL and whose assertions hold no
  line break are told apart from each other (`SuiteIdentity.SamePreImageIffSameObligations`).

## Model

| member | source | states |
|---|---|---|
| Int32Arith.MulIsExact | packages-galerina/galerina-core-compiler/src/i32-arith.ts:49-59 | checked multiplication, fast path included, is the exact product or an overflow trap, for all 32-bit operands |
| Int32Arith.DivIsExact | packages-galerina/galerina-core-compiler/src/i32-arith.ts:61-65 | checked division truncates toward zero and traps on a zero divisor or when the quotient leaves 32 bits, and only then |
| Int32Arith.ModIsExact | packages-galerina/galerina-core-compiler/src/i32-arith.ts:67-70 | checked remainder has the sign of the dividend, traps on a zero divisor only, and never overflows |
| BytecodeCompiler.Compiler.SlotFor | packages-galerina/galerina-core-compiler/src/bytecode-vm.ts:85-92 | a name keeps its slot; a new name gets the next one |
| BytecodeCompiler.Compiler.EmitExpr | packages-galerina/galerina-core-compiler/src/bytecode-vm.ts:225-288 | pushes exactly the code of the expression, or fails exactly where the source throws |
| BytecodeCompiler.Compiler.EmitIf | packages-galerina/galerina-core-compiler/src/bytecode-vm.ts:169-194 | after both patches the code is the finished if layout, whatever its branches emit |
| BytecodeCompiler.Compiler.EmitElse | packages-galerina/galerina-core-compiler/src/bytecode-vm.ts:180-188 | the two placeholders are patched to the start of the else branch and to the end |
| BytecodeCompiler.Compiler.EmitWhile | packages-galerina/galerina-core-compiler/src/bytecode-vm.ts:196-209 | the exit jump is patched behind the backward jump to the condition |
| BytecodeCompiler.Compiler.EmitStmt | packages-galerina/galerina-core-compiler/src/bytecode-vm.ts:140-218 | appends exactly the code of the statement and extends the slot table as the specification does |
| BytecodeCompiler.Compiler.Compile | packages-galerina/galerina-core-compiler/src/bytecode-vm.ts:94-132 | the backpatching compiler produces the program of the compositional specification, or fails together with it |
| FlowSemantics.ExecSound | packages-galerina/galerina-core-compiler/src/bytecode-vm.ts:134-209 | the budgeted interpreter only finishes with an ending the cap-free big-step semantics has, after as many completed loop bodies as it paid for |
| FlowSemantics.ExecComplete | packages-galerina/galerina-core-compiler/src/bytecode-vm.ts:134-209 | every run of the cap-free semantics is found once the budget covers its loop bodies, and is exhausted before |
| FlowSemantics.ExecDecidesBigStep | packages-galerina/galerina-core-compiler/src/bytecode-vm.ts:322-329 | it finishes exactly with the runs that fit the budget and is exhausted exactly when the semantics has none that short |
| StackMachine.StepProgress | packages-galerina/galerina-core-compiler/src/bytecode-vm.ts:331-377 | every step uses up a back edge or moves forward in the code |
| StackNeed.CutMeaning | packages-galerina/galerina-core-compiler/src/bytecode-vm.ts:225-271 | on so many free cells an evaluation that takes no more has its value, one that takes more gets stuck |
| StackNeed.CutRuns | packages-galerina/galerina-core-compiler/src/bytecode-vm.ts:140-271 | the cut body gets stuck exactly on the runs that come to an evaluation of more cells than there are, and else runs like the body |
| CompilerCorrectness.ExprRuns | packages-galerina/galerina-core-compiler/src/bytecode-vm.ts:225-271 | compiled expression code pushes one cell with the value of the expression and leaves what is below untouched, or traps alike, or faults exactly where the free cells do not suffice |
| CompilerCorrectness.StmtRuns | packages-galerina/galerina-core-compiler/src/bytecode-vm.ts:140-218 | simulation for statements: from an empty stack to an empty stack at the end of the code, counting back edges as completed loop bodies, a fault exactly where the operand stack overflows |
| CompilerCorrectness.BlockRuns | packages-galerina/galerina-core-compiler/src/bytecode-vm.ts:134-138 | simulation through statement sequences with slots allocated on the way |
| CompilerCorrectness.WhileRuns | packages-galerina/galerina-core-compiler/src/bytecode-vm.ts:196-209 | simulation through the backward jump: a turn costs one back edge, and the cap strikes in both worlds at once |
| BytecodeVM.DispatchBound | packages-galerina/galerina-core-compiler/src/bytecode-vm.ts:331-385 | from any state, instructions left are bounded by remaining back edges and distance to the end of the code |
| BytecodeVM.RunHaltsWithin | packages-galerina/galerina-core-compiler/src/bytecode-vm.ts:313-386 | on any opcode array whatever a run dispatches at most (maxIterations + 1) * code.length instructions |
| BytecodeVM.Operate | packages-galerina/galerina-core-compiler/src/bytecode-vm.ts:338-355 | the arithmetic, comparison and logic cases over the typed array do what the step function says, cell by cell |
| BytecodeVM.TakeJump | packages-galerina/galerina-core-compiler/src/bytecode-vm.ts:357-377 | a backward jump is counted against the cap, a forward jump is not |
| BytecodeVM.Dispatch | packages-galerina/galerina-core-compiler/src/bytecode-vm.ts:332-383 | one turn of the loop, over arrays, is one step of the machine |
| BytecodeVM.RunBytecode | packages-galerina/galerina-core-compiler/src/bytecode-vm.ts:313-386 | the loop over arrays computes the machine's run and dispatches as many instructions as the bound allows |
| BytecodeVM.RunRefines | packages-galerina/galerina-core-compiler/src/bytecode-vm.ts:313-386 | as long as the checked machine does not fault, the typed-array VM does the same |
| CompiledFlows.StmtCells | packages-galerina/galerina-core-compiler/src/bytecode-vm.ts:125-126 | emitted cells survive the truncation to Int32Array |
| CompiledFlows.FaultsIffOverflows | packages-galerina/galerina-core-compiler/src/bytecode-vm.ts:313-386 | for every compiled flow, argument list and cap: the checked machine faults if and only if the source run, while the cap allows it, evaluates an expression that takes more than 256 operand cells before it traps |
| CompiledFlows.FitsNeverOverflows | packages-galerina/galerina-core-compiler/src/bytecode-vm.ts:225-271 | a flow all of whose expressions need at most 256 cells never does, whatever its arguments |
| CompiledFlows.VmRunsFlow | packages-galerina/galerina-core-compiler/src/bytecode-vm.ts:313-386 | on a run that does not overflow the operand stack no access is out of bounds, and the answer is that of the source run |
| CompiledFlows.CompilationPreservesMeaning | packages-galerina/galerina-core-compiler/src/bytecode-vm.ts:94-386 | for every flow, argument list and cap whose run does not overflow the operand stack: the VM returns v, or traps with a kind, if and only if the source does so within the cap; it reports the cap if and only if no source run is that short; it does nothing else |
| OperandStack.ReturnFaultsIffTooDeep | packages-galerina/galerina-core-compiler/src/bytecode-vm.ts:252-261 | returning an expression stays inside the 256 cells if and only if evaluating it takes at most 256 before it traps |
| OperandStack.DeepSumsGoWrong | packages-galerina/galerina-core-compiler/src/bytecode-vm.ts:319-339 | a right-nested sum of n ones is answered correctly if and only if n is at most 256; above, the VM silently answers 255 |
| FlowAdmission.StmtAdmission | packages-galerina/galerina-core-compiler/src/bytecode-vm.ts:140-288 | a statement compiles if and only if its nodes are supported and read names introduced before, whatever its address |
| FlowAdmission.CompilesIff | packages-galerina/galerina-core-compiler/src/bytecode-vm.ts:94-132 | a flow compiles if and only if it declares no 64-bit scalar, has integer parameters and a body, and the body is admitted |
| FlowForms.CompilesExactly | packages-galerina/galerina-core-compiler/src/bytecode-vm.ts:94-132 | the same with the six admitted parameter types written out |
| FlowForms.ToInt32Iff | packages-galerina/galerina-core-compiler/src/bytecode-vm.ts:316-318 | the 32-bit value of a number is the one in range that differs from it by a multiple of 2^32 |
| FlowForms.OperatorsAnswer | packages-galerina/galerina-core-compiler/src/bytecode-vm.ts:338-355 | every operator answers its exact result or a trap, comparisons and logic 1 or 0, in the semantics and in the machine |
| FlowAdmission.SlotEnvLookup | packages-galerina/galerina-core-compiler/src/bytecode-vm.ts:315-318 | which argument each variable sees, surplus arguments included |
| FlowAdmission.ArgumentsByPosition | packages-galerina/galerina-core-compiler/src/bytecode-vm.ts:104-116 | with distinct parameters and no surplus argument the flow runs on its parameters' arguments |
| FlowAdmission.SurplusArgumentsVisible | packages-galerina/galerina-core-compiler/src/bytecode-vm.ts:316-318 | every variable starts with the value it has without the surplus arguments if and only if each that lands in an allocated slot is zero |
| FlowAdmission.SurplusArgumentsUnseen | packages-galerina/galerina-core-compiler/src/bytecode-vm.ts:313-386 | under that condition the VM answers as if the surplus arguments had not been passed |
| CodeShape.CompiledCodeShaped | packages-galerina/galerina-core-compiler/src/bytecode-vm.ts:169-209 | every jump of compiled code targets an instruction boundary inside the code, every JUMP_IF_FALSE jumps forward |
| IntegerDivision.TruncDivUnique | packages-galerina/galerina-core-compiler/src/decimal-arith.ts:117-118 | truncating division is the only quotient whose remainder is smaller than the divisor and has the sign of the dividend |
| Rounding.RoundsToMonotone | packages-galerina/galerina-core-compiler/src/decimal-arith.ts:121-134 | the rounding relation on reals never reverses an order, in any mode |
| Rounding.RoundsToUnique | packages-galerina/galerina-core-compiler/src/decimal-arith.ts:121-134 | no real rounds to two integers |
| Rounding.RoundDivIff | packages-galerina/galerina-core-compiler/src/decimal-arith.ts:116-135 | roundDiv answers q if and only if the exact quotient rounds to q by distance and direction, in each of the seven modes |
| Rounding.RoundDivMonotone | packages-galerina/galerina-core-compiler/src/decimal-arith.ts:116-135 | a greater numerator never rounds lower |
| Rounding.RoundDivSameValue | packages-galerina/galerina-core-compiler/src/decimal-arith.ts:116-135 | equal fractions round equally |
| Rounding.RoundQuotientStepwise | packages-galerina/galerina-core-compiler/src/decimal-arith.ts:116-135 | the switch over the modes answers the integer to which the exact quotient rounds |
| DecimalText.FormatDecimal | packages-galerina/galerina-core-compiler/src/decimal-arith.ts:71-79 | the padding loop prints the canonical text |
| DecimalText.ParseFormat | packages-galerina/galerina-core-compiler/src/decimal-arith.ts:54-79 | parsing undoes printing, for every integer and every scale |
| DecimalText.CanonicalIdempotent | packages-galerina/galerina-core-compiler/src/decimal-arith.ts:54-79 | printing after parsing keeps value and scale and is idempotent |
| TextForms.TrimIff | packages-galerina/galerina-core-compiler/src/decimal-arith.ts:57 | trimming takes away the white space around a text, by code points, and nothing else |
| DecimalSpelling.ParseIff | packages-galerina/galerina-core-compiler/src/decimal-arith.ts:54-65 | a text is a decimal if and only if it is blanks, a sign or none, digits, a dot with digits behind it or none, blanks, with a digit somewhere; it stands for the signed value of the digits at the number of digits behind the dot |
| DecimalSpelling.DenotesIff | packages-galerina/galerina-core-compiler/src/decimal-arith.ts:54-65 | the real number a text denotes is its whole digits by place value plus tenths, hundredths and so on |
| DecimalSpelling.FormatIff | packages-galerina/galerina-core-compiler/src/decimal-arith.ts:71-79 | a text is what is printed for an integer and a scale if and only if it stands for them and is spelled canonically: a minus exactly for negative integers, a whole part without a leading zero, a dot and scale digits exactly for scale above 0 |
| DecimalAnswers.SumAnswer | packages-galerina/galerina-core-compiler/src/decimal-arith.ts:91-96 | the answer of decAdd is the one canonical spelling of the exact sum at the larger scale |
| DecimalAnswers.DifferenceAnswer | packages-galerina/galerina-core-compiler/src/decimal-arith.ts:98-103 | the answer of decSub is the one canonical spelling of the exact difference at the larger scale |
| DecimalAnswers.ProductAnswer | packages-galerina/galerina-core-compiler/src/decimal-arith.ts:105-109 | the answer of decMul is the one canonical spelling of the exact product at the sum of the scales |
| DecimalAnswers.QuotientAnswer | packages-galerina/galerina-core-compiler/src/decimal-arith.ts:142-154 | the answer of decDiv is the one canonical spelling of the quotient, rounded in the given mode at the given scale |
| DecimalAnswers.RemainderAnswer | packages-galerina/galerina-core-compiler/src/decimal-arith.ts:160-167 | the answer of decRem is the one canonical spelling of the truncating remainder at the larger scale |
| DecimalAnswers.Refusals | packages-galerina/galerina-core-compiler/src/decimal-arith.ts:54-175 | which of the two words is answered for a text that is no decimal, a scale outside 0 to 100 and a divisor of zero |
| DecimalArith.AddLaws | packages-galerina/galerina-core-compiler/src/decimal-arith.ts:82-96 | addition is commutative and associative on all strings, with identical output text, traps included |
| DecimalArith.MulLaws | packages-galerina/galerina-core-compiler/src/decimal-arith.ts:105-109 | multiplication is commutative and associative on all strings, with identical output text |
| DecimalArith.MulDistributes | packages-galerina/galerina-core-compiler/src/decimal-arith.ts:82-109 | multiplication distributes over addition with identical output text, value and scale |
| DecimalArith.SumsAreExact | packages-galerina/galerina-core-compiler/src/decimal-arith.ts:91-103 | sums and differences denote the exact real sum and difference |
| DecimalArith.ProductIsExact | packages-galerina/galerina-core-compiler/src/decimal-arith.ts:105-109 | products denote the exact real product |
| DecimalArith.CompareByNumber | packages-galerina/galerina-core-compiler/src/decimal-arith.ts:170-175 | comparison is that of the numbers denoted, whatever their scales |
| DecimalArith.SubUndoesAdd | packages-galerina/galerina-core-compiler/src/decimal-arith.ts:91-103 | subtracting what was added gives back the same amount |
| DecimalDivision.DivisionIsRoundedQuotient | packages-galerina/galerina-core-compiler/src/decimal-arith.ts:142-154 | decDiv prints q at the asked scale if and only if the true quotient, at that scale, rounds to q, whatever the signs and scales |
| DecimalDivision.DivisionTraps | packages-galerina/galerina-core-compiler/src/decimal-arith.ts:142-146 | exactly when decDiv answers a number and exactly when it reports a zero divisor |
| DecimalDivision.DivUndoesMul | packages-galerina/galerina-core-compiler/src/decimal-arith.ts:105-154 | dividing a product by a factor, at the scale of the other, gives the canonical form of the other in every mode |
| DecimalDivision.RemainderIsExact | packages-galerina/galerina-core-compiler/src/decimal-arith.ts:160-167 | the remainder is a minus the truncated quotient times b, smaller than b, never opposing the sign of a |
| DecimalDivision.DivideStepwise | packages-galerina/galerina-core-compiler/src/decimal-arith.ts:142-154 | the stepwise division, scaling one side up and then making the denominator positive, computes decDiv |
| EffectPropagation.CollectTransitiveCalledEffects | packages-galerina/galerina-core-compiler/src/effect-checker.ts:1001-1031 | the recursive search with a shared visited set leaves no call of a visited flow unfollowed, and reports exactly what direct callees of visited flows declare, each under a reachable declarer |
| DependencyForms.FindIff | packages-galerina/galerina-core-compiler/src/effect-checker.ts:1011 | the flow looked at under a name is the first one of that name |
| EffectPropagation.ReportedIsReached | packages-galerina/galerina-core-compiler/src/effect-checker.ts:807-821 | started with only the flow visited, the search reports exactly the effects reachable by one or more calls |
| EffectPropagation.ValidateInterFlowPropagation | packages-galerina/galerina-core-compiler/src/effect-checker.ts:799-821 | a flow gets the diagnostic for exactly the effects it reaches and does not declare |
| EffectPropagation.NothingUndeclaredIffEdgesMonotone | packages-galerina/galerina-core-compiler/src/effect-checker.ts:799-821 | no flow gets the diagnostic if and only if declared effects never shrink along a call edge |
| EffectPropagation.HasTransitiveEffect | packages-galerina/galerina-core-compiler/src/effect-checker.ts:1033-1051 | a negative answer leaves everything it visited exhausted |
| EffectPropagation.DecideTransitiveEffect | packages-galerina/galerina-core-compiler/src/effect-checker.ts:1033-1051 | started with nothing visited, the second search decides reachability of the effect |
| EffectPropagation.SearchesAgree | packages-galerina/galerina-core-compiler/src/effect-checker.ts:1001-1051 | where every callee is a flow both searches decide the same relation |
| FlowDependencies.DirectEdges | packages-galerina/galerina-core-compiler/src/flow-dependency-analysis.ts:44-56 | uses and usedBy hold exactly the calls to other declared flows |
| FlowDependencies.Closure | packages-galerina/galerina-core-compiler/src/flow-dependency-analysis.ts:58-70 | the worklist ends, cycles included, with exactly the other flows that reach this one |
| FlowDependencies.AnalyzeFlowDependencies | packages-galerina/galerina-core-compiler/src/flow-dependency-analysis.ts:34-78 | uses, usedBy and impact of every flow are its callees, its callers and the number of other flows that reach it |
| FlowDependencies.UsesConverse | packages-galerina/galerina-core-compiler/src/flow-dependency-analysis.ts:44-56 | uses and usedBy are converse and no flow uses itself |
| FlowDependencies.ImpactZeroIffUnused | packages-galerina/galerina-core-compiler/src/flow-dependency-analysis.ts:58-76 | impact is 0 if and only if no flow calls this one |
| FlowDependencies.ImpactGrowsDownstream | packages-galerina/galerina-core-compiler/src/flow-dependency-analysis.ts:58-76 | a callee has every dependant of its caller, and the caller |
| FlowDependencies.LastDeclWins | packages-galerina/galerina-core-compiler/src/flow-dependency-analysis.ts:35-41 | of two declarations of a name the map keeps the last |
| DependencyForms.UsesIff | packages-galerina/galerina-core-compiler/src/flow-dependency-analysis.ts:34-57 | USES and USEDBY hold exactly the calls, in the last declaration of a name, of another declared flow |
| DependencyForms.DependantsIff | packages-galerina/galerina-core-compiler/src/flow-dependency-analysis.ts:59-77 | the blast radius of a flow holds exactly the other flows from which a chain of such calls leads to it |
| FlowDependencies.SafeToDeleteIsTrueIff | packages-galerina/galerina-core-compiler/src/flow-dependency-analysis.ts:34-76 | impact 0, printed as safe to delete, implies that no declaration of another flow calls this one, if and only if the last declaration of some other flow calls it or no declaration of another flow does |
| FlowDependencies.RedeclarationHidesCaller | packages-galerina/galerina-core-compiler/src/flow-dependency-analysis.ts:34-41 | a redeclaration without the call gives a used flow impact 0 |
| FixEdits.JoinSplit | packages-galerina/galerina-core-compiler/src/fix-edit.ts:45-52 | splitting at line terminators and rejoining is the identity |
| FixAcceptance.SplitIff | packages-galerina/galerina-core-compiler/src/fix-edit.ts:46-52 | the split is the only way to cut a text into lines without a line feed and terminators of one line feed with the carriage return in front of it |
| FixEdits.ApplyFixEdits | packages-galerina/galerina-core-compiler/src/fix-edit.ts:42-85 | sorting, filtering and splicing in place compute the specified text, and applied plus skipped is the number of edits |
| FixAcceptance.AcceptedIsChosen | packages-galerina/galerina-core-compiler/src/fix-edit.ts:54-70 | applied are exactly the edits that name a line of the text and columns up to the place behind its last one, and collide with none applied that starts later in the text or at the same place and is listed first; in that order |
| FixAcceptance.ChosenIsUnique | packages-galerina/galerina-core-compiler/src/fix-edit.ts:54-70 | that description fits one choice of edits only |
| FixAcceptance.NothingSkippedIff | packages-galerina/galerina-core-compiler/src/fix-edit.ts:42-85 | nothing is skipped, and all edits are applied, if and only if every edit is in bounds and no two collide |
| EditSubstitution.RightToLeftIsOnePass | packages-galerina/galerina-core-compiler/src/fix-edit.ts:70-76 | splicing disjoint spans from right to left is one left-to-right pass over the untouched line |
| EditSubstitution.ApplyIsSubstitution | packages-galerina/galerina-core-compiler/src/fix-edit.ts:42-85 | unless an accepted insertion on a line precedes an accepted replacement at the same start, the line becomes the line with its accepted, disjoint spans replaced at once |
| EditSubstitution.SubstitutesIff | packages-galerina/galerina-core-compiler/src/fix-edit.ts:54-76 | for any list of edits and any line: the line is the simultaneous substitution of its accepted edits, whatever texts they put in, if and only if no accepted insertion on it precedes an accepted replacement with the same start |
| EditSubstitution.LostLetter | packages-galerina/galerina-core-compiler/src/fix-edit.ts:57-76 | otherwise there are texts for the edits under which an inserted letter is swallowed, so that no order of the spans is the substitution |
| FixEdits.ComputeAutoFix | packages-galerina/galerina-core-compiler/src/fix-edit.ts:103-119 | a fix is accepted if and only if something was applied and the re-check neither throws nor counts more errors; otherwise the source comes back unchanged |
| GeneratedComments.RunStart | packages-galerina/galerina-core-compiler/src/flow-dependency-analysis.ts:158-159 | finds the top of the contiguous run of generated lines directly above a line |
| GeneratedComments.RewriteLines | packages-galerina/galerina-core-compiler/src/flow-dependency-analysis.ts:151-163 | the bottom-up splicing loop computes the one-pass rewrite that only looks ahead |
| GeneratedComments.RewriteGeneratedComments | packages-galerina/galerina-core-compiler/src/flow-dependency-analysis.ts:147-165 | the same on the whole source |
| GeneratedComments.RewriteIsIdempotent | packages-galerina/galerina-core-compiler/src/flow-dependency-analysis.ts:139-146 | rewriting lines twice is rewriting them once |
| GeneratedComments.RewrittenKeepsStripped | packages-galerina/galerina-core-compiler/src/flow-dependency-analysis.ts:142-144 | everything outside the replaced blocks survives, generated lines elsewhere included |
| GeneratedComments.RewriteKeepsAuthored | packages-galerina/galerina-core-compiler/src/flow-dependency-analysis.ts:142-144 | no other line is changed, dropped, added or moved past another |
| GeneratedComments.RewrittenIsCurrent | packages-galerina/galerina-core-compiler/src/flow-dependency-analysis.ts:140-142 | directly above every known flow stands exactly its fresh block and no further generated line |
| GeneratedComments.TextRewriteIsIdempotent | packages-galerina/galerina-core-compiler/src/flow-dependency-analysis.ts:145 | rewriting a source twice is rewriting it once |
| GeneratedComments.TextRewriteIsConservative | packages-galerina/galerina-core-compiler/src/flow-dependency-analysis.ts:140-165 | the three properties above, on the text |
| FlowLines.FlowNameIff | packages-galerina/galerina-core-compiler/src/flow-dependency-analysis.ts:152-156 | a line is taken for the declaration of a name behind an indent if and only if it is the indent of white space, nothing or one of pure, secure, guarded with white space, flow, white space, and the name as a whole word |
| FlowLines.GeneratedIff | packages-galerina/galerina-core-compiler/src/flow-dependency-analysis.ts:160 | a line counts as generated if and only if it is white space and the marker with anything behind it |
| FlowLines.StaleIff | packages-galerina/galerina-core-compiler/src/flow-dependency-analysis.ts:153-162 | a line is taken out if and only if it is generated and nothing but generated lines stands between it and a declaration that has fresh lines |
| FlowLines.DeclarationsAreCurrent | packages-galerina/galerina-core-compiler/src/flow-dependency-analysis.ts:147-165 | in the rewritten text every declaration of a flow with fresh lines has exactly these above it, each behind the indent of the declaration, and no generated line above them |
| CommentForms.RenderedIff | packages-galerina/galerina-core-compiler/src/flow-dependency-analysis.ts:127-137 | the lines rendered for a flow, character by character: counts without leading zeros, names with commas, the remark on deletion exactly for impact 0 |
| GeneratedComments.RenderedIsWellFormed | packages-galerina/galerina-core-compiler/src/flow-dependency-analysis.ts:127-137 | rendered dependency comments are single lines that begin with the marker, which is what the rewrite needs |
| AliasCarry.FieldCollector.CarryOf | packages-galerina/galerina-core-compiler/src/governance-verifier.ts:821-836 | computes what an initializer carries: a field, what a renamed local carries, or nothing |
| AliasCarry.FieldCollector.BuildAliases | packages-galerina/galerina-core-compiler/src/governance-verifier.ts:840-860 | the first pass over the tree turns the alias map into the specified one |
| AliasCarry.FieldCollector.CollectFields | packages-galerina/galerina-core-compiler/src/governance-verifier.ts:789-815 | adds exactly the names an expression hands out, nothing below redact or seal |
| AliasCarry.FieldCollector.FindReturnStmts | packages-galerina/galerina-core-compiler/src/governance-verifier.ts:863-869 | the second pass collects exactly the names in returned expressions |
| AliasCarry.CollectBodyFieldNames | packages-galerina/galerina-core-compiler/src/governance-verifier.ts:782-882 | both passes over the last block of the flow |
| AliasBinds.NameIff | packages-galerina/galerina-core-compiler/src/governance-verifier.ts:763-767 | the name in the text of a declaration: behind a leading unsafe or safe with white space, in front of the first colon, without white space around it |
| AliasBinds.SourceIff | packages-galerina/galerina-core-compiler/src/governance-verifier.ts:821-838 | an expression passes on the field it reads or the local it renames, through any wrappers with one child that are no calls, and else nothing |
| AliasBinds.AliasesAreChains | packages-galerina/galerina-core-compiler/src/governance-verifier.ts:840-862 | a local carries a name if and only if a chain of binds, each before the one that renames it in the order of the source, leads to a read of that field or to that name, unbound before |
| AliasNames.ReportedIff | packages-galerina/galerina-core-compiler/src/governance-verifier.ts:782-882 | a name is reported if and only if some place under a return, with no call of redact or seal from there down to it, is a read of that field, a call with that undischarged argument label, that bare name, or a bare local that carries it |
| AliasNames.DischargedReportsNothing | packages-galerina/galerina-core-compiler/src/governance-verifier.ts:789-815 | a flow all of whose returned expressions are calls of redact or seal reports nothing |
| AliasFlow.NodeExact | packages-galerina/galerina-core-compiler/src/governance-verifier.ts:838-869 | whatever the branches, loops and early returns: the flow of facts through a tree holds exactly what some run of the program brings about, in locals and at returns |
| AliasFlow.LoopSettles | packages-galerina/galerina-core-compiler/src/governance-verifier.ts:840-860 | going through a loop as often as there are facts to add brings about all that any number of turns does |
| AliasFlow.MayHoldIff | packages-galerina/galerina-core-compiler/src/governance-verifier.ts:840-860 | some run that comes through the body leaves a field or parameter in a local if and only if the flow of facts says so |
| AliasFlow.ReportIsCompleteIff | packages-galerina/galerina-core-compiler/src/governance-verifier.ts:769-781 | for every field or parameter: whenever a run hands it out its name is reported, if and only if the flow of facts does not have it handed out or the name is among the reported ones |
| AliasRuns.SoundNode | packages-galerina/galerina-core-compiler/src/governance-verifier.ts:838-869 | after any choice of statements and turns in a subtree, the map accounts for every local and the report for every return |
| AliasRuns.LaunderingIsCaught | packages-galerina/galerina-core-compiler/src/governance-verifier.ts:769-781 | in every run without a second turn of a loop, statements left out or not, a returned value read from field f, through any chain of renames, has f reported; so has a parameter that no statement binds |
| AliasRuns.LoopsAreCaughtWhenStable | packages-galerina/galerina-core-compiler/src/governance-verifier.ts:838-860 | with loops, the report is complete whenever a second pass over the body would add nothing |
| AliasReports.RunsAreWide | packages-galerina/galerina-core-compiler/src/governance-verifier.ts:838-869 | every run of the program is among those wider runs: it ends with the same locals or hands out no more |
| AliasReports.ReportIsComplete | packages-galerina/galerina-core-compiler/src/governance-verifier.ts:769-781 | so fields, and parameters that no statement binds, are reported on every run of the program without a second turn of a loop, and on all runs if a second pass adds nothing |
| AliasGaps.LoopLaunders | packages-galerina/galerina-core-compiler/src/governance-verifier.ts:838-860 | while (c) { b = a; a = owner.f } return b: a run returns the field and it is not reported |
| AliasGaps.ReboundParameterIsMissed | packages-galerina/galerina-core-compiler/src/governance-verifier.ts:825-827 | a parameter that one branch rebinds and another path returns under a second name is not reported |
| Lexer.Scanner.Advance | packages-galerina/galerina-core-compiler/src/lexer.ts:297-308 | moving the cursor keeps line and column those of its offset, past the end too |
| Lexer.Scanner.ScanBlockComment | packages-galerina/galerina-core-compiler/src/lexer.ts:401-419 | runs to the first closing mark or the end and records every line break inside |
| Lexer.Scanner.ScanCharBody | packages-galerina/galerina-core-compiler/src/lexer.ts:464-472 | consumes an escape, one character, or past the end of the text when nothing is left |
| Lexer.Scanner.ScanStringBody | packages-galerina/galerina-core-compiler/src/lexer.ts:504-589 | consumes and decodes the body of a string literal, escapes included |
| Lexer.Scanner.ScanEscape | packages-galerina/galerina-core-compiler/src/lexer.ts:505-574 | decodes the three unicode forms and passes other escapes through |
| Lexer.Scanner.ScanNumber | packages-galerina/galerina-core-compiler/src/lexer.ts:607-674 | consumes the base prefixes, separators, fraction and exponent exactly as specified |
| Lexer.Scanner.ScanPunctuation | packages-galerina/galerina-core-compiler/src/lexer.ts:676-768 | two-character operators before one-character ones, governance comments before separators, symbols last |
| Lexer.Scanner.ScanOne | packages-galerina/galerina-core-compiler/src/lexer.ts:349-837 | one turn of the scan loop makes exactly the tokens of the lexeme at the cursor |
| Lexer.Lex | packages-galerina/galerina-core-compiler/src/lexer.ts:252-843 | the scan loop makes exactly the tokens of the text, positions included |
| StringForms.UnitIff | packages-galerina/galerina-core-compiler/src/lexer.ts:505-571 | what one step inside a string takes and gives: a character; a backslash and a character as they stand; a unicode escape of one to six braced or exactly four hexadecimal digits its code point, a malformed one its own text |
| StringForms.StringIff | packages-galerina/galerina-core-compiler/src/lexer.ts:500-604 | a string literal is units up to the first quote, line break or end of text that begins none, and the quote if it is one; its value is theirs between the quotes |
| StringForms.PlainStringEnds | packages-galerina/galerina-core-compiler/src/lexer.ts:500-604 | without a backslash before it the first quote, line break or end of text behind the opening quote ends the token, the quote included, and its value is its text |
| StringForms.CharIff | packages-galerina/galerina-core-compiler/src/lexer.ts:463-497 | a character literal is an escape of two characters, one character or none, and the closing quote if it is there |
| LexemeForms.BlockIff | packages-galerina/galerina-core-compiler/src/lexer.ts:400-418 | a block comment ends behind the first closing mark from its third character on, or at the end of the text |
| LexemeForms.NumberIff | packages-galerina/galerina-core-compiler/src/lexer.ts:606-674 | a number is a base prefix and all digits of the base, or all digits and underscores with a dot and all digits behind it, if there are any, and an exponent with all its digits, if there are any |
| LexemeForms.SkippedIff | packages-galerina/galerina-core-compiler/src/lexer.ts:349-370 | no token begins at a blank, a tab, a carriage return, or a character that begins none of the forms, and nowhere else |
| LexemeForms.LexemeIff | packages-galerina/galerina-core-compiler/src/lexer.ts:349-843 | the token at an offset, its kind, text and end, is the one whose form stands there in characters |
| LexemeForms.TokensHaveForm | packages-galerina/galerina-core-compiler/src/lexer.ts:252-843 | every token of a text has its form at its own start |
| ScanForms.TokensEndInTime | packages-galerina/galerina-core-compiler/src/lexer.ts:349-395 | the end of file stands at the end of the text unless a line break makes more than a million tokens, and the first one that does is the last token |
| ScanForms.InnerLineBreaks | packages-galerina/galerina-core-compiler/src/lexer.ts:405-415 | the line breaks recorded with column 0 are exactly those inside block comments |
| ScanForms.MarkIff | packages-galerina/galerina-core-compiler/src/lexer.ts:257 | a byte order mark is dropped at the start of the source only |
| ScanForms.TooLarge | packages-galerina/galerina-core-compiler/src/lexer.ts:260-282 | a text of more than 10 MB gives an end of file and nothing else |
| LexerProperties.TokensTile | packages-galerina/galerina-core-compiler/src/lexer.ts:349-840 | line breaks inside block comments aside, tokens follow each other without overlap and skip only blanks and characters no branch accepts |
| LexerProperties.TiledInOrder | packages-galerina/galerina-core-compiler/src/lexer.ts:349-840 | an earlier token is not empty and ends before a later one begins |
| LexerProperties.TiledCovers | packages-galerina/galerina-core-compiler/src/lexer.ts:349-840 | an offset before the end of file that no token covers holds a blank or a character no branch accepts |
| LexerProperties.TokensKnowWhereTheyAre | packages-galerina/galerina-core-compiler/src/lexer.ts:297-312 | line, column, endLine and endColumn of every token are the positions of its two offsets |
| LexerProperties.LineStartMeaning | packages-galerina/galerina-core-compiler/src/lexer.ts:297-308 | column 1 begins the text or follows a line break, and no line break is on the way |
| LexerProperties.PositionsOrderOffsets | packages-galerina/galerina-core-compiler/src/lexer.ts:297-308 | positions order offsets strictly, so a position belongs to one offset |
| LexerProperties.TokensStayInside | packages-galerina/galerina-core-compiler/src/lexer.ts:463-497 | no token ends behind the text but a character literal opened by a quote in the last place, and the end of file lies one past the text if and only if there is one |
| LexerProperties.NoFinalQuoteStaysInside | packages-galerina/galerina-core-compiler/src/lexer.ts:463-497 | in a text whose last character is not a quote every token and the end of file stay inside |
| LexerProperties.LexemeSlice | packages-galerina/galerina-core-compiler/src/lexer.ts:99-104 | slicing the source at a token's offsets recovers its text, literals aside |
| LexerProperties.PlainStringIsItsText | packages-galerina/galerina-core-compiler/src/lexer.ts:500-604 | a string literal without escapes is its own text, quotes included |
| LexerProperties.TokensSayWhatTheyAre | packages-galerina/galerina-core-compiler/src/lexer.ts:397-806 | a generated comment never passes for an authored one or the other way around, line comments run to the end of the line, words and operators are as long as possible, keywords are whole words, a separator is never half of a governance mark |
| GovernanceDiff.CompareFlow | packages-galerina/galerina-core-compiler/src/governance-diff.ts:177-203 | reports the exact effects gained and lost, or nothing when the grant is unchanged |
| GovernanceDiff.DiffGovernance | packages-galerina/galerina-core-compiler/src/governance-diff.ts:102-226 | the loops compute the specified deltas, signal and class |
| GovernanceDiff.DiffIsInvertiblePatch | packages-galerina/galerina-core-compiler/src/governance-diff.ts:146-203 | carrying out the deltas turns the grants of the one version into those of the other, and undoing them turns them back, repeated names included |
| GovernanceDiff.WidensIffExpansion | packages-galerina/galerina-core-compiler/src/governance-diff.ts:114-213 | the widening signal and the class expansion agree, and both say whether some flow gains an effect or a rank |
| GovernanceDiff.NonWideningComposes | packages-galerina/galerina-core-compiler/src/governance-diff.ts:146-206 | two steps that do not widen make a whole that does not, if and only if no flow is dropped and brought back under a higher qualifier |
| ChangeClasses.ShapesAre | packages-galerina/galerina-core-compiler/src/governance-diff.ts:106-107 | of several flows of one name the last one counts |
| ChangeClasses.DeltaClass | packages-galerina/galerina-core-compiler/src/governance-diff.ts:114-133 | a delta is an expansion if its flow gains an effect, a stronger qualifier or, as a new flow, more than a plain one has, a tightening if it only loses, neutral if it does neither |
| ChangeClasses.DiffClass | packages-galerina/galerina-core-compiler/src/governance-diff.ts:135-210 | the class of the diff is expansion if any flow gains, tightening if none does and any loses or is gone, neutral otherwise |
| ChangeClasses.ListsInOrder | packages-galerina/galerina-core-compiler/src/governance-diff.ts:144-202 | the three lists name each flow once, in the order in which its version first does |
| SuiteDigest.TestSuiteDigest | packages-galerina/galerina-core-compiler/src/leak-proof.ts:204-213 | the five loops, the sort and the join hash the specified text |
| SuiteDigest.SortForgetsOnlyOrder | packages-galerina/galerina-core-compiler/src/leak-proof.ts:211 | two lists sort to the same if and only if they hold the same strings equally often |
| WitnessForms.AtMostIff | packages-galerina/galerina-core-compiler/src/leak-proof.ts:204-214 | lines are ordered by the first character in which they differ, a line that begins another one first |
| SuiteIdentity.SamePreImageIffSameObligations | packages-galerina/galerina-core-compiler/src/leak-proof.ts:196-213 | the hashed texts of two suites whose ids hold no NUL and whose assertions hold no line break are equal if and only if the suites hold the same obligations equally often under the same dimensions |
| SuiteIdentity.IdentifiedIff | packages-galerina/galerina-core-compiler/src/leak-proof.ts:204-213 | among all suites, every suite with the same hashed text holds the same obligations if and only if there are none, or exactly one without a NUL in id and assertion |
| SuiteIdentity.ObligationsMerge | packages-galerina/galerina-core-compiler/src/leak-proof.ts:204-213 | all obligations of any suite of two or more read as a single one, whose assertion holds the other lines |
| LeakWitness.BuildLeakProof | packages-galerina/galerina-core-compiler/src/leak-proof.ts:126-159 | findings, denial count, verdict and category counts are those of the diagnostics |
| LeakWitness.BuiltWitnessVouchesIff | packages-galerina/galerina-core-compiler/src/leak-proof.ts:216-271 | a built witness vouches for an artifact if and only if it is bound to it, the digest is not empty, and no error carries a leak code |
| WitnessForms.VouchesIff | packages-galerina/galerina-core-compiler/src/leak-proof.ts:252-268 | any witness, forged ones included, vouches for an artifact if and only if both schemas are right, it is bound to the artifact and to a suite, and its proof says clean, no denial, and lists warnings only |
| WitnessForms.FamilyIff | packages-galerina/galerina-core-compiler/src/leak-proof.ts:70-78 | the seven families of codes that are leaks, and their categories |
| WitnessForms.FindingsAre | packages-galerina/galerina-core-compiler/src/leak-proof.ts:126-152 | a proof lists the finding of every leak, in the order of the diagnostics, with code, category and severity, and nothing else |
| WitnessForms.SummaryIs | packages-galerina/galerina-core-compiler/src/leak-proof.ts:145-157 | the verdict is leak if and only if some error is a leak, and the counts are the numbers of findings, of those that deny and of those of each category |
| LeakWitness.CountsAddUp | packages-galerina/galerina-core-compiler/src/leak-proof.ts:148-156 | category counts add up to the findings |

## Left out

- JavaScript numbers: modelled as mathematical integers with explicit 32-bit truncation; the loop cap is a natural number, so a fractional or negative cap is not modelled.
- Number literals in the VM: the tree carries decoded integers; the base-10 reading of hexadecimal, binary, octal and exponent spellings is not modelled.
- The 64-bit scalar check, the per-tree compile cache and the fallback to the tree-walking interpreter: the check is a flag of the flow; agreement with the interpreter is not claimed, and the interpreter is not part of this model.
- CompiledFlows.CompilationPreservesMeaning: stated for runs that do not overflow the operand stack; on those that do, what the typed-array VM answers is given for right-nested sums only, by `OperandStack.DeepSumsGoWrong`.
- The call graph as the effect checker builds it, the helper checks inside a flow and the other diagnostics of the effect checker: the adjacency map is an input.
- The alphabetical order of USES and USEDBY lists: they are compared as sets.
- analyzeProgramFlowDependencies beyond its effect on repeated names, and attribution of flows to files.
- Fix edits with fractional columns: columns are integers, so the integrality test never fails.
- AliasRuns.LaunderingIsCaught: for trees in which no statement hides inside the expression of a rename and no return inside that of a return (`Tidy`), as the grammar of statements has it; likewise the other theorems of `AliasRuns` and `AliasReports`. Those of `AliasFlow` hold of every tree.
- The values of conditions, match subjects and collections: which branch a run takes, and how often a loop, is left open.
- Block scopes of names: a body has one flat scope, as the bytecode compiler has it; the variable of a for-each or of a match arm is what it was before.
- Runs cut short by a trap or by error propagation, which return nothing known, and the value of a match arm as the result of the flow: a run ends at its first return statement.
- Deciding which fields are denied, and every other check of the governance verifier.
- The module alias resolver of the effect checker.
- The lexer's diagnostics, its limit on them, and the nesting and line-length counters kept for them.
- The lexer's keyword tables and String.fromCodePoint are parameters; characters are Unicode scalar values, so a surrogate pair is one character and not two units.
- Line breaks inside block comments: the tokens are modelled, with their column 0, and described in `ScanForms`; the order of tokens in `LexerProperties` sets them aside.
- The order of effects inside a flow's shape, and the never-used class `experimental`: the diff compares effects as sets.
- The hash, the signature, the JSON forms, the prose, the anchors and the extracted capability of leak findings.
- The order of strings is that of code points, where Array.prototype.sort compares UTF-16 units.
