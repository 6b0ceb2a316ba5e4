# XVR: a verified model of the compiler's core

XVR is an ahead-of-time compiler. This project models five parts of it in Dafny and proves what
each is for. `dafny verify dfyconfig.toml` checks everything.

**Lowering** (`Ast`, `Graph`, `Lowering`, `Growth`, `ExprSimulation`, `StmtSimulation`,
`LoweringTheorems`, `Agreement`, `GraphShape`, `Stranded`, `ErrorFlag`, `Emitter`). Statements have a fuel-indexed tree
semantics (`Ast.Exec`); the emitted control-flow graph has a small-step machine (`Graph.Run`), which
follows the first terminator of a block and is stuck on an undefined division. `Lowering` says what
code is generated; class `Emitter` generates it as the program does, in place, with a mutable
builder, two 64-entry arrays of loop targets and an error flag, and every one of its methods is
proved to leave exactly the state that `Lowering` computes. The main results compare tree and
graph in both directions: how a statement ends, that it faults, that it never ends. `ErrorFlag` reads
off the text when emission reports an error.
Two meanings of expressions are kept apart: `Intended` (a ternary evaluates one arm, `!` negates)
and `AsEmitted` (the order of effects in the generated code). `Agreement` says when they agree.

**Parsing and folding** (`Parsing`, `ParsingTheorems`, `Grammar`, `Folding`, `Arithmetic`,
`FoldingWhileParsing`, `Parser`, `Pipeline`). The precedence-climbing parser with its in-line constant folder, as a function on token
sequences and as class `Parser`, which advances, reports and folds in place. Parsing and printing
undo each other; the parser reads exactly a grammar written out without its table; folding computes
what arithmetic says and keeps meanings; folding during the parse is folding afterwards. `Pipeline`
joins the two halves: an expression written down, parsed, folded and lowered is computed by the graph.

**The literal dictionary** (`Floats`, `Literals`, `Dictionary`, `LiteralDictionary`,
`DictionaryValues`). An open-addressing table with tombstones and two probe modes, refined to a plain
map over every run whose keys the equality of literals tells apart (all documented kinds of keys do);
its rehashing cost; a dictionary's hash, copy and equality, arrays and nested dictionaries included.

**Scopes** (`ScopeValues`, `ScopeConstants`, `Scope`, `ScopeRuns`). The check that every assignment
passes, through nested arrays and dictionaries, and what it lets become of a constant, at one
assignment and over many. Scope objects that share ancestors: reference counts against the set of
scopes not yet popped, lookup against one flat map of what is visible, assignment to the innermost
declaration, and constants over every run.

**Front-end checks** (`Unused`, `LexicalUse`, `Resolver`, `UnusedChecker`, `StringLiterals`, `Lexer`,
`FormatString`). The unused-declaration checker against a resolver on the tree and a rule on positions;
the lexer's progress, spans and line count; string literals; the two-pass translation of formats.

Where an algorithm works in place, it is a class or a method here, proved against a function, and
what the source promises is proved of that function.

## What the code does that its documentation does not say

- `!` is lowered to a comparison of its operand with false for inequality, which is the operand
  itself (`Agreement.InvertAgreesNowhere`).
- A ternary computes both arms before it branches, so a guarded division still divides
  (`Agreement.GuardedDivisionFaults`). `Agreement.TernaryAgreesExactly` says when it does no harm.
- Operators of equal precedence group to the right: 8 - 4 - 2 is read as 8 - (4 - 2)
  (`Grammar.TwoOperatorsGroup`).
- The control-flow emitter's error flag is cleared by the next branch, loop or jump
  (`LoweringTheorems.ErrorIsForgotten`); only statements that are nothing but expressions keep it
  (`LoweringTheorems.ErrorsAreKeptExactly`).
- A `for` whose condition is an undeclared name loops as if it had none, without an error
  (`LoweringTheorems.UndeclaredTestIsNoTest`; exactly when a `for` branches on the constant true is
  `LoweringTheorems.ForDefaultsExactly`).
- Folding rejects a division by zero that evaluation would never come to
  (`Folding.FoldRejectsWhatIsNeverReached`). It never rejects an expression whose generated code
  could have finished, nor, without ternaries, one that has a value (`Folding.RejectionIsRight`);
  what it rejects can be read off the text (`Folding.FoldingFaultsExactly`).
- The dictionary header documents backward-shift deletion and hashable null keys. The code leaves
  tombstones and refuses null keys.
- An integer and a float may be equal keys with different hashes
  (`Literals.EqualNumbersHashDifferently`), and then the two probes answer differently
  (`Dictionary.ProbesDisagreeOnMixedKeys`).
- Dictionary equality asks only whether the left entries are in the right one.
- `Xvr_popScope` accepts a null scope, which its header forbids.
- A constant is compared with its new value by an equality that is neither symmetric nor transitive.
  A dictionary constant may gain entries (`ScopeConstants.DictionaryConstantChanges`), an array of any
  may change an integer to a float (`ScopeConstants.ArrayConstantChanges`), and so may a constant of
  type any (`ScopeConstants.ConstantOfAnyTypeChanges`). `ScopeConstants.ConstantStaysExactly` says
  exactly when a constant stays, and `ScopeConstants.ReachedExactly` what one of type any may become.
- Items and entries that the old value has no counterpart of are not checked
  (`ScopeValues.NewItemsAreNotChecked`).
- A loop whose condition fails after its blocks have been created leaves them without terminators
  (`Stranded.FailedLoopStrands`).
- Of two declarations of one name in one frame, nothing ever marks the second, so such a program is
  always rejected (`LexicalUse.RedeclarationIsNeverUsed`).
- A string literal that ends the source is reported as unterminated
  (`StringLiterals.LastLiteralIsNotSeen`).
- A shebang line is also skipped behind a first token that starts at offset 0
  (`Lexer.ShebangBehindFirstToken`); one column further on it is an error
  (`Lexer.ShebangBehindLaterToken`).

## Model

| member | source | states |
|---|---|---|
| `Ast.EvaluationIsTyped` | src/adapters/llvm/xvr_llvm_expression_emitter.cpp:444-525 | evaluating a well-typed expression, in either meaning, keeps every variable at its declared type and yields a value of the static type |
| `Arithmetic.ArithmeticMeans` | src/adapters/llvm/xvr_llvm_expression_emitter.cpp:444-525 | sums, differences and products are the numbers of 32 bits that differ from the exact ones by a multiple of 2^32 |
| `Arithmetic.DivisionMeans` | src/adapters/llvm/xvr_llvm_expression_emitter.cpp:444-525 | quotient and remainder are the one pair in which the remainder is smaller than the divisor and has the sign of the dividend; there is no value exactly for a zero divisor and for the quotient that does not fit |
| `Arithmetic.ComparisonMeans` | src/adapters/llvm/xvr_llvm_expression_emitter.cpp:444-525 | the comparisons of integers, and equality, and, or on booleans |
| `Arithmetic.CompoundMeans` | src/adapters/llvm/xvr_llvm_expression_emitter.cpp:1274-1347 | each of the five compound assignments, operator by operator, is the assignment of that operator's result, where the right side leaves memory alone |
| `Arithmetic.StepMeans` | src/adapters/llvm/xvr_llvm_expression_emitter.cpp:4699-4875 | ++ and -- go to the next number, and around at the end of the range |
| `Arithmetic.WrapIsCongruent` | src/adapters/llvm/xvr_llvm_expression_emitter.cpp:444-525 | the wrapped number is the only one of 32 bits that differs by a multiple of 2^32 |
| `ExprSimulation.TypedLowers` | src/adapters/llvm/xvr_llvm_expression_emitter.cpp:1404-1418 | for every well-typed expression code is generated, and its operand has the static type |
| `ExprSimulation.ExprSim` | src/adapters/llvm/xvr_llvm_expression_emitter.cpp:4699-4875 | the code of every well-typed expression runs to its end with the expression's value and final memory, earlier registers unchanged, or gets stuck exactly where the expression has no value |
| `ExprSimulation.AssignSim` | src/adapters/llvm/xvr_llvm_expression_emitter.cpp:1274-1347 | the same for assignments: the right side first, a compound assignment then loads its target, and the stored value is the result |
| `ExprSimulation.BinarySim` | src/adapters/llvm/xvr_llvm_expression_emitter.cpp:1404-1418 | the same for infix operators: left operand, right operand, then the operator, with the effects of each in that order |
| `ExprSimulation.TernarySim` | src/adapters/llvm/xvr_llvm_expression_emitter.cpp:4436-4502 | the same for ternaries, through the three blocks and the phi: both arms have run, and the value is that of the chosen one |
| `ExprSimulation.UnarySim` | src/adapters/llvm/xvr_llvm_expression_emitter.cpp:3796-3808 | the same for negation and for `!` as it is emitted |
| `ExprSimulation.StepSim` | src/adapters/llvm/xvr_llvm_expression_emitter.cpp:4699-4875 | the same for ++ and --: a postfix yields the old value, a prefix the new one, the variable has the new one |
| `StmtSimulation.ExecIsTyped` | src/adapters/llvm/xvr_llvm_control_flow.cpp:313-596 | a well-formed statement ends with a well-typed memory, and with break or continue only inside a loop |
| `StmtSimulation.StmtSim` | src/adapters/llvm/xvr_llvm_control_flow.cpp:313-596 | under any fuel the machine does what the statement does: it comes to the exit of how the statement ends with the same memory, gets stuck if it faults, and if the fuel runs out has made at least as many steps |
| `StmtSimulation.IfSim` | src/adapters/llvm/xvr_llvm_control_flow.cpp:340-385 | that simulation for `if`, with or without an else arm |
| `StmtSimulation.WhileSim` | src/adapters/llvm/xvr_llvm_control_flow.cpp:388-463 | that simulation for `while`; `continue` leads to the condition |
| `StmtSimulation.ForSim` | src/adapters/llvm/xvr_llvm_control_flow.cpp:465-555 | that simulation for `for` with any of its clauses absent; `continue` leads to the increment |
| `StmtSimulation.SeqSim` | src/adapters/llvm/xvr_llvm_expression_emitter.cpp:4208-4224 | that simulation for blocks; what follows a jump is emitted but never run |
| `LoweringTheorems.LoweringPreservesEnds` | src/adapters/llvm/xvr_llvm_control_flow.cpp:313-596 | a well-formed statement ends normally, by break or by continue with memory m if and only if the machine leaves its code at the new insert point, the innermost loop's end or its continue block with memory m |
| `LoweringTheorems.LoweringPreservesFaults` | src/adapters/llvm/xvr_llvm_control_flow.cpp:313-596 | the statement performs an undefined operation if and only if the machine gets stuck inside the code |
| `LoweringTheorems.LoweringPreservesDivergence` | src/adapters/llvm/xvr_llvm_control_flow.cpp:388-555 | the statement never ends if and only if the machine runs for ever without reaching an exit |
| `LoweringTheorems.WellFormedEmitsCleanly` | src/adapters/llvm/xvr_llvm_control_flow.cpp:313-596 | a well-typed statement with jumps only inside loops and at most 64 nested loops is emitted without an error |
| `ErrorFlag.ErrorIsReported` | src/adapters/llvm/xvr_llvm_control_flow.cpp:313-596 | for every statement in every state: the error flag is set afterwards if and only if the text says so (a jump in no loop, a loop in 64 others, a condition of an `if` or `while` that is not emitted as a boolean, a `for` condition emitted as an integer, each unless later control flow clears it) |
| `ErrorFlag.JumpsOutsideLoopsFail` | src/adapters/llvm/xvr_llvm_control_flow.cpp:557-596 | a `break` or `continue` outside every loop sets the error flag |
| `ErrorFlag.WellFormedIsExact` | src/adapters/llvm/xvr_llvm_control_flow.cpp:313-596 | the well-formed statements, of which the simulation speaks, are exactly those of typed expressions in which nothing reports an error |
| `LoweringTheorems.ErrorsAreKeptExactly` | src/adapters/llvm/xvr_llvm_control_flow.cpp:313-596 | an earlier error is still reported after a statement if and only if the statement is nothing but expressions or fails itself; the code generated is the same either way |
| `LoweringTheorems.ErrorIsForgotten` | src/adapters/llvm/xvr_llvm_control_flow.cpp:395-395 | so any failing statement followed by any well-formed one that is more than expressions is emitted, in the end, without an error |
| `LoweringTheorems.ForDefaultsExactly` | src/adapters/llvm/xvr_llvm_control_flow.cpp:509-540 | behind its condition a `for` branches on the constant true, with the flag clear, if and only if the condition is absent, has no code or is that constant |
| `LoweringTheorems.UndeclaredTestIsNoTest` | src/adapters/llvm/xvr_llvm_control_flow.cpp:509-540 | a `for` whose condition is an undeclared name is emitted as the `for` without a condition, and without an error |
| `Agreement.SilentIsHarmless` | src/adapters/llvm/xvr_llvm_expression_emitter.cpp:4453-4461 | an expression without assignments, steps and risky divisions always has a value and leaves memory alone |
| `Agreement.EvaluationAgrees` | src/adapters/llvm/xvr_llvm_expression_emitter.cpp:4436-4502 | without `!`, and with silent arms in every ternary, the emitted order of effects gives the intended value and memory |
| `Agreement.TernaryAgreesExactly` | src/adapters/llvm/xvr_llvm_expression_emitter.cpp:4436-4502 | for a ternary of any parts that each mean what they should: with the condition true it does so too if and only if the chosen arm has no value or the other is harmless behind it, with the condition false if and only if the chosen arm yields behind the other what it yields alone |
| `Agreement.SilentArmsAgree` | src/adapters/llvm/xvr_llvm_expression_emitter.cpp:4453-4461 | silent arms are a condition on the text that is enough for that, whatever the condition yields |
| `Agreement.InvertAgreesNowhere` | src/adapters/llvm/xvr_llvm_expression_emitter.cpp:3797-3801 | emitted `!` yields its operand's value, so it means what it should if and only if the operand has none |
| `Agreement.GuardedDivisionFaults` | src/adapters/llvm/xvr_llvm_expression_emitter.cpp:4453-4461 | a concrete guarded division whose intended value is 0 and whose emitted code divides by zero |
| `Agreement.LoweringPreservesIntent` | src/adapters/llvm/xvr_llvm_control_flow.cpp:313-596 | for statements without `!` and with silent ternary arms, the intended meaning and the graph agree, in both directions, on ends, faults and divergence |
| `Lowering.LowerStmt` | src/adapters/llvm/xvr_llvm_control_flow.cpp:408-462 | on every path, failing ones included, the loop-target stack is after the emission what it was before, the targets stay distinct existing blocks other than the insert block, and the depth stays within 64 |
| `Growth.ExprGrows` | src/adapters/llvm/xvr_llvm_expression_emitter.cpp:4436-4502 | emitting an expression only appends to the insert block and adds fresh blocks |
| `Growth.StmtGrows` | src/adapters/llvm/xvr_llvm_control_flow.cpp:356-385 | emitting a statement, failing or not, leaves every earlier block and instruction as it was, appends to the old insert block and adds fresh blocks |
| `GraphShape.StmtSeals` | src/adapters/llvm/xvr_llvm_control_flow.cpp:414-460 | after any statement in which no emitted loop has a failing condition, other failures included, the old insert block and every block created have a terminator, except the new insert block |
| `Stranded.StmtSealsExactly` | src/adapters/llvm/xvr_llvm_control_flow.cpp:388-555 | behind any statement, failing or not, all those blocks have a terminator if and only if no loop that is emitted has a condition that fails |
| `Stranded.WellFormedLoopsHold` | src/adapters/llvm/xvr_llvm_control_flow.cpp:388-555 | in a well-formed statement no loop fails |
| `Stranded.FailedLoopStrands` | src/adapters/llvm/xvr_llvm_control_flow.cpp:414-440 | `while (5) {}` leaves its body block without a terminator and sets the error flag |
| `GraphShape.StmtTargets` | src/adapters/llvm/xvr_llvm_control_flow.cpp:490-552 | every branch target exists, whether or not emission succeeds |
| `Emitter.Builder.Append` | src/adapters/llvm/xvr_llvm_ir_builder.cpp:78-84 | an instruction goes to the end of the insert block and changes nothing else |
| `Graph.TerminatorsLeave` | src/adapters/llvm/xvr_llvm_ir_builder.cpp:106-124 | the two branch instructions are those behind which nothing of a block runs |
| `Emitter.Emitter.constructor` | src/adapters/llvm/xvr_llvm_control_flow.cpp:127-148 | a fresh emitter: the builder as it is, no loop targets, no error |
| `Emitter.Emitter.EmitExpr` | src/adapters/llvm/xvr_llvm_expression_emitter.cpp:4105-4124 | emits, in place, exactly the code state and operand that the specification of lowering gives |
| `Emitter.Emitter.EmitAssign` | src/adapters/llvm/xvr_llvm_expression_emitter.cpp:1274-1347 | the same for assignments, including targets that are no declared variable |
| `Emitter.Emitter.EmitTernary` | src/adapters/llvm/xvr_llvm_expression_emitter.cpp:4436-4502 | the same for ternaries, including conditions that are not boolean |
| `Emitter.Emitter.EmitCondition` | src/adapters/llvm/xvr_llvm_control_flow.cpp:338-354 | a condition without code or of another type than boolean sets the error flag; otherwise its operand is the test |
| `Emitter.Emitter.EmitIf` | src/adapters/llvm/xvr_llvm_control_flow.cpp:313-386 | the same for `if`; on failure the error flag is set |
| `Emitter.Emitter.EmitWhile` | src/adapters/llvm/xvr_llvm_control_flow.cpp:388-463 | the same for `while`, with the targets kept in the two arrays and popped on every return; on failure the error flag is set |
| `Emitter.Emitter.EmitFor` | src/adapters/llvm/xvr_llvm_control_flow.cpp:465-555 | the same for `for` |
| `Emitter.Emitter.EmitForCondition` | src/adapters/llvm/xvr_llvm_control_flow.cpp:512-532 | without a condition, or without code for it, the test of a `for` is the constant true; a condition of another type than boolean sets the error flag |
| `Emitter.Emitter.EmitBreak` | src/adapters/llvm/xvr_llvm_control_flow.cpp:557-575 | appends a branch to the innermost loop's end block and clears the error flag; outside every loop it sets the flag and appends nothing |
| `Emitter.Emitter.EmitContinue` | src/adapters/llvm/xvr_llvm_control_flow.cpp:577-596 | appends a branch to the innermost loop's continue block and clears the error flag; outside every loop it sets the flag and appends nothing |
| `Emitter.Emitter.Emit` | src/adapters/llvm/xvr_llvm_expression_emitter.cpp:4177-4224 | the same for every statement |
| `Folding.CalculateMeans` | src/xvr_parser.cpp:1426-1505 | folding two integer literals gives the value the operator has, and it reports a division by zero only where the operator has none; which value that is, is stated by the next rows |
| `Arithmetic.QuotientAndRemainder` | src/xvr_parser.cpp:1446-1464 | of all quotients and remainders exactly one pair truncates toward zero, and it is the computed one |
| `Arithmetic.FolderDivides` | src/xvr_parser.cpp:1446-1464 | division and remainder of two literals fold to that pair; by zero they are rejected, and the quotient that does not fit is none |
| `Arithmetic.FolderComputes` | src/xvr_parser.cpp:1426-1505 | sums, differences, products and comparisons of two literals fold to the exact number, if it fits, or truth value |
| `Arithmetic.FolderLeaves` | src/xvr_parser.cpp:1357-1388 | logical operators and assignments are left alone, with everything below them |
| `Folding.FoldMeans` | src/xvr_parser.cpp:1357-1590 | unless it reports an error or overflows, the folder changes the value of no expression in any memory |
| `Folding.NothingToFold` | src/xvr_parser.cpp:1374-1388 | a tree in which no foldable node has two integer literals is a fixed point of the folder |
| `Folding.FoldTreeIsComplete` | src/xvr_parser.cpp:1374-1388 | after folding without a fault no arithmetic or comparison node has two integer literals left |
| `Folding.FoldTreeMeans` | src/xvr_parser.cpp:1357-1590 | folding a whole tree without a fault keeps its value and effects in every memory, and folding again changes nothing |
| `Folding.RejectionIsRight` | src/xvr_parser.cpp:1446-1464 | an expression rejected for a division by zero has no value in any memory as it is emitted, nor as it is intended if it holds no ternary |
| `Folding.FoldingFaultsExactly` | src/xvr_parser.cpp:1426-1505 | folding faults if and only if somewhere in the tree operators over integer literals alone divide by zero or leave the 32 bits |
| `Folding.FoldRejectsWhatIsNeverReached` | src/xvr_parser.cpp:1446-1464 | a concrete ternary that folding rejects although it evaluates to 1 |
| `Parsing.ParseOfPrint` | src/xvr_parser.cpp:2020-2098 | with folding off, parsing the print of any printable tree, followed by a weaker token, returns that tree and stops there |
| `Parsing.ParsePrinted` | src/xvr_parser.cpp:2020-2098 | the parser reads a print up to the point where it holds the tree as the left operand of whatever follows |
| `ParsingTheorems.PrintOfParse` | src/xvr_parser.cpp:361-489 | every clean parse returns a printable tree of at least the level asked for; the tokens taken are its print if and only if no `!` among them stands directly before a boolean literal |
| `ParsingTheorems.PrintIsInjective` | src/xvr_parser.cpp:2020-2098 | no two printable trees have the same print |
| `Grammar.ParserReadsTheGrammar` | src/xvr_parser.cpp:1284-1350 | at every level the parser takes all tokens cleanly and returns a tree if and only if a grammar written out class by class, without the table, derives the tree: ! over factor over term over comparison over && over || over ternary over assignment, each to the right |
| `Grammar.GrammarIsUnambiguous` | src/xvr_parser.cpp:2020-2098 | no tokens have two trees |
| `Grammar.TwoOperatorsGroup` | src/xvr_parser.cpp:381-489 | of two operators of listed classes the tighter one groups first, and of two of one class the right one |
| `Grammar.OperatorBesideQuestion` | src/xvr_parser.cpp:1201-1214 | a ternary takes an operator in front of its question mark and behind its colon, but not an assignment |
| `ParsingTheorems.StatusSticks` | src/xvr_parser.cpp:16-34 | a reported error is never taken back |
| `ParsingTheorems.LongNamesFail` | src/xvr_parser.cpp:790-805 | a name of more than 256 characters makes every parse that meets it fail |
| `FoldingWhileParsing.FoldingCommutesWithParsing` | src/xvr_parser.cpp:2081-2091 | parsing with folding succeeds if and only if plain parsing does and its tree folds without a fault; it takes the same tokens and returns the folded tree, which means the same |
| `Parser.Parser.constructor` | src/xvr_parser.cpp:36-43 | a parser in front of the whole token sequence, without an error |
| `Parser.Parser.Advance` | src/xvr_parser.cpp:36-43 | moves one token on and never past the end |
| `Parser.Parser.CalcStaticBinaryArithmetic` | src/xvr_parser.cpp:1357-1590 | the folder in place: the tree, the result and the error state are those of the folding function |
| `Parser.Parser.PrefixRule` | src/xvr_parser.cpp:361-379 | the rule of the token just taken leaves the tree, tokens and error state of the specification |
| `Parser.Parser.BinaryRule` | src/xvr_parser.cpp:381-489 | the right operand is parsed at the operator's own precedence |
| `Parser.Parser.QuestionRule` | src/xvr_parser.cpp:1201-1214 | both arms are parsed at ternary precedence around a colon |
| `Parser.Parser.InfixRule` | src/xvr_parser.cpp:2040-2091 | one infix rule and the folding behind it make one step of the parse function, which goes on or stops with the same error state |
| `Parser.Parser.ParsePrecedence` | src/xvr_parser.cpp:2020-2098 | the loop over infix operators, folding in place, leaves the tree, the tokens and the error state of the parse function |
| `Pipeline.FoldTreeKeepsShape` | src/xvr_parser.cpp:1357-1590 | folding keeps the static type, and adds no effect and no `!` |
| `Pipeline.CompiledExpressionMeans` | src/xvr_parser.cpp:2081-2091 | the graph of the tree that was parsed and folded ends with memory m if and only if the unfolded tree, as intended, does, and is stuck if and only if that has no value |
| `Pipeline.WrittenExpressionRuns` | src/xvr_parser.cpp:2020-2098 | every printable, well-typed expression that folds can be written down, parsed with folding and lowered, and the graph computes what it means |
| `Literals.EqualKeysAreOne` | src/xvr_literal.cpp:321-352 | among the documented hashable kinds equality is identity, so equal keys have equal hashes |
| `Literals.HashableKeysAreUnmixed` | src/xvr_literal.cpp:321-352 | keys of the documented kinds are always told apart: each equals itself and no other |
| `Literals.EqualNumbersHashDifferently` | src/xvr_literal.cpp:322-330 | the integer 1 and the float 1.0 are equal and hash differently |
| `Literals.EqualToItself` | src/xvr_literal.cpp:321-447 | a literal of any kind and depth equals itself if and only if nothing in it is a function or an opaque value |
| `Literals.EqualLiteralsAreAlike` | src/xvr_literal.cpp:321-447 | equal literals are of one kind or both numbers, arrays as long and equal item by item |
| `Literals.SomeHashes` | src/xvr_literal.cpp:43-60 | hashes of the empty text, of one plain and one negative character, of booleans and of -1 |
| `Floats.RoundedIsNearest` | src/xvr_literal.cpp:322-330 | no number of 24 significant bits is nearer to an integer than the float it converts to |
| `Floats.RoundedIsFloat` | src/xvr_literal.cpp:322-330 | what an integer converts to is a number of 24 significant bits |
| `Floats.RoundedIsMultiple` | src/xvr_literal.cpp:322-330 | of two equally near floats the even one is taken |
| `Literals.HashStringInPlace` | src/xvr_literal.cpp:43-52 | the loop computes the hash of the whole string, with signed characters and 32-bit wrap-around |
| `Dictionary.GetEntryArray` | src/xvr_literal_dictionary.cpp:19-42 | finds the first slot, in cyclic order from the home slot, at which the probe stops, and none only if there is none; terminates on every table |
| `Dictionary.FullScanFinds` | src/xvr_literal_dictionary.cpp:161-191 | the full scan finds a key if and only if the map has it, in the slot that holds its value |
| `Dictionary.EarlyStopFinds` | src/xvr_literal_dictionary.cpp:225-233 | the early-stop probe never runs round, finds a key if and only if the map has it, and otherwise stops at the first empty slot of the key's path |
| `Dictionary.ProbesAgree` | src/xvr_literal_dictionary.cpp:19-42 | for a key that is told apart from those stored the two probes find the same slot, or neither finds it |
| `Dictionary.ProbesDisagreeOnMixedKeys` | src/xvr_literal_dictionary.cpp:19-42 | with the integer 1 stored, the full scan finds the float 1.0 and the early-stop probe does not |
| `LiteralDictionaries.LiteralDictionary.ProbesAgreeAlways` | src/xvr_literal_dictionary.cpp:19-42 | the probes agree in every valid, so in every reachable, table |
| `Dictionary.SomeSlotIsVacant` | src/xvr_literal_dictionary.cpp:74-78 | a table that uses fewer slots than it has leaves one truly empty |
| `Dictionary.PutFresh` | src/xvr_literal_dictionary.cpp:83-86 | filling the first empty slot of a new key's path keeps the table invariant, adds that key to the map and uses one slot more |
| `Dictionary.Overwrite` | src/xvr_literal_dictionary.cpp:87-89 | writing the slot that holds a key keeps the table invariant and changes that key only |
| `Dictionary.Bury` | src/xvr_literal_dictionary.cpp:218-222 | a tombstone keeps every path full and takes exactly one key out of the map |
| `LiteralDictionaries.AdjustEntryCapacity` | src/xvr_literal_dictionary.cpp:44-69 | rehashing changes nothing visible: the new table stands for the same map and uses one slot per key, tombstones gone |
| `LiteralDictionaries.LiteralDictionary.constructor` | src/xvr_literal_dictionary.cpp:115-121 | a fresh table is valid and stands for the empty map |
| `LiteralDictionaries.LiteralDictionary.MakeRoom` | src/xvr_literal_dictionary.cpp:74-78 | the table doubles exactly when one more key would load it over three quarters, and stands for the same map |
| `LiteralDictionaries.LiteralDictionary.Put` | src/xvr_literal_dictionary.cpp:80-90 | with room for one more, writing where the probe stops maps that key to the value and leaves every other |
| `LiteralDictionaries.LiteralDictionary.Set` | src/xvr_literal_dictionary.cpp:71-159 | for keys told apart from those stored (every documented kind is): maps the key to the value and leaves every other; null, function and opaque keys change nothing; `contains` rises only for a new key |
| `LiteralDictionaries.LiteralDictionary.Get` | src/xvr_literal_dictionary.cpp:161-191 | the mapped value, or null for an absent or refused key |
| `LiteralDictionaries.LiteralDictionary.Remove` | src/xvr_literal_dictionary.cpp:193-223 | deletes exactly one key; `contains` and the capacity stay |
| `LiteralDictionaries.LiteralDictionary.Exists` | src/xvr_literal_dictionary.cpp:225-233 | true if and only if the map has the key |
| `LiteralDictionaries.LiteralDictionary.RehashingIsLinear` | src/xvr_memory.h:65-65 | the capacity is 8 times a power of two and at most max(8, 8(contains + 1)/3); all rehashes together moved capacity - 8 slots, at most 8/3 per call of set |
| `DictionaryValues.Replay` | src/xvr_literal_dictionary.cpp:115-233 | every run of set, get, remove and exists from a fresh table, with keys of any kinds that are told apart, is answered as by a plain map, and `count` is the map's size |
| `DictionaryValues.DocumentedRunsQualify` | src/xvr_literal_dictionary.cpp:115-233 | runs with keys of the documented kinds, and refused ones, always qualify |
| `DictionaryValues.SumTakesAnyKeyOut` | src/xvr_literal.cpp:567-579 | the wrapping sum of hashes does not depend on the order of the entries |
| `DictionaryValues.SumIsOfKeysAndValues` | src/xvr_literal.cpp:567-579 | the sum of an empty dictionary is 0, and that of any other the hash of a key, of its value and the sum of the rest, modulo 2^32 |
| `DictionaryValues.HashDictionary` | src/xvr_literal.cpp:567-579 | a dictionary's hash is a function of its map: capacity, insertion order and tombstones do not matter |
| `DictionaryValues.CopyDictionary` | src/xvr_literal.cpp:198-213 | a copy stands for the same map and has no tombstones |
| `DictionaryValues.DictionariesAreEqual` | src/xvr_literal.cpp:402-430 | answers true if and only if every entry of the left dictionary is in the right one with an equal value |
| `DictionaryValues.EqualCountsMakeEqualityExact` | src/xvr_literal.cpp:402-430 | with equal counts it answers true if and only if the keys are the same and the values equal key by key; where all values are null or of the documented hashable kinds, if and only if the maps are the same |
| `DictionaryValues.EqualityIsSymmetricUpToCount` | src/xvr_literal.cpp:402-430 | if the left equals the right, the right equals the left if and only if the counts are equal and each right value equals the left one; values that are null or of the documented hashable kinds always do |
| `DictionaryValues.DictionaryEqualsItself` | src/xvr_literal.cpp:402-435 | a dictionary equals itself, and its copy, if and only if no value holds a function or an opaque value at any depth |
| `ScopeValues.CheckTypeIsExact` | src/xvr_scope.cpp:52-229 | for all types, old values and new values, at every depth: a value passes, leaving constants aside, if and only if what it shares with the old value conforms to the type, and no dictionary without a counterpart has keys or values of type null |
| `ScopeValues.Check` | src/xvr_scope.cpp:52-229 | the loops over items and entries, with their early returns, decide the check |
| `ScopeValues.PlainTypesAdmit` | src/xvr_scope.cpp:74-229 | a value passes for bool, int, float, string, function, type or opaque if and only if it is null or has the constructor listed for that type |
| `ScopeValues.OtherTypesAdmit` | src/xvr_scope.cpp:62-186 | any admits everything, null nothing, a fixed width all but arrays and dictionaries, and arrays and dictionaries only null and their own kind |
| `ScopeValues.KeyTypesAdmit` | src/xvr_scope.cpp:148-169 | a first assignment to a dictionary of boolean, integer or string keys passes if and only if all keys are of that kind |
| `ScopeValues.NullPartsRefuse` | src/xvr_scope.cpp:148-169 | an empty dictionary fails at first where keys or values are of type null, and passes over an old dictionary |
| `ScopeValues.SharedIsCommon` | src/xvr_scope.cpp:119-205 | what counts as shared is the items below both lengths and the entries whose keys both have |
| `ScopeValues.EqualValuesAreAlike` | src/xvr_literal.cpp:321-447 | equal values are of one kind or both numbers, arrays as long and equal item by item |
| `ScopeValues.FirstIsShared` | src/xvr_scope.cpp:107-119 | on a first assignment every item and entry counts as shared, so all of it is checked |
| `ScopeValues.ConstantsCheckOnce` | src/xvr_scope.cpp:54-58 | where the new value equals the old one, asking the same of constant items and entries changes nothing |
| `ScopeValues.NewItemsAreNotChecked` | src/xvr_scope.cpp:121-125 | a concrete string that gets into an array of integers |
| `ScopeConstants.ConstantsKeepTheirValue` | src/xvr_scope.cpp:54-58 | a constant of a scalar type, or a conforming array of such at any depth, keeps its very value |
| `ScopeConstants.ConstantStaysExactly` | src/xvr_scope.cpp:52-229 | for every constant type and old value, nothing but that value passes if and only if nothing passes at all, or position by position there is no dictionary, under int and float no number of the other kind, and under any and the fixed widths no number that equals another; when anything passes at all is stated too |
| `ScopeConstants.DictionaryKeepsItsEntries` | src/xvr_literal.cpp:402-430 | a dictionary constant stays a dictionary and keeps its entries, up to equality |
| `ScopeConstants.DictionaryConstantChanges` | src/xvr_scope.cpp:190-192 | a concrete dictionary constant that gains an entry of another type |
| `ScopeConstants.ArrayConstantChanges` | src/xvr_literal.cpp:322-330 | a concrete array constant whose integer becomes a float |
| `ScopeConstants.ConstantOfAnyTypeChanges` | src/xvr_literal.cpp:322-330 | a concrete constant of type any that an equal float may replace |
| `ScopeConstants.InTurnIsSimilar` | src/xvr_scope.cpp:54-58 | over any number of assignments a constant of any type becomes only what is similar to it: every number converts to the same float, arrays keep their length, dictionaries only gain entries, and nothing else changes |
| `ScopeConstants.ReachedExactly` | src/xvr_scope.cpp:54-63 | a constant of type any may become, over many assignments, exactly what is similar to it, and two are enough |
| `ScopeConstants.ConstantOfAnyTypeKeeps` | src/xvr_scope.cpp:54-63 | a constant of type any keeps its value, whatever passes, if and only if it holds a function or an opaque value, or holds no integer, no float that an integer converts to and no dictionary |
| `Scopes.Heap.Push` | src/xvr_scope.cpp:232-245 | adds one empty open scope and keeps every count and chain right |
| `Scopes.Heap.FreeAncestorChain` | src/xvr_scope.cpp:34-49 | lowers each count along the chain by one and frees, once each, exactly those that reach zero |
| `Scopes.Heap.Pop` | src/xvr_scope.cpp:247-273 | in any order of pops, what stays allocated is exactly what has a scope not yet popped inside it; counts and chains stay right |
| `Scopes.Heap.Copy` | src/xvr_scope.cpp:275-305 | a new scope beside the original, with its own equal variables and types and the same ancestors, counted in all of them |
| `Scopes.Heap.NothingLeaks` | src/xvr_scope.cpp:247-273 | once every scope has been popped none is allocated |
| `Scopes.Heap.OpenChainsAreLive` | src/xvr_scope.cpp:34-49 | every ancestor of a scope not yet popped is allocated |
| `Scopes.Heap.Declare` | src/xvr_scope.cpp:308-324 | adds one null variable and its type to this scope if the scope has none of that name, and shadows outer ones |
| `Scopes.Heap.IsDeclared` | src/xvr_scope.cpp:326-337 | true if and only if the name is visible |
| `Scopes.Heap.Get` | src/xvr_scope.cpp:371-384 | the visible value of the name, if it is visible |
| `Scopes.Heap.GetType` | src/xvr_scope.cpp:386-398 | the visible type of the name, if it is visible |
| `Scopes.Heap.Set` | src/xvr_scope.cpp:340-369 | writes the innermost scope outward that declares the name, if the value passes the check of that declaration, and fails otherwise; that one binding changes and is what is visible then; a constant becomes only a value that its old one equals, and stays what it is where nothing else can pass |
| `Scopes.Heap.VisibleIsTyped` | src/xvr_scope.cpp:308-324 | what is visible is visible with a type of the same declaration, and its value fits that type |
| `Scopes.Heap.VisibleIsOfItsKind` | src/xvr_scope.cpp:52-229 | in every state that a run reaches, a visible variable of a plain type is null or has that type's constructor |
| `ScopeRuns.Perform` | src/xvr_scope.cpp:232-398 | each operation of a run keeps the heap valid; in every scope that stays allocated a constant becomes only what is similar to it, and stays what it is where nothing else can pass; declarations and assignments change what is visible as stated for one call |
| `ScopeRuns.Run` | src/xvr_scope.cpp:232-398 | over every run of pushes, copies, pops, declarations, reads and checked assignments through any scopes, a constant whose scope stays allocated becomes only what is similar to it, and keeps its very value if nothing else can pass for its type and value, as for all scalar types |
| `Unused.MarkMarks` | src/xvr_unused.cpp:83-99 | marking a name changes exactly the first declaration of that name in the innermost frame that has one |
| `LexicalUse.FramesFollowTheRule` | src/xvr_unused.cpp:10-99 | after every event the frames hold the open declarations, each marked if and only if a reference so far means it, and the error flag is set if and only if an unused one has been left |
| `LexicalUse.VerdictIsLexical` | src/xvr_unused.cpp:111-273 | the checker reports an error if and only if some declaration is meant by no reference |
| `Resolver.VerdictIsResolution` | src/xvr_unused.cpp:111-273 | the checker reports an error if and only if some declaration is what no reference means, where a recursive resolver on the tree, with frames of names around each node, says what each reference means |
| `LexicalUse.VisitingOnlyGains` | src/xvr_unused.cpp:111-273 | visiting a node restores the number of frames; outer frames get no declarations, and uses and errors are only added |
| `LexicalUse.RedeclarationIsNeverUsed` | src/xvr_unused.cpp:83-99 | a program that declares a name twice in one frame is always rejected |
| `UnusedChecker.UnusedChecker.MarkUsed` | src/xvr_unused.cpp:83-99 | the two loops mark what the specification marks and nothing else |
| `UnusedChecker.UnusedChecker.PopScope` | src/xvr_unused.cpp:23-60 | drops the top frame and reports an error exactly if something in it is unused |
| `UnusedChecker.UnusedChecker.CheckNode` | src/xvr_unused.cpp:111-273 | visiting a node has the effect of the node's events in order |
| `UnusedChecker.Check` | compiler/main_compiler.c:275-283 | the check of a program passes if and only if every variable, parameter and procedure is what some reference means, by the resolver on the tree and equally by the rule on positions |
| `StringLiterals.StringRule` | src/xvr_parser.cpp:295-342 | the loop over the lexeme resolves its escapes, reports unknown ones and cuts what is longer than 4096 |
| `StringLiterals.StringsRoundTrip` | src/xvr_lexer.cpp:306-330 | any text, escaped, quoted and followed by something, is one string token whose literal is the text, cut behind 4096 characters |
| `StringLiterals.LastLiteralIsNotSeen` | src/xvr_lexer.cpp:327-329 | the same literal at the very end of the source is not |
| `Lexer.Lexer.Advance` | src/xvr_lexer.cpp:56-68 | moves on by one character, not past the end, and the line is 1 plus the newlines passed |
| `Lexer.Lexer.EatWhitespace` | src/xvr_lexer.cpp:70-122 | skips only blanks, comments and, at the head of the source, shebang lines, and all of them, or stops for ever at a block comment that is not closed |
| `Lexer.Lexer.MakeString` | src/xvr_lexer.cpp:306-343 | the token ends at the closing quote that the scan function gives, and is an error exactly if the scan came to the end |
| `Lexer.Lexer.MakeIntegerOrFloat` | src/xvr_lexer.cpp:186-292 | the longest whole or point number; with a suffix, its letter and decimal width, or an error for a bad one |
| `Lexer.Lexer.MakeKeywordOrIdentifier` | src/xvr_lexer.cpp:345-350 | the longest run of letters, digits and underscores |
| `Lexer.Lexer.MakeSymbol` | src/xvr_lexer.cpp:409-494 | the longest symbol that starts here, or an error if none does |
| `Lexer.SymbolsAre` | src/xvr_lexer.cpp:409-494 | the list of all symbols |
| `Lexer.CharactersAre` | src/xvr_lexer.cpp:124-131 | digits, letters and blanks by their codes |
| `Lexer.Lexer.ScanLexer` | src/xvr_lexer.cpp:399-495 | every scan but the last strictly advances, over blanks and one token of the stated text, or is stuck in an unclosed comment |
| `Lexer.ShebangBehindFirstToken` | src/xvr_lexer.cpp:83-95 | a concrete source whose shebang line behind its first token is skipped |
| `Lexer.ShebangBehindLaterToken` | src/xvr_lexer.cpp:83-95 | the same source moved by one blank, where the # is an error |
| `Lexer.ScanAll` | src/xvr_lexer.cpp:399-495 | repeated scanning ends on every source without an unclosed comment; the spans come in order, are what their tokens say, have only blanks between them, cover the source, and bear the right lines |
| `FormatString.Parse` | src/xvr_format_string.cpp:77-297 | valid if and only if the braces close and there is one placeholder per argument; the result is then the translated text |
| `FormatString.WriteFormat` | src/xvr_format_string.cpp:195-291 | the second pass writes the whole translation: its buffer limit never drops text |
| `FormatString.BuildPrintfFormat` | src/xvr_format_string.cpp:324-393 | of every text the first 4096 characters are looked at; their conversions are fitted to the types, and the buffer limit drops none of that |
| `FormatString.ConversionsFit` | src/xvr_format_string.cpp:324-393 | what a percent sign and any one character become for an argument of each type, spelled out |
| `FormatString.FormatsAreInterleaved` | src/xvr_format_string.cpp:77-393 | plain parts with n empty placeholders are valid for exactly n arguments, and both passes give the parts interleaved with each argument's specifier, in order; formats under the limit are seen whole |

## Left out

- Variable declarations and the function emitter's scopes in lowering: the variables of a function are a fixed environment.
- The LLVM builder itself: an insert point is the end of a block, the first terminator of a block counts, and constants are not folded while building.
- `if` used as an expression, arrays and indices, calls, casts, strings, floats, mixed widths and unsigned comparisons in lowering; && and || compute both operands, as the code generated for them does.
- The clauses of a `for` are expressions, so a declaration or a jump in its pre-clause is not modelled.
- `Emitter.Emitter.Emit`: null checks for a missing current function, block names and error messages are not modelled.
- String, float, null and fixed-width literals among the parser's tokens; statements and declarations in the parser.
- Parser: calls, casts, indices, dots, unary minus and ++/-- in expressions; the model stops following a parse there (status Foreign), and where folding would overflow, which C leaves undefined. What happens after an error (synchronising) is not modelled either.
- Floats, strings and mathematical functions in folding.
- Dictionaries in which two keys are equal without being one (an integer and the float it converts to, or 0.0 and -0.0) or a key differs from itself: such tables do not keep a map. Every other set of keys is admitted.
- `DictionaryValues.DictionariesAreEqual`: types and fixed-width numbers are known by identity and hash only. NaN is not modelled: a float is its real value and its bits.
- `LiteralDictionaries.LiteralDictionary.Set`: keys are admitted as the line on equal keys says.
- `LiteralDictionaries.LiteralDictionary.Get`: the same keys are admitted.
- `LiteralDictionaries.LiteralDictionary.Remove`: the same keys are admitted.
- `LiteralDictionaries.LiteralDictionary.Exists`: the same keys are admitted.
- 32-bit overflow of the counters `capacity`, `contains`, `count`, `references` and `line`, and allocation failure.
- Sharing of reference-counted strings inside literals: a copied literal is a value.
- `Scopes.Heap.Pop`: scopes that store functions, whose own scopes are popped with them, are not modelled; the dictionaries of a scope are plain maps.
- `ScopeValues.Check`: keys of the documented hashable kinds only; dictionaries without tombstones, which a first assignment checks as if they held the value true; where an item stored unchecked is neither null nor of the kind of the array or dictionary that replaces it, the code reads it as if it were of that kind, and the model checks the new one as on a first assignment.
- Identifier literals, and the literals the compiler uses between its passes, as values of scopes.
- NaN and negative zero in scope values: a float is its real value.
- The unused checker's messages and lines; import names and the names in call arguments are children like any other.
- The keyword table: `Word` tokens are keywords or identifiers. Error tokens carry no message.
- `FormatString.Parse`: formats with doubled braces, `{:spec}`, more than 64 braces or 4096 characters and more, for which the code reads or writes outside its text, or copies what follows the brace.
- The AST optimizer, the module and target wrappers, builtins, literal printing, the command line and file input and output.
