# Verified models of the simulator, run-time and tool kernels

This project states in Dafny what the algorithmic kernels of the repository compute, and proves it for
all inputs. The command for the whole project is

    dafny verify dfyconfig.toml

What is modelled:

- **Kconfig dependency formulas** (`Kconfig*.dfy`): three-valued expressions, their meaning under a symbol
  assignment, and the passes that rewrite them: removal of y and n, the comparison that crosses out
  matching operands, joining of operand pairs, in-place removal of duplicates, and the normalising
  rewriting. The main results are that every pass keeps the value, for the join of conjuncts under the exact
  condition that it needs, what the comparison decides, that the repeat-until-unchanged loop terminates, and
  what the results look like.
- **CoreMark lists** (`MergeSpec.dfy`, `ListCompare.dfy`, `CoreList.dfy`, `ListBench.dfy`): the iterative in-place
  mergesort on linked nodes with comparisons that change what they compare, reversal, searching, removing and
  restoring an item, and exactly when the benchmark's list returns to its original state.
- **64-bit integer support** (`Bits.dfy`, `UDivMod.dfy`, `Int64.dfy`): double-word division in all its
  special cases, signed division and remainder, and the branch-free bit counts.
- **The debugger's expression evaluator** (`SdbExpr.dfy`, `SdbSyntax.dfy`): the range-splitting evaluator,
  and the trees that it reads back from their own printing.
- **CRC-16** (`Crc.dfy`, `CrcNumbers.dfy`): linearity, bijectivity and burst detection, and the turns on numbers.
- **Numeric-token state machine** (`TokenDfa.dfy`, `TokenGrammar.dfy`, `NumericDfa.dfy`, `DfaUnit.dfy`,
  `DfaCircuit.dfy`, `StateBench.dfy`): the reference scanner and its language, the custom instructions as the emulator defines them, the
  circuit that implements them, the wrappers, and the equality of the whole benchmark in all versions.
- **miniRV** (`ByteShifts.dfy`, `MiniRv.dfy`): the expansions of RV32I instructions into eight base
  instructions, byte tables and scratch words below the stack pointer.
- **Branch predictors** (`Predictors.dfy`, `PredictorLaws.dfy`, `RtlModel.dfy`, `RtlLaws.dfy`) and **instruction
  cache** (`CacheSim.dfy`): what each prediction depends on and when it is decided, told from the trace alone,
  whole-trace invariants, the tournament bound, and the inclusion of smaller caches in larger ones.
- **Block RAM images** (`BramInit.dfy`): the placement of word bits in initialisation strings is a
  bijection and reads back.
- **Number printing** (`FormatUint.dfy`, `PrintRatio.dfy`): numerals in a padded field, and exact long division
  with rounding.

Code that updates objects, arrays or linked nodes is modelled by classes and methods with frames, and each
method is proved against a specification function or a stated property; code made of expressions is
modelled by functions and lemmas.

Conventions. Machine integers are natural numbers with explicit wrap-around; bit operations are defined bit
by bit in `Bits.dfy`. Word widths in the division code are a parameter, instantiated at 32 bits. The checksum
register is a sequence of bits, lowest first. Memory for the token scanner is a sequence of bytes whose
length is a multiple of the word size; characters are found by absolute address. The two kernels that calculate
list values are parameters: functions of their operand, the running checksum and the memory blocks, which they may
change.

Assumptions that the source makes and the contracts state as preconditions:

- a symbol of boolean type never has the value m, and comparing a bool or tristate symbol with y, m or n
  compares their values (`Env.Valid`); the sort callback is a total preorder on the items of the list, and a
  sort by content works on nodes with an item each; the list benchmark starts from items whose low byte repeats
  the high byte, as the list set-up writes them, and needs three nodes;
- the scanned memory contains a NUL at or after the block, before and after corruption, and the corruption
  step is positive;
- miniRV operands follow the header's calling assumptions: `tp` is never the first operand of `sub`, nor the
  destination of an arithmetic right shift by the constant 24; the scratch words below `sp` and the tables
  do not overlap;
- the cache has at least two blocks, and index and block offset leave a tag, as its bit extraction asserts;
- branch traces contain control instructions only, and index bits of the buffer select at most as many
  entries as it has; "well-behaved" traces have one instruction per address and go where it says.

Where comments and code disagree, the code is followed:

- the sort's comment allows for an empty list, but the code stores through the tail pointer, so a non-empty
  list is required (`core_list_join.c:583-587`);
- the comment of the expression comparison speaks of sets of operands; the code matches them one to one
  (`KconfigOperands.EqNeedsMultiplicity`);
- joining two conjuncts into one does not always keep their value: a tristate symbol is compared with a
  constant by its number, so one that is y equals both `y` and `2`, and `(A = y) && (A != 2)` becomes `A = y`
  (`KconfigEq.NumericConstantConfuses`, `KconfigDups.LosesInequality`); `KconfigEq.JoinAndExact` gives the exact
  condition;
- the list benchmark's comments say that the list is back to its original state; nodes of equal index come back in
  the order that the searches and the first sort left them in, and the list set-up can give equal indices
  (`CoreList.InitialIndicesCollide`); `ListBench.SortAndRestore` gives the exact condition;
- a comment in the conjunct join says `a='m'` where the code builds `a='y'`; the code's result is the sound
  one (`expr.c:569`);
- the main-operator search is described as right-associative; it picks the last operator of least priority,
  so binary operators associate to the left;
- the comment that corruption is undone when both seeds are equal is true only under the condition of
  `StateBench.UndoCorruption`.

## Model

| member | source | states |
|---|---|---|
| KconfigExpr.EliminateYnValue | nemu/tools/kconfig/expr.c:316-397 | removing y and n operands keeps the value under every valid assignment |
| KconfigExpr.EliminateYnShape | nemu/tools/kconfig/expr.c:316-397 | the result is reduced; it is the expression itself if and only if that was reduced already, and strictly smaller otherwise |
| KconfigEq.EqSound | nemu/tools/kconfig/expr.c:252-303 | if the comparison answers 1, both expressions have the same value under every valid assignment |
| KconfigEq.EliminateEqAuxSound | nemu/tools/kconfig/expr.c:150-190 | crossing out matched operands with the identity of the level takes the same factor from both expressions |
| KconfigEq.EliminateEqSound | nemu/tools/kconfig/expr.c:221-241 | the same for the entry point, which may cross out on the level of either expression and then removes y and n |
| KconfigEq.EqOptSound | nemu/tools/kconfig/expr.c:252-303 | soundness of the comparison including NULL, which counts as y |
| KconfigReflexive.EqReflexive | nemu/tools/kconfig/expr.c:252-303 | every expression compares equal to itself, through the copies whose operands the comparison crosses out |
| KconfigOperands.CrossOut | nemu/tools/kconfig/expr.c:150-190 | crossing out matched operands leaves each side with exactly the operands, as a multiset, that the other side does not match; operands may be any clean expressions |
| KconfigOperands.EqComparesMultisets | nemu/tools/kconfig/expr.c:246-303 | two clean expressions, in which no operand of && or || is y or n, compare equal if and only if they have the same canonical form: the same multisets of operands on every level, recursively and below NOT |
| KconfigOperands.EqEquivalence | nemu/tools/kconfig/expr.c:252-303 | so the comparison is reflexive, symmetric and transitive on clean expressions |
| KconfigOperands.EqNotTransitive | nemu/tools/kconfig/expr.c:252-303 | clean cannot be dropped: for different named symbols "B and C" equals "(B or n) and C", and that equals "(B or n) and (C or n)", but the first does not equal the last |
| KconfigOperands.EqNeedsMultiplicity | nemu/tools/kconfig/expr.c:246-251 | the comment promises equality when every operand equals some operand of the other; (A op A) and (A op (A op A)) differ for every clean operand A |
| KconfigExpr.ComparisonsOfNumbers | nemu/tools/kconfig/expr.c:1082-1098 | where two symbols are compared by numbers, the six relations are those of the numbers |
| KconfigEq.JoinOrIs | nemu/tools/kconfig/expr.c:431-493 | two alternatives are joined to t if and only if they compare equal and t is the first; or else they are a=c and a=d for a tristate a and two different ones of y, m and n, and t is a!=e for the third; or else they are a boolean symbol and its negation, and t is y |
| KconfigEq.JoinOrSound | nemu/tools/kconfig/expr.c:431-493 | and then t has the value of the disjunction under every valid assignment |
| KconfigEq.JoinAndIs | nemu/tools/kconfig/expr.c:495-587 | two conjuncts are joined to t if and only if they compare equal and t is the first; or else they are, in either order, a and a=y, and t is a=y; a and a!=n, and t is a; a and a!=m, and t is a=y; a=c and a!=d for a tristate and constants c and d, and t is a=c, or n if c is d; a!=c and a!=d for a tristate and two different ones of y, m and n, and t is a=e for the third |
| KconfigEq.JoinAndExact | nemu/tools/kconfig/expr.c:495-587 | a joined pair of conjuncts has the value of the conjunction if and only if it is not a pair a=c, a!=d with different constants c and d that a equals both |
| KconfigEq.JoinAndSound | nemu/tools/kconfig/expr.c:495-587 | so joining keeps the value whenever the assignment keeps the constants tested in the two conjuncts, and y, m and n, apart |
| KconfigEq.JoinAndNeedsConstantsApart | nemu/tools/kconfig/expr.c:495-587 | for every assignment and every set of tests: joining keeps the value of every pair of conjuncts with those tests if and only if the assignment keeps the tested constants, and y, m and n, apart |
| KconfigEq.NumericConstantConfuses | nemu/tools/kconfig/expr.c:540-546 | a tristate that is y equals both y and the constant 2, so (A = y) && (A != 2), which is n, is joined to A = y, which is y |
| KconfigEq.JoinShape | nemu/tools/kconfig/expr.c:431-587 | a joined operand is the first operand itself or a single symbol or comparison, so joining never grows a level, and it tests no constant that the two did not test |
| KconfigPaths.PutPairValue | nemu/tools/kconfig/expr.c:596-651 | replacing two operands of a level in place by two others of the same combined value keeps the value of the level |
| KconfigDups.DupRewriter.EliminateDups1 | nemu/tools/kconfig/expr.c:596-651 | the in-place walk, with both pointers into one tree, changes only its level, never grows it and keeps its value under every valid assignment that keeps the tested constants apart; the change counter rises if and only if some pair could be joined, and a change leaves an operand for the removal of y and n |
| KconfigDups.DupRewriter.CompareOperands | nemu/tools/kconfig/expr.c:615-648 | joining one pair of operands in place, with the same promises for that pair |
| KconfigDups.DupRewriter.EliminateDups | nemu/tools/kconfig/expr.c:664-686 | repeats until nothing changes: terminates, keeps the value under every valid assignment that keeps the constants tested in the expression, and y, m and n, apart, and under every valid assignment if the expression tests no named constant; never grows, does nothing but join pairs of operands and remove y and n, leaves a deduplicated expression, with no equal operands and none of the listed pairs on any level, leaves a deduplicated expression alone, and restores the change counter |
| KconfigDups.NothingLeftToJoin | nemu/tools/kconfig/expr.c:653-686 | on every level of a deduplicated expression, as the loop leaves it, no two operands compare equal and no two form one of the listed pairs, in either order |
| KconfigDups.LosesInequality | nemu/tools/kconfig/expr.c:540-546 | the pass turns (s = c) && (s != d) into s = c for every tristate s and different constants c and d, from n to y under every assignment in which s equals both |
| KconfigDups.DeduplicatedOperandsDiffer | nemu/tools/kconfig/expr.c:653-686 | on a deduplicated level any two operands differ |
| KconfigTransform.TransformValue | nemu/tools/kconfig/expr.c:694-849 | the rewriting keeps the value under every valid assignment |
| KconfigTransform.TransformNormal | nemu/tools/kconfig/expr.c:694-849 | NOT remains only directly above symbols other than y, m and n, and no boolean symbol is compared with y, m or n for equality |
| KconfigTransform.NormalIsFixed | nemu/tools/kconfig/expr.c:694-849 | a normal expression is left unchanged |
| KconfigTransform.TransformIdempotent | nemu/tools/kconfig/expr.c:694-849 | rewriting twice is rewriting once; an expression is a fixed point if and only if it is normal |
| MergeSpec.MergeAscending | jyd-tests/coremark-official/src/core_list_join.c:532-577 | merging two adjacent runs in order gives one run: sorted, equal items in their original order |
| MergeSpec.PassRuns | jyd-tests/coremark-official/src/core_list_join.c:507-583 | one pass turns runs of k items into runs of 2k |
| ListCompare.Comparator.CalcFunc | jyd-tests/coremark-official/src/core_list_join.c:69-114 | an uncached item gets its value from the kernel that its low bits select, which reads and changes the memory blocks; the value is cached in the item and the outcome goes into the result block; a cached item is read and nothing changes |
| ListCompare.FunctionChosen | jyd-tests/coremark-official/src/core_list_join.c:79-111 | an uncached item of type t runs the state benchmark on 17t, but on no less than 0x22, if its function is 0, and the matrix benchmark on 17t if it is 1, and is its own outcome otherwise; the first non-zero outcome of each benchmark is kept and the outcome goes into the checksum |
| ListCompare.RegenRestores | jyd-tests/coremark-official/src/core_list_join.c:133-142 | the data that the list set-up gives is uncached, and regenerating a calculated item brings it back |
| ListCompare.ValueStays | jyd-tests/coremark-official/src/core_list_join.c:73-77 | once calculated, an item is cached with its high byte kept, and later calls return the same value and leave item and result block alone, whatever the result block is by then |
| ListCompare.CompareNodes | jyd-tests/coremark-official/src/core_list_join.c:120-142 | the three comparisons, by content, by index with regeneration and without effect, decide the order of the sort and keep the records of what was compared |
| CoreList.MergeTwo | jyd-tests/coremark-official/src/core_list_join.c:532-577 | the inner loop links exactly the merge of the two runs behind the tail and compares calculated items in list order |
| CoreList.OneBlock | jyd-tests/coremark-official/src/core_list_join.c:517-578 | stepping along and merging one block extends the pass by that block |
| CoreList.OnePass | jyd-tests/coremark-official/src/core_list_join.c:507-583 | one pass relinks the list to the merged order of all blocks |
| CoreList.Mergesort | jyd-tests/coremark-official/src/core_list_join.c:499-595 | a NULL-terminated list of the same nodes, sorted and stable for any total preorder, with data pointers kept; in a list of two or more every item has the data that its first comparison leaves |
| CoreList.SortByIdx | jyd-tests/coremark-official/src/core_list_join.c:133-142 | sorting by index with a NULL result block orders by index, keeps the order of nodes with equal indices and makes the low data byte equal to the high byte in every node of a list of two or more |
| CoreList.SortByContent | jyd-tests/coremark-official/src/core_list_join.c:69-126 | sorting by calculated values, whose calculation depends on the checksum and the memory that earlier calculations leave: each item is calculated once, the values and the final result block and memory are those of a calculation in the original list order, every item is cached with its high byte kept, and the nodes are sorted by value and stable |
| MergeSpec.AscendingUnique | jyd-tests/coremark-official/src/core_list_join.c:478-498 | there is only one sorted and stable arrangement of the nodes |
| CoreList.RestoreByIdx | jyd-tests/coremark-official/src/core_list_join.c:222-223 | sorting by index links the nodes in a given order if and only if the indices do not decrease along it and nodes of equal index stand in it as they stood in the list |
| CoreList.RestoredFromEveryOrder | jyd-tests/coremark-official/src/core_list_join.c:222-223 | so an order is restored from every reordering of the list if and only if its indices increase |
| CoreList.EqualIndicesKeepOrder | jyd-tests/coremark-official/src/core_list_join.c:222-223 | the comment promises the original state; two nodes of equal index come out in the order of the list |
| CoreList.InitialIndicesCollide | jyd-tests/coremark-official/src/core_list_join.c:288-303 | the list set-up gives the index 1 twice for seed 6 and a block of 400 bytes, and the index of the head again for seed 7 |
| ListBench.Find | jyd-tests/coremark-official/src/core_list_join.c:434-450 | the first item with the index, or with the low data byte, that is looked for, or none |
| ListBench.SearchOnce | jyd-tests/coremark-official/src/core_list_join.c:173-201 | one search reverses the list and moves the item after the one found behind the head |
| ListBench.AfterSearchIs | jyd-tests/coremark-official/src/core_list_join.c:173-201 | after one search the node that stood before the one found comes second, behind the node that was last, and the others are reversed; if the first node is found, or none, the list is only reversed |
| ListBench.FirstMatchIs | jyd-tests/coremark-official/src/core_list_join.c:434-450 | what a search finds, from the indices and low bytes alone: the first node with the index or, for a negative index, with the low byte, or none |
| ListBench.Searches | jyd-tests/coremark-official/src/core_list_join.c:171-202 | the list after all searches is exactly the one told by the indices and low bytes of the nodes: each search looks for its index or, while that is negative, for the low byte of its own number, reverses the list and moves the node after the one found behind the head; no item changes |
| ListBench.IdxCounts | jyd-tests/coremark-official/src/core_list_join.c:171-202 | after n searches the index looked for is the first one plus n, as long as that fits in 15 bits, and then the least 16-bit number; a negative one stays |
| ListBench.NothingFound | jyd-tests/coremark-official/src/core_list_join.c:171-202 | if no search finds anything the list is as it was after an even number of searches and reversed after an odd one |
| ListBench.SortAndRestore | jyd-tests/coremark-official/src/core_list_join.c:205-223 | sorting by content or not, removing and restoring an item and sorting by index, from any order: every data pointer and every item is as it was, and a given order comes out if and only if it holds the nodes by index, then by value, then by position; so every order of increasing indices comes back |
| ListBench.BenchList | jyd-tests/coremark-official/src/core_list_join.c:150-223 | the same for the whole benchmark, whose sorts start from the order that the searches leave, as told by the indices and low bytes of the nodes: a list of increasing indices is back to its original state, link by link |
| CoreList.RemoveAt | jyd-tests/coremark-official/src/core_list_join.c:376-389 | removing an item takes the next node out of the list and moves its data into the item |
| CoreList.RemoveAndUndo | jyd-tests/coremark-official/src/core_list_join.c:376-419 | undoing a removal restores every link and data pointer |
| CoreList.Reverse | jyd-tests/coremark-official/src/core_list_join.c:464-476 | the list holds the same nodes in reverse order |
| CoreList.ReverseTwice | jyd-tests/coremark-official/src/core_list_join.c:464-476 | reversing twice restores every link |
| UDivMod.CompareMaskDecides | abstract-machine/klib/src/int64.c:617-619 | the sign bit of d - r - 1 decides r >= d, also for divisors with the top bit set |
| UDivMod.ShiftSubtract | abstract-machine/klib/src/int64.c:602-624 | the shift-subtract loop ends with quotient and remainder |
| UDivMod.DivideByHigh | abstract-machine/klib/src/int64.c:451-512 | divisors with a zero low word: remainder zero, power of two and general case |
| UDivMod.DivideByLow | abstract-machine/klib/src/int64.c:513-563 | divisors with a zero high word: power of two and general case |
| UDivMod.DivideByBoth | abstract-machine/klib/src/int64.c:564-594 | divisors with both words non-zero |
| UDivMod.Udivmod | abstract-machine/klib/src/int64.c:417-625 | a = q * b + r with r < b for every dividend and every non-zero divisor of any double-word width |
| Int64.Udivmoddi4 | abstract-machine/klib/src/int64.c:417-625 | the same at 64 bits |
| Int64.Divide | abstract-machine/klib/src/int64.c:360-370 | the result is the truncating quotient if and only if the operands are not the least number and -1, where it is the dividend |
| Int64.Divdi3 | abstract-machine/klib/src/int64.c:360-370 | the same at 64 bits, with the dividend as the result for the excepted pair |
| Int64.Modulo | abstract-machine/klib/src/int64.c:384-395 | the remainder of truncating division, with the sign of the dividend |
| Int64.Moddi3 | abstract-machine/klib/src/int64.c:384-395 | the same at 64 bits |
| UDivMod.ClzIs | abstract-machine/klib/src/int64.c:631-660 | a non-zero word with that many leading zeros has its next bit set |
| UDivMod.CtzIs | abstract-machine/klib/src/int64.c:666-700 | a non-zero word shifted right by its trailing zeros is odd, and shifting it back restores it |
| Int64.ClzWord | abstract-machine/klib/src/int64.c:631-660 | the branch-free stages count the leading zeros of every non-zero word |
| Int64.CtzWord | abstract-machine/klib/src/int64.c:666-700 | the branch-free stages count the trailing zeros of every non-zero word |
| Int64.CtzDouble | abstract-machine/klib/src/int64.c:710-716 | trailing zeros of every non-zero double word |
| Int64.ClzDouble | abstract-machine/klib/src/int64.c:718-724 | leading zeros of every non-zero double word |
| SdbExpr.CheckParentheses | sdb/src/expr.cpp:169-184 | true exactly when the first token opens the parenthesis that the last one closes |
| SdbExpr.MainOpIsWeakest | sdb/src/expr.cpp:214-236 | on every token range the search returns m if and only if m is the last of the operators outside parentheses that bind weakest, or -1 and there is none |
| SdbExpr.FindMainOp | sdb/src/expr.cpp:214-236 | the loop finds that operator: outside parentheses, none of lower priority, and every later one of higher priority; -1 if there is none; which operators bind tighter is told by `SdbSyntax.FollowsGrammar` |
| SdbExpr.EvalSub | sdb/src/expr.cpp:244-320 | the recursive evaluation over token ranges computes the specified value or failure, which is the meaning of the tree that the tokens follow (`SdbSyntax.EvalFollowsParse`) |
| SdbExpr.ArithIs | sdb/src/expr.cpp:294-316 | the operators are those of 32-bit words: sum, difference and product modulo 2^32, quotient, and the truth values of equality, inequality and conjunction |
| SdbSyntax.EnclosedIffParen | sdb/src/expr.cpp:169-184 | on a printed tree the test recognises exactly the parenthesised trees |
| SdbSyntax.MainOpPrinted | sdb/src/expr.cpp:214-236 | on a printed tree the search finds the outermost operator |
| SdbSyntax.EvalFollowsParse | sdb/src/expr.cpp:244-320 | evaluation of any token list is the meaning of the tree it follows, and fails where there is none |
| SdbSyntax.TokensKept | sdb/src/expr.cpp:244-320 | that tree accounts for every token if and only if the parentheses balance and every dereference stands where an operand starts |
| SdbSyntax.ReadIsInverse | sdb/src/expr.cpp:81-148 | for balanced input from the tokeniser a tree is what is evaluated if and only if the tokens are its printing and it carries the parentheses its operators need |
| SdbSyntax.UnbalancedLosesTokens | sdb/src/expr.cpp:285-292 | `1)(*5` is evaluated like `*5` |
| SdbSyntax.AbortedJuxtaposed | sdb/src/expr.cpp:214-236 | on balanced input from the tokeniser the assertion in the operator search fails only if two operands stand side by side |
| SdbSyntax.AbortsExactly | sdb/src/expr.cpp:214-236 | if and only if, where every operator has its operands, registers are known and nothing is divided; such input has a value otherwise |
| SdbSyntax.FollowsGrammar | sdb/src/expr.cpp:186-236 | a tree carries the parentheses its operators need if and only if it is in the grammar that goes from conjunctions over equalities, sums and products to prefix operators, each binary level associating to the left |
| SdbSyntax.ReadsPrecedence | sdb/src/expr.cpp:186-236 | three operands without parentheses around them: products are read before sums, sums before equalities, equalities before conjunctions, and operators of one level from the left |
| SdbSyntax.SumOfProduct | sdb/src/expr.cpp:186-320 | x + y * z is the sum of x and the product, so 1 + 2 * 3 is 7 |
| SdbSyntax.ReadBack | sdb/src/expr.cpp:244-320 | a printed tree is read back as itself if and only if it carries the parentheses its operators need |
| SdbSyntax.EvalPrinted | sdb/src/expr.cpp:244-320 | evaluating the tokens of a tree of the grammar gives its meaning in 32-bit arithmetic; it fails exactly for unknown registers and zero divisors |
| SdbSyntax.ClassifyPrinted | sdb/src/expr.cpp:81-148 | the tokeniser tells dereference and multiplication apart as they were meant |
| SdbSyntax.EvalLexemes | sdb/src/expr.cpp:81-148 | from lexemes to value: classification followed by evaluation gives the meaning of the tree |
| SdbSyntax.ChainedDereferenceFails | sdb/src/expr.cpp:141-148 | two asterisks in a row are read as a dereference and a multiplication, so a double dereference fails |
| Crc.Crcu8 | jyd-tests/coremark-official/src/core_util.c:164-188 | eight turns of the loop feed the eight bits, lowest first |
| Crc.Crcu16 | jyd-tests/coremark-official/src/core_util.c:189-195 | two byte updates feed the sixteen bits |
| Crc.Crcu32 | jyd-tests/coremark-official/src/core_util.c:196-202 | the update of a word is the byte update folded over its four bytes, low byte first |
| Crc.FeedLinear | jyd-tests/coremark-official/src/core_util.c:164-188 | feeding is linear over exclusive-or |
| Crc.FeedBijective | jyd-tests/coremark-official/src/core_util.c:164-188 | whatever is fed acts as a bijection on the 16-bit register |
| Crc.BurstDetected | jyd-tests/coremark-official/src/core_util.c:164-202 | equal-length messages that differ only within sixteen adjacent bits get different checksums from any start |
| CrcNumbers.StepNumber | jyd-tests/coremark-official/src/core_util.c:164-188 | one turn on numbers: if the lowest bits of data and register differ the register is combined with 0x4002, halved and gets the top bit, otherwise it is halved |
| CrcNumbers.FeedNumber | jyd-tests/coremark-official/src/core_util.c:164-202 | feeding any bits is those turns on the number that the register stands for |
| TokenDfa.ScanStopsAtNul | jyd-tests/coremark-official/src/core_state.c:216-330 | a token holds no NUL: the scan never goes past the first one |
| TokenDfa.HitsOnce | jyd-tests/coremark-official/src/core_state.c:216-330 | no transition counter rises twice within one token |
| TokenDfa.StepsScan | nemu/src/isa/riscv32/inst.c:91-147 | a group of characters advances the scan of a token without changing its end, final state or counters |
| TokenGrammar.RunAccepts | jyd-tests/coremark-official/src/core_state.c:216-330 | the text of a token leads to a state if and only if it has its form: nothing, a sign, an optional sign and digits, the same with one dot anywhere among the digits, that and an E, that and a sign, that and digits; every other text is invalid |
| TokenGrammar.TokenClassified | jyd-tests/coremark-official/src/core_state.c:216-330 | every field in memory, up to its comma or the NUL, is classified by its text, and the scan goes past the comma; an invalid field is left right after its shortest prefix that no number begins with |
| TokenGrammar.TokenCounters | jyd-tests/coremark-official/src/core_state.c:216-330 | the counter of a state rises, once, if and only if some beginning of the field has the form of the state and the field has not; the one of invalid tokens, if the field goes wrong at once or after a full number; the one of full numbers never |
| NumericDfa.NextWithMask | nemu/src/isa/riscv32/inst.c:105-142 | the switch of the word step gives the next state and the mask of the counters that rise |
| NumericDfa.WordStep | nemu/src/isa/riscv32/inst.c:91-147 | the packed result holds state, consumed count, stop bit and mask of stepping through the group |
| NumericDfa.Unpack | jyd-tests/coremark-official/accel/xaccel_wrappers.c:136-171 | the shifts and masks of the wrappers read those four fields back, in both formats |
| DfaUnit.CoreStateTransition | jyd-tests/coremark-official/src/core_state.c:216-330 | one token: end pointer, final state and 32-bit counters as specified |
| DfaUnit.CommitMask | nemu/src/isa/riscv32/inst.c:432-439 | committing the mask raises each counter in it by one |
| DfaUnit.XdfaStep | nemu/src/isa/riscv32/inst.c:440-455 | a step reads up to two or four characters and never past the aligned word |
| DfaUnit.CounterUnit.Xdfa4hStep | nemu/src/isa/riscv32/inst.c:462-480 | the step that keeps a pending mask commits it, and the final state, exactly when the token ends |
| DfaUnit.CounterUnit.XdfaTransition | jyd-tests/coremark-official/accel/xaccel_wrappers.c:135-171 | scanning in groups with one commit gives the same end pointer, state and counters as the reference, and terminates |
| DfaUnit.CounterUnit.Xdfa4hTransition | jyd-tests/coremark-official/accel/xaccel_wrappers.c:173-186 | the same with both counter sets kept by the unit |
| DfaCircuit.TransitionMatches | npc/design/src/NumericTokenDfa.scala:20-45 | the table of the circuit is the transition function and its counter mask |
| DfaCircuit.CircuitMatches | npc/design/src/exu.scala:288-304 | the two-character stages in series compute the word step for every state, word and alignment |
| StateBench.CorruptBlock | jyd-tests/coremark-official/src/core_state.c:77-83 | every step-th non-comma character of the block, and no other, is combined with the low seed byte |
| StateBench.UndoCorruption | jyd-tests/coremark-official/src/core_state.c:97-103 | corrupting twice with one seed restores the block if and only if no touched character turns into a comma |
| StateBench.CoreBenchState | jyd-tests/coremark-official/src/core_state.c:45-111 | the whole benchmark: the memory corrupted with both seeds in turn, and the checksum of the counts of both scans, which `StateBench.BenchCrcMessage` spells out |
| CrcNumbers.ByteValue | jyd-tests/coremark-official/src/core_util.c:164-188 | the eight bits of a byte of a message have its value, lowest first |
| StateBench.WordBitsNumber | jyd-tests/coremark-official/src/core_util.c:196-202 | the bits fed for a word have its value, lowest first |
| StateBench.ChecksumFeeds | jyd-tests/coremark-official/src/core_state.c:105-109 | the checksum feeds one message to the register: final and transition count of each state in turn, each as four bytes, the lowest first |
| StateBench.BenchCrcMessage | jyd-tests/coremark-official/src/core_state.c:45-111 | for the whole benchmark that message holds, modulo 2^32, the number of tokens that end in each state and of the transitions of that state, over both scans |
| StateBench.CrcByBytes | jyd-tests/coremark-official/accel/xaccel_wrappers.c:188-199 | four one-byte updates are one word update |
| StateBench.XdfaBench | jyd-tests/coremark-official/accel/xaccel_wrappers.c:222-261 | the xdfa2 and xdfa4 versions leave the same memory and return the same checksum, of the same message, as the original |
| StateBench.Xdfa4hBench | jyd-tests/coremark-official/accel/xaccel_wrappers.c:264-282 | so does the version whose counters are kept by the instruction |
| MiniRv.TableEntry | abstract-machine/tools/minirv/gen-lut.c:22-24 | row and column of the shift tables at the address the expansions compute |
| MiniRv.SignTables | abstract-machine/tools/minirv/inst-replace.h:49-63 | the two sign tables decide signed and unsigned less-than from three sign bits |
| ByteShifts.SllFromBytes | abstract-machine/tools/minirv/inst-replace.h:412-430 | the four moved table entries add up, modulo 2^32, to the shifted word |
| ByteShifts.NoCarry | abstract-machine/tools/minirv/inst-replace.h:475-502 | none of the byte additions of a right shift carries, and the bytes make up the shift of the three lower bytes |
| ByteShifts.SraFromBytes | abstract-machine/tools/minirv/inst-replace.h:504-512 | with the arithmetic table for the top byte the sum is the arithmetic shift |
| ByteShifts.ShiftsScale | abstract-machine/tools/minirv/gen-lut.c:22-23 | the logical shifts multiply by a power of two, modulo 2^32, and divide by it |
| ByteShifts.SraFloors | abstract-machine/tools/minirv/gen-lut.c:24 | the arithmetic shift is division by a power of two, rounding down |
| MiniRv.DifferenceIs | abstract-machine/tools/minirv/inst-replace.h:110-115 | the sum with the complement and one is the difference modulo 2^32 |
| MiniRv.Machine.Not | abstract-machine/tools/minirv/inst-replace.h:629-657 | rd = complement of rs, gp restored |
| MiniRv.Machine.Sub | abstract-machine/tools/minirv/inst-replace.h:110-115 | rd = rs1 - rs2 modulo 2^32 |
| MiniRv.Machine.Slli | abstract-machine/tools/minirv/inst-replace.h:526-552 | rd = rs << imm for every amount below 32 |
| MiniRv.Machine.Slt | abstract-machine/tools/minirv/inst-replace.h:128-163 | rd = 1 if rs1 < rs2, signed or unsigned, and 0 otherwise; only rd, tp and gp change |
| MiniRv.Machine.GetShamt | abstract-machine/tools/minirv/inst-replace.h:384-390 | rd = low five bits of rs, through the and-table |
| MiniRv.Machine.ShiftLeft | abstract-machine/tools/minirv/inst-replace.h:399-430 | rd = rs1 << (rs2 mod 32); only rd, tp and gp change |
| MiniRv.Machine.AddEntries | abstract-machine/tools/minirv/inst-replace.h:475-502 | gp = shift of the three lower bytes, byte by byte |
| MiniRv.Machine.ShiftRight | abstract-machine/tools/minirv/inst-replace.h:432-524 | rd = rs1 >> (rs2 mod 32), logical or arithmetic; only rd, tp and gp change |
| MiniRv.Machine.ShiftRightImm | abstract-machine/tools/minirv/inst-replace.h:432-524 | the same for constant amounts, including the short path for 24 |
| Predictors.GSharePredictor.Update | branchsim/src/main.cc:186-189 | trains the indexed counter within 0..3 and pushes the outcome into the history |
| Predictors.LocalPredictor.Update | branchsim/src/main.cc:217-221 | trains the counter selected by the history of the branch, then pushes the outcome into that history |
| Predictors.TournamentPredictor.Update | branchsim/src/main.cc:256-270 | the chooser moves only when the predictors disagree, towards the right one; both predictors are trained |
| Predictors.GlobalHistory | branchsim/src/main.cc:186-189 | after every trace the global history is the last k outcomes |
| Predictors.LocalHistory | branchsim/src/main.cc:217-221 | after every trace each local history is the last k outcomes of the branches that share it |
| Predictors.PartsRunAlone | branchsim/src/main.cc:241-277 | inside the tournament both predictors evolve as they would alone |
| Predictors.TournamentErrorBounds | branchsim/src/main.cc:241-277 | tournament errors lie between the common errors and the sum of both standalone error counts less the common ones |
| Predictors.RunTournament | branchsim/src/main.cc:241-277 | a run of the object ends in the specified state with the specified number of errors |
| PredictorLaws.GshareLearns | branchsim/src/main.cc:177-198 | the prediction for a branch depends on the earlier outcomes that met the same counter, selected by address and last outcomes: one outcome, two alike in a row, or three alike and one exception decide it; without any it is not taken |
| PredictorLaws.HashSeparates | branchsim/src/main.cc:192-198 | in a table as large as the history allows two histories never share the counter of a branch, and two branches share one if and only if their addresses agree in the bits used |
| PredictorLaws.LocalLearns | branchsim/src/main.cc:205-234 | the same for the local predictor, whose counters are selected by the last outcomes of the branches of the same register |
| PredictorLaws.TournamentFollowsWinner | branchsim/src/main.cc:241-277 | the tournament gives the guess of the predictor that won the disputes of the same chooser counter, decided in the same way, and of gshare before the first dispute |
| RtlModel.BranchDecodes | branchsim/src/main.cc:28-36 | decoding an encoded branch gives its offset modulo 2^32 |
| RtlModel.JumpDecodes | branchsim/src/main.cc:38-46 | decoding an encoded jump gives its offset modulo 2^32 |
| RtlModel.RtlModelRunner.GetIndex | branchsim/src/main.cc:700-709 | the index is put together from the selected address bits, or is the masked address |
| RtlModel.RtlModelRunner.SkipsAllocation | branchsim/src/main.cc:628-651 | when a branch may not displace an entry, under each allocation policy |
| RtlModel.RtlModelRunner.Process | branchsim/src/main.cc:589-689 | one record: prediction, statistics, training and allocation as specified; what is predicted is told from the records by `RtlLaws` |
| RtlModel.RunModel | branchsim/src/main.cc:581-715 | a whole run ends in the state that the laws below describe |
| RtlLaws.IndexIs | branchsim/src/main.cc:700-709 | bit k of the index is the k-th selected address bit; without selection, in a buffer of 2^k entries, the index is the instruction number modulo that |
| RtlLaws.EntryReflects | branchsim/src/main.cc:628-688 | every entry remembers the record that the trace alone determines: the last one at its index that was not refused; not-taken branches are refused unless the policy is to allocate always or the entry is their own, and branches of other addresses are refused by a protected jump, once or always |
| RtlLaws.SkippedAreRefused | branchsim/src/main.cc:652-655 | the statistics count the refused records |
| RtlLaws.RememberedJump | branchsim/src/main.cc:589-606 | a direct jump or return that is remembered is predicted to go where it went |
| RtlLaws.ForgottenFallsThrough | branchsim/src/main.cc:589-606 | an address that is not remembered is predicted to fall through |
| RtlLaws.RememberedIndirect | branchsim/src/main.cc:589-606 | an indirect jump is never predicted as taken |
| RtlLaws.RememberedBranch | branchsim/src/main.cc:589-688 | a remembered branch is predicted by its own outcomes since it was allocated, or by those that met the same shared counter: one outcome, two alike in a row, or three alike and one exception decide it, and it goes to its own target or falls through |
| RtlLaws.SharedCounterOf | branchsim/src/main.cc:695-698 | in a table of 2^k counters two histories never share the counter of a branch, and two branches share one if and only if their addresses agree in the bits used |
| RtlLaws.HistoryRegister | branchsim/src/main.cc:633-638 | after every trace the history register is the last k branch outcomes |
| RtlLaws.JumpMissesAreFirst | branchsim/src/main.cc:589-620 | on a well-behaved trace a direct jump is mispredicted only if no earlier pass over it is remembered |
| RtlLaws.JumpsMissOnce | branchsim/src/main.cc:589-688 | on a well-behaved trace without shared entries every direct jump is mispredicted at most once |
| RtlModel.StatsAddUp | branchsim/src/main.cc:607-620 | on every trace: wrong = direction_wrong + target_wrong = sum over kinds, and no_prediction stays 0 |
| RtlModel.StatsCount | branchsim/src/main.cc:607-610 | total, total by kind and wrong count the records, the records of each kind and the mispredicted ones |
| RtlModel.EntryOrigin | branchsim/src/main.cc:673-688 | every valid entry was made by a record of the trace with its address, kind and target, and sits at the index of that address |
| RtlModel.TakenTargetRight | branchsim/src/main.cc:589-620 | on a well-behaved trace a taken transfer predicted as taken goes to the predicted address unless it is a return |
| RtlModel.WrongTargetsAreReturns | branchsim/src/main.cc:607-620 | on a well-behaved trace wrong targets occur on returns only |
| CacheSim.BlockOfIs | cachesim/src/main.cc:13-18 | the block of an address is the address divided by the block size |
| CacheSim.SameBlock | cachesim/src/main.cc:13-18 | index and tag are the low and the high part of the block number |
| CacheSim.AccessKeeps | cachesim/src/main.cc:57-67 | the test on the line decides a miss exactly, and filling it keeps every line equal to the last block with its index |
| CacheSim.ICacheSim.Access | cachesim/src/main.cc:57-67 | after every trace the miss count is the number of accesses whose index was last used by another block or by none |
| CacheSim.Inclusion | cachesim/src/main.cc:39-67 | what a cache holds, every cache with more blocks holds |
| CacheSim.MoreBlocksFewerMisses | cachesim/src/main.cc:122-129 | on every trace more blocks never give more misses |
| CacheSim.EveryBlockMissesOnce | cachesim/src/main.cc:57-67 | misses are at least the number of distinct blocks and at most the number of accesses |
| BramInit.BitsToHex | coe_replace/coe_replace.py:98-106 | the 64 digits denote exactly the 256 bits |
| BramInit.FillStrings | coe_replace/coe_replace.py:123-130 | after the loop position p of string s holds the bit that belongs there |
| BramInit.ComputeInit | coe_replace/coe_replace.py:109-145 | every data and parity string of a cell denotes the bits of its addresses, zero past the end of the word list |
| BramInit.IromPlaced | coe_replace/coe_replace.py:68-78 | every bit of each of the 8192 words has a place, inside the strings that the cells have |
| BramInit.IromFilled | coe_replace/coe_replace.py:68-78 | every position of every string is the place of exactly one bit of one word |
| BramInit.IromReadsBack | coe_replace/coe_replace.py:256-267 | the programmed cells read back as the first 8192 words |
| BramInit.DramPlaced | coe_replace/coe_replace.py:268-282 | every bit of every data word has a place, in both layouts |
| BramInit.DramFilled | coe_replace/coe_replace.py:268-282 | every position is the place of exactly one bit, in both layouts |
| BramInit.DramReadsBack | coe_replace/coe_replace.py:268-282 | the programmed data cells read back as the words |
| PrintRatio.Decimals | jyd-tests/coremark-official/src/ee_printf.c:304-313 | thirteen decimals by long division, with the exact remainder and no 64-bit overflow |
| PrintRatio.RoundByNextDigit | jyd-tests/coremark-official/src/ee_printf.c:315-323 | the thirteenth digit decides rounding half up of the first twelve |
| PrintRatio.RoundUp | jyd-tests/coremark-official/src/ee_printf.c:317-322 | adds one unit in the last place, carrying through nines into the whole part |
| PrintRatio.Ratio | jyd-tests/coremark-official/src/ee_printf.c:284-326 | numerator * scale / denominator rounded half up to twelve decimals, modulo 2^32 in the whole part; zero for a zero denominator |
| PrintRatio.Print | jyd-tests/coremark-official/src/ee_printf.c:284-326 | the printed line: prefix, whole part without leading zeros, point, twelve decimals and newline; read without the point it is the rounded quotient in units of 10^-12, modulo 2^32 in the whole part; the fixed text for a zero denominator |
| PrintRatio.LineUnique | jyd-tests/coremark-official/src/ee_printf.c:326 | the number determines the line |
| FormatUint.Format | jyd-tests/coremark-official/src/ee_printf.c:53-80 | the text is the numeral of the number in its base, without leading zeros, padded to the width on the side and with the character that the flags ask for; the digit buffer suffices |
| FormatUint.FieldUnique | jyd-tests/coremark-official/src/ee_printf.c:53-80 | number, base, width and flags determine the text |

## Left out

- Kconfig: printing, parsing and string comparison of symbols, list and range nodes, and the two rewritings that are not value-preserving for m (`expr_trans_bool`, `expr_trans_compare`).
- Kconfig memory management: apart from the in-place removal of duplicates, expressions are values, so freeing and sharing of nodes is not modelled.
- KconfigOperands.EqComparesMultisets: leaves out expressions in which y or n is an operand of && or ||; for those only soundness and reflexivity are proved.
- CoreMark list set-up and insertion, apart from the indices it gives; the counts and checksums that the list benchmark returns.
- SdbSyntax.AbortsExactly: where an operand is missing, a register unknown or a divisor zero, evaluation can fail before it reaches the juxtaposition, so there only one direction is stated (`SdbSyntax.AbortedJuxtaposed`).
- CoreList.Mergesort: the run length is unbounded here, while the code's 32-bit counter would wrap only for lists longer than 2^31 nodes.
- The per-character counting version of the token scanner (`__xaccel_xdfacnt_bench`), which repeats the reference loop with counters in the unit.
- DfaCircuit.CircuitMatches: the stage outputs are records instead of one concatenated word, the request and response states of the execution unit are not modelled, and its 12-bit counters are not related to the 32-bit ones of the emulator.
- The other custom instructions (multiply-accumulate, bit multiply, list reverse, matrix sum) and the rest of the emulator's decoder.
- The remaining miniRV expansions (logic operations, multiplication, division, loads and branches), which follow the same table pattern.
- MiniRv.Machine.La: the split of an address into its upper and lower part by the linker is one step here.
- The branch target buffer of the generic simulator, its algorithm table and trace files; only the hardware model and the direction predictors are covered.
- Cache statistics output and trace reading.
- COE parsing, Vivado scripts and the naming of the initialisation keys; strings are identified by their number.
- The interpretation of format strings by the formatter; the printed line is put together from its parts directly.
