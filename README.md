# pteros core in Dafny

A model of four pieces of the pteros molecular-modelling library, with proofs
about them:

- **The atom-selection language** (`src/core/selection_parser.cpp`), in five stages:
  - the tokenizer (`tokenize`, `end_token`, `at`), as a `Parser` class whose token lists it fills;
  - the classifier `recognize`;
  - the recursive-descent `Grammar`, as a class with a mutable cursor, plus a functional twin that states its results;
  - the purity analysis (`is_node_pure`) and the optimizer `do_optimization`, which freezes pure sub-trees into PRECOMPUTED lists and swaps AND operands;
  - `create_ast` and `apply`, and the evaluator (`eval_node` as imperative loops, `eval_numeric` as a function), all over index lists of `[0, Natoms)`.
- **The integer machinery of the spatial grid** (`src/core/grid_search.cpp`):
  - binning with periodic wrap or non-periodic discard;
  - the neighbour lists;
  - the visited-cell scheme that compares every cell pair once;
  - the thread partition of the longest axis;
  - the monotone "used" flags of the within search;
  - the marks by negation in `search_within`, and their restore;
  - the result assembly with sort, unique and set difference.
- **The edits of `System`** (`src/core/system.cpp`, `include/pteros/core/system.h`): the frame and atom operations, append, resindex assignment and the resindex sort. `System` is a class whose `atoms` and `traj` fields the methods reassign.
- **`Histogram`** (`src/core/utilities.cpp`): a class over two arrays with a `normalized` flag.

Modules follow the program:

| module | file | models |
|---|---|---|
| `Wrappers` | `wrappers.dfy` | Option, Result and Outcome helpers |
| `AtomData` | `atom_data.dfy` | atom records, vectors and boxes |
| `StdAlgorithms` | `std_algorithms.dfy` | `std::sort`, `unique`, `set_union`, `set_intersection` and `set_difference` on integers |
| `SelectionAst` | `selection_ast.dfy` | `AstNode`, the child accessors, purity and `recognize` |
| `SelectionTokens` | `selection_tokens.dfy` | the splitting rules of `tokenize` as a function over the text |
| `SelectionGrammar` | `selection_grammar.dfy` | the grammar as functions of the token list and the cursor |
| `SelectionEval` | `selection_eval.dfy` | `eval_numeric`, and `eval_node` as a reference function `Eval` |
| `SelectionOptimize` | `selection_optimize.dfy` | `do_optimization`, and its soundness |
| `SelectionExchange` | `selection_exchange.dfy` | a formed tree whose optimized form fails where the tree itself evaluates |
| `SelectionEvalNode` | `selection_eval_node.dfy` | `eval_node` as loops, each proved to compute `Eval` |
| `SelectionParser` | `selection_parser.dfy` | the `Grammar` class, and `Selection_parser` (tokenizer, `create_ast`, `apply`) |
| `GridCells` | `grid_cells.dfy` | binning, neighbour lists, wrap loop, thread partition |
| `GridPairs` | `grid_pairs.dfy` | population, the cell-pair searches and what the parts report |
| `GridContacts` | `grid_contacts.dfy` | what `do_search` finds: every contact of binned positions, the same for any thread split, none twice |
| `GridWithin` | `grid_within.dfy` | the within searches: witnesses, marks, flags and results |
| `GridSearch` | `grid_search.dfy` | the `Grid_searcher` class |
| `MolSystem` | `system.dfy` | the `System` class |
| `Utilities` | `histogram.dfy` | the `Histogram` class |

Calls into code this model cannot see are parameters of the model:

- **Selection:**
  - `parseInt` and `parseFloat` stand for `boost::lexical_cast`;
  - the regex matcher stands for `std::regex`;
  - the distance of a `dist point/vector/plane` node and the within-cutoff test are functions passed in the evaluation context.
- **Grid search:**
  - the cell of a point is given by the grid layout (box, bounds and extents);
  - the distance test is a `Metric`;
  - the number of hardware threads is a parameter.

## Model

| member | source | states |
|---|---|---|
| SelectionAst.ChildNode | src/core/selection_parser.cpp:165-167 | `child_node(i)` succeeds exactly when child i exists and is a sub-tree, and then is that sub-tree |
| SelectionAst.ChildAsInt | src/core/selection_parser.cpp:135-137 | the int literal of a sub-tree child; a child of any other kind is the `bad_get` error |
| SelectionAst.ChildAsFloatOrInt | src/core/selection_parser.cpp:155-163 | the float literal if there is one, otherwise the int literal widened to a real; an error only when neither exists |
| SelectionAst.PureIffNoCoordinateCode | src/core/selection_parser.cpp:169-177 | a node is pure exactly when no code of its sub-tree is coordinate dependent (X, Y, Z, WITHIN, POINT, VECTOR, PLANE) |
| SelectionAst.PureChild | src/core/selection_parser.cpp:693-705 | purity passes down to every sub-tree child, as the recursion of `is_node_pure` requires |
| SelectionAst.KeywordsIgnoreCase | src/core/selection_parser.cpp:187-190 | two spellings of a keyword that lower-case alike are classified alike |
| SelectionAst.PeriodicFlag | src/core/selection_parser.cpp:233-236 | `periodic`/`pbc` give TOK_PERIODIC carrying true, `nonperiodic`/`nopbc` give TOK_PERIODIC carrying false |
| SelectionAst.KeywordNode | src/core/selection_parser.cpp:191-254 | every other keyword gives a bare node of its code, whatever its case |
| SelectionAst.LiteralClasses | src/core/selection_parser.cpp:255-293 | a non-keyword is INT if it parses as an int, else FLOAT if it parses as a float, else STR when all alphanumeric and REGEX otherwise; STR and REGEX keep the original text |
| SelectionTokens.EndToken | src/core/selection_parser.cpp:304-312 | a pending token inside the text is closed and the next one starts after it; otherwise nothing changes |
| SelectionTokens.FindDelim | src/core/selection_parser.cpp:331-334 | the first position holding the closing quote, or the end of the text when there is none |
| SelectionTokens.Quoted | src/core/selection_parser.cpp:328-336 | the quoted text becomes one token without its quotes; no result exactly when no matching quote follows |
| SelectionTokens.Advance | src/core/selection_parser.cpp:338-396 | the checks on one character move the scan on by two characters at a two-character operator or `e-` and by one otherwise |
| SelectionTokens.SpansOrdered | src/core/selection_parser.cpp:314-408 | the tokens of a text are non-empty ranges of it, left to right and not overlapping |
| SelectionTokens.ScanQuoteFree | src/core/selection_parser.cpp:314-408 | a text without quotes always tokenizes |
| SelectionTokens.QuoteFreeTokens | src/core/selection_parser.cpp:338-396 | for a quote-free text: no token holds a blank; every other character is in a token; each of `+ * / ( ) -` and each lone `> < =` is a token of its own; `>= <= <> == !=` are single tokens; `e-` after a digit is never split |
| SelectionTokens.QuoteSwallowsNextChar | src/core/selection_parser.cpp:328-336 | in `"A" B` the scan as written glues the closing quote, the blank and `B` into one token, where the corrected scan yields `A` and `B` |
| SelectionTokens.QuoteABAsWritten | src/core/selection_parser.cpp:328-336 | the tail of the `"A" B` scan as written, from the closing quote on |
| SelectionTokens.QuoteABCorrected | src/core/selection_parser.cpp:328-336 | the tail of the corrected `"A" B` scan: after the closing quote the blank is skipped and `B` is a token |
| SelectionGrammar.Expect | src/core/selection_parser.cpp:434-446 | on a token of the expected code the cursor moves by exactly one and the token is taken; otherwise nothing changes, so a failed alternative never rewinds |
| SelectionGrammar.UnaryMinus | src/core/selection_parser.cpp:448-456 | unary_minus: the cursor never moves back or past the last token, and a match consumes at least one token; `UnaryMinusOver` gives the tree over any factor |
| SelectionGrammar.NumFactor | src/core/selection_parser.cpp:458-471 | num_factor, whose alternatives run in the source order, each from where the previous one stopped: the cursor never moves back or past the last token, and a match consumes at least one token; `SimpleExpr`, `ParenFactorOver`, `DistanceFactor` and `UnaryMinusOver` give the tree of each alternative |
| SelectionGrammar.DistanceRule | src/core/selection_parser.cpp:473-510 | distance_rule: the cursor never moves back or past the last token, and a match consumes at least one token; `DistanceOver` gives the tree for any shape, periodicity and factors |
| SelectionGrammar.NumTerm | src/core/selection_parser.cpp:512-528 | num_term: the cursor never moves back or past the last token, and a match consumes at least one token; a failure leaves the caller's tree; `LevelIsLeftFold` gives the tree of any run of factors |
| SelectionGrammar.NumExpr | src/core/selection_parser.cpp:530-547 | num_expr: the cursor never moves back or past the last token, and a match consumes at least one token; a failure leaves the caller's tree; `LevelIsLeftFold` gives the tree of any run of terms |
| SelectionGrammar.NumComparison | src/core/selection_parser.cpp:549-564 | num_comparison: the cursor never moves back or past the last token, and a match consumes at least one token; a failure leaves the caller's tree; `ComparisonShape` gives the tree |
| SelectionGrammar.LogicalExpr | src/core/selection_parser.cpp:566-582 | logical_expr: the cursor never moves back or past the last token, and a match consumes at least one token; a failure leaves the caller's tree; `LevelIsLeftFold` gives the tree of any run of operands |
| SelectionGrammar.LogicalNot | src/core/selection_parser.cpp:585-595 | logical_not: the cursor never moves back or past the last token, and a match consumes at least one token; `NotOver` gives the tree over any operand |
| SelectionGrammar.WithinRule | src/core/selection_parser.cpp:597-615 | within_rule: the cursor never moves back or past the last token, and a match consumes at least one token; `WithinOver` gives the tree for any distance, periodicity and operand |
| SelectionGrammar.ByResidue | src/core/selection_parser.cpp:617-626 | by_residue: the cursor never moves back or past the last token, and a match consumes at least one token; `ByOver` gives the tree over any operand |
| SelectionGrammar.KeywordTextList | src/core/selection_parser.cpp:628-642 | keyword_text_list: the cursor never moves back or past the last token, and a match consumes at least one token; `TextListRun` gives the tree of any run of strings and regexes |
| SelectionGrammar.IntOrRange | src/core/selection_parser.cpp:645-656 | int_or_range: the cursor never moves back or past the last token, and a match consumes at least one token; a failure changes nothing |
| SelectionGrammar.KeywordIntList | src/core/selection_parser.cpp:658-668 | keyword_int_list: the cursor never moves back or past the last token, and a match consumes at least one token; `IntListRun` gives the tree of any run of ints and ranges |
| SelectionGrammar.LogicalOperand | src/core/selection_parser.cpp:670-681 | logical_operand: the cursor never moves back or past the last token, and a match consumes at least one token; `ParenOperandOver`, `ComparisonOperand`, `AllOperand`, `NotOperand`, `WithinOperand`, `ByOperand`, `TextListOperand` and `IntListOperand` give the tree of each alternative |
| SelectionGrammar.Run | src/core/selection_parser.cpp:683-687 | run parses from the first token, and the cursor it returns stays within the tokens |
| SelectionGrammar.OperandNoStart | src/core/selection_parser.cpp:670-681 | at AND, OR, OF, `)` or the end an operand fails without moving the cursor |
| SelectionGrammar.SumIsLeftAssociative | src/core/selection_parser.cpp:530-547 | `a0 op1 a1 … opn an` with `+`/`-` and int-token operands parses to the left fold `(…(a0 op1 a1) …) opn an`; `LevelIsLeftFold` is the general form |
| SelectionGrammar.ProductIsLeftAssociative | src/core/selection_parser.cpp:512-528 | the same for `*` and `/` over int tokens; `LevelIsLeftFold` is the general form |
| SelectionGrammar.LogicIsLeftAssociative | src/core/selection_parser.cpp:566-582 | `and`/`or` are one left-associative level over `all` operands: `A or B and C` is `(A or B) and C`; `LevelIsLeftFold` is the general form |
| SelectionGrammar.ProductInsideSum | src/core/selection_parser.cpp:512-547 | `*` binds tighter than `+` on int tokens: `a + b * c` is `a + (b * c)`; `SumOfProducts` is the general form |
| SelectionGrammar.ProductBeforeSum | src/core/selection_parser.cpp:512-547 | `a * b + c` is `(a * b) + c` on int tokens; `SumOfProducts` is the general form |
| SelectionGrammar.RangeForms | src/core/selection_parser.cpp:645-656 | `i1 - i2` and `i1 to i2` give the same TO node over `(i1, i2)` |
| SelectionGrammar.TrailingOperator | src/core/selection_parser.cpp:566-582 | an `and`/`or` with no operand after it is consumed and the tree so far is kept |
| SelectionGrammar.TrailingAndAccepted | src/core/selection_parser.cpp:566-582 | `name CA and` parses, to the end of the tokens, as `name CA` |
| SelectionGrammar.BareKeywordFails | src/core/selection_parser.cpp:628-668 | a list keyword with nothing after it fails, with the cursor past the keyword |
| SelectionGrammar.UnaryMinusOver | src/core/selection_parser.cpp:448-471 | MINUS followed by any factor f is UNARY_MINUS with f as its last child, ending where f ends; num_factor at MINUS gives the same, since every earlier alternative fails in place |
| SelectionGrammar.ParenFactorOver | src/core/selection_parser.cpp:458-471 | `(` followed by any expression e and then `)` is the factor e, ending past the `)` |
| SelectionGrammar.DistanceFactor | src/core/selection_parser.cpp:458-471 | at DIST, a distance that parses is the factor, with the tree and cursor distance_rule gives |
| SelectionGrammar.FactorsChain | src/core/selection_parser.cpp:484-496 | factors in a row, each starting where the one before ended, are the arguments of a distance shape, in order, ending where the last ends |
| SelectionGrammar.DistanceOver | src/core/selection_parser.cpp:473-510 | DIST, an optional PERIODIC, then POINT with any three factors or VECTOR/PLANE with any six: the shape token over the factors in order, with the periodicity token last when it is there |
| SelectionGrammar.NotOver | src/core/selection_parser.cpp:585-595 | NOT followed by any operand o is NOT over o, ending where o ends; o is parsed from the caller's variable |
| SelectionGrammar.WithinOver | src/core/selection_parser.cpp:597-615 | WITHIN, an int or float distance d, optional PERIODIC, OF and any operand o: WITHIN over (d, o), with the periodicity token last when it is there |
| SelectionGrammar.ByOver | src/core/selection_parser.cpp:617-626 | BY RESIDUE followed by any operand o is BY over o, ending where o ends |
| SelectionGrammar.TextLoopRun | src/core/selection_parser.cpp:633-640 | the loop takes every STR and REGEX token of a run, in order, as children, and stops at the first other token |
| SelectionGrammar.TextListRun | src/core/selection_parser.cpp:628-642 | NAME/RESNAME/TAG/CHAIN over every string and regex after it, in order; the rule succeeds exactly when the keyword ends up with children |
| SelectionGrammar.IntOrRangeTree | src/core/selection_parser.cpp:645-656 | an int or range that parses does not depend on the variable it is handed |
| SelectionGrammar.IntLoopRun | src/core/selection_parser.cpp:661-666 | the loop takes every int and range of a run, in order, as children, and stops where no int starts |
| SelectionGrammar.IntListRun | src/core/selection_parser.cpp:658-668 | RESID/RESINDEX/INDEX over every int and range after it, in order; the rule succeeds exactly when the keyword ends up with children |
| SelectionGrammar.ParenOperandOver | src/core/selection_parser.cpp:670-681 | `(` followed by any logical expression e and then `)` is the operand e, ending past the `)` |
| SelectionGrammar.ComparisonOperand | src/core/selection_parser.cpp:670-681 | not at `(`, a comparison that parses is the operand |
| SelectionGrammar.KeywordOperand | src/core/selection_parser.cpp:670-681 | at a token that starts no factor and is not ALL, the operand is what the alternatives from NOT on give, the earlier ones failing in place |
| SelectionGrammar.NotOperand | src/core/selection_parser.cpp:585-681 | NOT followed by any operand o is the operand NOT over o |
| SelectionGrammar.WithinOperand | src/core/selection_parser.cpp:670-681 | at WITHIN, a within that parses is the operand |
| SelectionGrammar.ByOperand | src/core/selection_parser.cpp:670-681 | at BY, a by-residue that parses is the operand |
| SelectionGrammar.TextListOperand | src/core/selection_parser.cpp:670-681 | at a text keyword, a text list that parses is the operand |
| SelectionGrammar.IntListOperand | src/core/selection_parser.cpp:670-681 | at an int keyword the operand is the int list, whether it parses or not |
| SelectionGrammar.TermLoopChain | src/core/selection_parser.cpp:512-528 | from any operator of a run of factors, the loop of num_term folds the rest of the run from the left onto the tree built so far |
| SelectionGrammar.ExprLoopChain | src/core/selection_parser.cpp:530-547 | the same for the loop of num_expr over terms |
| SelectionGrammar.LogicLoopChain | src/core/selection_parser.cpp:566-582 | the same for the loop of logical_expr over operands |
| SelectionGrammar.LevelIsLeftFold | src/core/selection_parser.cpp:512-582 | num_term, num_expr and logical_expr are left-associative over any operands: a run `t0 op1 t1 … opn tn`, each operand parsed by the rule below from the variable the loop hands it, parses to `(…(t0 op1 t1) …) opn tn` and ends where the run ends |
| SelectionGrammar.ProductOperand | src/core/selection_parser.cpp:512-528 | a run of factors is a term operand of a sum, whatever variable it is handed |
| SelectionGrammar.SumOfProducts | src/core/selection_parser.cpp:512-547 | `*` and `/` bind tighter than `+` and `-`: when every piece between the `+`/`-` tokens of a run is a run of factors, the sum is the left fold of the products, each the left fold of its factors |
| SelectionGrammar.SimpleExpr | src/core/selection_parser.cpp:458-547 | a number, coordinate or attribute token with no arithmetic operator after it is a whole factor and a whole expression, the token itself |
| SelectionGrammar.UnaryMinusShape | src/core/selection_parser.cpp:448-456 | `-5` is a UNARY_MINUS node whose one child is the int token |
| SelectionGrammar.ParenFactorShape | src/core/selection_parser.cpp:458-471 | `(a)` as a factor is `a`, the parentheses consumed |
| SelectionGrammar.ThreeFactors | src/core/selection_parser.cpp:473-510 | three int tokens are three factors, in order |
| SelectionGrammar.DistancePointShape | src/core/selection_parser.cpp:473-510 | `dist point a b c` is the POINT token over `a`, `b`, `c` |
| SelectionGrammar.DistancePeriodicShape | src/core/selection_parser.cpp:473-510 | `dist pbc point a b c` is POINT over `a`, `b`, `c` and then the periodicity token |
| SelectionGrammar.ComparisonShape | src/core/selection_parser.cpp:549-564 | `a op b` for each of `== != < > <= >=` is the operator node over `(a, b)`, left side first |
| SelectionGrammar.XBelowFiveParses | src/core/selection_parser.cpp:549-687 | `x < 5` parses, to the end of the tokens, to LT(X, 5) |
| SelectionGrammar.NameList | src/core/selection_parser.cpp:628-642 | `name s` not followed by another string is the list NAME(s) |
| SelectionGrammar.NameOperand | src/core/selection_parser.cpp:670-681 | ... and the operand NAME(s), the earlier alternatives failing in place |
| SelectionGrammar.NotShape | src/core/selection_parser.cpp:585-595 | `not all` is NOT(ALL) |
| SelectionGrammar.WithinShape | src/core/selection_parser.cpp:597-615 | `within 3 of name CA` is WITHIN(3, NAME(CA)) |
| SelectionGrammar.WithinPeriodicShape | src/core/selection_parser.cpp:597-615 | `within d pbc of all` is WITHIN(d, ALL, pbc): the flag child goes after the operand |
| SelectionGrammar.ByResidueShape | src/core/selection_parser.cpp:617-626 | `by residue name CA` is BY(NAME(CA)) |
| SelectionGrammar.TextListShape | src/core/selection_parser.cpp:628-642 | `name s1 s2` is NAME(s1, s2), strings and regexes in order |
| SelectionGrammar.IntListShape | src/core/selection_parser.cpp:645-668 | `index 1 2-5` is INDEX(1, TO(2, 5)) |
| SelectionGrammar.ParenOperandShape | src/core/selection_parser.cpp:670-681 | `(all)` as an operand is ALL, the parentheses consumed |
| SelectionEval.Select | src/core/selection_parser.cpp:924-949 | ascending without repeats, and exactly the atoms below m that pass the test |
| SelectionEval.DivOperands | src/core/selection_parser.cpp:519-525 | the corrected DIV on the tree of `a / b`: a zero `b` is the division-by-zero error, otherwise the value is a / b |
| SelectionEval.DivAsWritten | src/core/selection_parser.cpp:1284-1287 | DIV as written: a value only when both children are sub-trees |
| SelectionEval.DivIsReversed | src/core/selection_parser.cpp:1284-1287 | as written `6 / 2` evaluates to 2/6; the corrected DIV gives 3 |
| SelectionEval.PureValueIgnoresCoordinates | src/core/selection_parser.cpp:1257-1287 | a pure arithmetic node has the same value at an atom whatever the coordinates and the distance function |
| SelectionEval.RangeSelect | src/core/selection_parser.cpp:1022-1029 | exactly the valid atoms whose field lies in lo..hi |
| SelectionEval.IndexRange | src/core/selection_parser.cpp:1070-1077 | ascending without repeats, exactly the values of lo..hi inside `[0, Natoms)` |
| SelectionEval.EvalPrecomputed | src/core/selection_parser.cpp:861-873 | PRECOMPUTED gives its stored list, or under a subspace the sorted atoms in both |
| SelectionEval.EvalOr | src/core/selection_parser.cpp:890-903 | OR gives the sorted union of what its operands select under the same subspace |
| SelectionEval.EvalAnd | src/core/selection_parser.cpp:905-919 | AND evaluates the right operand over the left result and gives the sorted atoms in both |
| SelectionEval.AndIsIntersection | src/core/selection_parser.cpp:905-919 | handing the left result down as a subspace gives, atom by atom, the plain intersection of the two operands over all atoms |
| SelectionEval.SubspaceIrrelevant | src/core/selection_parser.cpp:861-1253 | on atoms that are candidates under both, a node selects the same whichever subspace it gets: the subspace only saves work |
| SelectionEval.EvalNot | src/core/selection_parser.cpp:875-888 | NOT gives every atom of `[0, Natoms)` its operand does not select, ascending, also for an empty operand |
| SelectionEval.GapFillIsComplement | src/core/selection_parser.cpp:881-886 | on a non-empty sorted operand of valid indices the gap filling is exactly the complement |
| SelectionEval.EvalListInRange | src/core/selection_parser.cpp:1059-1081 | a list node, INDEX included, selects valid atom indices only, and exactly the atoms its children contribute |
| SelectionEval.IndexValue | src/core/selection_parser.cpp:1059-1081 | an INDEX value outside `[0, Natoms)` selects nothing; a valid one selects itself |
| SelectionEval.IndexRangeValue | src/core/selection_parser.cpp:1059-1081 | an INDEX range keeps exactly its values inside `[0, Natoms)`, ascending |
| SelectionEval.RangeIsList | src/core/selection_parser.cpp:1011-1033 | a range child selects exactly what the list of all its values selects, in the same order: `resid 1-5`, `resid 1 to 5` and `resid 1 2 3 4 5` agree |
| SelectionEval.EvalBy | src/core/selection_parser.cpp:1128-1149 | BY RESIDUE gives, ascending and without duplicates, every atom of the whole system sharing a resindex with an atom of the operand |
| SelectionEval.EvalComparison | src/core/selection_parser.cpp:1158-1253 | a comparison keeps exactly the candidates (all atoms, or the subspace) on which both sides have values satisfying the relation, every candidate having both values; never more than the candidates, and over all atoms ascending without repeats |
| SelectionEval.EvalWithin | src/core/selection_parser.cpp:1083-1126 | WITHIN is ascending and duplicate-free, holds every atom of its operand (include_self) and exactly the candidates near one of them, the boundary distance included; this is the corrected within, which keeps candidates the source's grid drops on the upper face of the overlap box (see Findings) |
| SelectionEval.NotAsWritten | src/core/selection_parser.cpp:875-888 | NOT as written: the gap filling is an error exactly when the operand is empty, where it reads `res1[0]` |
| SelectionEval.NotOfNothing | src/core/selection_parser.cpp:881-886 | `not name XYZ` with no atom named XYZ gives the written gap filling an empty list |
| SelectionEval.PrecomputedAsWritten | src/core/selection_parser.cpp:861-873 | PRECOMPUTED as written, `set_intersection` straight on the stored list and the subspace: it keeps only atoms of both |
| SelectionEval.PrecomputedSortedAgrees | src/core/selection_parser.cpp:861-873 | on sorted lists the written intersection is the intended one |
| SelectionEval.PrecomputedUnsortedLoses | src/core/selection_parser.cpp:861-873 | the unsorted subspace `[1, 0]` and the list `[0]` share 0, yet the written intersection is empty |
| SelectionEval.ByAsWritten | src/core/selection_parser.cpp:1128-1149 | BY as written, the operand evaluated under the enclosing subspace: still ascending, without repeats and valid |
| SelectionEval.BySubspaceLoses | src/core/selection_parser.cpp:1128-1149 | in `name CA and by residue x < 5` the written BY misses the residue whose only atom with x < 5 is not the CA |
| SelectionOptimize.Shape | src/core/selection_parser.cpp:736-812 | the four outcomes: a literal is kept; a pure unary minus over a literal is folded into the negated literal; a pure node that freezes becomes PRECOMPUTED with no children and its selection over all atoms; any other keeps code and list and each child takes one step |
| SelectionOptimize.KidsOf | src/core/selection_parser.cpp:788-803 | the children the optimizer descends into are the node's own, as many, the first two exchanged for an AND that passes the test |
| SelectionOptimize.DescendStep | src/core/selection_parser.cpp:806-809 | a descended node keeps its code and list, and each child takes one optimizing step |
| SelectionOptimize.EvalInRange | src/core/selection_parser.cpp:854-1255 | over a formed tree and valid candidates every node selects valid atom indices only |
| SelectionOptimize.OptimizeFormed | src/core/selection_parser.cpp:736-812 | optimizing a formed tree gives a formed tree |
| SelectionOptimize.OptimizeNumeric | src/core/selection_parser.cpp:736-812 | an arithmetic node keeps its value at every atom where both forms have one |
| SelectionOptimize.OptimizeSound | src/core/selection_parser.cpp:736-812 | on every candidate of both subspaces an optimized formed tree selects what the original selects, whenever both evaluate without error |
| SelectionOptimize.OptimizeKeepsSelection | src/core/selection_parser.cpp:736-812 | a formed tree and its corrected optimized form select the same atoms of the whole system, whenever both evaluate without error |
| SelectionExchange.ExchangeAddsError | src/core/selection_parser.cpp:786-803 | `not x < 5 and x/x > 0 and index 0 2` over atoms with x = 10, 0, 1: the formed tree evaluates; its optimized form moves `index 0 2` to the front of the AND, and that form fails with a division by zero |
| SelectionOptimize.ValueLeaf | src/core/selection_parser.cpp:736-812 | X and BETA are kept by the corrected optimizer; as written, the pure BETA is frozen into PRECOMPUTED |
| SelectionOptimize.FrozenBetaFails | src/core/selection_parser.cpp:736-812 | in `x < beta` the written optimizer freezes BETA into a PRECOMPUTED node with no value, so the optimized comparison fails where the original selects atoms |
| SelectionOptimize.FrozenFlagFails | src/core/selection_parser.cpp:736-812 | in `within 0.25 nopbc of name CA` the written optimizer freezes the flag child, so the optimized WITHIN fails where the original succeeds |
| SelectionEvalNode.SelectAtoms | src/core/selection_parser.cpp:924-949 | the loop over all atoms computes `Select` |
| SelectionEvalNode.PushRange | src/core/selection_parser.cpp:881-886 | the push loop appends exactly the indices lo..hi-1 |
| SelectionEvalNode.GapFill | src/core/selection_parser.cpp:881-886 | the three gap loops over a sorted non-empty operand give the indices below its first element, between each two neighbours and after the last |
| SelectionEvalNode.NotOfNone | src/core/selection_parser.cpp:875-888 | NOT of an empty operand gives every atom |
| SelectionEvalNode.NotEval | src/core/selection_parser.cpp:875-888 | NOT by gap filling computes `Eval` on a formed node, its error included |
| SelectionEvalNode.OrEval | src/core/selection_parser.cpp:890-903 | OR by sort and `set_union` computes `Eval` on a formed node |
| SelectionEvalNode.AndEval | src/core/selection_parser.cpp:905-919 | AND with the left result as subspace, then sort and `set_intersection`, computes `Eval` on a formed node |
| SelectionEvalNode.RangeLoop | src/core/selection_parser.cpp:1022-1029 | the `for(k=i1;k<=i2;++k)` loop over the atoms computes `RangeSelect` |
| SelectionEvalNode.IndexLoop | src/core/selection_parser.cpp:1070-1077 | the INDEX range loop keeps only valid indices, as `IndexRange` |
| SelectionEvalNode.TextEval | src/core/selection_parser.cpp:925-997 | a string child compares by equality and a regex child by the matcher, over all atoms |
| SelectionEvalNode.IntEval | src/core/selection_parser.cpp:1011-1057 | an int child of RESID or RESINDEX, or on `bad_get` a range child |
| SelectionEvalNode.IndexEval | src/core/selection_parser.cpp:1059-1081 | an INDEX child or range, keeping only valid indices |
| SelectionEvalNode.ListEval | src/core/selection_parser.cpp:925-1081 | a list node appends what each child selects, in child order; the first error stops it |
| SelectionEvalNode.WithinEval | src/core/selection_parser.cpp:1083-1126 | WITHIN evaluates its operand over all atoms, then searches from the candidates, and computes `Eval` on a formed node, so the corrected within of `SelectionEval.EvalWithin` |
| SelectionEvalNode.ByEval | src/core/selection_parser.cpp:1128-1149 | BY collects the resindices of its operand, then keeps every atom in one of them, and computes `Eval` on a formed node |
| SelectionEvalNode.KeepStops | src/core/selection_parser.cpp:1158-1253 | an error at some candidate is the error of the whole comparison |
| SelectionEvalNode.CompareEval | src/core/selection_parser.cpp:1158-1253 | the candidate loop of a comparison computes `Eval` |
| SelectionEvalNode.EvalNode | src/core/selection_parser.cpp:854-1255 | `eval_node` on a formed tree and subspace computes `Eval` |
| SelectionParser.Grammar.Expect | src/core/selection_parser.cpp:434-446 | the class's `expect` moves the cursor exactly as `SelectionGrammar.Expect` |
| SelectionParser.Grammar.NumTerm | src/core/selection_parser.cpp:512-528 | the loop of num_term computes `SelectionGrammar.NumTerm` |
| SelectionParser.Grammar.NumExpr | src/core/selection_parser.cpp:530-547 | the loop of num_expr computes `SelectionGrammar.NumExpr` |
| SelectionParser.Grammar.NumComparison | src/core/selection_parser.cpp:549-564 | the rule computes `SelectionGrammar.NumComparison` |
| SelectionParser.Grammar.DistanceRule | src/core/selection_parser.cpp:473-510 | the rule computes `SelectionGrammar.DistanceRule` |
| SelectionParser.Grammar.LogicalExpr | src/core/selection_parser.cpp:566-582 | the loop of logical_expr computes `SelectionGrammar.LogicalExpr` |
| SelectionParser.Grammar.WithinRule | src/core/selection_parser.cpp:597-615 | the rule computes `SelectionGrammar.WithinRule` |
| SelectionParser.Grammar.KeywordTextList | src/core/selection_parser.cpp:628-642 | the rule computes `SelectionGrammar.KeywordTextList` |
| SelectionParser.Grammar.IntOrRange | src/core/selection_parser.cpp:645-656 | the rule computes `SelectionGrammar.IntOrRange` |
| SelectionParser.Grammar.KeywordIntList | src/core/selection_parser.cpp:658-668 | the rule computes `SelectionGrammar.KeywordIntList` |
| SelectionParser.Grammar.LogicalOperand | src/core/selection_parser.cpp:670-681 | the rule computes `SelectionGrammar.LogicalOperand` |
| SelectionParser.Grammar.Run | src/core/selection_parser.cpp:683-687 | the class's `run` from the current cursor computes `SelectionGrammar.LogicalExpr` and returns the cursor it reached |
| SelectionParser.Rejects | src/core/selection_parser.cpp:714-719 | the corrected syntax test: the top rule failed or stopped short of the last token |
| SelectionParser.RejectsAsWritten | src/core/selection_parser.cpp:714-719 | the written test: only a parse that stops short of the last token is an error |
| SelectionParser.BareKeywordAccepted | src/core/selection_parser.cpp:714-719 | a bare `name` passes the written test and fails the corrected one |
| SelectionParser.CaretLine | src/core/selection_parser.cpp:716-717 | the caret line has one `~` per column before the error, then `^` |
| SelectionParser.Caret | src/core/selection_parser.cpp:716-717 | the caret loop draws `CaretLine` |
| SelectionParser.Parser.EndToken | src/core/selection_parser.cpp:304-312 | the tokens and token ends grow exactly as `SelectionTokens.EndToken` says |
| SelectionParser.Parser.Quote | src/core/selection_parser.cpp:328-336 | the quote branch succeeds exactly when `Quoted` does, and then leaves the scan where `Quoted` does |
| SelectionParser.Parser.Checks | src/core/selection_parser.cpp:338-396 | the checks on one character leave the scan where `Advance` does |
| SelectionParser.Parser.Tokenize | src/core/selection_parser.cpp:314-408 | `tokenize` succeeds exactly when the splitting has a result; the tokens are the classified spans and the ends are appended to the old ones |
| SelectionParser.Parser.CreateAst | src/core/selection_parser.cpp:707-734 | the tree is what `logical_expr` builds from the first token. It fails exactly when the corrected test rejects, with the quoted text and the caret under the end of the last token reached. On success the token lists are freed and the coordinate flag is raised for an impure tree |
| SelectionParser.Parser.Apply | src/core/selection_parser.cpp:814-852 | a coordinate-dependent tree is optimized once. On a formed tree the result is the sorted `Eval` of the stored tree, and it selects the same atoms as the unoptimized tree evaluated over all atoms |
| GridCells.Overlap1d | src/core/grid_search.cpp:39-56 | `(max(a1,b1), min(a2,b2))` when the intervals meet, `(0, 0)` otherwise |
| GridCells.OverlapInside | src/core/grid_search.cpp:39-56 | the overlap lies inside both intervals |
| GridCells.CMod | src/core/grid_search.cpp:804-809 | C++ `%` truncates: the remainder has the sign of the dividend |
| GridCells.WrapIndex | src/core/grid_search.cpp:804-809 | the wrap loop ends with the index in `[0, N)` and congruent to the start modulo N |
| GridCells.BinOf | src/core/grid_search.cpp:761-815 | a point is wrapped into the grid when periodic and discarded outside a non-periodic grid |
| GridCells.NeighboursShape | src/core/grid_search.cpp:1258-1321 | `get_nlist`: no cell twice, at most 26, and exactly the cells of the grid other than c that are next to c on every axis, with wrap when periodic |
| GridCells.NeighboursSymmetric | src/core/grid_search.cpp:1258-1321 | b is in the neighbour list of a exactly when a is in that of b |
| GridCells.BeforeTotal | src/core/grid_search.cpp:954-971 | the loop order over the cells is total |
| GridCells.MaxDim | src/core/grid_search.cpp:945-947 | the first axis of largest extent |
| GridCells.ThreadCount | src/core/grid_search.cpp:949 | the smaller of the longest extent and the hardware thread count |
| GridCells.PartitionRanges | src/core/grid_search.cpp:977-985 | the ranges run contiguously from 0 to the extent; every thread but the last gets the extent divided by nt cells; all are non-empty when nt is at most the extent |
| GridCells.SearchBranch | src/core/grid_search.cpp:555-557 | the corrected test: parallel only when nt > 1 |
| GridCells.ZeroThreadsGoParallel | src/core/grid_search.cpp:951 | a hardware thread count of 0 takes the parallel branch with nt == 0 |
| GridCells.ParallelPartsNonEmpty | src/core/grid_search.cpp:977-985 | under the corrected test the parallel branch has between 1 and extent threads, so its ranges are all non-empty |
| GridCells.PointBinMissesNeighbour | src/core/grid_search.cpp:147-149 | on 10 cells over [0, 1] the query 0.55 goes to cell 4 while an atom at 0.64, within a cutoff of 0.1, is in cell 6, which is not searched |
| GridCells.BinNear | src/core/grid_search.cpp:761-815 | binned with N, two coordinates less than one cell width apart land in neighbouring cells of a non-periodic axis |
| GridPairs.ResizeKeeps | src/core/grid_search.cpp:706-724 | after resize a cell in both the old and new extents keeps its contents, and a new cell is empty |
| GridPairs.OneCell | src/core/grid_search.cpp:761-815 | with periodicity every point is in exactly one cell; without, in at most one, exactly when its cell falls in the grid |
| GridPairs.CrossMembers | src/core/grid_search.cpp:1222-1256 | `get_side_*` reports a bond for each pair of entries, one from each cell, within the cutoff, and nothing else |
| GridPairs.TriangleMembers | src/core/grid_search.cpp:1183-1219 | `get_central_1` reports a bond for each pair of positions c1 < c2 within the cutoff, and nothing else |
| GridPairs.TriangleOrdered | src/core/grid_search.cpp:1183-1219 | each pair of positions c1 < c2 of a cell is reported at most once, in ascending order |
| GridPairs.PartBondsMembers | src/core/grid_search.cpp:877-926 | a part reports a bond exactly when some cell of the part reports it |
| GridPairs.SerialPairOnce | src/core/grid_search.cpp:954-971 | the serial search compares every pair of neighbouring cells exactly once, from whichever comes first |
| GridPairs.PartitionCovers | src/core/grid_search.cpp:977-985 | every position of the axis falls in exactly one range |
| GridPairs.PartsPairOnce | src/core/grid_search.cpp:877-926 | split between threads, the search still compares every pair of neighbouring cells exactly once |
| GridContacts.OnePart | src/core/grid_search.cpp:951-971 | the serial search is one part spanning the whole x axis, a valid split |
| GridContacts.SlotIn | src/core/grid_search.cpp:977-985 | a position of the split axis lies in the range of the thread that `Slot` names |
| GridContacts.PartOfUnique | src/core/grid_search.cpp:977-985 | a cell belongs to one thread's part only |
| GridContacts.SerialAhead | src/core/grid_search.cpp:877-926 | in the one-part split a cell compares a neighbour exactly when that neighbour comes later in loop order |
| GridContacts.SerialIsOnePart | src/core/grid_search.cpp:951-971 | the serial bonds are those of the one-part split |
| GridContacts.AheadOnce | src/core/grid_search.cpp:877-926 | under any split, of two neighbouring cells exactly one compares the other |
| GridContacts.SplitMembers | src/core/grid_search.cpp:973-1020 | the threads together report a bond exactly when some cell of the grid reports it in its own part |
| GridContacts.SidesMembers | src/core/grid_search.cpp:897-921 | the side searches of a cell report a bond exactly when one compared neighbour's side search does |
| GridContacts.CellBondsMembers | src/core/grid_search.cpp:892-921 | a cell reports a bond exactly when its central search or the side search of a compared neighbour in the grid does |
| GridContacts.SplitFindsAll | src/core/grid_search.cpp:877-1020 | with the grids populated and points within the cutoff in neighbouring cells, a split reports a bond exactly when it is the bond of two binned positions within the cutoff that the split compares |
| GridContacts.PairsFindsAll | src/core/grid_search.cpp:1029-1080 | two selections, symmetric distance: a bond is reported exactly when it joins a binned position of selection 1 and one of selection 2 within the cutoff |
| GridContacts.SelfFindsAll | src/core/grid_search.cpp:877-928 | one selection: every bond joins two different binned positions within the cutoff; with a symmetric distance and labels that tell positions apart, each such pair is reported exactly one way round |
| GridContacts.ThreadedPairsSame | src/core/grid_search.cpp:1081-1179 | two selections, symmetric distance: any thread split reports the same bonds as the serial search |
| GridContacts.ThreadedSelfSame | src/core/grid_search.cpp:929-1027 | one selection, symmetric distance: any thread split reports the pair of a bond, one way round or the other, exactly when the serial search does |
| GridContacts.SearchedIsSplit | src/core/grid_search.cpp:929-1027 | both branches of `do_search` report the bonds of a valid split |
| GridContacts.SearchFindsAll | src/core/grid_search.cpp:929-1027 | `do_search` reports a bond exactly when its split meets that contact |
| GridContacts.PairSearchFindsAll | src/core/grid_search.cpp:1081-1179 | two selections: `do_search` reports exactly the bonds of binned close pairs, one position from each, whatever the thread count |
| GridContacts.SelfSearchFindsAll | src/core/grid_search.cpp:929-1027 | one selection: `do_search` reports only bonds of two different binned close positions, and each such pair exactly one way round |
| GridContacts.WalkDistinct | src/core/grid_search.cpp:890-925 | the loops over a box list nothing twice when the cells share nothing and list nothing twice |
| GridContacts.RowLex | src/core/grid_search.cpp:1195-1216 | one position against ascending entries gives ascending bonds, all from that position |
| GridContacts.CrossLex | src/core/grid_search.cpp:1233-1254 | `get_side_1` over ascending cells gives ascending bonds, each starting at an entry of the first cell |
| GridContacts.LabelCell | src/core/grid_search.cpp:761-815 | two binned positions with one label lie in one cell |
| GridContacts.SideDistinct | src/core/grid_search.cpp:1222-1256 | one side search reports no bond twice |
| GridContacts.SidesDistinct | src/core/grid_search.cpp:897-921 | the side searches of a cell report no bond twice |
| GridContacts.CellBondsDistinct | src/core/grid_search.cpp:892-921 | a cell reports no bond twice: a central bond has both ends in the cell, a side bond one end in the neighbour |
| GridContacts.CellsApart | src/core/grid_search.cpp:892-921 | two cells that report one bond are one cell, whatever the parts |
| GridContacts.PartDistinct | src/core/grid_search.cpp:877-926 | one thread's part reports no bond twice |
| GridContacts.PartsDistinct | src/core/grid_search.cpp:973-1020 | the threads together report no bond twice |
| GridContacts.SelfSearchNoRepeat | src/core/grid_search.cpp:929-1027 | one selection whose labels tell positions apart: `do_search` reports no bond twice, whatever the thread count |
| GridSearch.GridSearcher.SetGridSize | src/core/grid_search.cpp:635-704 | the bounds are stored and every axis has at least one cell |
| GridSearch.GridSearcher.FitAxis | src/core/grid_search.cpp:670-702 | at least one cell; a count whose cell width already lies between the cutoff and twice the cutoff is kept; with cutoff 0 the growth loop does not run |
| GridSearch.GridSearcher.GrowthNeverStopsAtZeroCutoff | src/core/grid_search.cpp:691-702 | with cutoff 0 and a positive box width every cell count leaves a cell wider than twice the cutoff, so the written `++NgridX` loop does not stop before the int count overflows |
| GridSearch.GridSearcher.NlistLocal | src/core/grid_search.cpp:1360-1423 | `get_nlist_local` builds the neighbour list `Neighbours` |
| GridSearch.GridSearcher.GetNlist | src/core/grid_search.cpp:1258-1321 | `get_nlist` keeps the same neighbours in the member list |
| GridSearch.GridSearcher.GetCentral1 | src/core/grid_search.cpp:1183-1219 | appends the bonds between entries of one cell, each pair once |
| GridSearch.GridSearcher.GetSide1 | src/core/grid_search.cpp:1222-1256 | appends the bonds between entries of two cells |
| GridSearch.GridSearcher.GetCentral2 | src/core/grid_search.cpp:1426-1457 | appends the bonds of selection 1 with selection 2 inside one cell |
| GridSearch.GridSearcher.GetSide2 | src/core/grid_search.cpp:1460-1524 | appends the bonds of selection 1 in c with selection 2 in nb, then those of selection 2 in c with selection 1 in nb, flipped |
| GridSearch.GridSearcher.PopulateGrid | src/core/grid_search.cpp:761-874 | after clearing, every cell holds, ascending, exactly the positions binned to it |
| GridSearch.GridSearcher.CreateGrid | src/core/grid_search.cpp:706-724 | the bounding box (the unit cell when periodic, else the corners widened by the cutoff), then grid and visited flags resized |
| GridSearch.GridSearcher.CreateGrid2 | src/core/grid_search.cpp:727-758 | without periodicity the bounds are the overlap of both widened boxes, and a flat overlap returns early with the grids untouched; with periodicity the unit cell |
| GridSearch.GridSearcher.AssignToGrid | src/core/grid_search.cpp:94-106 | grid1 is built and populated as for the one-selection search, and the selection kept |
| GridSearch.GridSearcher.CreateCustomGrid | src/core/grid_search.cpp:108-114 | the extents given, and grid1 resized to them |
| GridSearch.GridSearcher.FillCustomGrid | src/core/grid_search.cpp:116-131 | a triclinic box is refused with its message; otherwise the bounds are the unit cell and grid1 is populated |
| GridSearch.GridSearcher.CellOfCustomGrid | src/core/grid_search.cpp:133-135 | the entries of cell (x, y, z): on a populated grid, exactly the positions binned to that cell |
| GridSearch.GridSearcher.ResetVisited | src/core/grid_search.cpp:937-942 | every visited flag cleared, none added or removed |
| GridSearch.GridSearcher.DoPart | src/core/grid_search.cpp:877-926 | one thread's part reports exactly the bonds of its cells (see `GridPairs.PartBondsMembers`), and afterwards the cells of the part are marked visited and no other flag changes |
| GridSearch.GridSearcher.DoSearch | src/core/grid_search.cpp:929-1179 | clears the flags, then searches serially or splits the longest axis between nt threads; the bonds are those of the whole grid, or of the parts in thread order; every flag ends visited; which bonds those are is stated by `GridContacts.SearchFindsAll`, `PairSearchFindsAll` and `SelfSearchFindsAll` |
| GridSearch.GridSearcher.SelfSearch | src/core/grid_search.cpp:59-72 | the one-selection constructor: parameters stored, grid1 created and populated, then `do_search`, whose bonds `GridContacts.SelfSearchFindsAll` and `SelfSearchNoRepeat` describe |
| GridSearch.GridSearcher.PairSearch | src/core/grid_search.cpp:74-88 | the two-selection constructor: both grids populated, then `do_search`; on a flat overlap, where the source goes on over unset extents, the model stops with no bonds; the bonds of `do_search` are those of `GridContacts.PairSearchFindsAll` |
| GridSearch.SearchInPairOfCells | src/core/grid_search.cpp:388-433 | a flag is raised exactly when it was raised already or the source point has a target point within the cutoff in the paired cell; flags never fall |
| GridSearch.GridSearcher.DoPartWithinFast | src/core/grid_search.cpp:437-482 | the flags after a part are the old ones plus every source point some cell of the part flags |
| GridSearch.ZeroCutoffPointTargetIsFlat | src/core/grid_search.cpp:504-520 | with cutoff 0 and a one-point target the overlap of the widened boxes has zero length along x |
| GridSearch.UpperFaceNeverFlagged | src/core/grid_search.cpp:817-846 | a source point on the upper x face of a non-periodic grid falls in cell N, is discarded, and is never flagged |
| GridSearch.UpperFaceDropped | src/core/grid_search.cpp:504-630 | `within 0.25 of index 0` over atoms at (0,0,0) and (0.25,0,0): atom 1 is within the cutoff of atom 0, yet the within constructor's result leaves it out |
| GridSearch.UnflaggedLeftOut | src/core/grid_search.cpp:602-617 | with include_self and positions as labels, a position neither flagged nor in the target is not in the result |
| GridSearch.GridSearcher.WithinSearch | src/core/grid_search.cpp:485-632 | the within constructor: a flat overlap leaves `bon` untouched; otherwise the flagged labels, with the target added and sorted unique when include_self, or minus the target |
| GridSearch.GridSearcher.SearchWithinPoint | src/core/grid_search.cpp:137-193 | the labels of grid entries around the query's cell within the cutoff of the query point |
| GridSearch.GridSearcher.SearchWithinTarget | src/core/grid_search.cpp:196-291 | the hits of every target cell, assembled by sort, unique and set difference; the marks are undone, so grid1 is as before |
| GridSearch.GridSearcher.RestoreMarks | src/core/grid_search.cpp:268-273 | every negated entry is restored by `abs`, giving grid1 back |
| GridWithin.WithinHitsMembers | src/core/grid_search.cpp:196-291 | the reported hits are exactly the labels of source points within the cutoff of a target point around their cell |
| GridWithin.ReportedExactly | src/core/grid_search.cpp:209-266 | marking only suppresses repeats: the labels reported are exactly those of `WithinHits` |
| GridWithin.WithinFindsAll | src/core/grid_search.cpp:196-291 | with both grids populated and cells no narrower than the cutoff, a label is reported exactly when its source point is binned (inside the grid) and within the cutoff of some binned target point |
| GridWithin.PointFindsAll | src/core/grid_search.cpp:137-193 | the corrected point search reports a label exactly when the query falls in the grid and the grid point is within the cutoff of it |
| GridWithin.PointAsWrittenMeasuresBoxPoint | src/core/grid_search.cpp:137-193 | as written a label is reported when its point is within the cutoff of `lab_to_box(q)`; written and corrected searches agree unless the box is both periodic and triclinic |
| GridWithin.FlagFindsAll | src/core/grid_search.cpp:437-482 | with both grids populated and cells no narrower than the cutoff, a source point is flagged exactly when it is binned (inside the grid) and within the cutoff of some binned target point; a point on the upper face of a non-periodic grid is not binned (`GridSearch.UpperFaceNeverFlagged`) |
| GridWithin.UsedByAll | src/core/grid_search.cpp:541-599 | a sweep of the whole grid from cleared flags raises exactly the flags of the flagged source points |
| GridWithin.TargetResultShape | src/core/grid_search.cpp:275-290 | the result is ascending without repeats; with include_self it holds every target index, without it none |
| GridWithin.FastResultShape | src/core/grid_search.cpp:603-630 | the within constructor's result, given labels without repeats: ascending without repeats, holding every target index with include_self and none without it |
| MolSystem.DefaultFrame | include/pteros/core/system.h:50-59 | a default frame has time 0, no coordinates, and the default box |
| MolSystem.ResindexRuns | src/core/system.cpp:225-238 | under the resindex rule resindex never decreases, and two atoms share one exactly when no residue boundary lies between them |
| MolSystem.SelectAtPositions | src/core/system.cpp:317-351 | keeping flagged positions keeps as many elements as positions flagged, the j-th being the element at the j-th flagged position |
| MolSystem.IndexGuardAcceptsMissingAtom | src/core/system.cpp:265-268 | on an empty system the written check lets index 0 through |
| MolSystem.IndexGuardAgreesWhenNonEmpty | src/core/system.cpp:265-268 | with at least one atom the written and the intended checks agree |
| MolSystem.SelectMarked | src/core/system.cpp:331-350 | keeping the marked survivors yields the unmarked atoms at those positions |
| MolSystem.System.NumFrames | include/pteros/core/system.h:174 | the number of frames is the length of the trajectory |
| MolSystem.System.NumAtoms | include/pteros/core/system.h:177 | the number of atoms is the length of the atom list |
| MolSystem.System.BoxOf | include/pteros/core/system.h:327-335 | the box of frame fr |
| MolSystem.System.Time | include/pteros/core/system.h:337-345 | the time of frame fr |
| MolSystem.System.XYZ | include/pteros/core/system.h:347-355 | coordinate ind of frame fr |
| MolSystem.System.AtomAt | include/pteros/core/system.h:357-365 | atom ind |
| MolSystem.System.FrameDup | src/core/system.cpp:187-191 | appends a copy of frame fr, or fails on an out-of-range frame and changes nothing |
| MolSystem.System.FrameCopy | src/core/system.cpp:193-197 | overwrites only frame fr2 with frame fr1, or fails on an out-of-range frame |
| MolSystem.System.FrameDelete | src/core/system.cpp:200-219 | e == −1 means the last frame; fails exactly when e < b, b < 0 or e past the last frame; otherwise frames b..e are removed and the rest keep their order |
| MolSystem.System.FrameAppend | src/core/system.cpp:221-223 | the frame is appended whatever its size, the atoms untouched; the system stays consistent exactly when it was and the frame has one coordinate per atom |
| MolSystem.System.AssignResindex | src/core/system.cpp:225-238 | only resindex changes; atom 0 gets 0 and each later atom its predecessor's, plus one exactly when resid or chain differs |
| MolSystem.System.SortByResindex | src/core/system.cpp:244-260 | one permutation ordering resindex, applied to the atoms and to every frame's coordinates |
| MolSystem.System.AtomsDup | src/core/system.cpp:262-290 | fails on an empty or invalid list; otherwise appends the listed atoms in list order and, in every frame, their coordinates, and returns the new index range |
| MolSystem.System.AtomsAdd | src/core/system.cpp:292-315 | fails on no atoms or a coordinate count that differs; otherwise appends the atoms and, in every frame, the coordinates |
| MolSystem.System.AtomsDelete | src/core/system.cpp:317-351 | fails on an empty or invalid list; otherwise keeps, in order, the atoms neither listed nor already of negative mass, and the same positions of every frame |
| MolSystem.System.AppendSystem | src/core/system.cpp:353-363 | fails when frame counts differ; otherwise atoms and per-frame coordinates are concatenated and resindex reassigned |
| MolSystem.System.AppendSelection | src/core/system.cpp:365-379 | the same for the atoms of a selection, which may belong to this system |
| Utilities.BinOf | src/core/utilities.cpp:77-79 | the bin `floor((v - minv)/d)` when it is one of the bins |
| Utilities.AddOne | src/core/utilities.cpp:75-80 | only that bin goes up by one; a value outside leaves every bin unchanged |
| Utilities.AddAllConcat | src/core/utilities.cpp:82-85 | adding two lists in turn is adding their concatenation |
| Utilities.AddAllTotal | src/core/utilities.cpp:75-85 | the total count grows by exactly the number of values that fall in a bin |
| Utilities.NormalizedIntegratesToOne | src/core/utilities.cpp:87-91 | after normalization the densities times the bin width sum to one |
| Utilities.CentreSpacing | src/core/utilities.cpp:66-73 | neighbouring centres are one bin width apart, so the normalizer is total × width |
| Utilities.Histogram.constructor | src/core/utilities.cpp:61-64 | the fields stored, unnormalized, with zero bins laid out by `create` |
| Utilities.Histogram.Create | src/core/utilities.cpp:66-73 | reads the fields, not its arguments: nbins zero bins with `pos(i) = minv + d/2 + d·i` |
| Utilities.Histogram.Add | src/core/utilities.cpp:75-80 | fails once normalized and changes nothing; otherwise the counts are `AddOne` |
| Utilities.Histogram.AddValues | src/core/utilities.cpp:82-85 | the same as adding the values one by one, in order |
| Utilities.Histogram.Normalize | src/core/utilities.cpp:87-91 | every count divided by the total times the bin spacing; the flag is set |
| Utilities.Histogram.Value | src/core/utilities.cpp:93-96 | count i |
| Utilities.Histogram.Position | src/core/utilities.cpp:98-101 | the centre of bin i |
| Utilities.Histogram.NumBins | src/core/utilities.cpp:113-116 | the number of bins |

## Left out

- **The corrected behaviour is what the model uses.** Where a finding below shows the source wrong, the evaluator, the optimizer, `CreateAst` and the grid model use the corrected behaviour. The written behaviour is a separate member, with a lemma that exhibits the difference.
- **`do_optimization` is a value rewrite.** It returns a new tree; the in-place clearing and pointer swaps, and any aliasing between nodes, are not modelled.
- **`eval_node` and `Apply` tie to `Eval` only on formed trees.** `SelectionEvalNode.EvalNode` and `SelectionParser.Parser.Apply` connect to `Eval` only on trees of the shape the grammar and the optimizer build. On malformed trees they still compute a result, but nothing is stated about it.
- **Threads run one after the other.** The threads of `do_search` and of the within constructor run sequentially, and the hardware thread count is a parameter. Concurrency and the atomics are not modelled.
- **Floating point becomes exact reals.** Floor comes from Dafny's `real`. The geometry of boxes (`box.distance`, `lab_to_box`, the triclinic transform) is the `Metric` and the cell function passed in.
- GridSearch.GridSearcher.SetGridSize: Only the bounds and "at least one cell per axis" are stated. The cube-root estimate is a parameter; a `fuel` parameter bounds the growing loop, which as written never ends with cutoff 0.
- GridContacts.SplitFindsAll: like the within lemmas, takes `Local` (points within the cutoff lie in neighbouring cells) as a hypothesis rather than deriving it from `set_grid_size`. The same holds for every "finds all" lemma of `GridContacts`.
- GridContacts.PairsFindsAll: requires a symmetric distance test (`Symmetric`), as `box.distance` is. The same holds for ThreadedPairsSame, ThreadedSelfSame, PairSearchFindsAll and the "exactly one way round" half of SelfFindsAll and SelfSearchFindsAll.
- GridContacts.ThreadedSelfSame: for one selection a threaded split need not report a pair in the serial orientation. A cell compares a neighbour in a later part even when that neighbour comes earlier in loop order, so `get_side_1` is called with the cells swapped. Equality is stated up to swapping a bond's ends.
- GridContacts.SelfSearchNoRepeat: requires labels that rise with position (`Rising`), which holds for the indices of a selection. No-repeat is stated for one selection only; for two selections the flipped phase of `get_side_2` would need its own ordering argument, which this model does not make.
- GridSearch.GridSearcher.SelfSearch: requires that the grid bounds have no flat extent (`Spread`). It therefore excludes a periodic box with a zero extent, and a selection flat along one axis with cutoff 0. For those inputs `set_grid_size` (src/core/grid_search.cpp:646-661) divides by a zero width and converts the result to int. The same holds for GridSearch.GridSearcher.PairSearch, GridSearch.GridSearcher.WithinSearch, GridSearch.GridSearcher.GridsOver and GridSearch.GridSearcher.CoorGrids: with periodicity they require a box with no zero extent, and they also require `d >= 0.0`. That excludes a negative cutoff, which the within constructor squares into `cutoff2` (src/core/grid_search.cpp:451).
- SelectionAst.ChildAsInt: a child index past the end, or a sub-tree without a first child, has no defined behaviour in the source (src/core/selection_parser.cpp:135-137). The model returns `Err("bad_get")` there, as for a child of the wrong kind.
- GridWithin.Local: the "finds all" lemmas (`WithinFindsAll`, `PointFindsAll`, `FlagFindsAll`) take as a hypothesis that points within the cutoff lie in neighbouring cells. That is what the cell widths of `set_grid_size` are for, but it is not derived from them.
- GridSearch.GridSearcher.PairSearch: on a flat overlap `create_grid2` returns before it sets the extents, and the source populates and searches grids of indeterminate size. The model reports no contacts there.
- EvalWithin: with cutoff 0 and a one-point target, such as `within 0 of index 5`, the source's within constructor returns early and the selection is empty. The model gives the include_self result (see Findings). The same holds for SelectionEvalNode.WithinEval.
- SelectionEval.EvalWithin: decides `within` atom by atom with `near`, the boundary distance included. The source's within constructor bins both sets into a grid over the overlap of the widened boxes, and a candidate on the upper face of that box falls in cell N and is dropped even when it is within the cutoff (see Findings). The same holds for SelectionEvalNode.WithinEval. The two-selection contact search GridSearch.GridSearcher.PairSearch bins through `create_grid2` in the same way; there the model follows the source, and `GridContacts.PairSearchFindsAll` speaks of binned points only.
- GridSearch.GridSearcher.GetCentral1: the distance list `dist_vec` is not modelled. The source pushes the distance of each bond it reports (src/core/grid_search.cpp:1216); the model returns the bonds only.
- GridSearch.GridSearcher.GetSide1: the distance list `dist_vec` is not modelled. The source pushes the distance of each bond it reports (src/core/grid_search.cpp:1253); the model returns the bonds only.
- GridSearch.GridSearcher.GetCentral2: the distance list `dist_vec` is not modelled. The source pushes the distance of each bond it reports (src/core/grid_search.cpp:1454); the model returns the bonds only.
- GridSearch.GridSearcher.GetSide2: the distance list `dist_vec` is not modelled. The source pushes the distance of each bond it reports in both phases (src/core/grid_search.cpp:1492, 1520); the model returns the bonds only.
- GridSearch.GridSearcher.DoSearch: the distance list `dist_vec` is not modelled. The source clears it and, with threads, concatenates the per-thread lists in thread order as it does the bonds (src/core/grid_search.cpp:936, 992-1023, 1088, 1144-1176).
- GridSearch.GridSearcher.SelfSearch: the optional `dist_vec` argument of the constructor (src/core/grid_search.cpp:59-72) is not modelled; only the bonds are.
- GridSearch.GridSearcher.PairSearch: the optional `dist_vec` argument of the constructor (src/core/grid_search.cpp:74-88) is not modelled; only the bonds are.
- PointFindsAll: states the corrected search, which measures from q. As written the distances are measured from `lab_to_box(q)` on a periodic triclinic box (see Findings).
- OptimizeSound: holds where both the original and the optimized tree evaluate. Optimizing can add an error, because the AND exchange changes the subspace a NOT receives (SelectionExchange.ExchangeAddsError), so "no new errors" is not promised. The same holds for OptimizeKeepsSelection and SelectionParser.Parser.Apply.
- MolSystem.System.AppendSystem: requires `other != this`. Appending a system to itself copies through `back_inserter` into the range being read, which has no defined behaviour.
- **Foreign libraries become parameters.** `std::regex` and `boost::lexical_cast` are uninterpreted parameters.
- SelectionParser.Parser.CreateAst: requires that every quote in the text is closed. On an unterminated quote the source's inner loop runs past the end of the text, which has no defined behaviour. `Tokenize` reports that case as `false`.
- SelectionParser.Parser.constructor: the source never initializes `is_optimized`; the model starts it at false.
- **`token_ends` is never cleared.** A parser reused after a syntax error keeps its old token ends, as the source does. The caret of a later error is then drawn from the stale list, and the model states it from that list.
- **Parts of `eval_numeric` are abstract.** The `dist point/vector/plane` branches read a distance function passed in. A numeric code without a branch, for which the source returns nothing, is an error.
- **Not modelled:**
  - `get_nlist_13` and the older `do_part_within` (unused by the constructors modelled);
  - the `_DEBUG_PARSER` dumps;
  - `System::load`, `dssp`, `wrap_all`, the energies and `Histogram::save_to_file`: file I/O, a foreign program and floating-point physics.
- **Header mismatches.** Where `selection_parser.h` and `system.h` disagree with the .cpp bodies, the bodies are followed.
- MolSystem.System.AppendSystem: requires a non-empty result when the frame counts agree. The `assign_resindex` that follows reads atom 0, which does not exist in an empty system. The same holds for MolSystem.System.AppendSelection and MolSystem.System.AssignResindex.
- Utilities.Histogram.Normalize: requires at least two bins and a non-zero normalizer. The source reads `pos(1)` and divides by `val.sum()*(pos(1)-pos(0))`, which with fewer bins or a zero sum reads out of range or yields infinities that reals cannot express.
- Utilities.Histogram.constructor: requires `n >= 0`, since a negative bin count makes the Eigen resize fail.
- MolSystem.System.SortByResindex: `std::sort` is not stable, so atoms of equal resindex may come out in any order among themselves. The model fixes one order, that of an insertion sort.
- SelectionGrammar.SumIsLeftAssociative: states the fold for int-token operands only. The statement for any terms is `LevelIsLeftFold`.
- SelectionGrammar.ProductIsLeftAssociative: states the fold for int-token operands only. The statement for any factors is `LevelIsLeftFold`.
- SelectionGrammar.LogicIsLeftAssociative: states the fold for `all` operands only. The statement for any operands is `LevelIsLeftFold`.
- SelectionGrammar.ProductInsideSum: states precedence for `a + b * c` on int tokens only. The statement for any sum of products is `SumOfProducts`.
- SelectionGrammar.ProductBeforeSum: states precedence for `a * b + c` on int tokens only. The statement for any sum of products is `SumOfProducts`.
- SelectionGrammar.LevelIsLeftFold: covers runs in which the operand after every operator parses. Where one fails, the loop stops with the tree built so far; `TrailingOperator` states that for `and`/`or` only.

## Findings

| source | as written | input that shows it | evidently intended | confidence | as-written member | corrected member |
|---|---|---|---|---|---|---|
| src/core/selection_parser.cpp:881-886 | NOT reads `res1[0]` and `res1[n-1]` of its operand's result | `not name XYZ` where no atom is named XYZ | the complement is every atom | high (not executed) | SelectionEval.NotOfNothing | SelectionEval.EvalNot |
| src/core/selection_parser.cpp:868-870 | PRECOMPUTED intersects with `set_intersection`, which needs sorted ranges, while a subspace from a comparison or list can be unsorted | subspace `[1, 0]`, stored list `[0]` | the atoms in both | medium (not executed) | SelectionEval.PrecomputedUnsortedLoses | SelectionEval.EvalPrecomputed |
| src/core/selection_parser.cpp:1130-1131 | BY evaluates its operand under the enclosing subspace, then expands over the whole system | `name CA and by residue x < 5`, where the residue's CB has x < 5 and its CA does not | the residues of the operand over all atoms | medium (not executed) | SelectionEval.BySubspaceLoses | SelectionEval.EvalBy |
| src/core/selection_parser.cpp:328-336 | after a closing quote `b` points at the quote and the next character is stepped over unchecked | `"A" B` | the tokens `A` and `B` | high (not executed) | SelectionTokens.QuoteSwallowsNextChar | SelectionTokens.QuoteABCorrected, SelectionTokens.Quoted |
| src/core/selection_parser.cpp:714-719 | the syntax check only tests the cursor, not whether the top rule matched | `name` alone | a syntax error | high (not executed) | SelectionParser.BareKeywordAccepted | SelectionParser.Parser.CreateAst |
| src/core/selection_parser.cpp:766-781 | every pure non-literal node is frozen into PRECOMPUTED, numeric and flag nodes included | `x < beta`; `within 0.25 nopbc of name CA` | only nodes that select atoms are frozen | high (not executed) | SelectionOptimize.FrozenBetaFails | SelectionOptimize.OptimizeKeepsSelection |
| src/core/grid_search.cpp:147-149 | `search_within(point)` bins the query with `N-1` cells where `populate_grid` uses `N` | 10 cells over [0, 1], query 0.55, atom 0.64, cutoff 0.1 | the query binned as the atoms are | medium (not executed) | GridCells.PointBinMissesNeighbour | GridWithin.PointFindsAll |
| src/core/system.cpp:265-268 | `ind[i] > atoms.size()-1` in unsigned arithmetic | `atoms_dup({0})` on an empty system | index 0 refused | high (not executed) | MolSystem.IndexGuardAcceptsMissingAtom | MolSystem.System.AtomsDup |
| src/core/grid_search.cpp:951 | the serial branch is taken only when `nt == 1` | `hardware_concurrency()` returning 0 | serial unless `nt > 1` | medium (not executed) | GridCells.ZeroThreadsGoParallel | GridCells.ParallelPartsNonEmpty, GridSearch.GridSearcher.DoSearch |
| src/core/selection_parser.cpp:1284-1287 | DIV tests its first child for zero and divides the second by it, while num_term puts the left operand first | `6 / 2` | 6 divided by 2 | high (not executed) | SelectionEval.DivIsReversed | SelectionEval.DivOperands |
| src/core/grid_search.cpp:504-520 | a flat overlap returns before include_self adds the target to `bon` | `within 0 of index 5` | the target atom selected | medium (not executed) | GridSearch.ZeroCutoffPointTargetIsFlat | SelectionEval.EvalWithin |
| src/core/grid_search.cpp:504-520 | without periodicity the grid spans only the overlap of the widened boxes, and `populate_coor_grid` discards a point whose cell is N, which is every point on the upper face | `within 0.25 of index 0` with atoms at (0,0,0) and (0.25,0,0), not periodic | atom 1 selected, its distance being exactly the cutoff | medium (not executed) | GridSearch.UpperFaceDropped | SelectionEval.EvalWithin |
| src/core/grid_search.cpp:691-702 | the growing loops test only `> 2.0*cutoff`, so with cutoff 0 they do not stop before the int count overflows | cutoff 0 with a non-flat box | the loop stops | high (not executed) | GridSearch.GridSearcher.GrowthNeverStopsAtZeroCutoff | GridSearch.GridSearcher.FitAxis |
| src/core/grid_search.cpp:144-181 | on a periodic triclinic box the query is converted by `lab_to_box` and distances are measured from the converted point to lab coordinates | a triclinic periodic box whose `lab_to_box` moves q | distances from q | medium (not executed) | GridWithin.PointAsWrittenMeasuresBoxPoint | GridWithin.PointFindsAll |


