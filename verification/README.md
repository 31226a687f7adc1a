# Matrix-chain optimiser: a Dafny model

This project models the core of a property-aware matrix-chain optimiser written in C++. The model has three parts.

- **Expression tree.** Operands, transposes and inverses, binary products and n-ary products. An operand has a name, a shape and a declared property list. The tree has constructors for binary and variadic products, transposes and inverses. Nodes are shared and compared by address in C++. Here each node carries an `id` that stands for its address.
- **Property engine.** It answers six queries: upper triangular, lower triangular, square, symmetric, full rank and SPD. Each query recurses over the node kind. A combination the rules do not cover is a failed assertion in C++. Here it is an explicit `Err(Unsupported(query, node kind))`. The same engine provides the identity-based transpose test.
- **Cost model and chain optimiser.**
  - The kernel cost walk returns a result shape and the cost of the top multiplication. The cost is a dense GEMM count, halved for a triangular or symmetric kernel.
  - The dynamic programme over the flattened operand list prices each split by costing a materialised candidate product.
  - The older dimension-only optimiser prices a split by its dimension product.

Both dynamic programmes are methods that fill `array2` tables, and their loop invariants tie the tables to a recursive specification (`ChainOrder.Opt`, `ChainOrder.OptSplit`). That specification is proved to be the minimum over all bracketings. The proof uses the fact that a product of operands is triangular, square or symmetric iff every leaf declares it. So the price of a split (i, k, j) depends only on i, k and j, and the property-aware optimiser is optimal too. On a conformable chain that declares no triangular or symmetric operand, the two optimisers make the same choices. The property-aware cost is exactly twice the dimension cost.

Files: `results.dfy` (Option/Result), `expr.dfy` (tree and constructors), `properties.dfy` (queries), `property_laws.dfy` (what the rules imply), `costs.dfy` (leaves, dimension vector, kernel cost), `chain_order.dfy` (the recurrence, bracketings, optimality), `optimizer.dfy` (the property-aware programme), `dimension_chain.dfy` (the dimension-only programme), `scenarios.dfy` (concrete chains).

## Rules narrower than the algebra

The propagation rules the code implements are narrower than what holds of matrices in general. The model follows the code in each case.

- A product is square iff both factors are (properties.cpp:114-123), although a product of non-square factors can be square.
- A product is symmetric iff both factors are (properties.cpp:125-134). So `transpose(A) * A` is SPD (properties.cpp:144-153) but not symmetric, unless `A` is declared symmetric.
- A transpose is symmetric iff its child is (properties.cpp:62-71). SPD is unsupported on a transpose (properties.cpp:85-88).
- Full rank of a product is an unsupported query (properties.cpp:136-139), even when both factors are square and full rank.
- The symmetric-kernel discount needs a square right factor as well as a symmetric left one (chain.cpp:208-209).
- An n-ary product answers `false` to square, symmetric, full rank and SPD (chain.h:156-159).
- `NaryOp` never overrides the pure-virtual `inferProperties` (chain.h:80), so as the code stands it cannot be instantiated. Its queries are modelled anyway.
- The n-ary triangularity checks (properties.cpp:157-167) pass `all_of` the `begin()` of one copy of the children and the `end()` of another, because `getChildren()` returns the vector by value (chain.h:153). Comparing iterators of two different vectors is undefined behaviour. The model uses the evident reading, every child in order, with `all_of`'s stop at the first false.

## Model

| member | source | states |
|---|---|---|
| Expressions.Mul | chain.cpp:87-92 | a product is built iff both children are present; a missing child is `NullChild`; the product's children are exactly the given ones |
| Expressions.Trans | chain.cpp:110-114 | a transpose is built iff the child is present, and wraps exactly that child; otherwise `NullChild` |
| Expressions.Inv | chain.cpp:104-108 | an inverse is built iff the child is present, and wraps exactly that child; otherwise `NullChild` |
| Expressions.SetProperties | chain.h:75-77 | setting properties succeeds iff the node is an operand, and otherwise fails with `NotAnOperand`; on an operand the list is replaced and the id, name and shape are kept |
| Expressions.MulList | chain.cpp:94-102 | the product of a list fails with `EmptyProduct` iff the list is empty; a lone argument comes back as it is, even a null one; with two or more arguments it fails with `NullChild` iff some argument is null; otherwise the result is present and reads back, as a left-nested chain of products, into exactly the arguments in order |
| Expressions.MulAll | chain.h:253-262 | the variadic product fails iff it has no arguments; one argument comes back unchanged; otherwise the result reads back, as a left-nested chain of products, into exactly the arguments in order |
| Expressions.FoldMulUnfolds | chain.cpp:98-101 | each step of the left fold extends the chain of factors read back from the accumulated product by one argument |
| PropertyLaws.DeclaredListIsASet | properties.cpp:5-25 | an operand answers a query iff the property is in its declared list; lists with the same members give the same answers, whatever their order or repetition |
| PropertyLaws.SetThenAsk | chain.h:212-215 | after properties are set on an operand, every query answers from exactly the new list |
| PropertyLaws.TransposeParity | properties.cpp:29-49 | under n transposes, the upper/lower triangularity answer is the original for even n and swapped for odd n |
| PropertyLaws.TransposesKeep | properties.cpp:51-83 | any number of transposes keeps squareness, symmetry and full rank |
| PropertyLaws.FullRankThroughUnary | properties.cpp:73-83 | full rank passes through any stack of transposes and inverses |
| PropertyLaws.TriangularByLeaves | properties.cpp:92-112 | a tree of operands, transposes and products is upper (lower) triangular iff every leaf declares the side the query asks for, swapped under an odd number of enclosing transposes |
| PropertyLaws.ShapeByLeaves | properties.cpp:114-134 | such a tree is square (symmetric) iff every leaf declares it |
| PropertyLaws.BracketingIrrelevant | properties.cpp:92-134 | two such trees with the same oriented leaves give the same defined answer to the four structural queries, however they are bracketed |
| PropertyLaws.ProductIsConjunction | properties.cpp:92-134 | a product is upper/lower triangular, square or symmetric iff both factors are; with both answers known, the product's answer is their conjunction |
| PropertyLaws.AllFromIff | properties.cpp:157-167 | the all-children check over the children from position i on holds iff every one of them answers true |
| PropertyLaws.NaryRules | chain.h:154-159 | an n-ary product is upper (lower) triangular iff every child is, and is never square, symmetric, full rank or SPD |
| PropertyLaws.UnsupportedQueries | properties.cpp:29-139 | every query except full rank fails on an inverse; SPD fails on a transpose; full rank fails on a product |
| PropertyLaws.SpdIff | properties.cpp:144-153 | a product is SPD iff its left factor is full rank and is the transpose of its right factor; the answer is defined iff the left factor's rank is |
| PropertyLaws.GramProductIsSpd | properties.cpp:144-153 | `transpose(A) * A` is SPD exactly when `A` is full rank |
| PropertyLaws.TransposeOfMeansSameChild | utils.cpp:5-13 | when ids behave as addresses, `x` is the transpose of `y` iff `x` is a transpose node whose child is `y` itself; an inverse or any other node kind is never a transpose |
| PropertyLaws.TransposeOfIgnoresLookalikes | utils.cpp:10 | an operand equal in every field but allocated separately is not recognised as the transposed child |
| PropertyLaws.TransposeOfIsOneWay | utils.cpp:5-13 | `transpose(A)` is the transpose of `A`, but `A` is not the transpose of `transpose(A)`, and `transpose(transpose(A))` is not the transpose of `A` |
| Costs.CollectedAreNodes | chain.cpp:148-162 | every collected leaf is a node of the expression |
| Costs.CollectMulAll | chain.cpp:148-168 | the leaves of a variadic product of operands are exactly those operands, in order |
| Costs.CollectFoldMul | chain.cpp:148-162 | folding further operands onto a product appends them to its leaves |
| Costs.PVector | chain.cpp:116-130 | the dimension vector is empty for no operands and otherwise one longer than the operand list |
| Costs.PVectorGivesShapes | chain.cpp:116-130 | for a conformable chain, operand i is a `p[i] x p[i+1]` matrix |
| Costs.KernelShapeIsEnds | chain.cpp:194-224 | without n-ary nodes, a successful walk returns the rows of the leftmost leaf and the columns of the rightmost leaf |
| Costs.BinaryShape | chain.cpp:196-212 | a successful walk over a product has walked both factors successfully and returns the left factor's rows by the right factor's columns |
| Costs.KernelCostIsTopLevel | chain.cpp:199-216 | a product's cost is its own multiplication only, whatever register value it starts from; a unary node passes its child's result through, with rows and columns unswapped |
| Costs.NonProductsKeepRegister | chain.cpp:217-223 | an operand returns its own shape and an n-ary node returns (0, 0); both leave the cost register unchanged |
| Costs.KernelShapeIgnoresRegister | chain.cpp:194-224 | whether the walk succeeds, and the shape it returns, do not depend on the incoming register |
| Costs.KernelDiscount | chain.cpp:202-210 | the top-level cost is the dense `2*m*k*n`, halved exactly once when the left factor is lower triangular, or else when it is symmetric and the right factor square |
| Costs.OperandTreeAnswers | properties.cpp:92-134 | on a tree of products of operands, the four structural queries never fail, and hold iff every leaf declares the property |
| Costs.OperandTreeCosts | chain.cpp:194-224 | the kernel walk of a tree of products of operands never fails |
| ChainOrder.BestIsLeast | chain.cpp:258-276 | the recorded choice costs exactly its candidate, no candidate is cheaper, and every earlier candidate is strictly dearer (ties keep the smallest split) |
| ChainOrder.BestStep | chain.cpp:270-276 | trying one more split replaces the best so far exactly when that split is the first one tried or is strictly cheaper |
| ChainOrder.BracketsCoverRange | main.cpp:145-157 | a bracketing of i..j lists each operand of i..j exactly once, in order |
| ChainOrder.OptIsLowerBound | main.cpp:195-212 | no bracketing of i..j costs less than the optimum |
| ChainOrder.OptimalParens | main.cpp:145-157 | following the recorded splits gives a bracketing of exactly i..j |
| ChainOrder.OptimalParensAttains | main.cpp:195-212 | the bracketing of the recorded splits costs exactly the optimum |
| ChainOrder.OptIsMinimum | main.cpp:195-212 | the optimum is the least cost over all bracketings, and one bracketing attains it |
| ChainOrder.ParensFrom | main.cpp:145-157 | reading a split table whose splits lie inside their ranges terminates and yields a bracketing of exactly i..j |
| ChainOrder.ParensFromRecorded | main.cpp:145-157 | on a table of recorded splits, that reading is the optimal bracketing |
| ChainOrder.RecordedTablesAreOptimal | main.cpp:238 | filled tables describe a whole-chain bracketing that costs exactly `m[1][N]`, and no bracketing costs less |
| ChainOrder.RecordedTablesObeyRecurrence | chain.cpp:250-279 | in filled tables `m[i][i] = 0`; for i < j, `s[i][j]` lies in i..j-1 and `m[i][j] = m[i][s] + m[s+1][j] + cost(i, s, j)`; no split gives less; every split before `s[i][j]` gives strictly more |
| ChainOrder.TwiceTheCost | main.cpp:200 | a cost model that prices every split at twice another's has twice the optimum and records the same splits |
| ChainOrder.TwiceTheBest | main.cpp:199-209 | the same holds for the best split among the first candidates |
| Optimizer.CandidateKernelCost | chain.cpp:261-268 | the kernel cost of the product of any tree over i..k and any tree over k+1..j is the split price of (i, k, j), and its shape is the rows of operand i by the columns of operand j |
| Optimizer.SpansJoin | chain.cpp:272 | a product of a tree over i..k and a tree over k+1..j is a tree over i..j |
| Optimizer.CandidateStep | chain.cpp:271-275 | the product of the best sub-products never meets a missing child, and is a tree over i..j |
| Optimizer.PriceCandidate | chain.cpp:261-268 | pricing the materialised candidate gives the split price of (i, k, j) |
| Optimizer.FillCell | chain.cpp:257-276 | after trying every split, cell (i, j) holds the optimum, the smallest optimal split and a product tree over i..j, and no other cell changes |
| Optimizer.FillDiagonal | chain.cpp:256-278 | one pass over the sub-chains of length l fills all their cells, and the shorter ones stay as they were |
| Optimizer.FillTables | chain.cpp:238-279 | `m[i][i] = 0`; every `m[i][j]` is the optimum of i..j; every `s[i][j]` is its smallest optimal split; every `tmps[i][j]` is a product whose leaves are operands i..j in order |
| Optimizer.RunMcp | chain.cpp:231-316 | the run fails iff the expression has no operand leaves; otherwise its tables hold the optima and the smallest optimal splits of the collected leaves |
| Optimizer.GetMcpFlops | chain.cpp:318-325 | the flop count fails iff there are no operand leaves, is 0 for one operand, and is otherwise the optimum over the whole collected chain |
| DimensionChain.Factor | main.cpp:163-168 | a factor stands for an operand iff it is an operand or a unary node directly over one |
| DimensionChain.Factors | main.cpp:159-175 | the operand list has one entry per factor, each the operand that factor stands for |
| DimensionChain.CollectFactors | main.cpp:159-175 | a product or n-ary factor is rejected; otherwise a unary over a non-operand is reported as a lost operand; otherwise the result is the list of operands the factors stand for |
| DimensionChain.FillCell | main.cpp:197-210 | after trying every split, cell (i, j) holds the dimension optimum and its smallest optimal split, and no other cell changes |
| DimensionChain.FillTables | main.cpp:190-212 | `m[i][i] = 0`, every `m[i][j]` is the dimension optimum of i..j and every `s[i][j]` its smallest optimal split |
| DimensionChain.GetOptimalSplit | main.cpp:177-242 | a split table is returned iff the list is non-empty and every factor stands for an operand; it records the smallest optimal split of every sub-chain of the collected operands, and the bracketing it describes is the optimal one |
| DimensionChain.KernelCostIsTwiceDimensionCost | main.cpp:200 | on a conformable chain with no lower-triangular or symmetric operand, the kernel price of every split is twice its dimension product |
| DimensionChain.SameSplitsOnPlainChains | main.cpp:195-212 | on such a chain the property-aware optimum of every sub-chain is twice the dimension optimum, and both record the same splits |
| Scenarios.BuildsAgree | test/test_chain.cpp:7-29 | the right-nested and variadic builds of A1..A6 have the same leaves, A1..A6 in order |
| Scenarios.TextbookOptimum | main.cpp:257-266 | the dimension optimum of the chain 30x35, 35x15, 15x5, 5x10, 10x20, 20x25 is 15125, with top split after A3 and bracketing ((A1 (A2 A3)) ((A4 A5) A6)) |
| Scenarios.KernelOptimum | test/test_chain.cpp:7-17 | the property-aware optimum of that chain is 30250 |
| Scenarios.KernelBracketing | test/test_chain.cpp:7-29 | both optimisers bracket that chain the same way |
| Scenarios.BuiltChainsOptimum | test/test_chain.cpp:7-29 | built either way, the chain's flop optimum is 30250 |
| Scenarios.TextbookChainFlops | test/test_chain.cpp:7-17 | the flop count of the right-nested chain is 30250 |
| Scenarios.TextbookChainSplits | main.cpp:257-266 | the dimension-only optimiser on A1..A6 splits after A3 and describes ((A1 (A2 A3)) ((A4 A5) A6)) |
| Scenarios.TwoMatrixCosts | test/test_chain.cpp:31-49 | 20x20 times 20x15 costs 12000 flops, and 6000 when the left factor is declared lower triangular |
| Scenarios.PropagationExamples | test/test_chain.cpp:53-116 | products and transposes of triangular operands, full rank through inverse-of-transpose, and `transpose(A) * A` being SPD, on concrete trees |

## Left out

- Printing is left out because it is output only: `walk`, `printProperties`, `printShape`, the output side of `printOptimalParens`, the `DEBUG` blocks, the table dumps in main.cpp and `main()`.
- `ScopedContext`, `AutoRef` and no-shared.cpp are left out. They are memory-ownership scaffolding with no behaviour of their own.
- utils.h is left out. It is a superseded header, and chain.h carries the current tree.
- `isSame`, `binaryMul`, `getKernelCostTopLevelExpr`, `getKernelCostFullExpr` and any normal-form rewriting are not part of this model. Each is declared in chain.h with no definition in chain.cpp, properties.cpp or utils.cpp. The variadic product is modelled with the binary product of chain.cpp:87-92 in place of `binaryMul`.
- The tests at test/test_chain.cpp:118-152 are not encoded. They call those undefined functions or expect rules the code lacks. As written, the code gives 24000 for `getMCPFlops` of `mul(mul(trans(A), A), B)` (A(AB) on the leaves A, A, B), not the 22000 those tests expect.
- `inferProperties` is not modelled. Every `inferProperties` body (chain.cpp:9-11, chain.h:216) is a no-op, and the model has no inferred-property state for it to change.
- `long` overflow is not modelled: integers are unbounded.
- The `numeric_limits<long>::max()` sentinel is not modelled. The first split tried is always taken, which is what the sentinel achieves for any finite cost.
- Optimizer.FillTables: cells off the upper triangle, and row and column 0 apart from `m[0][0]`, are left unspecified instead of holding the sentinel.
- DimensionChain.FillTables: the same holds for its cells off the upper triangle.
- Shapes are pairs, which replaces the `shape.size() == 2` assertion.
- Conformability is never checked by the code, and it is not checked here. It is only assumed, as a precondition, by the lemmas that compare the two optimisers.
- Node sharing is modelled by value. `SetProperties` returns a new operand with the same id. A parent that already holds the old operand keeps the old property list, whereas in C++ it would see the change.
- Node ids come from the caller: constructors are given the id of the node they allocate, and the optimiser numbers its products from a given `first`. Uniqueness is a hypothesis (`WellIdentified`) where it matters, not something the model allocates.
- A null entry in main.cpp's factor list, and null children met by `collectOperandsImpl` or `getKernelCost`, cannot arise here. The tree has no null nodes. Only the constructors `Mul`, `Trans`, `Inv` and `MulList` take possibly-null arguments.
- The cost table of main.cpp's `getOptimalSplit` is printed but not returned, so the model returns only the split table. `DimensionChain.FillTables` still states what the cost table holds.
- main.cpp's own copy of the class hierarchy is modelled by the same tree type. Its optimiser never reads properties, and its unused `tmps` table is left out.
- An empty chain makes `runMCP` throw from `operands.at(0)`, and makes main.cpp's table dump index an empty table. Both are `Err(NoOperands)` here.
