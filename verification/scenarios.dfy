/**
 Concrete chains: the six-matrix textbook chain ordered by both optimisers,
 the two-matrix kernel costs with and without a triangular factor, and the
 propagation rules on small expressions.
 */
module Scenarios {
  import opened Results
  import opened Expressions
  import opened Properties
  import opened Costs
  import opened ChainOrder
  import opened DimensionChain
  import opened Optimizer

  // ---------------------------------------------------------------------
  // The textbook chain A1..A6

  function A1(): OperandNode { Operand(1, "A1", Shape(30, 35), []) }
  function A2(): OperandNode { Operand(2, "A2", Shape(35, 15), []) }
  function A3(): OperandNode { Operand(3, "A3", Shape(15, 5), []) }
  function A4(): OperandNode { Operand(4, "A4", Shape(5, 10), []) }
  function A5(): OperandNode { Operand(5, "A5", Shape(10, 20), []) }
  function A6(): OperandNode { Operand(6, "A6", Shape(20, 25), []) }

  function Chain(): seq<OperandNode> { [A1(), A2(), A3(), A4(), A5(), A6()] }

  /** `mul(A1, mul(A2, mul(A3, mul(A4, mul(A5, A6)))))`. */
  function RightNested(): Expr {
    Binary(11, A1(), Binary(10, A2(), Binary(9, A3(), Binary(8, A4(), Binary(7, A5(), A6())))))
  }

  /** Right-nested and variadic builds of the chain flatten to the same
      operand list. */
  lemma BuildsAgree()
    ensures CollectOperands(RightNested()) == Chain()
    ensures MulAll(Chain(), 7).Ok?
    ensures CollectOperands(MulAll(Chain(), 7).value) == Chain()
  {
    CollectMulAll(Chain(), 7);
  }

  /** The textbook optimum over dimensions 30, 35, 15, 5, 10, 20, 25 is
      15125, reached by ((A1 (A2 A3)) ((A4 A5) A6)). */
  lemma TextbookOptimum()
    ensures PVector(Chain()) == [30, 35, 15, 5, 10, 20, 25]
    ensures Opt(Dimensions(PVector(Chain())), 1, 6) == 15125
    ensures OptSplit(Dimensions(PVector(Chain())), 1, 6) == 3
    ensures OptimalParens(Dimensions(PVector(Chain())), 1, 6) ==
              Split(Split(Leaf(1), Split(Leaf(2), Leaf(3))), Split(Split(Leaf(4), Leaf(5)), Leaf(6)))
  {
    var p := PVector(Chain());
    assert p == [30, 35, 15, 5, 10, 20, 25];
    var cm := Dimensions(p);
    assert Opt(cm, 1, 2) == 15750;
    assert Opt(cm, 2, 3) == 2625;
    assert Opt(cm, 3, 4) == 750;
    assert Opt(cm, 4, 5) == 1000;
    assert Opt(cm, 5, 6) == 5000;
    assert Opt(cm, 1, 3) == 7875 && OptSplit(cm, 1, 3) == 1;
    assert Opt(cm, 2, 4) == 4375 && OptSplit(cm, 2, 4) == 3;
    assert Opt(cm, 3, 5) == 2500 && OptSplit(cm, 3, 5) == 3;
    assert Opt(cm, 4, 6) == 3500 && OptSplit(cm, 4, 6) == 5;
    assert Opt(cm, 1, 4) == 9375;
    assert Opt(cm, 2, 5) == 7125;
    assert Opt(cm, 3, 6) == 5375;
    assert Opt(cm, 1, 5) == 11875;
    assert Opt(cm, 2, 6) == 10500;
    assert Opt(cm, 1, 6) == 15125 && OptSplit(cm, 1, 6) == 3;
  }

  /** The property-aware optimiser prices the chain at 30250 flops, twice
      the textbook figure. */
  lemma KernelOptimum()
    ensures Opt(Kernels(Chain()), 1, 6) == 30250
  {
    TextbookOptimum();
    PlainChain();
    SameSplitsOnPlainChains(Chain());
  }

  /** ... and picks the same bracketing. */
  lemma KernelBracketing()
    ensures OptimalParens(Kernels(Chain()), 1, 6) == OptimalParens(Dimensions(PVector(Chain())), 1, 6)
  {
    PlainChain();
    SameSplitsOnPlainChains(Chain());
    SameParens(Kernels(Chain()), Dimensions(PVector(Chain())), 1, 6);
  }

  /** Built either way, the chain costs 30250 flops. */
  lemma BuiltChainsOptimum()
    ensures Opt(Kernels(CollectOperands(RightNested())), 1, 6) == 30250
    ensures Opt(Kernels(CollectOperands(MulAll(Chain(), 7).value)), 1, 6) == 30250
  {
    BuildsAgree();
    KernelOptimum();
  }

  /** The flop count of the right-nested chain is 30250. */
  method TextbookChainFlops() returns (r: Result<int, Failure>)
    ensures r == Ok(30250)
  {
    var e := RightNested();
    BuildsAgree();
    KernelOptimum();
    assert |CollectOperands(e)| == 6;
    r := GetMcpFlops(e, 12);
    assert r.value == Opt(Kernels(Chain()), 1, 6);
  }

  /** The dimension-only optimiser on A1..A6 splits the chain after A3 and
      describes the bracketing ((A1 (A2 A3)) ((A4 A5) A6)). */
  method TextbookChainSplits() returns (r: Result<array2<int>, Failure>)
    ensures r.Ok?
    ensures r.value.Length0 == 7 && r.value.Length1 == 7
    ensures r.value[1, 6] == 3
    ensures ValidSplits(r.value, 1, 6)
    ensures ParensFrom(r.value, 1, 6) ==
              Split(Split(Leaf(1), Split(Leaf(2), Leaf(3))), Split(Split(Leaf(4), Leaf(5)), Leaf(6)))
  {
    var exprs: seq<Expr> := Chain();
    assert forall i :: 0 <= i < |exprs| ==> Factor(exprs[i]) == Some(exprs[i]);
    assert AllFactors(exprs) && !HasProduct(exprs);
    assert Factors(exprs) == Chain();
    TextbookOptimum();
    r := GetOptimalSplit(exprs);
  }

  /** The chain is conformable and declares nothing. */
  lemma PlainChain()
    ensures Conformable(Chain()) && Plain(Chain())
  {
    var c := Chain();
    assert forall i :: 0 <= i < |c| ==> c[i].props == [];
  }

  /** Models that record the same splits read off the same bracketing. */
  lemma {:induction false} SameParens(c1: CostModel, c2: CostModel, i: nat, j: nat)
    requires Count(c1) == Count(c2) && 1 <= i <= j <= Count(c1)
    requires forall a, b :: 1 <= a < b <= Count(c1) ==> OptSplit(c1, a, b) == OptSplit(c2, a, b)
    ensures OptimalParens(c1, i, j) == OptimalParens(c2, i, j)
    decreases j - i
  {
    if i < j {
      var k := OptSplit(c1, i, j);
      SameParens(c1, c2, i, k);
      SameParens(c1, c2, k + 1, j);
    }
  }

  // ---------------------------------------------------------------------
  // Two-matrix kernel costs

  function SquareA(props: seq<Property>): OperandNode { Operand(1, "A", Shape(20, 20), props) }
  function TallB(): OperandNode { Operand(2, "B", Shape(20, 15), []) }

  /** 20x20 times 20x15 costs 2 * 20 * 20 * 15 = 12000 flops; declaring A
      lower triangular halves it to 6000. */
  lemma TwoMatrixCosts()
    ensures Opt(Kernels([SquareA([]), TallB()]), 1, 2) == 12000
    ensures Opt(Kernels([SquareA([LowerTriangular]), TallB()]), 1, 2) == 6000
    ensures KernelCost(Binary(3, SquareA([]), TallB()), 0) == Ok(KernelResult(Shape(20, 15), 12000))
    ensures KernelCost(Binary(3, SquareA([LowerTriangular]), TallB()), 0) == Ok(KernelResult(Shape(20, 15), 6000))
  {
    var plain, lower := [SquareA([]), TallB()], [SquareA([LowerTriangular]), TallB()];
    assert plain[0].props == [];
    assert !SpanDeclares(plain, 1, 1, LowerTriangular);
    assert !SpanDeclares(plain, 1, 1, Symmetric);
    assert SpanDeclares(lower, 1, 1, LowerTriangular);
    assert Best(Kernels(plain), 1, 2, 2).cost == 12000;
    assert Best(Kernels(lower), 1, 2, 2).cost == 6000;
  }

  // ---------------------------------------------------------------------
  // Propagation rules

  /** Products and transposes of triangular operands, and full rank through
      transpose and inverse. */
  lemma PropagationExamples()
    ensures Ask(UpperTriangular, Binary(3, SquareA([UpperTriangular]), Operand(2, "B", Shape(20, 20), [UpperTriangular]))) == Ok(true)
    ensures Ask(LowerTriangular, Binary(5, SquareA([LowerTriangular]),
                                          Unary(4, Transpose, Unary(3, Transpose, Operand(2, "B", Shape(20, 20), [LowerTriangular]))))) == Ok(true)
    ensures Ask(LowerTriangular, Unary(2, Transpose, SquareA([UpperTriangular]))) == Ok(true)
    ensures Ask(UpperTriangular, Unary(2, Transpose, SquareA([LowerTriangular]))) == Ok(true)
    ensures Ask(UpperTriangular, Unary(3, Transpose, Unary(2, Transpose, SquareA([UpperTriangular])))) == Ok(true)
    ensures Ask(LowerTriangular, Unary(4, Transpose, Unary(3, Transpose, Unary(2, Transpose, SquareA([UpperTriangular]))))) == Ok(true)
    ensures Ask(FullRank, Unary(3, Inverse, Unary(2, Transpose, SquareA([FullRank])))) == Ok(true)
    ensures Ask(Spd, Binary(3, Unary(2, Transpose, SquareA([FullRank])), SquareA([FullRank]))) == Ok(true)
  {
  }
}
