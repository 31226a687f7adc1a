/**
 The cost model: flattening a product into its operand leaves, the dimension
 vector of a chain, and the kernel cost of one multiplication (dense GEMM,
 halved when a triangular or symmetric kernel applies).
 */
module Costs {
  import opened Results
  import opened Expressions
  import opened Properties

  // ---------------------------------------------------------------------
  // Operand leaves

  /** The operand leaves of `e` from left to right, transposes and inverses
      dropped. An n-ary node contributes nothing. */
  function CollectOperands(e: Expr): (r: seq<OperandNode>)
    ensures NoNary(e) ==> |r| > 0
  {
    match e
    case Operand(_, _, _, _) => [e]
    case Unary(_, _, x) => CollectOperands(x)
    case Binary(_, l, r) => CollectOperands(l) + CollectOperands(r)
    case Nary(_, _) => []
  }

  /** Every collected leaf is a node of the expression. */
  lemma {:induction false} CollectedAreNodes(e: Expr)
    ensures forall i :: 0 <= i < |CollectOperands(e)| ==> CollectOperands(e)[i] in Nodes(e)
  {
    match e
    case Operand(_, _, _, _) =>
    case Unary(_, _, x) =>
      CollectedAreNodes(x);
    case Binary(_, l, r) =>
      CollectedAreNodes(l);
      CollectedAreNodes(r);
      var a, b := CollectOperands(l), CollectOperands(r);
      assert CollectOperands(e) == a + b;
      assert forall i :: 0 <= i < |b| ==> (a + b)[|a| + i] == b[i];
    case Nary(_, _) =>
  }

  /** No n-ary node occurs in `e`. */
  ghost predicate NoNary(e: Expr) {
    match e
    case Operand(_, _, _, _) => true
    case Unary(_, _, x) => NoNary(x)
    case Binary(_, l, r) => NoNary(l) && NoNary(r)
    case Nary(_, _) => false
  }

  /** A tree of binary products over operands, as the optimiser builds. */
  ghost predicate OperandTree(e: Expr) {
    match e
    case Operand(_, _, _, _) => true
    case Binary(_, l, r) => OperandTree(l) && OperandTree(r)
    case _ => false
  }

  /** A product built from operands by the variadic product has exactly those
      operands as its leaves, in order. */
  lemma CollectMulAll(args: seq<Expr>, first: nat)
    requires |args| > 0
    requires forall i :: 0 <= i < |args| ==> args[i].Operand?
    ensures MulAll(args, first).Ok?
    ensures CollectOperands(MulAll(args, first).value) == args
  {
    CollectFoldMul(args[0], args[1..], first);
    assert [args[0]] + args[1..] == args;
  }

  lemma {:induction false} CollectFoldMul(acc: Expr, rest: seq<Expr>, next: nat)
    requires forall i :: 0 <= i < |rest| ==> rest[i].Operand?
    ensures CollectOperands(FoldMul(acc, rest, next)) == CollectOperands(acc) + rest
    decreases |rest|
  {
    if |rest| == 0 {
      assert CollectOperands(acc) + rest == CollectOperands(acc);
    } else {
      CollectFoldMul(Binary(next, acc, rest[0]), rest[1..], next + 1);
      assert CollectOperands(acc) + [rest[0]] + rest[1..] == CollectOperands(acc) + rest;
    }
  }

  // ---------------------------------------------------------------------
  // Dimension vector

  /** Adjacent operands agree on the inner dimension. */
  ghost predicate Conformable(ops: seq<OperandNode>) {
    forall i :: 0 <= i < |ops| - 1 ==> ops[i].shape.cols == ops[i + 1].shape.rows
  }

  /** The rows of the first operand followed by the columns of each operand. */
  function PVector(ops: seq<OperandNode>): (p: seq<int>)
    ensures |ops| == 0 ==> p == []
    ensures |ops| > 0 ==> |p| == |ops| + 1
  {
    if |ops| == 0 then []
    else [ops[0].shape.rows] + seq(|ops|, i requires 0 <= i < |ops| => ops[i].shape.cols)
  }

  /** For a conformable chain, operand `i` (counting from 1) is a
      `p[i-1] x p[i]` matrix. */
  lemma PVectorGivesShapes(ops: seq<OperandNode>)
    requires |ops| > 0 && Conformable(ops)
    ensures forall i :: 0 <= i < |ops| ==>
              PVector(ops)[i] == ops[i].shape.rows && PVector(ops)[i + 1] == ops[i].shape.cols
  {
  }

  // ---------------------------------------------------------------------
  // Kernel cost

  /** Floating-point operations of a dense `m x k` by `k x n` product. */
  function Gemm(m: int, k: int, n: int): int {
    m * k * n * 2
  }

  /** The shape a subtree evaluates to, and the cost register after it. */
  datatype KernelResult = KernelResult(shape: Shape, cost: int)

  /** Whether a product of `l` and `r` runs at half the dense cost: a
      triangular kernel when `l` is lower triangular, otherwise a symmetric
      kernel when `l` is symmetric and `r` square. Symmetry is only asked
      about when `l` is not lower triangular. */
  function Halved(l: Expr, r: Expr): Answer {
    var trmm :- Ask(LowerTriangular, l);
    if trmm then Ok(true) else AndThen(Ask(Symmetric, l), Ask(Square, r))
  }

  /** The kernel cost walk. `cost` is the register the walk writes: a binary
      node overwrites it with the cost of its own multiplication (after its
      children have written theirs); other nodes leave it alone. The shape
      returned is (rows of the leftmost leaf, columns of the rightmost leaf);
      an n-ary node gives (0, 0). Fails when a property query it asks fails. */
  function KernelCost(e: Expr, cost: int): Result<KernelResult, Failure> {
    match e
    case Operand(_, _, shape, _) => Ok(KernelResult(shape, cost))
    case Unary(_, _, x) => KernelCost(x, cost)
    case Binary(_, l, r) =>
      var left :- KernelCost(l, cost);
      var right :- KernelCost(r, left.cost);
      var gemm := Gemm(left.shape.rows, left.shape.cols, right.shape.cols);
      var halved :- Halved(l, r);
      Ok(KernelResult(Shape(left.shape.rows, right.shape.cols), if halved then gemm / 2 else gemm))
    case Nary(_, _) => Ok(KernelResult(Shape(0, 0), cost))
  }

  /** Without n-ary nodes, a successful walk returns the rows of the
      leftmost operand leaf and the columns of the rightmost one. */
  lemma {:induction false} KernelShapeIsEnds(e: Expr, c: int)
    requires NoNary(e) && KernelCost(e, c).Ok?
    ensures KernelCost(e, c).value.shape.rows == CollectOperands(e)[0].shape.rows
    ensures KernelCost(e, c).value.shape.cols == CollectOperands(e)[|CollectOperands(e)| - 1].shape.cols
  {
    match e
    case Operand(_, _, _, _) =>
    case Unary(_, _, x) =>
      KernelShapeIsEnds(x, c);
    case Binary(id, l, r) =>
      BinaryShape(id, l, r, c);
      KernelShapeIsEnds(l, c);
      KernelShapeIsEnds(r, KernelCost(l, c).value.cost);
      var a, b := CollectOperands(l), CollectOperands(r);
      assert CollectOperands(e) == a + b;
      assert (a + b)[0] == a[0];
      assert (a + b)[|a + b| - 1] == b[|b| - 1];
  }

  /** A successful walk over a product walked both factors successfully and
      returns the left factor's rows and the right factor's columns. */
  lemma BinaryShape(id: nat, l: Expr, r: Expr, c: int)
    requires KernelCost(Binary(id, l, r), c).Ok?
    ensures KernelCost(l, c).Ok?
    ensures KernelCost(r, KernelCost(l, c).value.cost).Ok?
    ensures KernelCost(Binary(id, l, r), c).value.shape ==
              Shape(KernelCost(l, c).value.shape.rows, KernelCost(r, KernelCost(l, c).value.cost).value.shape.cols)
  {
  }

  /** A product's kernel cost is its own multiplication only: the incoming
      register and the children's costs do not survive. Unary nodes pass
      their child's shape through, rows and columns unswapped. */
  lemma KernelCostIsTopLevel(id: nat, l: Expr, r: Expr, c1: int, c2: int, u: nat, op: UnaryKind)
    ensures KernelCost(Binary(id, l, r), c1).Ok? ==>
              KernelCost(Binary(id, l, r), c1) == KernelCost(Binary(id, l, r), c2)
    ensures KernelCost(Unary(u, op, l), c1) == KernelCost(l, c1)
  {
    if KernelCost(Binary(id, l, r), c1).Ok? {
      KernelShapeIgnoresRegister(l, c1, c2);
      var left := KernelCost(l, c1).value;
      KernelShapeIgnoresRegister(r, left.cost, KernelCost(l, c2).value.cost);
    }
  }

  /** Leaves and n-ary nodes leave the register untouched: an operand gives
      its own shape, an n-ary node (0, 0). */
  lemma NonProductsKeepRegister(e: Expr, c: int)
    ensures e.Operand? ==> KernelCost(e, c) == Ok(KernelResult(e.shape, c))
    ensures e.Nary? ==> KernelCost(e, c) == Ok(KernelResult(Shape(0, 0), c))
  {
  }

  /** Whether the walk succeeds, and the shape it returns, do not depend on
      the incoming register. */
  lemma {:induction false} KernelShapeIgnoresRegister(e: Expr, c1: int, c2: int)
    ensures KernelCost(e, c1).Ok? <==> KernelCost(e, c2).Ok?
    ensures KernelCost(e, c1).Ok? ==> KernelCost(e, c1).value.shape == KernelCost(e, c2).value.shape
    ensures KernelCost(e, c1).Ok? && e.Binary? ==> KernelCost(e, c1) == KernelCost(e, c2)
  {
    match e
    case Operand(_, _, _, _) =>
    case Unary(_, _, x) =>
      KernelShapeIgnoresRegister(x, c1, c2);
    case Binary(_, l, r) =>
      KernelShapeIgnoresRegister(l, c1, c2);
      if KernelCost(l, c1).Ok? {
        KernelShapeIgnoresRegister(r, KernelCost(l, c1).value.cost, KernelCost(l, c2).value.cost);
      }
    case Nary(_, _) =>
  }

  /** The top-level cost is the dense `2*m*k*n`, halved exactly once when the
      left factor is lower triangular, or else when it is symmetric and the
      right factor square. */
  lemma KernelDiscount(id: nat, l: Expr, r: Expr, c: int)
    requires KernelCost(Binary(id, l, r), c).Ok?
    ensures var left := KernelCost(l, c).value;
            var right := KernelCost(r, left.cost).value;
            var gemm := Gemm(left.shape.rows, left.shape.cols, right.shape.cols);
            var halved := Ask(LowerTriangular, l) == Ok(true) ||
                          (Ask(Symmetric, l) == Ok(true) && Ask(Square, r) == Ok(true));
            KernelCost(Binary(id, l, r), c).value.cost == (if halved then gemm / 2 else gemm)
  {
  }

  // ---------------------------------------------------------------------
  // Trees of operands

  /** Every leaf of `e` declares `p`. */
  ghost predicate AllDeclare(e: Expr, p: Property) {
    forall i :: 0 <= i < |CollectOperands(e)| ==> p in CollectOperands(e)[i].props
  }

  /** On a tree of operand products, triangularity, squareness and symmetry
      never fail and hold iff every leaf declares them. */
  lemma {:induction false} OperandTreeAnswers(e: Expr, p: Property)
    requires OperandTree(e)
    requires p == UpperTriangular || p == LowerTriangular || p == Square || p == Symmetric
    ensures Ask(p, e) == Ok(AllDeclare(e, p))
  {
    match e
    case Operand(_, _, _, _) =>
      assert CollectOperands(e)[0] == e;
    case Binary(_, l, r) =>
      OperandTreeAnswers(l, p);
      OperandTreeAnswers(r, p);
      assert Ask(p, e) == AndThen(Ask(p, l), Ask(p, r));
      var a, b := CollectOperands(l), CollectOperands(r);
      assert CollectOperands(e) == a + b;
      assert AllDeclare(e, p) == (AllDeclare(l, p) && AllDeclare(r, p)) by {
        assert forall i :: 0 <= i < |a| ==> (a + b)[i] == a[i];
        assert forall i :: 0 <= i < |b| ==> (a + b)[|a| + i] == b[i];
      }
  }

  /** The kernel walk of a tree of operand products never fails. */
  lemma {:induction false} OperandTreeCosts(e: Expr, c: int)
    requires OperandTree(e)
    ensures KernelCost(e, c).Ok?
  {
    match e
    case Operand(_, _, _, _) =>
    case Binary(_, l, r) =>
      OperandTreeCosts(l, c);
      OperandTreeCosts(r, KernelCost(l, c).value.cost);
      OperandTreeAnswers(l, LowerTriangular);
      OperandTreeAnswers(l, Symmetric);
      OperandTreeAnswers(r, Square);
  }
}
