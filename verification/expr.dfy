/**
 The expression tree of a matrix chain: operands (matrices with a shape and a
 declared property list), transpose and inverse, binary products and n-ary
 products, together with the constructors client code uses to build them.

 The source shares sub-expressions between parents and compares them by
 address. Here every node carries an `id` standing for its address: a
 constructor is given the id of the node it allocates, and "the same node"
 means "the same id".
 */
module Expressions {
  import opened Results

  /** The algebraic properties an operand may declare. */
  datatype Property =
    | UpperTriangular
    | LowerTriangular
    | Square
    | Symmetric
    | FullRank
    | Spd

  datatype UnaryKind = Transpose | Inverse

  /** A matrix shape; the source keeps it as a two-element vector. */
  datatype Shape = Shape(rows: int, cols: int)

  datatype Expr =
    | Operand(id: nat, name: string, shape: Shape, props: seq<Property>)
    | Unary(id: nat, op: UnaryKind, child: Expr)
    | Binary(id: nat, left: Expr, right: Expr)
    | Nary(id: nat, children: seq<Expr>)

  /** A leaf of the tree. */
  type OperandNode = e: Expr | e.Operand? witness Operand(0, "", Shape(0, 0), [])

  /** The node kinds, unary nodes split by operator, as named in error reports. */
  datatype NodeKind = OperandKind | TransposeKind | InverseKind | BinaryKind | NaryKind

  /** The conditions under which the source stops with a failed assertion
      or an exception. */
  datatype Failure =
    | Unsupported(query: Property, node: NodeKind)  // a query the rules do not cover
    | NullChild                                     // a constructor given a null child
    | NotAnOperand                                  // properties set on a non-operand
    | EmptyProduct                                  // a product of no factors
    | NotAFactor                                    // a chain factor that is a product
    | LostOperand                                   // a chain factor wrapping a non-operand
    | NoOperands                                    // a chain without operand leaves

  function KindOf(e: Expr): NodeKind {
    match e
    case Operand(_, _, _, _) => OperandKind
    case Unary(_, op, _) => if op == Transpose then TransposeKind else InverseKind
    case Binary(_, _, _) => BinaryKind
    case Nary(_, _) => NaryKind
  }

  // ---------------------------------------------------------------------
  // Constructors

  /** The binary product `left * right`, allocated as node `id`. */
  function Mul(id: nat, left: Option<Expr>, right: Option<Expr>): (r: Result<Expr, Failure>)
    ensures r.Ok? <==> left.Some? && right.Some?
    ensures r.Ok? ==> r.value.Binary? && r.value.left == left.value && r.value.right == right.value
    ensures r.Err? ==> r.error == NullChild
  {
    if left.None? || right.None? then Err(NullChild)
    else Ok(Binary(id, left.value, right.value))
  }

  /** The transpose of `child`, allocated as node `id`. */
  function Trans(id: nat, child: Option<Expr>): (r: Result<Expr, Failure>)
    ensures r.Ok? <==> child.Some?
    ensures r.Ok? ==> KindOf(r.value) == TransposeKind && r.value.child == child.value
    ensures r.Err? ==> r.error == NullChild
  {
    if child.None? then Err(NullChild) else Ok(Unary(id, Transpose, child.value))
  }

  /** The inverse of `child`, allocated as node `id`. */
  function Inv(id: nat, child: Option<Expr>): (r: Result<Expr, Failure>)
    ensures r.Ok? <==> child.Some?
    ensures r.Ok? ==> KindOf(r.value) == InverseKind && r.value.child == child.value
    ensures r.Err? ==> r.error == NullChild
  {
    if child.None? then Err(NullChild) else Ok(Unary(id, Inverse, child.value))
  }

  /** Replaces an operand's declared property list. Only operands accept one. */
  function SetProperties(e: Expr, props: seq<Property>): (r: Result<Expr, Failure>)
    ensures r.Ok? <==> e.Operand?
    ensures r.Err? ==> r.error == NotAnOperand
    ensures r.Ok? ==> r.value.Operand? && r.value.props == props
    ensures r.Ok? ==> r.value.id == e.id && r.value.name == e.name && r.value.shape == e.shape
  {
    match e
    case Operand(id, name, shape, _) => Ok(Operand(id, name, shape, props))
    case _ => Err(NotAnOperand)
  }

  /** The variadic product: the arguments folded from the left into binary
      products, the i-th product (counting from 1) allocated as node
      `first + i - 1`. */
  function MulAll(args: seq<Expr>, first: nat): (r: Result<Expr, Failure>)
    ensures r.Err? <==> |args| == 0
    ensures r.Err? ==> r.error == EmptyProduct
    ensures |args| == 1 ==> r == Ok(args[0])
    ensures r.Ok? ==> Unfold(r.value, |args|) == Some(args)
  {
    if |args| == 0 then Err(EmptyProduct)
    else
      FoldMulUnfolds(args[0], [args[0]], args[1..], first);
      assert [args[0]] + args[1..] == args;
      Ok(FoldMul(args[0], args[1..], first))
  }

  /** The variadic product over possibly-null arguments. A lone argument
      comes back as it is, null or not; with two or more, the first binary
      product that meets a null argument rejects it. */
  function MulList(args: seq<Option<Expr>>, first: nat): (r: Result<Option<Expr>, Failure>)
    ensures r == Err(EmptyProduct) <==> |args| == 0
    ensures r == Err(NullChild) <==> |args| >= 2 && exists i :: 0 <= i < |args| && args[i].None?
    ensures |args| == 1 ==> r == Ok(args[0])
    ensures r.Ok? && |args| >= 2 ==> r.value.Some? && Unfold(r.value.value, |args|) == Some(Present(args))
  {
    if |args| == 0 then Err(EmptyProduct)
    else if |args| == 1 then Ok(args[0])
    else if exists i :: 0 <= i < |args| && args[i].None? then Err(NullChild)
    else
      Ok(Some(MulAll(Present(args), first).value))
  }

  /** The arguments of a list none of which is null. */
  function Present(args: seq<Option<Expr>>): (r: seq<Expr>)
    requires forall i :: 0 <= i < |args| ==> args[i].Some?
    ensures |r| == |args|
    ensures forall i :: 0 <= i < |args| ==> args[i] == Some(r[i])
  {
    if |args| == 0 then [] else [args[0].value] + Present(args[1..])
  }

  /** The loop of the variadic product: `acc` is the product so far. */
  function FoldMul(acc: Expr, rest: seq<Expr>, next: nat): Expr
    decreases |rest|
  {
    if |rest| == 0 then acc
    else FoldMul(Binary(next, acc, rest[0]), rest[1..], next + 1)
  }

  /** Reads a left-associated chain of `k - 1` binary products back into
      its `k` factors, or `None` when `e` is not such a chain. */
  function Unfold(e: Expr, k: nat): Option<seq<Expr>>
    requires k >= 1
    decreases k
  {
    if k == 1 then Some([e])
    else if e.Binary? then
      match Unfold(e.left, k - 1)
      case None => None
      case Some(xs) => Some(xs + [e.right])
    else None
  }

  lemma {:induction false} FoldMulUnfolds(acc: Expr, xs: seq<Expr>, rest: seq<Expr>, next: nat)
    requires |xs| >= 1 && Unfold(acc, |xs|) == Some(xs)
    ensures Unfold(FoldMul(acc, rest, next), |xs| + |rest|) == Some(xs + rest)
    decreases |rest|
  {
    if |rest| == 0 {
      assert xs + rest == xs;
    } else {
      var acc' := Binary(next, acc, rest[0]);
      assert Unfold(acc', |xs| + 1) == Some(xs + [rest[0]]);
      FoldMulUnfolds(acc', xs + [rest[0]], rest[1..], next + 1);
      assert xs + [rest[0]] + rest[1..] == xs + rest;
    }
  }

  // ---------------------------------------------------------------------
  // Node identity

  /** Every node reachable from `e`, `e` included. */
  function Nodes(e: Expr): (r: set<Expr>)
    ensures e in r
    ensures e.Unary? ==> Nodes(e.child) <= r
    ensures e.Binary? ==> Nodes(e.left) <= r && Nodes(e.right) <= r
    decreases e
  {
    match e
    case Operand(_, _, _, _) => {e}
    case Unary(_, _, x) => {e} + Nodes(x)
    case Binary(_, l, r) => {e} + Nodes(l) + Nodes(r)
    case Nary(_, cs) => {e} + (set c, x | c in cs && x in Nodes(c) :: x)
  }

  /** Ids behave as addresses: two nodes of `s` with the same id are the same node. */
  ghost predicate WellIdentified(s: set<Expr>) {
    forall a, b :: a in s && b in s && a.id == b.id ==> a == b
  }
}
