/**
 The property engine: the six queries (upper/lower triangular, square,
 symmetric, full rank, SPD) as one structural recursion over the tree, and
 the identity-based transpose test the SPD rule relies on.

 A query the rules do not cover is a failed assertion in the source; here it
 is `Err(Unsupported(query, node kind))`, distinct from a definite `false`.
 */
module Properties {
  import opened Results
  import opened Expressions

  type Answer = Result<bool, Failure>

  /** The C++ `a && b`: `b` is consulted, and may fail, only when `a` holds. */
  function AndThen(a: Answer, b: Answer): Answer {
    match a
    case Err(_) => a
    case Ok(x) => if x then b else Ok(false)
  }

  /** `x` is a transpose node whose child is the very node `y` (compared by
      identity, not by structure). */
  predicate IsTransposeOf(x: Expr, y: Expr) {
    x.Unary? && x.op == Transpose && x.child.id == y.id
  }

  /** Does `e` have property `p`? */
  function Ask(p: Property, e: Expr): Answer
    decreases e, 1, 0
  {
    match e
    case Operand(_, _, _, declared) =>
      Ok(p in declared)
    case Unary(_, op, x) =>
      if op == Transpose then
        match p
        case UpperTriangular => Ask(LowerTriangular, x)
        case LowerTriangular => Ask(UpperTriangular, x)
        case Spd => Err(Unsupported(p, TransposeKind))
        case _ => Ask(p, x)
      else if p == FullRank then Ask(FullRank, x)
      else Err(Unsupported(p, InverseKind))
    case Binary(_, l, r) =>
      if p == FullRank then Err(Unsupported(p, BinaryKind))
      else if p == Spd then AndThen(Ask(FullRank, l), Ok(IsTransposeOf(l, r)))
      else AndThen(Ask(p, l), Ask(p, r))
    case Nary(_, _) =>
      if p == UpperTriangular || p == LowerTriangular then AllFrom(p, e, 0)
      else Ok(false)
  }

  /** `std::all_of` over the children of an n-ary node from index `i` on. */
  function AllFrom(p: Property, e: Expr, i: nat): Answer
    requires e.Nary? && i <= |e.children|
    decreases e, 0, |e.children| - i
  {
    if i == |e.children| then Ok(true)
    else AndThen(Ask(p, e.children[i]), AllFrom(p, e, i + 1))
  }
}
