/**
 What the property rules imply: operand answers read the declared list as a
 set, transposes swap triangularity (so their parity decides it), products
 are conjunctions of their factors (so bracketing does not matter), the SPD
 rule recognises exactly the `transpose(A) * A` shape, and the transpose test
 is a one-way identity check.
 */
module PropertyLaws {
  import opened Results
  import opened Expressions
  import opened Properties

  /** The triangularity query for one side. */
  function Tri(upper: bool): Property {
    if upper then UpperTriangular else LowerTriangular
  }

  // ---------------------------------------------------------------------
  // Operands

  /** An operand answers from its declared list alone, and only membership
      counts: lists with the same elements in any order or multiplicity
      give the same answers. */
  lemma DeclaredListIsASet(a: OperandNode, b: OperandNode, p: Property)
    requires forall q :: q in a.props <==> q in b.props
    ensures Ask(p, a) == Ok(p in a.props)
    ensures Ask(p, a) == Ask(p, b)
  {
  }

  /** Setting a property list and then asking answers from that list. */
  lemma SetThenAsk(e: Expr, props: seq<Property>, p: Property)
    requires e.Operand?
    ensures SetProperties(e, props).Ok?
    ensures Ask(p, SetProperties(e, props).value) == Ok(p in props)
  {
  }

  // ---------------------------------------------------------------------
  // Transposes

  /** `e` under `n` transposes, the k-th (from the inside, counting from 1)
      allocated as node `first + k - 1`. */
  function Transposes(e: Expr, n: nat, first: nat): (r: Expr)
    ensures n > 0 ==> r.Unary? && r.op == Transpose
  {
    if n == 0 then e else Unary(first + n - 1, Transpose, Transposes(e, n - 1, first))
  }

  /** An even number of transposes keeps the triangularity answer, an odd
      number swaps upper and lower. */
  lemma {:induction false} TransposeParity(e: Expr, n: nat, first: nat, upper: bool)
    ensures Ask(Tri(upper), Transposes(e, n, first)) == Ask(Tri(if n % 2 == 0 then upper else !upper), e)
  {
    if n > 0 {
      TransposeParity(e, n - 1, first, !upper);
    }
  }

  /** Any number of transposes keeps squareness, symmetry and full rank. */
  lemma {:induction false} TransposesKeep(e: Expr, n: nat, first: nat, p: Property)
    requires p == Square || p == Symmetric || p == FullRank
    ensures Ask(p, Transposes(e, n, first)) == Ask(p, e)
  {
    if n > 0 {
      TransposesKeep(e, n - 1, first, p);
    }
  }

  /** `e` under a stack of unary operators, `ops[0]` innermost. */
  function Wrap(e: Expr, ops: seq<UnaryKind>, first: nat): Expr
  {
    if |ops| == 0 then e
    else Unary(first + |ops| - 1, ops[|ops| - 1], Wrap(e, ops[..|ops| - 1], first))
  }

  /** Full rank passes through any mix of transposes and inverses. */
  lemma {:induction false} FullRankThroughUnary(e: Expr, ops: seq<UnaryKind>, first: nat)
    ensures Ask(FullRank, Wrap(e, ops, first)) == Ask(FullRank, e)
    decreases |ops|
  {
    if |ops| > 0 {
      FullRankThroughUnary(e, ops[..|ops| - 1], first);
    }
  }

  // ---------------------------------------------------------------------
  // Products of operands and transposes

  /** Trees of operands, transposes and binary products. */
  ghost predicate TransposeProduct(e: Expr) {
    match e
    case Operand(_, _, _, _) => true
    case Unary(_, op, x) => op == Transpose && TransposeProduct(x)
    case Binary(_, l, r) => TransposeProduct(l) && TransposeProduct(r)
    case Nary(_, _) => false
  }

  /** The operand leaves of `e` from left to right, each with whether an odd
      number of transposes lies above it. */
  function Oriented(e: Expr): seq<(OperandNode, bool)> {
    match e
    case Operand(_, _, _, _) => [(e, false)]
    case Unary(_, _, x) => Flip(Oriented(x))
    case Binary(_, l, r) => Oriented(l) + Oriented(r)
    case Nary(_, _) => []
  }

  function Flip(s: seq<(OperandNode, bool)>): (r: seq<(OperandNode, bool)>)
    ensures |r| == |s|
    ensures forall i :: 0 <= i < |s| ==> r[i] == (s[i].0, !s[i].1)
  {
    seq(|s|, i requires 0 <= i < |s| => (s[i].0, !s[i].1))
  }

  /** Every leaf declares the triangularity that `upper` asks for at the
      top, as seen through its transposes. */
  ghost predicate LeavesTriangular(s: seq<(OperandNode, bool)>, upper: bool) {
    forall i :: 0 <= i < |s| ==> Tri(upper != s[i].1) in s[i].0.props
  }

  /** Every leaf declares `p`. */
  ghost predicate LeavesDeclare(s: seq<(OperandNode, bool)>, p: Property) {
    forall i :: 0 <= i < |s| ==> p in s[i].0.props
  }

  lemma FlipTriangular(s: seq<(OperandNode, bool)>, upper: bool)
    ensures LeavesTriangular(Flip(s), upper) == LeavesTriangular(s, !upper)
  {
    forall i | 0 <= i < |s|
      ensures Tri(upper != Flip(s)[i].1) == Tri(!upper != s[i].1)
    {
    }
  }

  lemma ConcatTriangular(a: seq<(OperandNode, bool)>, b: seq<(OperandNode, bool)>, upper: bool)
    ensures LeavesTriangular(a + b, upper) == (LeavesTriangular(a, upper) && LeavesTriangular(b, upper))
  {
    assert forall i :: 0 <= i < |a| ==> (a + b)[i] == a[i];
    assert forall i :: 0 <= i < |b| ==> (a + b)[|a| + i] == b[i];
  }

  lemma ConcatDeclare(a: seq<(OperandNode, bool)>, b: seq<(OperandNode, bool)>, p: Property)
    ensures LeavesDeclare(a + b, p) == (LeavesDeclare(a, p) && LeavesDeclare(b, p))
  {
    assert forall i :: 0 <= i < |a| ==> (a + b)[i] == a[i];
    assert forall i :: 0 <= i < |b| ==> (a + b)[|a| + i] == b[i];
  }

  /** Triangularity of a product of operands and transposes is decided by
      its leaves: each must declare the side the query asks for, swapped
      under an odd number of transposes. */
  lemma {:induction false} TriangularByLeaves(e: Expr, upper: bool)
    requires TransposeProduct(e)
    ensures Ask(Tri(upper), e) == Ok(LeavesTriangular(Oriented(e), upper))
  {
    match e
    case Operand(_, _, _, _) =>
      assert Oriented(e)[0] == (e, false);
    case Unary(_, _, x) =>
      TriangularByLeaves(x, !upper);
      assert Ask(Tri(upper), e) == Ask(Tri(!upper), x);
      FlipTriangular(Oriented(x), upper);
    case Binary(_, l, r) =>
      TriangularByLeaves(l, upper);
      TriangularByLeaves(r, upper);
      assert Ask(Tri(upper), e) == AndThen(Ask(Tri(upper), l), Ask(Tri(upper), r));
      ConcatTriangular(Oriented(l), Oriented(r), upper);
  }

  /** Squareness and symmetry of a product of operands and transposes hold
      exactly when every leaf declares them. */
  lemma {:induction false} ShapeByLeaves(e: Expr, p: Property)
    requires p == Square || p == Symmetric
    requires TransposeProduct(e)
    ensures Ask(p, e) == Ok(LeavesDeclare(Oriented(e), p))
  {
    match e
    case Operand(_, _, _, _) =>
      assert Oriented(e)[0] == (e, false);
    case Unary(_, _, x) =>
      ShapeByLeaves(x, p);
    case Binary(_, l, r) =>
      ShapeByLeaves(l, p);
      ShapeByLeaves(r, p);
      assert Ask(p, e) == AndThen(Ask(p, l), Ask(p, r));
      ConcatDeclare(Oriented(l), Oriented(r), p);
  }

  /** Two products with the same oriented leaves, however bracketed, agree on
      triangularity, squareness and symmetry. */
  lemma BracketingIrrelevant(a: Expr, b: Expr, p: Property)
    requires TransposeProduct(a) && TransposeProduct(b)
    requires Oriented(a) == Oriented(b)
    requires p == UpperTriangular || p == LowerTriangular || p == Square || p == Symmetric
    ensures Ask(p, a) == Ask(p, b)
    ensures Ask(p, a).Ok?
  {
    if p == UpperTriangular || p == LowerTriangular {
      TriangularByLeaves(a, p == UpperTriangular);
      TriangularByLeaves(b, p == UpperTriangular);
    } else {
      ShapeByLeaves(a, p);
      ShapeByLeaves(b, p);
    }
  }

  /** A binary product is upper/lower triangular, square or symmetric iff
      both factors are; when both answers are known the product's answer is
      their conjunction. */
  lemma ProductIsConjunction(p: Property, id: nat, l: Expr, r: Expr)
    requires p == UpperTriangular || p == LowerTriangular || p == Square || p == Symmetric
    ensures Ask(p, Binary(id, l, r)) == Ok(true) <==> Ask(p, l) == Ok(true) && Ask(p, r) == Ok(true)
    ensures Ask(p, l).Ok? && Ask(p, r).Ok? ==> Ask(p, Binary(id, l, r)) == Ok(Ask(p, l).value && Ask(p, r).value)
  {
  }

  // ---------------------------------------------------------------------
  // N-ary products

  lemma {:induction false} AllFromIff(p: Property, e: Expr, i: nat)
    requires e.Nary? && i <= |e.children|
    ensures AllFrom(p, e, i) == Ok(true) <==>
              forall j :: i <= j < |e.children| ==> Ask(p, e.children[j]) == Ok(true)
    decreases |e.children| - i
  {
    if i < |e.children| {
      AllFromIff(p, e, i + 1);
    }
  }

  /** An n-ary product is upper (lower) triangular iff every child is; it is
      never square, symmetric, full rank or SPD. */
  lemma NaryRules(p: Property, e: Expr)
    requires e.Nary?
    ensures p == UpperTriangular || p == LowerTriangular ==>
              (Ask(p, e) == Ok(true) <==> forall j :: 0 <= j < |e.children| ==> Ask(p, e.children[j]) == Ok(true))
    ensures p != UpperTriangular && p != LowerTriangular ==> Ask(p, e) == Ok(false)
  {
    AllFromIff(p, e, 0);
  }

  // ---------------------------------------------------------------------
  // Unsupported queries

  /** The queries the rules leave open fail instead of answering. */
  lemma UnsupportedQueries(p: Property, id: nat, x: Expr, l: Expr, r: Expr)
    ensures p != FullRank ==> Ask(p, Unary(id, Inverse, x)) == Err(Unsupported(p, InverseKind))
    ensures Ask(Spd, Unary(id, Transpose, x)) == Err(Unsupported(Spd, TransposeKind))
    ensures Ask(FullRank, Binary(id, l, r)) == Err(Unsupported(FullRank, BinaryKind))
  {
  }

  // ---------------------------------------------------------------------
  // SPD and the transpose test

  /** A product is SPD iff its left factor is full rank and is the transpose
      of its right factor; the answer is known whenever the left factor's
      rank is. */
  lemma SpdIff(id: nat, l: Expr, r: Expr)
    ensures Ask(Spd, Binary(id, l, r)) == Ok(true) <==> Ask(FullRank, l) == Ok(true) && IsTransposeOf(l, r)
    ensures Ask(FullRank, l).Ok? <==> Ask(Spd, Binary(id, l, r)).Ok?
  {
  }

  /** `transpose(A) * A` is SPD exactly when `A` is full rank, and the SPD
      query fails with the same error whenever the rank query does. */
  lemma GramProductIsSpd(a: Expr, t: nat, id: nat)
    ensures Ask(Spd, Binary(id, Unary(t, Transpose, a), a)) == Ask(FullRank, a)
  {
  }

  /** Under address-like ids, the identity test means: `x` is a transpose
      node whose child is `y` itself. */
  lemma TransposeOfMeansSameChild(x: Expr, y: Expr)
    requires WellIdentified(Nodes(x) + Nodes(y))
    ensures IsTransposeOf(x, y) <==> x.Unary? && x.op == Transpose && x.child == y
  {
    if x.Unary? {
      assert x.child in Nodes(x);
      assert y in Nodes(y);
    }
  }

  /** The test compares identities: an operand equal in name, shape and
      properties but allocated separately is not the transposed child. */
  lemma TransposeOfIgnoresLookalikes(a: Expr, twin: Expr, t: nat)
    requires twin == a.(id := twin.id) && twin.id != a.id
    ensures IsTransposeOf(Unary(t, Transpose, a), a)
    ensures !IsTransposeOf(Unary(t, Transpose, a), twin)
  {
  }

  /** The number of nodes on the longest root-to-leaf path through unary
      and binary nodes; a node differs from every node strictly below it. */
  function Height(e: Expr): nat {
    match e
    case Operand(_, _, _, _) => 1
    case Unary(_, _, x) => Height(x) + 1
    case Binary(_, l, r) => (if Height(l) < Height(r) then Height(r) else Height(l)) + 1
    case Nary(_, _) => 1
  }

  /** The relation is one-way and looks at the immediate child only:
      `transpose(A)` is the transpose of `A`, `A` is not the transpose of
      `transpose(A)`, and `transpose(transpose(A))` is not the transpose of `A`. */
  lemma TransposeOfIsOneWay(a: Expr, t: nat, t2: nat)
    requires WellIdentified(Nodes(Unary(t2, Transpose, Unary(t, Transpose, a))))
    ensures IsTransposeOf(Unary(t, Transpose, a), a)
    ensures !IsTransposeOf(a, Unary(t, Transpose, a))
    ensures !IsTransposeOf(Unary(t2, Transpose, Unary(t, Transpose, a)), a)
  {
    var ta := Unary(t, Transpose, a);
    var tta := Unary(t2, Transpose, ta);
    assert ta in Nodes(tta) && a in Nodes(tta);
    if a.Unary? {
      assert a.child in Nodes(tta);
      assert Height(a) == Height(a.child) + 1;
    }
    assert Height(ta) == Height(a) + 1;
  }
}
