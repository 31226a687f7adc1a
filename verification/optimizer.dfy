/**
 The property-aware chain optimiser: it flattens a product into its operand
 leaves and fills the cost table `m`, the split table `s` and the table of
 materialised best sub-products bottom-up by chain length. Each candidate
 split is priced by building the product of the two best sub-products and
 running the kernel cost walk on it.
 */
module Optimizer {
  import opened Results
  import opened Expressions
  import opened Properties
  import opened Costs
  import opened ChainOrder

  /** `e` is present and is a product tree over exactly operands a..b. */
  ghost predicate Spans(e: Option<Expr>, ops: seq<OperandNode>, a: nat, b: nat)
    requires 1 <= a <= b <= |ops|
  {
    e.Some? && OperandTree(e.value) && CollectOperands(e.value) == ops[a - 1..b]
  }

  lemma {:induction false} OperandTreeHasNoNary(e: Expr)
    requires OperandTree(e)
    ensures NoNary(e)
  {
    match e
    case Operand(_, _, _, _) =>
    case Binary(_, l, r) =>
      OperandTreeHasNoNary(l);
      OperandTreeHasNoNary(r);
  }

  /** Every leaf of a product tree over a..b declares `q` iff every operand
      in a..b does. */
  lemma SpanAllDeclare(e: Expr, ops: seq<OperandNode>, a: nat, b: nat, q: Property)
    requires 1 <= a <= b <= |ops| && Spans(Some(e), ops, a, b)
    ensures AllDeclare(e, q) == SpanDeclares(ops, a, b, q)
  {
    var leaves := CollectOperands(e);
    assert forall t :: 0 <= t < |leaves| ==> leaves[t] == ops[a - 1 + t];
  }

  /** The leftmost leaf of a product tree over a..b is operand a, the
      rightmost operand b. */
  lemma SpanEnds(e: Expr, ops: seq<OperandNode>, a: nat, b: nat)
    requires 1 <= a <= b <= |ops| && Spans(Some(e), ops, a, b)
    ensures |CollectOperands(e)| == b - a + 1
    ensures CollectOperands(e)[0] == ops[a - 1]
    ensures CollectOperands(e)[b - a] == ops[b - 1]
  {
  }

  /** The kernel walk on a product tree over a..b succeeds with the shape
      (rows of operand a, columns of operand b). */
  lemma SpanShape(e: Expr, ops: seq<OperandNode>, a: nat, b: nat, c: int)
    requires 1 <= a <= b <= |ops| && Spans(Some(e), ops, a, b)
    ensures KernelCost(e, c).Ok?
    ensures KernelCost(e, c).value.shape == Shape(ops[a - 1].shape.rows, ops[b - 1].shape.cols)
  {
    OperandTreeCosts(e, c);
    OperandTreeHasNoNary(e);
    KernelShapeIsEnds(e, c);
    SpanEnds(e, ops, a, b);
  }

  /** The kernel cost of the product of a tree over i..k and a tree over
      k+1..j is the price of split (i, k, j), whatever the trees' shapes. */
  lemma CandidateKernelCost(ops: seq<OperandNode>, id: nat, a: Expr, b: Expr, i: nat, k: nat, j: nat)
    requires 1 <= i <= k < j <= |ops|
    requires Spans(Some(a), ops, i, k) && Spans(Some(b), ops, k + 1, j)
    ensures KernelCost(Binary(id, a, b), 0).Ok?
    ensures KernelCost(Binary(id, a, b), 0).value.cost == SplitCost(Kernels(ops), i, k, j)
    ensures KernelCost(Binary(id, a, b), 0).value.shape == Shape(ops[i - 1].shape.rows, ops[j - 1].shape.cols)
  {
    SpanShape(a, ops, i, k, 0);
    var left := KernelCost(a, 0).value;
    SpanShape(b, ops, k + 1, j, left.cost);
    var right := KernelCost(b, left.cost).value;
    OperandTreeAnswers(a, LowerTriangular);
    OperandTreeAnswers(a, Symmetric);
    OperandTreeAnswers(b, Square);
    SpanAllDeclare(a, ops, i, k, LowerTriangular);
    SpanAllDeclare(a, ops, i, k, Symmetric);
    SpanAllDeclare(b, ops, k + 1, j, Square);
    var gemm := Gemm(left.shape.rows, left.shape.cols, right.shape.cols);
    assert gemm == Gemm(ops[i - 1].shape.rows, ops[k - 1].shape.cols, ops[j - 1].shape.cols);
    var lower := SpanDeclares(ops, i, k, LowerTriangular);
    var symm := SpanDeclares(ops, i, k, Symmetric) && SpanDeclares(ops, k + 1, j, Square);
    KernelDiscount(id, a, b, 0);
    assert KernelCost(Binary(id, a, b), 0).value.cost == (if lower || symm then gemm / 2 else gemm);
    assert SplitCost(Kernels(ops), i, k, j) == (if lower || symm then gemm / 2 else gemm);
  }

  /** A product tree over a..k next to one over k+1..b is one over a..b. */
  lemma SpansJoin(ops: seq<OperandNode>, id: nat, x: Expr, y: Expr, a: nat, k: nat, b: nat)
    requires 1 <= a <= k < b <= |ops|
    requires Spans(Some(x), ops, a, k) && Spans(Some(y), ops, k + 1, b)
    ensures Spans(Some(Binary(id, x, y)), ops, a, b)
  {
    assert CollectOperands(Binary(id, x, y)) == CollectOperands(x) + CollectOperands(y);
    assert ops[a - 1..k] + ops[k..b] == ops[a - 1..b];
  }

  /** Multiplying the best trees for i..k and k+1..j never meets a missing
      child and gives a tree over i..j. */
  lemma CandidateStep(ops: seq<OperandNode>, id: nat, x: Option<Expr>, y: Option<Expr>, i: nat, k: nat, j: nat)
    requires 1 <= i <= k < j <= |ops|
    requires Spans(x, ops, i, k) && Spans(y, ops, k + 1, j)
    ensures Mul(id, x, y).Ok?
    ensures Spans(Some(Mul(id, x, y).value), ops, i, j)
  {
    SpansJoin(ops, id, x.value, y.value, i, k, j);
  }

  /** Builds the product of the best trees for i..k and k+1..j and prices it
      with the kernel cost walk, starting from a zero register. */
  method PriceCandidate(ops: seq<OperandNode>, id: nat, x: Option<Expr>, y: Option<Expr>, i: nat, k: nat, j: nat)
    returns (cost: int)
    requires 1 <= i <= k < j <= |ops|
    requires Spans(x, ops, i, k) && Spans(y, ops, k + 1, j)
    ensures cost == SplitCost(Kernels(ops), i, k, j)
  {
    var candidate := Mul(id, x, y).value;
    CandidateKernelCost(ops, id, x.value, y.value, i, k, j);
    cost := KernelCost(candidate, 0).value.cost;
  }

  /** The dynamic programme over operands 1..N (N = |ops|), with 1-based
      tables of size N+1. Cells that are never written are unspecified.
      New product nodes get ids `first`, `first + 1`, ... */
  method FillTables(ops: seq<OperandNode>, first: nat)
    returns (m: array2<int>, s: array2<int>, tmps: array2<Option<Expr>>)
    requires |ops| >= 1
    ensures m.Length0 == m.Length1 == s.Length0 == s.Length1 == |ops| + 1
    ensures tmps.Length0 == tmps.Length1 == |ops| + 1
    ensures forall i :: 0 <= i <= |ops| ==> m[i, i] == 0
    ensures forall i, j :: 1 <= i <= j <= |ops| ==> m[i, j] == Opt(Kernels(ops), i, j)
    ensures forall i, j :: 1 <= i < j <= |ops| ==> s[i, j] == OptSplit(Kernels(ops), i, j)
    ensures forall i, j :: 1 <= i <= j <= |ops| ==> Spans(tmps[i, j], ops, i, j)
  {
    var cm := Kernels(ops);
    var n := |ops| + 1;
    m := new int[n, n];
    s := new int[n, n];
    tmps := new Option<Expr>[n, n]((_, _) => None);
    var next := first;

    var t := 0;
    while t < n - 1
      invariant 0 <= t <= n - 1
      invariant forall a :: 1 <= a <= t ==> tmps[a, a] == Some(ops[a - 1])
    {
      tmps[t + 1, t + 1] := Some(ops[t]);
      t := t + 1;
    }
    forall a | 1 <= a < n
      ensures Spans(tmps[a, a], ops, a, a)
    {
      assert ops[a - 1..a] == [ops[a - 1]];
    }

    t := 0;
    while t < n
      invariant 0 <= t <= n
      invariant forall a :: 0 <= a < t ==> m[a, a] == 0
      invariant forall a :: 1 <= a < n ==> Spans(tmps[a, a], ops, a, a)
    {
      m[t, t] := 0;
      t := t + 1;
    }

    var l := 2;
    while l < n
      invariant 2 <= l <= n
      invariant forall a :: 0 <= a < n ==> m[a, a] == 0
      invariant forall a, b :: 1 <= a <= b < n && b - a < l - 1 ==> m[a, b] == Opt(cm, a, b)
      invariant forall a, b :: 1 <= a < b < n && b - a < l - 1 ==> s[a, b] == OptSplit(cm, a, b)
      invariant forall a, b :: 1 <= a <= b < n && b - a < l - 1 ==> Spans(tmps[a, b], ops, a, b)
    {
      next := FillDiagonal(ops, m, s, tmps, l, next);
      l := l + 1;
    }
  }

  /** All cells of sub-chains of length l, from the top row down. Needs the
      cells of all shorter sub-chains. */
  method FillDiagonal(ops: seq<OperandNode>, m: array2<int>, s: array2<int>, tmps: array2<Option<Expr>>,
                      l: nat, next: nat) returns (next': nat)
    modifies m, s, tmps
    requires m != s
    requires m.Length0 == m.Length1 == s.Length0 == s.Length1 == |ops| + 1
    requires tmps.Length0 == tmps.Length1 == |ops| + 1
    requires 2 <= l <= |ops|
    requires forall a :: 0 <= a <= |ops| ==> m[a, a] == 0
    requires forall a, b :: 1 <= a <= b <= |ops| && b - a < l - 1 ==> m[a, b] == Opt(Kernels(ops), a, b)
    requires forall a, b :: 1 <= a < b <= |ops| && b - a < l - 1 ==> s[a, b] == OptSplit(Kernels(ops), a, b)
    requires forall a, b :: 1 <= a <= b <= |ops| && b - a < l - 1 ==> Spans(tmps[a, b], ops, a, b)
    ensures forall a :: 0 <= a <= |ops| ==> m[a, a] == 0
    ensures forall a, b :: 1 <= a <= b <= |ops| && b - a < l ==> m[a, b] == Opt(Kernels(ops), a, b)
    ensures forall a, b :: 1 <= a < b <= |ops| && b - a < l ==> s[a, b] == OptSplit(Kernels(ops), a, b)
    ensures forall a, b :: 1 <= a <= b <= |ops| && b - a < l ==> Spans(tmps[a, b], ops, a, b)
  {
    var cm := Kernels(ops);
    var n := |ops| + 1;
    next' := next;
    var i := 1;
    while i < n - l + 1
      invariant 1 <= i <= n - l + 1
      invariant forall a :: 0 <= a < n ==> m[a, a] == 0
      invariant forall a, b :: 1 <= a <= b < n && (b - a < l - 1 || (b - a == l - 1 && a < i)) ==>
                  m[a, b] == Opt(cm, a, b)
      invariant forall a, b :: 1 <= a < b < n && (b - a < l - 1 || (b - a == l - 1 && a < i)) ==>
                  s[a, b] == OptSplit(cm, a, b)
      invariant forall a, b :: 1 <= a <= b < n && (b - a < l - 1 || (b - a == l - 1 && a < i)) ==>
                  Spans(tmps[a, b], ops, a, b)
    {
      next' := FillCell(ops, m, s, tmps, i, i + l - 1, next');
      i := i + 1;
    }
  }

  /** One cell of the programme: tries every split k of i..j in increasing
      order, keeping a candidate only when it is strictly cheaper (the
      first one is always kept). Needs the cells of the shorter sub-chains. */
  method FillCell(ops: seq<OperandNode>, m: array2<int>, s: array2<int>, tmps: array2<Option<Expr>>,
                  i: nat, j: nat, next: nat) returns (next': nat)
    modifies m, s, tmps
    requires m != s
    requires m.Length0 == m.Length1 == s.Length0 == s.Length1 == |ops| + 1
    requires tmps.Length0 == tmps.Length1 == |ops| + 1
    requires 1 <= i < j <= |ops|
    requires forall k :: i <= k < j ==> m[i, k] == Opt(Kernels(ops), i, k) && Spans(tmps[i, k], ops, i, k)
    requires forall k :: i < k <= j ==> m[k, j] == Opt(Kernels(ops), k, j) && Spans(tmps[k, j], ops, k, j)
    ensures m[i, j] == Opt(Kernels(ops), i, j)
    ensures s[i, j] == OptSplit(Kernels(ops), i, j)
    ensures Spans(tmps[i, j], ops, i, j)
    ensures forall a, b :: 0 <= a < m.Length0 && 0 <= b < m.Length1 && (a != i || b != j) ==>
              m[a, b] == old(m[a, b]) && s[a, b] == old(s[a, b]) && tmps[a, b] == old(tmps[a, b])
  {
    var cm := Kernels(ops);
    next' := next;
    var k := i;
    while k <= j - 1
      invariant i <= k <= j
      invariant forall a, b :: 0 <= a < m.Length0 && 0 <= b < m.Length1 && (a != i || b != j) ==>
                  m[a, b] == old(m[a, b]) && s[a, b] == old(s[a, b]) && tmps[a, b] == old(tmps[a, b])
      invariant k > i ==> m[i, j] == Best(cm, i, j, k).cost && s[i, j] == Best(cm, i, j, k).split
      invariant k > i ==> Spans(tmps[i, j], ops, i, j)
    {
      var left, right := tmps[i, k], tmps[k + 1, j];
      var cost := PriceCandidate(ops, next', left, right, i, k, j);
      next' := next' + 1;
      var q := m[i, k] + m[k + 1, j] + cost;
      BestStep(cm, i, k, j);
      if k == i || q < m[i, j] {
        CandidateStep(ops, next', left, right, i, k, j);
        tmps[i, j] := Some(Mul(next', left, right).value);
        next' := next' + 1;
        m[i, j] := q;
        s[i, j] := k;
      }
      k := k + 1;
    }
  }

  /** Collects the operand leaves of `e` and fills the tables for them.
      A chain without operand leaves fails. */
  method RunMcp(e: Expr, first: nat) returns (r: Result<Tables, Failure>)
    ensures r.Err? <==> |CollectOperands(e)| == 0
    ensures r.Err? ==> r.error == NoOperands
    ensures r.Ok? ==>
              var ops := CollectOperands(e);
              var m, s := r.value.m, r.value.s;
              && m.Length0 == m.Length1 == s.Length0 == s.Length1 == |ops| + 1
              && (forall i, j :: 1 <= i <= j <= |ops| ==> m[i, j] == Opt(Kernels(ops), i, j))
              && (forall i, j :: 1 <= i < j <= |ops| ==> s[i, j] == OptSplit(Kernels(ops), i, j))
  {
    var ops := CollectOperands(e);
    if |ops| == 0 {
      return Err(NoOperands);
    }
    var m, s, _ := FillTables(ops, first);
    return Ok(Tables(m, s));
  }

  /** The least total kernel cost of multiplying out the operand leaves of
      `e`: the last cell of the first row of the cost table. */
  method GetMcpFlops(e: Expr, first: nat) returns (r: Result<int, Failure>)
    ensures r.Err? <==> |CollectOperands(e)| == 0
    ensures r.Err? ==> r.error == NoOperands
    ensures r.Ok? ==> r.value == Opt(Kernels(CollectOperands(e)), 1, |CollectOperands(e)|)
    ensures |CollectOperands(e)| == 1 ==> r == Ok(0)
  {
    var tables :- RunMcp(e, first);
    var n := tables.m.Length0;
    return Ok(tables.m[1, n - 1]);
  }
}
