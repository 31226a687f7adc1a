/**
 The dimension-only optimiser: the textbook matrix-chain order over a list of
 factors, each an operand or a transpose/inverse of one. The price of a split
 is the dimension product p[i-1] * p[k] * p[j]; declared properties play no
 part. Unary wrappers are dropped and their operand's shape is used as is.
 */
module DimensionChain {
  import opened Results
  import opened Expressions
  import opened Costs
  import opened ChainOrder

  /** The operand a factor stands for: the operand itself, or the operand
      directly under a unary node. */
  function Factor(e: Expr): (r: Option<OperandNode>)
    ensures r.Some? <==> e.Operand? || (e.Unary? && e.child.Operand?)
  {
    match e
    case Operand(_, _, _, _) => Some(e)
    case Unary(_, _, x) => if x.Operand? then Some(x) else None
    case _ => None
  }

  /** Some entry of the list is a product, which no factor may be. */
  ghost predicate HasProduct(exprs: seq<Expr>) {
    exists i :: 0 <= i < |exprs| && (exprs[i].Binary? || exprs[i].Nary?)
  }

  /** Every entry of the list stands for an operand. */
  predicate AllFactors(exprs: seq<Expr>) {
    forall i :: 0 <= i < |exprs| ==> Factor(exprs[i]).Some?
  }

  /** The operands a list of factors stands for. */
  function Factors(exprs: seq<Expr>): (r: seq<OperandNode>)
    requires AllFactors(exprs)
    ensures |r| == |exprs|
    ensures forall i :: 0 <= i < |exprs| ==> r[i] == Factor(exprs[i]).value
  {
    if |exprs| == 0 then []
    else [Factor(exprs[0]).value] + Factors(exprs[1..])
  }

  /** A product or n-ary node in the list is rejected as soon as it is met.
      A unary node over a non-operand contributes nothing, which is noticed
      once the whole list has been scanned. */
  method CollectFactors(exprs: seq<Expr>) returns (r: Result<seq<OperandNode>, Failure>)
    ensures r == Err(NotAFactor) <==> HasProduct(exprs)
    ensures r == Err(LostOperand) <==> !HasProduct(exprs) && !AllFactors(exprs)
    ensures r.Ok? <==> AllFactors(exprs)
    ensures r.Ok? ==> r.value == Factors(exprs)
  {
    var operands: seq<OperandNode> := [];
    var idx := 0;
    while idx < |exprs|
      invariant 0 <= idx <= |exprs|
      invariant forall t :: 0 <= t < idx ==> exprs[t].Operand? || exprs[t].Unary?
      invariant (forall t :: 0 <= t < idx ==> Factor(exprs[t]).Some?) ==>
                  |operands| == idx && forall t :: 0 <= t < idx ==> operands[t] == Factor(exprs[t]).value
      invariant (exists t :: 0 <= t < idx && Factor(exprs[t]).None?) ==> |operands| < idx
    {
      var e := exprs[idx];
      if e.Operand? {
        operands := operands + [e];
      } else if e.Unary? {
        if e.child.Operand? {
          operands := operands + [e.child];
        }
      } else {
        return Err(NotAFactor);
      }
      idx := idx + 1;
    }
    if |operands| != |exprs| {
      return Err(LostOperand);
    }
    return Ok(operands);
  }

  /** One cell of the programme, trying splits k = i..j-1 in order and
      keeping a split only when it is strictly cheaper than the best so far
      (the first one is always kept). */
  method FillCell(p: seq<int>, m: array2<int>, s: array2<int>, i: nat, j: nat)
    modifies m, s
    requires m != s
    requires |p| >= 2
    requires m.Length0 == m.Length1 == s.Length0 == s.Length1 == |p|
    requires 1 <= i < j < |p|
    requires forall k :: i <= k < j ==> m[i, k] == Opt(Dimensions(p), i, k)
    requires forall k :: i < k <= j ==> m[k, j] == Opt(Dimensions(p), k, j)
    ensures m[i, j] == Opt(Dimensions(p), i, j)
    ensures s[i, j] == OptSplit(Dimensions(p), i, j)
    ensures forall a, b :: 0 <= a < m.Length0 && 0 <= b < m.Length1 && (a != i || b != j) ==>
              m[a, b] == old(m[a, b]) && s[a, b] == old(s[a, b])
  {
    var cm := Dimensions(p);
    var k := i;
    while k <= j - 1
      invariant i <= k <= j
      invariant forall a, b :: 0 <= a < m.Length0 && 0 <= b < m.Length1 && (a != i || b != j) ==>
                  m[a, b] == old(m[a, b]) && s[a, b] == old(s[a, b])
      invariant k > i ==> m[i, j] == Best(cm, i, j, k).cost && s[i, j] == Best(cm, i, j, k).split
    {
      var cost := p[i - 1] * p[k] * p[j];
      var q := m[i, k] + m[k + 1, j] + cost;
      assert q == Candidate(cm, i, k, j);
      assert Best(cm, i, j, k + 1) ==
        if k == i || q < Best(cm, i, j, k).cost then Choice(q, k) else Best(cm, i, j, k);
      if k == i || q < m[i, j] {
        m[i, j] := q;
        s[i, j] := k;
      }
      k := k + 1;
    }
  }

  /** The programme over the dimension vector `p` of N = |p| - 1 operands,
      with 1-based tables of size |p|. Cells never written are unspecified. */
  method FillTables(p: seq<int>) returns (m: array2<int>, s: array2<int>)
    requires |p| >= 2
    ensures m.Length0 == m.Length1 == s.Length0 == s.Length1 == |p|
    ensures forall i :: 0 <= i < |p| ==> m[i, i] == 0
    ensures forall i, j :: 1 <= i <= j < |p| ==> m[i, j] == Opt(Dimensions(p), i, j)
    ensures forall i, j :: 1 <= i < j < |p| ==> s[i, j] == OptSplit(Dimensions(p), i, j)
  {
    var cm := Dimensions(p);
    var n := |p|;
    m := new int[n, n];
    s := new int[n, n];

    var t := 0;
    while t < n
      invariant 0 <= t <= n
      invariant forall a :: 0 <= a < t ==> m[a, a] == 0
    {
      m[t, t] := 0;
      t := t + 1;
    }

    var l := 2;
    while l < n
      invariant 2 <= l <= n
      invariant forall a :: 0 <= a < n ==> m[a, a] == 0
      invariant forall a, b :: 1 <= a <= b < n && b - a < l - 1 ==> m[a, b] == Opt(cm, a, b)
      invariant forall a, b :: 1 <= a < b < n && b - a < l - 1 ==> s[a, b] == OptSplit(cm, a, b)
    {
      var i := 1;
      while i < n - l + 1
        invariant 1 <= i <= n - l + 1
        invariant forall a :: 0 <= a < n ==> m[a, a] == 0
        invariant forall a, b :: 1 <= a <= b < n && (b - a < l - 1 || (b - a == l - 1 && a < i)) ==>
                    m[a, b] == Opt(cm, a, b)
        invariant forall a, b :: 1 <= a < b < n && (b - a < l - 1 || (b - a == l - 1 && a < i)) ==>
                    s[a, b] == OptSplit(cm, a, b)
      {
        FillCell(p, m, s, i, i + l - 1);
        i := i + 1;
      }
      l := l + 1;
    }
  }

  /** Collects the factors, builds the dimension vector, fills the tables
      and hands back the split table, whose bracketing of the whole chain is
      the optimal one. An empty list has no chain to order and fails. */
  method GetOptimalSplit(exprs: seq<Expr>) returns (r: Result<array2<int>, Failure>)
    ensures r.Ok? <==> |exprs| > 0 && AllFactors(exprs)
    ensures |exprs| == 0 ==> r == Err(NoOperands)
    ensures r.Ok? ==>
              var cm, s := Dimensions(PVector(Factors(exprs))), r.value;
              && s.Length0 == s.Length1 == |exprs| + 1
              && (forall i, j :: 1 <= i < j <= |exprs| ==> s[i, j] == OptSplit(cm, i, j))
              && ValidSplits(s, 1, |exprs|)
              && ParensFrom(s, 1, |exprs|) == OptimalParens(cm, 1, |exprs|)
  {
    var operands :- CollectFactors(exprs);
    if |operands| == 0 {
      return Err(NoOperands);
    }
    var p := PVector(operands);
    var m, s := FillTables(p);
    RecordedTablesAreOptimal(Dimensions(p), m, s);
    ParensFromRecorded(Dimensions(p), s, 1, |operands|);
    return Ok(s);
  }

  // ---------------------------------------------------------------------
  // Agreement with the property-aware optimiser

  /** No operand declares a property that earns a kernel discount. */
  ghost predicate Plain(ops: seq<OperandNode>) {
    forall i :: 0 <= i < |ops| ==> LowerTriangular !in ops[i].props && Symmetric !in ops[i].props
  }

  /** On a conformable chain of plain operands the kernel cost of every split
      is twice its dimension product (a multiply-add counts as two). */
  lemma KernelCostIsTwiceDimensionCost(ops: seq<OperandNode>)
    requires |ops| >= 1 && Conformable(ops) && Plain(ops)
    ensures Count(Dimensions(PVector(ops))) == Count(Kernels(ops))
    ensures forall i, k, j :: 1 <= i <= k < j <= |ops| ==>
              SplitCost(Kernels(ops), i, k, j) == 2 * SplitCost(Dimensions(PVector(ops)), i, k, j)
  {
    var p := PVector(ops);
    PVectorGivesShapes(ops);
    forall i, k, j | 1 <= i <= k < j <= |ops|
      ensures SplitCost(Kernels(ops), i, k, j) == 2 * SplitCost(Dimensions(p), i, k, j)
    {
      assert !SpanDeclares(ops, i, k, LowerTriangular) by {
        assert LowerTriangular !in ops[i - 1].props;
      }
      assert !SpanDeclares(ops, i, k, Symmetric) by {
        assert Symmetric !in ops[i - 1].props;
      }
      var x, y, z := p[i - 1], p[k], p[j];
      assert SplitCost(Kernels(ops), i, k, j) == Gemm(x, y, z);
      assert Gemm(x, y, z) == 2 * (x * y * z);
    }
  }

  /** Hence both optimisers choose the same splits on such a chain, and the
      property-aware optimum is twice the textbook one. */
  lemma SameSplitsOnPlainChains(ops: seq<OperandNode>)
    requires |ops| >= 1 && Conformable(ops) && Plain(ops)
    ensures forall i, j :: 1 <= i <= j <= |ops| ==>
              Opt(Kernels(ops), i, j) == 2 * Opt(Dimensions(PVector(ops)), i, j)
    ensures forall i, j :: 1 <= i < j <= |ops| ==>
              OptSplit(Kernels(ops), i, j) == OptSplit(Dimensions(PVector(ops)), i, j)
  {
    KernelCostIsTwiceDimensionCost(ops);
    forall i, j | 1 <= i <= j <= |ops|
      ensures Opt(Kernels(ops), i, j) == 2 * Opt(Dimensions(PVector(ops)), i, j)
      ensures i < j ==> OptSplit(Kernels(ops), i, j) == OptSplit(Dimensions(PVector(ops)), i, j)
    {
      TwiceTheCost(Dimensions(PVector(ops)), Kernels(ops), i, j);
    }
  }
}
