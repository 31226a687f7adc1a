/**
 The matrix-chain-order recurrence, independent of any table: the optimal
 cost of multiplying operands i..j (counting from 1), the split the dynamic
 programme chooses (the smallest optimal one), bracketings of a chain and
 their costs, and the facts that the recurrence is the minimum over all
 bracketings and that the chosen splits attain it.

 A split (i, k, j) multiplies the product of i..k by the product of k+1..j.
 Its price is given by a cost model: the dimension product of the
 dimension-only optimiser, or the kernel cost of the property-aware one.
 */
module ChainOrder {
  import opened Expressions
  import opened Costs

  /** How one split is priced. */
  datatype CostModel =
    | Dimensions(p: seq<int>)          // p[i-1] * p[k] * p[j]
    | Kernels(ops: seq<OperandNode>)   // kernel cost of the product of i..k and k+1..j

  /** The number of operands in the chain. */
  function Count(cm: CostModel): nat {
    match cm
    case Dimensions(p) => if |p| == 0 then 0 else |p| - 1
    case Kernels(ops) => |ops|
  }

  /** Every operand in positions i..j declares `q`. */
  predicate SpanDeclares(ops: seq<OperandNode>, i: nat, j: nat, q: Property)
    requires 1 <= i <= j <= |ops|
  {
    forall t :: i - 1 <= t < j ==> q in ops[t].props
  }

  /** The price of split (i, k, j). Under `Kernels` the product of i..k is
      lower triangular iff each of its operands is, symmetric iff each is,
      and the product of k+1..j square iff each of its operands is. */
  function SplitCost(cm: CostModel, i: nat, k: nat, j: nat): int
    requires 1 <= i <= k < j <= Count(cm)
  {
    match cm
    case Dimensions(p) => p[i - 1] * p[k] * p[j]
    case Kernels(ops) =>
      var gemm := Gemm(ops[i - 1].shape.rows, ops[k - 1].shape.cols, ops[j - 1].shape.cols);
      if SpanDeclares(ops, i, k, LowerTriangular) then gemm / 2
      else if SpanDeclares(ops, i, k, Symmetric) && SpanDeclares(ops, k + 1, j, Square) then gemm / 2
      else gemm
  }

  /** A split point and the cost it gives. */
  datatype Choice = Choice(cost: int, split: nat)

  /** The least cost of multiplying out operands i..j. */
  function Opt(cm: CostModel, i: nat, j: nat): int
    requires 1 <= i <= j <= Count(cm)
    decreases j - i, 2, 0
  {
    if i == j then 0 else Best(cm, i, j, j).cost
  }

  /** The cost of splitting i..j at k and multiplying each side optimally. */
  function Candidate(cm: CostModel, i: nat, k: nat, j: nat): int
    requires 1 <= i <= k < j <= Count(cm)
    decreases j - i, 0, 0
  {
    Opt(cm, i, k) + Opt(cm, k + 1, j) + SplitCost(cm, i, k, j)
  }

  /** The best split of i..j among k in [i, hi), the earliest on ties. */
  function Best(cm: CostModel, i: nat, j: nat, hi: nat): (r: Choice)
    requires 1 <= i < hi <= j <= Count(cm)
    ensures i <= r.split < hi
    decreases j - i, 1, hi
  {
    if hi == i + 1 then Choice(Candidate(cm, i, i, j), i)
    else
      var prev := Best(cm, i, j, hi - 1);
      var q := Candidate(cm, i, hi - 1, j);
      if q < prev.cost then Choice(q, hi - 1) else prev
  }

  /** `Best` picks a candidate of least cost, and the earliest such. */
  lemma {:induction false} BestIsLeast(cm: CostModel, i: nat, j: nat, hi: nat)
    requires 1 <= i < hi <= j <= Count(cm)
    ensures Best(cm, i, j, hi).cost == Candidate(cm, i, Best(cm, i, j, hi).split, j)
    ensures forall k :: i <= k < hi ==> Best(cm, i, j, hi).cost <= Candidate(cm, i, k, j)
    ensures forall k :: i <= k < Best(cm, i, j, hi).split ==> Best(cm, i, j, hi).cost < Candidate(cm, i, k, j)
    decreases hi
  {
    if hi > i + 1 {
      BestIsLeast(cm, i, j, hi - 1);
    }
  }

  /** Widening the range of splits by `k`: the new best is the candidate at
      `k` when it is the first, or strictly cheaper than the best so far. */
  lemma BestStep(cm: CostModel, i: nat, k: nat, j: nat)
    requires 1 <= i <= k < j <= Count(cm)
    ensures k == i ==> Best(cm, i, j, k + 1) == Choice(Candidate(cm, i, k, j), k)
    ensures k > i ==>
              Best(cm, i, j, k + 1) ==
                if Candidate(cm, i, k, j) < Best(cm, i, j, k).cost then Choice(Candidate(cm, i, k, j), k)
                else Best(cm, i, j, k)
  {
  }

  /** The split the dynamic programme records for i..j. */
  function OptSplit(cm: CostModel, i: nat, j: nat): nat
    requires 1 <= i < j <= Count(cm)
  {
    Best(cm, i, j, j).split
  }

  // ---------------------------------------------------------------------
  // Bracketings

  /** A full bracketing of a chain: a leaf is one operand (by position). */
  datatype Paren = Leaf(index: nat) | Split(left: Paren, right: Paren)

  /** The position of the rightmost operand. */
  function Last(t: Paren): nat {
    match t
    case Leaf(x) => x
    case Split(_, r) => Last(r)
  }

  /** `t` brackets exactly the operands i..j. */
  predicate Brackets(t: Paren, i: nat, j: nat) {
    match t
    case Leaf(x) => x == i && i == j
    case Split(l, r) => i <= Last(l) < j && Brackets(l, i, Last(l)) && Brackets(r, Last(l) + 1, j)
  }

  /** The operand positions of `t` from left to right. */
  function Indices(t: Paren): seq<nat> {
    match t
    case Leaf(x) => [x]
    case Split(l, r) => Indices(l) + Indices(r)
  }

  /** The positions i..j in order. */
  function Range(i: nat, j: nat): (r: seq<nat>)
    requires i <= j + 1
    ensures |r| == j + 1 - i
    ensures forall t :: 0 <= t < |r| ==> r[t] == i + t
  {
    seq(j + 1 - i, t requires 0 <= t < j + 1 - i => i + t)
  }

  /** A bracketing of i..j lists each of i..j once, in order. */
  lemma {:induction false} BracketsCoverRange(t: Paren, i: nat, j: nat)
    requires Brackets(t, i, j)
    ensures Indices(t) == Range(i, j)
  {
    match t
    case Leaf(_) =>
    case Split(l, r) =>
      var k := Last(l);
      BracketsCoverRange(l, i, k);
      BracketsCoverRange(r, k + 1, j);
      assert Range(i, k) + Range(k + 1, j) == Range(i, j);
  }

  /** The total cost of the multiplications `t` performs. */
  function ParenCost(cm: CostModel, t: Paren, i: nat, j: nat): int
    requires Brackets(t, i, j) && 1 <= i && j <= Count(cm)
  {
    match t
    case Leaf(_) => 0
    case Split(l, r) =>
      var k := Last(l);
      ParenCost(cm, l, i, k) + ParenCost(cm, r, k + 1, j) + SplitCost(cm, i, k, j)
  }

  /** No bracketing of i..j costs less than `Opt`. */
  lemma {:induction false} OptIsLowerBound(cm: CostModel, t: Paren, i: nat, j: nat)
    requires Brackets(t, i, j) && 1 <= i && j <= Count(cm)
    ensures Opt(cm, i, j) <= ParenCost(cm, t, i, j)
  {
    match t
    case Leaf(_) =>
    case Split(l, r) =>
      var k := Last(l);
      OptIsLowerBound(cm, l, i, k);
      OptIsLowerBound(cm, r, k + 1, j);
      BestIsLeast(cm, i, j, j);
      assert Opt(cm, i, j) <= Candidate(cm, i, k, j);
  }

  /** The bracketing the recorded splits describe. */
  function OptimalParens(cm: CostModel, i: nat, j: nat): (t: Paren)
    requires 1 <= i <= j <= Count(cm)
    ensures Brackets(t, i, j)
    ensures Last(t) == j
    decreases j - i
  {
    if i == j then Leaf(i)
    else
      var k := OptSplit(cm, i, j);
      Split(OptimalParens(cm, i, k), OptimalParens(cm, k + 1, j))
  }

  /** Following the recorded splits achieves `Opt`. */
  lemma {:induction false} OptimalParensAttains(cm: CostModel, i: nat, j: nat)
    requires 1 <= i <= j <= Count(cm)
    ensures ParenCost(cm, OptimalParens(cm, i, j), i, j) == Opt(cm, i, j)
    decreases j - i
  {
    if i < j {
      var k := OptSplit(cm, i, j);
      OptimalParensAttains(cm, i, k);
      OptimalParensAttains(cm, k + 1, j);
      BestIsLeast(cm, i, j, j);
    }
  }

  /** The optimum is the least cost over every bracketing, and some
      bracketing attains it. */
  lemma OptIsMinimum(cm: CostModel, i: nat, j: nat)
    requires 1 <= i <= j <= Count(cm)
    ensures forall t :: Brackets(t, i, j) ==> Opt(cm, i, j) <= ParenCost(cm, t, i, j)
    ensures Brackets(OptimalParens(cm, i, j), i, j)
    ensures ParenCost(cm, OptimalParens(cm, i, j), i, j) == Opt(cm, i, j)
  {
    forall t | Brackets(t, i, j)
      ensures Opt(cm, i, j) <= ParenCost(cm, t, i, j)
    {
      OptIsLowerBound(cm, t, i, j);
    }
    OptimalParensAttains(cm, i, j);
  }

  // ---------------------------------------------------------------------
  // Split tables

  /** The cost table `m` and split table `s` of a run, indexed from 1. */
  datatype Tables = Tables(m: array2<int>, s: array2<int>)

  /** Every split recorded for a sub-chain of i..j lies inside it. */
  ghost predicate ValidSplits(s: array2<int>, i: nat, j: nat)
    reads s
  {
    j < s.Length0 && j < s.Length1 &&
    forall a, b :: i <= a < b <= j ==> a <= s[a, b] < b
  }

  /** The bracketing a split table describes: operand i alone when i == j,
      otherwise the bracketings of i..s[i,j] and s[i,j]+1..j side by side. */
  function ParensFrom(s: array2<int>, i: nat, j: nat): (t: Paren)
    reads s
    requires i <= j && ValidSplits(s, i, j)
    ensures Brackets(t, i, j)
    ensures Last(t) == j
    decreases j - i
  {
    if i == j then Leaf(i)
    else
      var k := s[i, j];
      Split(ParensFrom(s, i, k), ParensFrom(s, k + 1, j))
  }

  /** A table holding the recorded splits describes the optimal bracketing. */
  lemma {:induction false} ParensFromRecorded(cm: CostModel, s: array2<int>, i: nat, j: nat)
    requires 1 <= i <= j <= Count(cm) && ValidSplits(s, i, j)
    requires forall a, b :: i <= a < b <= j ==> s[a, b] == OptSplit(cm, a, b)
    ensures ParensFrom(s, i, j) == OptimalParens(cm, i, j)
    decreases j - i
  {
    if i < j {
      var k := s[i, j];
      ParensFromRecorded(cm, s, i, k);
      ParensFromRecorded(cm, s, k + 1, j);
    }
  }

  /** Tables holding `Opt` and `OptSplit` for every sub-chain of 1..N: the
      bracketing read off the split table costs exactly the recorded
      optimum, and no bracketing of the whole chain costs less. */
  lemma RecordedTablesAreOptimal(cm: CostModel, m: array2<int>, s: array2<int>)
    requires Count(cm) >= 1
    requires m.Length0 == m.Length1 == s.Length0 == s.Length1 == Count(cm) + 1
    requires forall i, j :: 1 <= i <= j <= Count(cm) ==> m[i, j] == Opt(cm, i, j)
    requires forall i, j :: 1 <= i < j <= Count(cm) ==> s[i, j] == OptSplit(cm, i, j)
    ensures ValidSplits(s, 1, Count(cm))
    ensures ParenCost(cm, ParensFrom(s, 1, Count(cm)), 1, Count(cm)) == m[1, Count(cm)]
    ensures forall t :: Brackets(t, 1, Count(cm)) ==> m[1, Count(cm)] <= ParenCost(cm, t, 1, Count(cm))
  {
    var n := Count(cm);
    ParensFromRecorded(cm, s, 1, n);
    OptIsMinimum(cm, 1, n);
  }

  /** Tables holding `Opt` and `OptSplit` obey the recurrence cell by cell:
      the recorded split lies in i..j-1 and attains the cell's value, no
      split is cheaper, and every split before the recorded one is dearer. */
  lemma RecordedTablesObeyRecurrence(cm: CostModel, m: array2<int>, s: array2<int>)
    requires m.Length0 == m.Length1 == s.Length0 == s.Length1 == Count(cm) + 1
    requires forall i, j :: 1 <= i <= j <= Count(cm) ==> m[i, j] == Opt(cm, i, j)
    requires forall i, j :: 1 <= i < j <= Count(cm) ==> s[i, j] == OptSplit(cm, i, j)
    ensures forall i :: 1 <= i <= Count(cm) ==> m[i, i] == 0
    ensures forall i, j :: 1 <= i < j <= Count(cm) ==>
              i <= s[i, j] < j &&
              m[i, j] == m[i, s[i, j]] + m[s[i, j] + 1, j] + SplitCost(cm, i, s[i, j], j)
    ensures forall i, k, j :: 1 <= i <= k < j <= Count(cm) ==>
              m[i, j] <= m[i, k] + m[k + 1, j] + SplitCost(cm, i, k, j)
    ensures forall i, k, j :: 1 <= i <= k < j <= Count(cm) && k < s[i, j] ==>
              m[i, j] < m[i, k] + m[k + 1, j] + SplitCost(cm, i, k, j)
  {
    forall i, j | 1 <= i < j <= Count(cm)
      ensures i <= s[i, j] < j
      ensures m[i, j] == m[i, s[i, j]] + m[s[i, j] + 1, j] + SplitCost(cm, i, s[i, j], j)
      ensures forall k :: i <= k < j ==> m[i, j] <= m[i, k] + m[k + 1, j] + SplitCost(cm, i, k, j)
      ensures forall k :: i <= k < s[i, j] ==> m[i, j] < m[i, k] + m[k + 1, j] + SplitCost(cm, i, k, j)
    {
      BestIsLeast(cm, i, j, j);
      forall k | i <= k < j
        ensures m[i, k] + m[k + 1, j] + SplitCost(cm, i, k, j) == Candidate(cm, i, k, j)
      {
      }
    }
  }

  // ---------------------------------------------------------------------
  // Scaled cost models

  /** When one model prices every split at exactly twice another, its
      optimum is twice the other's and it records the same splits. */
  lemma {:induction false} TwiceTheCost(c1: CostModel, c2: CostModel, i: nat, j: nat)
    requires Count(c1) == Count(c2)
    requires forall a, k, b :: 1 <= a <= k < b <= Count(c1) ==> SplitCost(c2, a, k, b) == 2 * SplitCost(c1, a, k, b)
    requires 1 <= i <= j <= Count(c1)
    ensures Opt(c2, i, j) == 2 * Opt(c1, i, j)
    ensures i < j ==> OptSplit(c2, i, j) == OptSplit(c1, i, j)
    decreases j - i, 1, 0
  {
    if i < j {
      TwiceTheBest(c1, c2, i, j, j);
    }
  }

  lemma {:induction false} TwiceTheBest(c1: CostModel, c2: CostModel, i: nat, j: nat, hi: nat)
    requires Count(c1) == Count(c2)
    requires forall a, k, b :: 1 <= a <= k < b <= Count(c1) ==> SplitCost(c2, a, k, b) == 2 * SplitCost(c1, a, k, b)
    requires 1 <= i < hi <= j <= Count(c1)
    ensures Best(c2, i, j, hi).cost == 2 * Best(c1, i, j, hi).cost
    ensures Best(c2, i, j, hi).split == Best(c1, i, j, hi).split
    decreases j - i, 0, hi
  {
    var k := hi - 1;
    TwiceTheCost(c1, c2, i, k);
    TwiceTheCost(c1, c2, k + 1, j);
    var q1, q2 := Candidate(c1, i, k, j), Candidate(c2, i, k, j);
    assert q2 == 2 * q1 by {
      assert SplitCost(c2, i, k, j) == 2 * SplitCost(c1, i, k, j);
    }
    if hi == i + 1 {
      assert Best(c1, i, j, hi) == Choice(q1, i);
      assert Best(c2, i, j, hi) == Choice(q2, i);
    } else {
      TwiceTheBest(c1, c2, i, j, hi - 1);
      var p1, p2 := Best(c1, i, j, hi - 1), Best(c2, i, j, hi - 1);
      assert Best(c1, i, j, hi) == if q1 < p1.cost then Choice(q1, k) else p1;
      assert Best(c2, i, j, hi) == if q2 < p2.cost then Choice(q2, k) else p2;
    }
  }
}
