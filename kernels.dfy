/** The scoring kernels of the inverted file: weighting of a count,
    normalisation of a value, the per-dimension distance, and the
    self-distance (`dist2Norm`) a score starts from. */
module Kernels {
  import opened Entries

  /** The operations whose exact values are not modelled: `log2` and `sqrt`
      from <cmath>, the Hamming kernel's xor of two truncated floats, and
      the IEEE result of a division by zero. */
  datatype FloatOps = FloatOps(log2: real -> real, sqrt: real -> real, hamming: (real, real) -> real, divByZero: real -> real)

  /** The EPS of the header, 1e-10. */
  const Eps: real := 0.0000000001

  /** Floating-point division: exact when the divisor is nonzero. */
  function Div(ops: FloatOps, a: real, b: real): (r: real)
    ensures b != 0.0 ==> r * b == a
  {
    if b != 0.0 then a / b else ops.divByZero(a)
  }

  /** weightVal: `ndocs` is the index's document count. */
  function WeightVal(val: real, word: Word, doc: Doc, wt: Weight, ndocs: nat, ops: FloatOps): (r: real)
    ensures wt == WeightNone ==> r == val
    ensures wt == WeightBin ==> (r == 1.0 <==> val > 0.0) && (r == 0.0 || r == 1.0)
    ensures wt == WeightTF ==> r * (if doc.ntokens == 0 then 1.0 else doc.ntokens as real) == val
    ensures wt == WeightTFIDF ==>
      r * (if doc.ntokens == 0 then 1.0 else doc.ntokens as real) == val * ops.log2(ndocs as real / (word.ndocs as real + Eps))
  {
    var tokens := if doc.ntokens == 0 then 1.0 else doc.ntokens as real;
    match wt
    case WeightNone => val
    case WeightBin => if val > 0.0 then 1.0 else 0.0
    case WeightTF => val / tokens
    case WeightTFIDF => val / tokens * ops.log2(ndocs as real / (word.ndocs as real + Eps))
  }

  /** weightVal reads only the document's token count. */
  lemma WeightValReadsTokensOnly(val: real, word: Word, d1: Doc, d2: Doc, wt: Weight, ndocs: nat, ops: FloatOps)
    requires d1.ntokens == d2.ntokens
    ensures WeightVal(val, word, d1, wt, ndocs, ops) == WeightVal(val, word, d2, wt, ndocs, ops)
  {
  }

  /** The divisor normVal uses for a scheme other than NORM_NONE: EPS plus
      the chosen norm (the square root of norml2 for NORM_L2). */
  function NormDenom(doc: Doc, norm: Norm, ops: FloatOps): (r: real)
    ensures norm == NormL0 && doc.norml0 >= 0.0 ==> r > 0.0
    ensures norm == NormL1 && doc.norml1 >= 0.0 ==> r > 0.0
  {
    match norm
    case NormL0 => Eps + doc.norml0
    case NormL1 => Eps + doc.norml1
    case NormL2 => Eps + ops.sqrt(doc.norml2)
    case NormNone => 1.0
  }

  /** normVal: with a norm, the value divided by the norm plus EPS. */
  function NormVal(val: real, doc: Doc, norm: Norm, ops: FloatOps): (r: real)
    ensures norm == NormNone ==> r == val
    ensures norm != NormNone && NormDenom(doc, norm, ops) != 0.0 ==> r * NormDenom(doc, norm, ops) == val
  {
    if norm == NormNone then val else Div(ops, val, NormDenom(doc, norm, ops))
  }

  /** dist: the contribution of one dimension to a distance (or, for COS,
      JAC and HISTINT, to a similarity). */
  function DistVal(a: real, b: real, d: Dist, ops: FloatOps): (r: real)
    ensures d == DistL1 ==> r >= 0.0 && (r == a - b || r == b - a)
    ensures d == DistL2 ==> r >= 0.0
    ensures d == DistKL ==> r == a
    ensures d == DistJac ==> (r == 1.0 <==> a != 0.0 && b != 0.0) && (r == 0.0 || r == 1.0)
    ensures d == DistHistInt ==> r <= a && r <= b && (r == a || r == b)
  {
    match d
    case DistL1 => if a - b > 0.0 then a - b else -(a - b)
    case DistL2 => (a - b) * (a - b)
    case DistHam => ops.hamming(a, b)
    case DistKL => a
    case DistCos => a * b
    case DistJac => if a == 0.0 || b == 0.0 then 0.0 else 1.0
    case DistHistInt => if a <= b then a else b
  }

  /** dist2Norm: the term a score is seeded with for one side of the
      comparison. */
  function Dist2Norm(doc: Doc, d: Dist, norm: Norm): (r: real)
    ensures d == DistCos || d == DistJac || d == DistHistInt ==> r == 0.0
    ensures norm == NormNone && d == DistL1 ==> r == doc.norml1
    ensures norm == NormNone && d == DistL2 ==> r == doc.norml2
    ensures norm == NormNone && d == DistHam ==> r == doc.norml0
    ensures norm == NormNone && d == DistKL ==> r == 0.0
    ensures norm != NormNone && (d == DistL1 || d == DistL2 || d == DistHam || d == DistKL) ==> r == 1.0
  {
    if norm == NormNone then
      match d
      case DistL1 => doc.norml1
      case DistL2 => doc.norml2
      case DistHam => doc.norml0
      case _ => 0.0
    else
      match d
      case DistCos => 0.0
      case DistJac => 0.0
      case DistHistInt => 0.0
      case _ => 1.0
  }

  /** The kernels for which the sparse three-term update is exact: the
      symmetric ones that vanish on a pair of zeros. */
  predicate SparseExact(d: Dist)
  {
    d == DistL1 || d == DistL2 || d == DistCos || d == DistJac || d == DistHistInt
  }

  lemma {:induction false} SparseExactKernel(a: real, d: Dist, ops: FloatOps)
    requires SparseExact(d)
    ensures DistVal(0.0, a, d, ops) == DistVal(a, 0.0, d, ops)
    ensures DistVal(0.0, 0.0, d, ops) == 0.0
  {
    match d
    case DistL1 =>
    case DistL2 =>
    case DistCos =>
    case DistJac =>
    case DistHistInt =>
  }

  /** KL is a reserved scheme: its kernel is not symmetric, so the sparse
      update is not exact for it. */
  lemma KLIsNotSparseExact(ops: FloatOps)
    ensures DistVal(0.0, 1.0, DistKL, ops) != DistVal(1.0, 0.0, DistKL, ops)
  {
  }

  /** Dense reference: the sum of dist over every dimension of two vectors. */
  function DenseDist(q: seq<real>, p: seq<real>, d: Dist, ops: FloatOps): real
    requires |q| == |p|
  {
    if |q| == 0 then 0.0
    else DenseDist(q[..|q| - 1], p[..|p| - 1], d, ops) + DistVal(q[|q| - 1], p[|p| - 1], d, ops)
  }

  /** The sum of dist(v[w], 0): what the self-distance of one side stands for. */
  function SelfTerms(v: seq<real>, d: Dist, ops: FloatOps): real
  {
    if |v| == 0 then 0.0
    else SelfTerms(v[..|v| - 1], d, ops) + DistVal(v[|v| - 1], 0.0, d, ops)
  }

  /** The three-term correction that search applies to one touched dimension. */
  function Correction(a: real, b: real, d: Dist, ops: FloatOps): real
  {
    DistVal(a, b, d, ops) - (DistVal(a, 0.0, d, ops) + DistVal(b, 0.0, d, ops))
  }

  /** The sum of the corrections over the dimensions marked in `touched`. */
  function Corrections(q: seq<real>, p: seq<real>, touched: seq<bool>, d: Dist, ops: FloatOps): real
    requires |q| == |p| == |touched|
  {
    if |q| == 0 then 0.0
    else
      Corrections(q[..|q| - 1], p[..|p| - 1], touched[..|touched| - 1], d, ops)
      + (if touched[|q| - 1] then Correction(q[|q| - 1], p[|p| - 1], d, ops) else 0.0)
  }

  /** The sparse accumulation is exact: when every dimension left untouched is
      zero on at least one side, seeding with both self-distances and
      correcting only the touched dimensions gives the dense distance. */
  lemma {:induction false} SparseUpdateIsDense(q: seq<real>, p: seq<real>, touched: seq<bool>, d: Dist, ops: FloatOps)
    requires |q| == |p| == |touched|
    requires SparseExact(d)
    requires forall w :: 0 <= w < |q| && !touched[w] ==> q[w] == 0.0 || p[w] == 0.0
    ensures DenseDist(q, p, d, ops) == SelfTerms(q, d, ops) + SelfTerms(p, d, ops) + Corrections(q, p, touched, d, ops)
  {
    if |q| > 0 {
      var n := |q| - 1;
      SparseUpdateIsDense(q[..n], p[..n], touched[..n], d, ops);
      if !touched[n] {
        SparseExactKernel(q[n], d, ops);
        SparseExactKernel(p[n], d, ops);
      }
    }
  }
}
