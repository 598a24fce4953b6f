/** Vectors and matrices over the reals, standing in for float32 tensors of one compound. */
module Tensor {

  type Vec = seq<real>
  type Mat = seq<seq<real>>

  /** Why a forward pass raises (an index error in PyTorch) or yields a non-number. */
  datatype Fault =
    | ElementIndexOutOfRange    // `nn.Embedding` lookup of `src` outside the element table
    | BooleanIndexOutOfRange    // `nn.Embedding` lookup of `bool_src` outside the boolean table
    | FractionIndexOutOfRange   // `pe[frac_idx]` with an index past the encoding table
    | EmptySlotAxis             // `mask[:, 0]` on a compound with no slots at all
    | NotANumber                // the masked average divides 0 by 0

  ghost predicate IsMatrix(m: Mat, rows: nat, cols: nat) {
    |m| == rows && forall i :: 0 <= i < |m| ==> |m[i]| == cols
  }

  function Fill(n: nat, v: real): (r: Vec)
    ensures |r| == n
    ensures forall k :: 0 <= k < n ==> r[k] == v
  {
    seq(n, _ => v)
  }

  function Zeros(n: nat): (r: Vec)
    ensures |r| == n
    ensures forall k :: 0 <= k < n ==> r[k] == 0.0
  {
    Fill(n, 0.0)
  }

  function Add(a: Vec, b: Vec): (r: Vec)
    requires |a| == |b|
    ensures |r| == |a|
    ensures forall k :: 0 <= k < |a| ==> r[k] == a[k] + b[k]
  {
    seq(|a|, k requires 0 <= k < |a| => a[k] + b[k])
  }

  function Mul(a: Vec, b: Vec): (r: Vec)
    requires |a| == |b|
    ensures |r| == |a|
    ensures forall k :: 0 <= k < |a| ==> r[k] == a[k] * b[k]
  {
    seq(|a|, k requires 0 <= k < |a| => a[k] * b[k])
  }

  function Scale(a: Vec, s: real): (r: Vec)
    ensures |r| == |a|
    ensures forall k :: 0 <= k < |a| ==> r[k] == a[k] * s
  {
    seq(|a|, k requires 0 <= k < |a| => a[k] * s)
  }

  function Sum(v: Vec): real {
    if v == [] then 0.0 else v[0] + Sum(v[1..])
  }

  lemma {:induction false} SumFill(n: nat, v: real)
    ensures Sum(Fill(n, v)) == n as real * v
  {
    if n > 0 {
      assert Fill(n, v)[1..] == Fill(n - 1, v);
      SumFill(n - 1, v);
    }
  }

  lemma {:induction false} SumConcat(a: Vec, b: Vec)
    ensures Sum(a + b) == Sum(a) + Sum(b)
  {
    if a == [] {
      assert a + b == b;
    } else {
      assert (a + b)[1..] == a[1..] + b;
      SumConcat(a[1..], b);
    }
  }
}
