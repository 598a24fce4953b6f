/**
 * `CrabNet` (kingcrab.py lines 285-377): encodes a compound, maps every slot
 * through the residual output network, averages the rows of the slots that
 * are present, and gates the first half of the averaged outputs with the
 * sigmoid of the second half.
 */
module CrabNet {
  import opened Wrappers
  import opened Tensor
  import opened Layout
  import ResidualNetwork
  import Encoder

  /** `self.out_hidden` (line 308). */
  const OUT_HIDDEN: seq<nat> := [1024, 512, 256, 128]

  /** A `CrabNet`: its encoder, the output network `output_nn` with its learned maps, and
      the `torch.sigmoid` applied to the logits. */
  datatype Params = Params(
    outDims: nat,
    dModel: nat,
    encoder: Encoder.Params,
    head: ResidualNetwork.Net,
    weights: ResidualNetwork.Weights,
    sigmoid: real -> real)

  /** `out_dims` must be at least 2 for `output.chunk(2, dim=-1)` to yield two parts. */
  ghost predicate Valid(p: Params) {
    && Encoder.Valid(p.encoder) && p.encoder.dModel == p.dModel
    && p.head == ResidualNetwork.Build(p.dModel, p.outDims, OUT_HIDDEN)
    && ResidualNetwork.Shaped(p.head, p.weights)
    && p.outDims >= 2
  }

  /** `idx == 0` for every entry: the padding positions of an index vector. */
  function IsPadding(idx: seq<int>): (m: seq<bool>)
    ensures |m| == |idx|
    ensures forall k :: 0 <= k < |idx| ==> (m[k] <==> idx[k] == 0)
  {
    seq(|idx|, k requires 0 <= k < |idx| => idx[k] == 0)
  }

  function NoneMasked(n: nat): (m: seq<bool>)
    ensures |m| == n && forall k :: 0 <= k < n ==> !m[k]
  {
    seq(n, _ => false)
  }

  /** Lines 339-358: `True` for the slots left out of the average, in slot order. */
  function SlotMask(src: seq<int>, nCat: nat, boolSrc: seq<int>, nNum: nat): (m: seq<bool>)
    ensures |m| == |src| + nCat + |boolSrc| + nNum
    ensures var c := Counts(|src|, nCat, |boolSrc|, nNum);
      forall i :: 0 <= i < |m| ==> m[i] == match SlotAt(c, i)
        case Element(k) => src[k] == 0
        case Categorical(_) => false
        case Boolean(k) => boolSrc[k] == 0
        case Numeric(_) => false
  {
    var m := IsPadding(src) + NoneMasked(nCat) + IsPadding(boolSrc) + NoneMasked(nNum);
    assert forall i :: |src| <= i < |src| + nCat ==> m[i] == NoneMasked(nCat)[i - |src|];
    assert forall i :: |src| + nCat <= i < |src| + nCat + |boolSrc| ==>
      m[i] == IsPadding(boolSrc)[i - |src| - nCat];
    assert forall i :: |src| + nCat + |boolSrc| <= i < |m| ==>
      m[i] == NoneMasked(nNum)[i - |src| - nCat - |boolSrc|];
    m
  }

  /** `(~mask).sum()`: the number of slots that enter the average. */
  function CountPresent(mask: seq<bool>): (n: nat)
    ensures n <= |mask|
    ensures n == |mask| <==> forall k :: 0 <= k < |mask| ==> !mask[k]
  {
    if mask == [] then 0 else (if mask[0] then 0 else 1) + CountPresent(mask[1..])
  }

  /** `output_nn(output)`: the output network applied to the row of every slot. */
  function HeadRows(p: Params, enc: Mat): (out: Mat)
    requires Valid(p) && IsMatrix(enc, |enc|, p.dModel)
    ensures IsMatrix(out, |enc|, p.outDims)
    ensures forall i :: 0 <= i < |enc| ==> out[i] == ResidualNetwork.Apply(p.head, p.weights, enc[i])
  {
    seq(|enc|, i requires 0 <= i < |enc| => ResidualNetwork.Apply(p.head, p.weights, enc[i]))
  }

  /** `output.masked_fill(mask, 0)` (line 366). */
  function MaskedFill(out: Mat, mask: seq<bool>, width: nat): (m: Mat)
    requires |mask| == |out|
    ensures |m| == |out|
    ensures forall i :: 0 <= i < |out| ==> m[i] == if mask[i] then Zeros(width) else out[i]
  {
    seq(|out|, i requires 0 <= i < |out| => if mask[i] then Zeros(width) else out[i])
  }

  /** Column `k` of a matrix of `width` columns. */
  function Column(m: Mat, width: nat, k: nat): Vec
    requires IsMatrix(m, |m|, width) && k < width
  {
    seq(|m|, i requires 0 <= i < |m| => m[i][k])
  }

  /** `sum(dim=1)`: the column sums of a matrix of `width` columns. */
  function ColumnSums(m: Mat, width: nat): (s: Vec)
    requires IsMatrix(m, |m|, width)
    ensures |s| == width
    ensures forall k :: 0 <= k < width ==> s[k] == Sum(Column(m, width, k))
  {
    if m == [] then Zeros(width)
    else
      var rest := ColumnSums(m[1..], width);
      assert forall k :: 0 <= k < width ==> Column(m, width, k)[1..] == Column(m[1..], width, k);
      Add(m[0], rest)
  }

  /** Lines 366-369: the average of the rows of the present slots, or the `0 / 0` of a
      compound with no present slot. */
  function MaskedAverage(out: Mat, mask: seq<bool>, width: nat): (r: Result<Vec, Fault>)
    requires IsMatrix(out, |mask|, width)
    ensures r.Ok? <==> CountPresent(mask) > 0
    ensures r.Err? ==> r.error == NotANumber
    ensures r.Ok? ==> |r.value| == width
  {
    var n := CountPresent(mask);
    if n == 0 then Err(NotANumber)
    else
      var total := ColumnSums(MaskedFill(out, mask, width), width);
      Ok(seq(width, k requires 0 <= k < width => total[k] / n as real))
  }

  /** `probability` after line 374: the sigmoid of each of the `floor(d / 2)` logits,
      then ones up to `ceil(d / 2)` entries. */
  function Probabilities(avg: Vec, sigmoid: real -> real): (q: Vec)
    ensures |q| == (|avg| + 1) / 2
  {
    var half := (|avg| + 1) / 2;
    seq(half, k requires 0 <= k < half => if half + k < |avg| then sigmoid(avg[half + k]) else 1.0)
  }

  /** Lines 372-375: `output.chunk(2)` splits the averaged outputs into the first
      `ceil(d / 2)` values and the `floor(d / 2)` logits; value `k` is scaled by the
      sigmoid of logit `k`, and when `d` is odd the last value keeps probability 1. */
  function Readout(avg: Vec, sigmoid: real -> real): (r: Vec)
    ensures |r| == (|avg| + 1) / 2
    ensures forall k :: 0 <= k < |avg| / 2 ==> r[k] == avg[k] * sigmoid(avg[(|avg| + 1) / 2 + k])
    ensures |avg| % 2 == 1 ==> r[|avg| / 2] == avg[|avg| / 2]
  {
    Mul(avg[..(|avg| + 1) / 2], Probabilities(avg, sigmoid))
  }

  /** `forward` on one compound. */
  function Predict(p: Params, src: seq<int>, frac: Vec, catFeat: Vec, boolSrc: seq<int>, floatFeat: Vec): (r: Result<Vec, Fault>)
    requires Valid(p) && |frac| == |src|
    ensures r.Ok? ==> |r.value| == (p.outDims + 1) / 2
  {
    var enc :- Encoder.Encode(p.encoder, src, frac, catFeat, boolSrc, floatFeat);
    var out := HeadRows(p, enc);
    var avg :- MaskedAverage(out, SlotMask(src, |catFeat|, boolSrc, |floatFeat|), p.outDims);
    Ok(Readout(avg, p.sigmoid))
  }

  /** `probability[:, :len(vals)] = vals`, in place (line 374). */
  method SetPrefix(a: array<real>, vals: Vec)
    requires |vals| <= a.Length
    modifies a
    ensures a[..] == vals + old(a[..])[|vals|..]
  {
    for k := 0 to |vals|
      invariant a[..] == vals[..k] + old(a[..])[k..]
    {
      a[k] := vals[k];
      assert a[..] == vals[..k + 1] + old(a[..])[k + 1..];
    }
  }

  /** Lines 372-375 with the probabilities written into a tensor of ones. */
  method ReadoutInPlace(avg: Vec, sigmoid: real -> real) returns (r: Vec)
    ensures r == Readout(avg, sigmoid)
  {
    var half := (|avg| + 1) / 2;
    var output := avg[..half];
    var logits := avg[half..];
    var probability := new real[half](_ => 1.0);
    var gates := seq(|logits|, k requires 0 <= k < |logits| => sigmoid(logits[k]));
    SetPrefix(probability, gates);
    assert probability[..] == Probabilities(avg, sigmoid) by {
      forall k | 0 <= k < half
        ensures probability[..][k] == Probabilities(avg, sigmoid)[k]
      {
        if k < |logits| {
          assert probability[..][k] == gates[k];
        } else {
          assert probability[..][k] == 1.0;
        }
      }
    }
    r := Mul(output, probability[..]);
  }

  /** `forward`: the encoder and the probability write run in place. */
  method Forward(p: Params, src: seq<int>, frac: Vec, catFeat: Vec, boolSrc: seq<int>, floatFeat: Vec)
    returns (r: Result<Vec, Fault>)
    requires Valid(p) && |frac| == |src|
    ensures r == Predict(p, src, frac, catFeat, boolSrc, floatFeat)
  {
    var enc :- Encoder.Forward(p.encoder, src, frac, catFeat, boolSrc, floatFeat);
    var mask := SlotMask(src, |catFeat|, boolSrc, |floatFeat|);
    var out := HeadRows(p, enc);
    var avg :- MaskedAverage(out, mask, p.outDims);
    var y := ReadoutInPlace(avg, p.sigmoid);
    r := Ok(y);
  }

  // ---------------------------------------------------------------- properties

  lemma {:induction false} CountPresentConcat(a: seq<bool>, b: seq<bool>)
    ensures CountPresent(a + b) == CountPresent(a) + CountPresent(b)
  {
    if a == [] {
      assert a + b == b;
    } else {
      assert (a + b)[1..] == a[1..] + b;
      CountPresentConcat(a[1..], b);
    }
  }

  lemma {:induction false} CountNoneMasked(n: nat)
    ensures CountPresent(NoneMasked(n)) == n
  {
    if n > 0 {
      assert NoneMasked(n)[1..] == NoneMasked(n - 1);
      CountNoneMasked(n - 1);
    }
  }

  /** No slot is present exactly when every slot is masked. */
  lemma {:induction false} CountZeroIffAllMasked(mask: seq<bool>)
    ensures CountPresent(mask) == 0 <==> forall i :: 0 <= i < |mask| ==> mask[i]
  {
    if mask != [] {
      CountZeroIffAllMasked(mask[1..]);
      assert forall i :: 1 <= i < |mask| ==> mask[i] == mask[1..][i - 1];
    }
  }

  /** The average runs over the non-padding element slots, every categorical and numeric
      slot, and the boolean slots with a non-zero index. */
  lemma CountSlots(src: seq<int>, nCat: nat, boolSrc: seq<int>, nNum: nat)
    ensures CountPresent(SlotMask(src, nCat, boolSrc, nNum)) ==
            CountPresent(IsPadding(src)) + nCat + CountPresent(IsPadding(boolSrc)) + nNum
    ensures CountPresent(SlotMask(src, nCat, boolSrc, nNum)) >= nCat + nNum
  {
    var a, b, c, d := IsPadding(src), NoneMasked(nCat), IsPadding(boolSrc), NoneMasked(nNum);
    assert SlotMask(src, nCat, boolSrc, nNum) == a + b + c + d;
    CountPresentConcat(a + b + c, d);
    CountPresentConcat(a + b, c);
    CountPresentConcat(a, b);
    CountNoneMasked(nCat);
    CountNoneMasked(nNum);
  }

  /** The average is `0 / 0` exactly when the compound has no categorical or numeric slot
      and every element and boolean index is padding. */
  lemma AverageUndefinedIff(out: Mat, src: seq<int>, nCat: nat, boolSrc: seq<int>, nNum: nat, width: nat)
    requires IsMatrix(out, |src| + nCat + |boolSrc| + nNum, width)
    ensures MaskedAverage(out, SlotMask(src, nCat, boolSrc, nNum), width) == Err(NotANumber) <==>
            && nCat == 0 && nNum == 0
            && (forall k :: 0 <= k < |src| ==> src[k] == 0)
            && (forall k :: 0 <= k < |boolSrc| ==> boolSrc[k] == 0)
  {
    CountSlots(src, nCat, boolSrc, nNum);
    CountZeroIffAllMasked(IsPadding(src));
    CountZeroIffAllMasked(IsPadding(boolSrc));
  }

  /** The rows of masked slots do not enter the average. */
  lemma MaskedRowsIgnored(out: Mat, out': Mat, mask: seq<bool>, width: nat)
    requires IsMatrix(out, |mask|, width) && IsMatrix(out', |mask|, width)
    requires forall i :: 0 <= i < |mask| && !mask[i] ==> out[i] == out'[i]
    ensures MaskedAverage(out, mask, width) == MaskedAverage(out', mask, width)
  {
    assert MaskedFill(out, mask, width) == MaskedFill(out', mask, width);
  }

  /** One more row of the column sum: a masked row adds 0, a present row adds `x`. */
  lemma StepColumn(a: real, x: real, before: real, masked: bool)
    requires a == if masked then 0.0 else x
    ensures a + x * before == x * ((if masked then 0.0 else 1.0) + before)
  {
  }

  lemma StepRow(row: Vec, v: Vec, before: real, masked: bool)
    requires row == if masked then Zeros(|v|) else v
    ensures Add(row, Scale(v, before)) == Scale(v, (if masked then 0.0 else 1.0) + before)
  {
    forall k | 0 <= k < |v|
      ensures Add(row, Scale(v, before))[k] == Scale(v, (if masked then 0.0 else 1.0) + before)[k]
    {
      StepColumn(row[k], v[k], before, masked);
    }
  }

  lemma DivideScaled(v: Vec, n: real)
    requires n != 0.0
    ensures seq(|v|, k requires 0 <= k < |v| => Scale(v, n)[k] / n) == v
  {
    forall k | 0 <= k < |v|
      ensures Scale(v, n)[k] / n == v[k]
    {
      var t := Scale(v, n)[k];
      assert t == v[k] * n;
    }
  }

  lemma {:induction false} ColumnSumsOfConstant(out: Mat, mask: seq<bool>, v: Vec)
    requires IsMatrix(out, |mask|, |v|)
    requires forall i :: 0 <= i < |mask| && !mask[i] ==> out[i] == v
    ensures ColumnSums(MaskedFill(out, mask, |v|), |v|) == Scale(v, CountPresent(mask) as real)
  {
    var m := MaskedFill(out, mask, |v|);
    if mask != [] {
      assert m[1..] == MaskedFill(out[1..], mask[1..], |v|);
      ColumnSumsOfConstant(out[1..], mask[1..], v);
      var before := CountPresent(mask[1..]) as real;
      assert CountPresent(mask) as real == (if mask[0] then 0.0 else 1.0) + before;
      assert ColumnSums(m, |v|) == Add(m[0], Scale(v, before));
      StepRow(m[0], v, before, mask[0]);
    }
  }

  /** When every present slot has the same output row `v`, the average is `v`. */
  lemma AverageOfConstant(out: Mat, mask: seq<bool>, v: Vec)
    requires IsMatrix(out, |mask|, |v|)
    requires forall i :: 0 <= i < |mask| && !mask[i] ==> out[i] == v
    requires CountPresent(mask) > 0
    ensures MaskedAverage(out, mask, |v|) == Ok(v)
  {
    ColumnSumsOfConstant(out, mask, v);
    var n := CountPresent(mask) as real;
    DivideScaled(v, n);
  }

  /** With the default `out_dims = 3` the result is the first averaged output gated by the
      sigmoid of the third, followed by the second output unchanged. */
  lemma DefaultReadout(avg: Vec, sigmoid: real -> real)
    requires |avg| == 3
    ensures Readout(avg, sigmoid) == [avg[0] * sigmoid(avg[2]), avg[1]]
  {
    var r := Readout(avg, sigmoid);
    assert r[0] == avg[0] * sigmoid(avg[2]);
    assert r[1] == avg[1];
  }

  /** With an even `out_dims` every value has its own logit. */
  lemma EvenReadoutGatesAll(avg: Vec, sigmoid: real -> real)
    requires |avg| % 2 == 0
    ensures |Readout(avg, sigmoid)| == |avg| / 2
    ensures forall k :: 0 <= k < |avg| / 2 ==>
              Readout(avg, sigmoid)[k] == avg[k] * sigmoid(avg[|avg| / 2 + k])
  {
  }

  /** `output_nn` is `ResidualNetwork(d_model, out_dims, [1024, 512, 256, 128])`: four
      sub-layers whose skips are unbiased projections (the first one only when `d_model`
      is not 1024), then `fc_out` from 128 to `out_dims`. */
  lemma DefaultHead(dModel: nat, outDims: nat)
    ensures var net := ResidualNetwork.Build(dModel, outDims, OUT_HIDDEN);
      && |net.fcs| == 4
      && net.fcs[0] == ResidualNetwork.Linear(dModel, 1024, true)
      && net.fcs[1] == ResidualNetwork.Linear(1024, 512, true)
      && net.fcs[2] == ResidualNetwork.Linear(512, 256, true)
      && net.fcs[3] == ResidualNetwork.Linear(256, 128, true)
      && (net.resFcs[0] == ResidualNetwork.Identity <==> dModel == 1024)
      && (forall i :: 1 <= i < 4 ==> net.resFcs[i].Projection?)
      && net.fcOut == ResidualNetwork.Linear(128, outDims, true)
  {
    ResidualNetwork.BuildShapes(dModel, outDims, OUT_HIDDEN);
  }

  /** Once the compound is encoded, `forward` yields a number exactly when some slot is
      present, i.e. unless every element and boolean index is padding and there are no
      categorical or numeric slots. */
  lemma PredictDefinedIff(p: Params, src: seq<int>, frac: Vec, catFeat: Vec, boolSrc: seq<int>, floatFeat: Vec)
    requires Valid(p) && |frac| == |src|
    requires Encoder.Encode(p.encoder, src, frac, catFeat, boolSrc, floatFeat).Ok?
    ensures Predict(p, src, frac, catFeat, boolSrc, floatFeat).Ok? <==>
            || |catFeat| > 0 || |floatFeat| > 0
            || (exists k :: 0 <= k < |src| && src[k] != 0)
            || (exists k :: 0 <= k < |boolSrc| && boolSrc[k] != 0)
  {
    var enc := Encoder.Encode(p.encoder, src, frac, catFeat, boolSrc, floatFeat).value;
    AverageUndefinedIff(HeadRows(p, enc), src, |catFeat|, boolSrc, |floatFeat|, p.outDims);
  }
}
