/**
 * `Encoder` (kingcrab.py lines 196-278): scales the slot embedding, extends
 * the fraction vector over the structural slots, derives a presence mask
 * from its outer product, adds the two fractional encodings, runs the
 * (given) attention stack, and zeroes every slot the mask marks absent.
 */
module Encoder {
  import opened Wrappers
  import opened Tensor
  import Embedder
  import FractionalEncoder

  /** Both fractional encoders are built with `resolution=5000` (lines 206-207). */
  const RESOLUTION: nat := 5000

  /** The learned and constant parts of an `Encoder`. `embScale`, `peScale` and `pleScale`
      are the values of `2 ** emb_scaler` and `2 ** (1 - pos_scaler[_log]) ** 2`; `attend`
      is `transformer_encoder` applied with a key padding mask. */
  datatype Params = Params(
    dModel: nat,
    embed: Embedder.Params,
    pe: FractionalEncoder.Config,
    ple: FractionalEncoder.Config,
    embScale: real,
    peScale: real,
    pleScale: real,
    attention: bool,
    fractional: bool,
    attend: (Mat, seq<bool>) -> Mat)

  ghost predicate Valid(p: Params) {
    && p.dModel % 2 == 0
    && Embedder.Valid(p.embed) && p.embed.dModel == p.dModel
    && FractionalEncoder.Valid(p.pe) && !p.pe.log10 && p.pe.resolution == RESOLUTION
    && p.pe.width == p.dModel / 2
    && FractionalEncoder.Valid(p.ple) && p.ple.log10 && p.ple.resolution == RESOLUTION
    && p.ple.width == p.dModel / 2
    && forall x: Mat, m: seq<bool> :: IsMatrix(x, |x|, p.dModel) ==> IsMatrix(p.attend(x, m), |x|, p.dModel)
  }

  /** Lines 225-232: the fractions of the element slots followed by one weight
      `1 / nrobo` for each of the `nrobo` structural slots. */
  function ExtendFractions(frac: Vec, nrobo: nat): (f: Vec)
    ensures |f| == |frac| + nrobo
    ensures f[..|frac|] == frac
    ensures forall k :: |frac| <= k < |f| ==> f[k] == 1.0 / nrobo as real
  {
    frac + Fill(nrobo, if nrobo == 0 then 0.0 else 1.0 / nrobo as real)
  }

  /** `torch.matmul(mask, mask.transpose(-2, -1))` of the column vector `f`. */
  function Outer(f: Vec): (m: Mat)
    ensures IsMatrix(m, |f|, |f|)
    ensures forall i, j :: 0 <= i < |f| && 0 <= j < |f| ==> m[i][j] == Product(f[i], f[j])
  {
    seq(|f|, i requires 0 <= i < |f| => seq(|f|, j requires 0 <= j < |f| => Product(f[i], f[j])))
  }

  function Product(a: real, b: real): real {
    a * b
  }

  /** `mask[mask != 0] = 1` on a value: every non-zero entry becomes one. */
  function Binarise(m: Mat): (b: Mat)
    ensures |b| == |m|
    ensures forall i :: 0 <= i < |m| ==> |b[i]| == |m[i]|
    ensures forall i, j :: 0 <= i < |m| && 0 <= j < |m[i]| ==> b[i][j] == if m[i][j] != 0.0 then 1.0 else 0.0
  {
    seq(|m|, i requires 0 <= i < |m| =>
      seq(|m[i]|, j requires 0 <= j < |m[i]| => if m[i][j] != 0.0 then 1.0 else 0.0))
  }

  /** The binary presence mask of lines 235-237. */
  function PresenceMask(f: Vec): (m: Mat)
    ensures IsMatrix(m, |f|, |f|)
    ensures forall i, j :: 0 <= i < |f| && 0 <= j < |f| ==> m[i][j] == 0.0 || m[i][j] == 1.0
  {
    Binarise(Outer(f))
  }

  /** `src_mask = mask[:, 0] != 1`: the keys attention ignores. */
  function KeyPaddingMask(mask: Mat): (m: seq<bool>)
    requires |mask| > 0
    ensures |m| == |mask[0]|
    ensures forall j :: 0 <= j < |m| ==> (m[j] <==> mask[0][j] != 1.0)
  {
    seq(|mask[0]|, j requires 0 <= j < |mask[0]| => mask[0][j] != 1.0)
  }

  function ScaleRows(x: Mat, s: real): (y: Mat)
    ensures |y| == |x|
    ensures forall i :: 0 <= i < |x| ==> y[i] == Scale(x[i], s)
  {
    seq(|x|, i requires 0 <= i < |x| => Scale(x[i], s))
  }

  function AddRows(x: Mat, y: Mat): (z: Mat)
    requires |x| == |y| && forall i :: 0 <= i < |x| ==> |x[i]| == |y[i]|
    ensures |z| == |x| && forall i :: 0 <= i < |x| ==> z[i] == Add(x[i], y[i])
  {
    seq(|x|, i requires 0 <= i < |x| => Add(x[i], y[i]))
  }

  /** A `zeros_like` matrix of `width` columns with `vals` written from column `lo` on. */
  function Placed(vals: Mat, lo: nat, width: nat): (m: Mat)
    requires forall i :: 0 <= i < |vals| ==> lo + |vals[i]| <= width
    ensures IsMatrix(m, |vals|, width)
    ensures forall i, j :: 0 <= i < |vals| && 0 <= j < width ==>
              m[i][j] == if lo <= j < lo + |vals[i]| then vals[i][j - lo] else 0.0
  {
    seq(|vals|, i requires 0 <= i < |vals| => Zeros(lo) + vals[i] + Zeros(width - lo - |vals[i]|))
  }

  /** Lines 251-269 from the scaled embedding `x` and the two placed encodings. */
  function Combine(p: Params, x: Mat, f: Vec, pe: Mat, ple: Mat, srcMask: seq<bool>): (y: Mat)
    requires Valid(p)
    requires IsMatrix(x, |f|, p.dModel) && IsMatrix(pe, |f|, p.dModel) && IsMatrix(ple, |f|, p.dModel)
    ensures IsMatrix(y, |f|, p.dModel)
  {
    var attended := if p.attention then p.attend(AddRows(AddRows(x, pe), ple), srcMask) else x;
    if p.fractional then seq(|f|, i requires 0 <= i < |f| => Scale(attended[i], f[i])) else attended
  }

  /** Lines 273-276: `x.masked_fill(hmask == 0, 0)` with `hmask` the first column of the mask. */
  function ZeroAbsent(y: Mat, mask: Mat, width: nat): (z: Mat)
    requires IsMatrix(mask, |y|, |y|)
    ensures |z| == |y|
    ensures forall i :: 0 <= i < |y| && mask[i][0] == 0.0 ==> z[i] == Zeros(width)
    ensures forall i :: 0 <= i < |y| && mask[i][0] != 0.0 ==> z[i] == y[i]
  {
    seq(|y|, i requires 0 <= i < |y| => if mask[i][0] == 0.0 then Zeros(width) else y[i])
  }

  /** The weight of every slot of a compound: `frac` extended over the structural slots. */
  function SlotWeights(frac: Vec, catFeat: Vec, boolSrc: seq<int>, floatFeat: Vec): (w: Vec)
    ensures |w| == |frac| + |catFeat| + |boolSrc| + |floatFeat|
    ensures w[..|frac|] == frac
    ensures forall k :: |frac| <= k < |w| ==> w[k] == 1.0 / (|catFeat| + |boolSrc| + |floatFeat|) as real
  {
    ExtendFractions(frac, |catFeat| + |boolSrc| + |floatFeat|)
  }

  /** Lines 241-249: the linear-scale encoding in the first half of the columns and the
      log-scale encoding in the second half, each scaled and padded with zeros. */
  function Encodings(p: Params, f: Vec): (r: Result<(Mat, Mat), Fault>)
    requires Valid(p)
    ensures r.Ok? ==> IsMatrix(r.value.0, |f|, p.dModel) && IsMatrix(r.value.1, |f|, p.dModel)
  {
    var peRows :- FractionalEncoder.Encode(p.pe, f);
    var pleRows :- FractionalEncoder.Encode(p.ple, f);
    Ok((Placed(ScaleRows(peRows, p.peScale), 0, p.dModel),
        Placed(ScaleRows(pleRows, p.pleScale), p.dModel / 2, p.dModel)))
  }

  /** Lines 241-249: the linear-scale row of slot `i`, scaled, fills the first `d_model / 2`
      columns of `pe` and the log-scale row fills the last `d_model / 2` columns of `ple`;
      every other entry is zero. */
  lemma EncodingsLayout(p: Params, f: Vec)
    requires Valid(p) && Encodings(p, f).Ok?
    ensures var enc := Encodings(p, f).value;
      var half := p.dModel / 2;
      forall i, j :: 0 <= i < |f| && 0 <= j < p.dModel ==>
        && enc.0[i][j] == (if j < half then FractionalEncoder.Encode(p.pe, f).value[i][j] * p.peScale else 0.0)
        && enc.1[i][j] == (if j >= half then FractionalEncoder.Encode(p.ple, f).value[i][j - half] * p.pleScale else 0.0)
  {
  }

  /** Lines 241-276 for a non-empty slot axis: add the encodings, attend, scale by the
      fractions and zero the absent slots. */
  function Finish(p: Params, x: Mat, f: Vec): (r: Result<Mat, Fault>)
    requires Valid(p) && |f| > 0 && IsMatrix(x, |f|, p.dModel)
    ensures r.Ok? ==> IsMatrix(r.value, |f|, p.dModel)
  {
    var encodings :- Encodings(p, f);
    var y := Combine(p, x, f, encodings.0, encodings.1, KeyPaddingMask(PresenceMask(f)));
    Ok(ZeroAbsent(y, PresenceMask(f), p.dModel))
  }

  /** `forward`: the per-slot representation with every absent slot set to zero. */
  function Encode(p: Params, src: seq<int>, frac: Vec, catFeat: Vec, boolSrc: seq<int>, floatFeat: Vec): (r: Result<Mat, Fault>)
    requires Valid(p) && |frac| == |src|
    ensures r.Ok? ==> IsMatrix(r.value, |src| + |catFeat| + |boolSrc| + |floatFeat|, p.dModel)
  {
    var emb :- Embedder.Embed(p.embed, src, catFeat, boolSrc, floatFeat);
    var f := SlotWeights(frac, catFeat, boolSrc, floatFeat);
    if |f| == 0 then Err(EmptySlotAxis)
    else
      var x := ScaleRows(emb, p.embScale);
      assert IsMatrix(x, |f|, p.dModel);
      Finish(p, x, f)
  }

  /** `mask[mask != 0] = 1`, in place (line 237). */
  method BinariseInPlace(m: array2<real>)
    modifies m
    ensures forall i, j :: 0 <= i < m.Length0 && 0 <= j < m.Length1 ==>
              m[i, j] == if old(m[i, j]) != 0.0 then 1.0 else old(m[i, j])
  {
    for i := 0 to m.Length0
      invariant forall r, c :: 0 <= r < i && 0 <= c < m.Length1 ==>
                  m[r, c] == if old(m[r, c]) != 0.0 then 1.0 else old(m[r, c])
      invariant forall r, c :: i <= r < m.Length0 && 0 <= c < m.Length1 ==> m[r, c] == old(m[r, c])
    {
      for j := 0 to m.Length1
        invariant forall r, c :: 0 <= r < i && 0 <= c < m.Length1 ==>
                    m[r, c] == if old(m[r, c]) != 0.0 then 1.0 else old(m[r, c])
        invariant forall c :: 0 <= c < j ==> m[i, c] == if old(m[i, c]) != 0.0 then 1.0 else old(m[i, c])
        invariant forall c :: j <= c < m.Length1 ==> m[i, c] == old(m[i, c])
        invariant forall r, c :: i < r < m.Length0 && 0 <= c < m.Length1 ==> m[r, c] == old(m[r, c])
      {
        if m[i, j] != 0.0 {
          m[i, j] := 1.0;
        }
      }
    }
  }

  /** `t[:, lo:lo + width] = vals`, in place (lines 247 and 249). */
  method WriteColumns(t: array2<real>, lo: nat, width: nat, vals: Mat)
    requires IsMatrix(vals, t.Length0, width) && lo + width <= t.Length1
    modifies t
    ensures forall i, j :: 0 <= i < t.Length0 && 0 <= j < t.Length1 ==>
              t[i, j] == if lo <= j < lo + width then vals[i][j - lo] else old(t[i, j])
  {
    for i := 0 to t.Length0
      invariant forall r, c :: 0 <= r < i && 0 <= c < t.Length1 ==>
                  t[r, c] == if lo <= c < lo + width then vals[r][c - lo] else old(t[r, c])
      invariant forall r, c :: i <= r < t.Length0 && 0 <= c < t.Length1 ==> t[r, c] == old(t[r, c])
    {
      for k := 0 to width
        invariant forall r, c :: 0 <= r < i && 0 <= c < t.Length1 ==>
                    t[r, c] == if lo <= c < lo + width then vals[r][c - lo] else old(t[r, c])
        invariant forall c :: 0 <= c < t.Length1 ==>
                    t[i, c] == if lo <= c < lo + k then vals[i][c - lo] else old(t[i, c])
        invariant forall r, c :: i < r < t.Length0 && 0 <= c < t.Length1 ==> t[r, c] == old(t[r, c])
      {
        t[i, lo + k] := vals[i][k];
      }
    }
  }

  function Rows(a: array2<real>): (m: Mat)
    reads a
    ensures IsMatrix(m, a.Length0, a.Length1)
    ensures forall i, j :: 0 <= i < a.Length0 && 0 <= j < a.Length1 ==> m[i][j] == a[i, j]
  {
    seq(a.Length0, i requires 0 <= i < a.Length0 reads a =>
      seq(a.Length1, j requires 0 <= j < a.Length1 reads a => a[i, j]))
  }

  /** `pe = zeros_like(x)` followed by the slice write of `vals` from column `lo`. */
  method PlaceInPlace(vals: Mat, lo: nat, width: nat, total: nat) returns (t: array2<real>)
    requires forall i :: 0 <= i < |vals| ==> |vals[i]| == width
    requires lo + width <= total
    ensures fresh(t)
    ensures Rows(t) == Placed(vals, lo, total)
  {
    t := new real[|vals|, total]((i, j) => 0.0);
    WriteColumns(t, lo, width, vals);
    forall i | 0 <= i < |vals|
      ensures Rows(t)[i] == Placed(vals, lo, total)[i]
    {
      assert forall j :: 0 <= j < total ==> Rows(t)[i][j] == Placed(vals, lo, total)[i][j];
    }
  }

  /** Lines 235-237: the outer product of `f` with itself, binarised in place. */
  method MaskInPlace(f: Vec) returns (mask: array2<real>)
    ensures fresh(mask) && mask.Length0 == mask.Length1 == |f|
    ensures Rows(mask) == PresenceMask(f)
  {
    var n := |f|;
    var outer := Outer(f);
    mask := new real[n, n]((i, j) requires 0 <= i < n && 0 <= j < n => outer[i][j]);
    BinariseInPlace(mask);
    forall i | 0 <= i < n
      ensures Rows(mask)[i] == PresenceMask(f)[i]
    {
      assert forall j :: 0 <= j < n ==> Rows(mask)[i][j] == PresenceMask(f)[i][j];
    }
  }

  /** Lines 241-249 with the slice writes done in place. */
  method EncodingsInPlace(p: Params, f: Vec) returns (r: Result<(Mat, Mat), Fault>)
    requires Valid(p)
    ensures r == Encodings(p, f)
  {
    var peRows :- FractionalEncoder.Forward(p.pe, f);
    var pleRows :- FractionalEncoder.Forward(p.ple, f);
    var pe := PlaceInPlace(ScaleRows(peRows, p.peScale), 0, p.dModel / 2, p.dModel);
    var ple := PlaceInPlace(ScaleRows(pleRows, p.pleScale), p.dModel / 2, p.dModel / 2, p.dModel);
    r := Ok((Rows(pe), Rows(ple)));
  }

  /** Lines 238-276 once the mask has been built in place. */
  method FinishInPlace(p: Params, x: Mat, f: Vec, mask: array2<real>) returns (r: Result<Mat, Fault>)
    requires Valid(p) && |f| > 0 && IsMatrix(x, |f|, p.dModel)
    requires mask.Length0 == mask.Length1 == |f| && Rows(mask) == PresenceMask(f)
    ensures r == Finish(p, x, f)
  {
    var n := |f|;
    var srcMask := seq(n, j requires 0 <= j < n reads mask => mask[0, j] != 1.0);
    assert srcMask == KeyPaddingMask(PresenceMask(f)) by {
      assert forall j :: 0 <= j < n ==> srcMask[j] == (Rows(mask)[0][j] != 1.0);
    }
    var encodings :- EncodingsInPlace(p, f);
    var y := Combine(p, x, f, encodings.0, encodings.1, srcMask);
    r := Ok(ZeroAbsent(y, Rows(mask), p.dModel));
  }

  /** `forward`: the same computation as `Encode`, with the mask binarised and the
      encodings written into zero tensors in place. */
  method Forward(p: Params, src: seq<int>, frac: Vec, catFeat: Vec, boolSrc: seq<int>, floatFeat: Vec)
    returns (r: Result<Mat, Fault>)
    requires Valid(p) && |frac| == |src|
    ensures r == Encode(p, src, frac, catFeat, boolSrc, floatFeat)
  {
    var emb :- Embedder.Embed(p.embed, src, catFeat, boolSrc, floatFeat);
    var x := ScaleRows(emb, p.embScale);
    var nroboFeat := |x| - |src|;
    var f := ExtendFractions(frac, nroboFeat);
    assert f == SlotWeights(frac, catFeat, boolSrc, floatFeat);
    var mask := MaskInPlace(f);
    if |f| == 0 {
      return Err(EmptySlotAxis);
    }
    r := FinishInPlace(p, x, f, mask);
  }

  /** Lines 225-232: the `nrobo` structural weights sum to one, so the weights of a
      compound sum to its element fractions plus one. */
  lemma StructuralWeightsSumToOne(frac: Vec, nrobo: nat)
    requires nrobo > 0
    ensures Sum(ExtendFractions(frac, nrobo)[|frac|..]) == 1.0
    ensures Sum(ExtendFractions(frac, nrobo)) == Sum(frac) + 1.0
  {
    var w := 1.0 / nrobo as real;
    var f := ExtendFractions(frac, nrobo);
    assert f[|frac|..] == Fill(nrobo, w);
    SumFill(nrobo, w);
    assert nrobo as real * w == 1.0;
    assert f == frac + Fill(nrobo, w);
    SumConcat(frac, Fill(nrobo, w));
  }

  lemma ProductZero(a: real, b: real)
    ensures Product(a, b) == 0.0 <==> a == 0.0 || b == 0.0
  {
    if a != 0.0 && b != 0.0 {
      assert Product(a, b) / b == a;
    }
  }

  /** Lines 235-237: slots `i` and `j` are both present exactly when the mask holds 1
      there; every other entry is 0. */
  lemma PresenceMaskEntries(f: Vec)
    ensures forall i, j :: 0 <= i < |f| && 0 <= j < |f| ==>
              (PresenceMask(f)[i][j] == 1.0 <==> f[i] != 0.0 && f[j] != 0.0)
    ensures forall i, j :: 0 <= i < |f| && 0 <= j < |f| ==>
              (PresenceMask(f)[i][j] == 0.0 <==> f[i] == 0.0 || f[j] == 0.0)
  {
    forall i, j | 0 <= i < |f| && 0 <= j < |f|
      ensures PresenceMask(f)[i][j] == if f[i] != 0.0 && f[j] != 0.0 then 1.0 else 0.0
    {
      ProductZero(f[i], f[j]);
    }
  }

  /** Line 238: attention ignores key `j` exactly when slot `j` or slot 0 has weight 0. */
  lemma KeyPaddingMaskIgnores(f: Vec)
    requires |f| > 0
    ensures |KeyPaddingMask(PresenceMask(f))| == |f|
    ensures forall j :: 0 <= j < |f| ==> (KeyPaddingMask(PresenceMask(f))[j] <==> f[0] == 0.0 || f[j] == 0.0)
  {
    PresenceMaskEntries(f);
  }

  /** Lines 271-276: a slot of weight 0 (or every slot, when slot 0 has weight 0) comes out
      as a zero row; every other slot keeps the attended, fraction-scaled row. */
  lemma FinishZeroesAbsent(p: Params, x: Mat, f: Vec)
    requires Valid(p) && |f| > 0 && IsMatrix(x, |f|, p.dModel)
    requires Finish(p, x, f).Ok?
    ensures var enc := Encodings(p, f).value;
      var y := Combine(p, x, f, enc.0, enc.1, KeyPaddingMask(PresenceMask(f)));
      forall i :: 0 <= i < |f| ==>
        Finish(p, x, f).value[i] == if f[i] == 0.0 || f[0] == 0.0 then Zeros(p.dModel) else y[i]
  {
    PresenceMaskEntries(f);
  }

  /** `forward` zeroes the row of every slot whose weight is 0, and all rows when the
      first slot is padding. */
  lemma EncodeZeroesAbsent(p: Params, src: seq<int>, frac: Vec, catFeat: Vec, boolSrc: seq<int>, floatFeat: Vec)
    requires Valid(p) && |frac| == |src|
    requires Encode(p, src, frac, catFeat, boolSrc, floatFeat).Ok?
    ensures var f := SlotWeights(frac, catFeat, boolSrc, floatFeat);
      forall i :: 0 <= i < |f| && (f[i] == 0.0 || f[0] == 0.0) ==>
        Encode(p, src, frac, catFeat, boolSrc, floatFeat).value[i] == Zeros(p.dModel)
  {
    var emb := Embedder.Embed(p.embed, src, catFeat, boolSrc, floatFeat).value;
    var f := SlotWeights(frac, catFeat, boolSrc, floatFeat);
    FinishZeroesAbsent(p, ScaleRows(emb, p.embScale), f);
  }

  /** With valid embedding indices, every element fraction in `[0, 1]` and at least one slot,
      `forward` succeeds: the structural weights `1 / nrobo` never exceed 1, and the
      log-scale encoder clamps every real value of `log2` into range. A negative fraction
      is excluded because `torch.log2` of it is NaN, which passes both clamps. */
  lemma EncodeSucceeds(p: Params, src: seq<int>, frac: Vec, catFeat: Vec, boolSrc: seq<int>, floatFeat: Vec)
    requires Valid(p) && |frac| == |src|
    requires Embedder.Embed(p.embed, src, catFeat, boolSrc, floatFeat).Ok?
    requires |src| + |catFeat| + |boolSrc| + |floatFeat| > 0
    requires forall k :: 0 <= k < |frac| ==> 0.0 <= frac[k] <= 1.0
    ensures Encode(p, src, frac, catFeat, boolSrc, floatFeat).Ok?
  {
    var nrobo := |catFeat| + |boolSrc| + |floatFeat|;
    var f := SlotWeights(frac, catFeat, boolSrc, floatFeat);
    assert nrobo > 0 ==> 1.0 / nrobo as real <= 1.0;
    assert forall k :: 0 <= k < |f| ==> f[k] <= 1.0 by {
      forall k | 0 <= k < |f|
        ensures f[k] <= 1.0
      {
        if k < |frac| {
          assert f[k] == f[..|frac|][k];
        }
      }
    }
    FractionalEncoder.EncodeSucceeds(p.pe, f);
    FractionalEncoder.EncodeSucceeds(p.ple, f);
  }

  /** With valid embedding indices, an element fraction past `1 + 1 / 10000` makes the
      linear-scale lookup `pe[frac_idx]` fail. */
  lemma EncodeRejectsOverfullFraction(p: Params, src: seq<int>, frac: Vec, catFeat: Vec, boolSrc: seq<int>, floatFeat: Vec, k: nat)
    requires Valid(p) && |frac| == |src|
    requires Embedder.Embed(p.embed, src, catFeat, boolSrc, floatFeat).Ok?
    requires k < |frac| && frac[k] * RESOLUTION as real > RESOLUTION as real + 0.5
    ensures Encode(p, src, frac, catFeat, boolSrc, floatFeat) == Err(FractionIndexOutOfRange)
  {
    var f := SlotWeights(frac, catFeat, boolSrc, floatFeat);
    assert f[k] == f[..|frac|][k] == frac[k];
    FractionalEncoder.LinearIndexPastTable(p.pe, f[k]);
    assert !FractionalEncoder.IndicesInRange(p.pe, f);
  }
}
