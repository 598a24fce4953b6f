/**
 * `Embedder` (kingcrab.py lines 55-124): looks up element rows and boolean
 * rows in two tables whose row 0 is all zeros, repeats the scalar
 * categorical and numeric features across the feature width, stacks the
 * four groups in slot order and projects every row with `fc_mat2vec`.
 */
module Embedder {
  import opened Wrappers
  import opened Tensor
  import opened Layout

  /** `cbfv` holds one property vector per element, atomic number `z` in row `z - 1`
      (the mat2vec file); `fc` is the learned `fc_mat2vec` from `featSize` to `dModel`. */
  datatype Params = Params(cbfv: Mat, featSize: nat, dModel: nat, fc: Vec -> Vec)

  ghost predicate Valid(p: Params) {
    && IsMatrix(p.cbfv, |p.cbfv|, p.featSize)
    && forall v: Vec :: |v| == p.featSize ==> |p.fc(v)| == p.dModel
  }

  /** The `self.cbfv` table: a zero row stacked on the element rows. */
  function ElementTable(p: Params): Mat {
    [Zeros(p.featSize)] + p.cbfv
  }

  /** The `self.sbfv` table: a zero row stacked on `np.ones_like(cbfv)`. */
  function BooleanTable(p: Params): Mat {
    [Zeros(p.featSize)] + seq(|p.cbfv|, _ => Fill(p.featSize, 1.0))
  }

  /** Lines 70-87: both tables have one row per element after a zero row 0, so index 0
      (padding) embeds as zeros; row `z` of the element table is the property vector of
      atomic number `z`, and row `z` of the boolean table is all ones. */
  lemma TableRows(p: Params)
    ensures |ElementTable(p)| == |BooleanTable(p)| == |p.cbfv| + 1
    ensures ElementTable(p)[0] == BooleanTable(p)[0] == Zeros(p.featSize)
    ensures forall z :: 1 <= z <= |p.cbfv| ==> ElementTable(p)[z] == p.cbfv[z - 1]
    ensures forall z :: 1 <= z <= |p.cbfv| ==> BooleanTable(p)[z] == Fill(p.featSize, 1.0)
  {
  }

  /** Every index of `idx` selects a row of a table with `rows` rows. */
  predicate Indexes(idx: seq<int>, rows: nat) {
    forall k :: 0 <= k < |idx| ==> 0 <= idx[k] < rows
  }

  function Gather(table: Mat, idx: seq<int>): Mat
    requires Indexes(idx, |table|)
  {
    seq(|idx|, k requires 0 <= k < |idx| => table[idx[k]])
  }

  function Repeat(feat: Vec, width: nat): Mat {
    seq(|feat|, k requires 0 <= k < |feat| => Fill(width, feat[k]))
  }

  function CountsOf(src: seq<int>, catFeat: Vec, boolSrc: seq<int>, floatFeat: Vec): Counts {
    Counts(|src|, |catFeat|, |boolSrc|, |floatFeat|)
  }

  /** `feats` at line 120, before the projection: one row of width `featSize` per slot.
      An element slot holds the element's property vector, or zeros for index 0; a
      boolean slot holds ones, or zeros for index 0; a categorical or numeric slot
      holds its scalar repeated. An index outside a table raises, as `nn.Embedding` does. */
  function Features(p: Params, src: seq<int>, catFeat: Vec, boolSrc: seq<int>, floatFeat: Vec): (r: Result<Mat, Fault>)
    requires IsMatrix(p.cbfv, |p.cbfv|, p.featSize)
    ensures r.Ok? <==> Indexes(src, |p.cbfv| + 1) && Indexes(boolSrc, |p.cbfv| + 1)
    ensures r.Err? ==> r.error == if Indexes(src, |p.cbfv| + 1) then BooleanIndexOutOfRange else ElementIndexOutOfRange
    ensures r.Ok? ==> var c := CountsOf(src, catFeat, boolSrc, floatFeat);
      && IsMatrix(r.value, Total(c), p.featSize)
      && forall i :: 0 <= i < Total(c) ==>
           r.value[i] == match SlotAt(c, i)
             case Element(k) => if src[k] == 0 then Zeros(p.featSize) else p.cbfv[src[k] - 1]
             case Categorical(k) => Fill(p.featSize, catFeat[k])
             case Boolean(k) => if boolSrc[k] == 0 then Zeros(p.featSize) else Fill(p.featSize, 1.0)
             case Numeric(k) => Fill(p.featSize, floatFeat[k])
  {
    if !Indexes(src, |ElementTable(p)|) then Err(ElementIndexOutOfRange)
    else if !Indexes(boolSrc, |BooleanTable(p)|) then Err(BooleanIndexOutOfRange)
    else
      var mat2vecEmb := Gather(ElementTable(p), src);
      var boolEmb := Gather(BooleanTable(p), boolSrc);
      var feats := mat2vecEmb + Repeat(catFeat, p.featSize) + boolEmb + Repeat(floatFeat, p.featSize);
      Ok(feats)
  }

  /** `forward`: `fc_mat2vec` applied to every row of `Features`. */
  function Embed(p: Params, src: seq<int>, catFeat: Vec, boolSrc: seq<int>, floatFeat: Vec): (r: Result<Mat, Fault>)
    requires Valid(p)
    ensures r.Ok? <==> Features(p, src, catFeat, boolSrc, floatFeat).Ok?
    ensures r.Ok? ==>
      && IsMatrix(r.value, |src| + |catFeat| + |boolSrc| + |floatFeat|, p.dModel)
      && forall i :: 0 <= i < |r.value| ==> r.value[i] == p.fc(Features(p, src, catFeat, boolSrc, floatFeat).value[i])
  {
    var feats :- Features(p, src, catFeat, boolSrc, floatFeat);
    Ok(seq(|feats|, i requires 0 <= i < |feats| => p.fc(feats[i])))
  }
}
