/**
 * `ResidualNetwork` (kingcrab.py lines 16-49): a chain of residual
 * sub-layers `act(fc(x)) + res_fc(x)` followed by an output layer `fc_out`.
 * The layer lists are built from a dimension list; the learned weights
 * of every `nn.Linear` are supplied as a `Weights` value.
 */
module ResidualNetwork {
  import opened Tensor

  /** The shape of one `nn.Linear`; its learned weights live in `Weights`. */
  datatype Linear = Linear(inDim: nat, outDim: nat, bias: bool)

  /** The skip branch of one residual sub-layer (`res_fcs[i]`). */
  datatype Skip = Identity | Projection(proj: Linear)

  /** The `fcs`, `res_fcs` and `fc_out` members of the module. The `acts`
      list holds one parameter-free LeakyReLU per sub-layer and is implicit. */
  datatype Net = Net(fcs: seq<Linear>, resFcs: seq<Skip>, fcOut: Linear)

  /** Evaluation of the learned layers: hidden layer `i`, projection `i`, and `fc_out`. */
  datatype Weights = Weights(fc: (nat, Vec) -> Vec, proj: (nat, Vec) -> Vec, out: Vec -> Vec)

  /** Default `negative_slope` of `nn.LeakyReLU`. */
  const NEGATIVE_SLOPE: real := 0.01

  /** The width the network expects of its input. */
  function InputDim(net: Net): nat {
    if |net.fcs| == 0 then net.fcOut.inDim else net.fcs[0].inDim
  }

  /** Consecutive layers agree on widths: the input feeds layer 0, each layer
      feeds the next, and the last feeds `fc_out`, which has a bias. */
  predicate Chained(net: Net, inputDim: nat, outputDim: nat) {
    && InputDim(net) == inputDim
    && net.fcOut.outDim == outputDim
    && net.fcOut.bias
    && (forall i, j :: 0 <= i < |net.fcs| && j == i + 1 && j < |net.fcs| ==> net.fcs[i].outDim == net.fcs[j].inDim)
    && (|net.fcs| > 0 ==> net.fcs[|net.fcs| - 1].outDim == net.fcOut.inDim)
  }

  /** A chain whose hidden layers have biases and whose skip branches are the
      identity on equal widths and an unbiased projection otherwise. */
  predicate WellFormed(net: Net) {
    && |net.fcs| == |net.resFcs|
    && Chained(net, InputDim(net), net.fcOut.outDim)
    && (forall i :: 0 <= i < |net.fcs| ==> net.fcs[i].bias)
    && (forall i :: 0 <= i < |net.resFcs| ==>
          (net.resFcs[i].Identity? <==> net.fcs[i].inDim == net.fcs[i].outDim))
    && (forall i :: 0 <= i < |net.resFcs| && net.resFcs[i].Projection? ==>
          net.resFcs[i].proj == Linear(net.fcs[i].inDim, net.fcs[i].outDim, false))
  }

  /** The learned maps return vectors of the widths their layers declare. */
  ghost predicate Shaped(net: Net, w: Weights) {
    && (forall i: nat, x: Vec :: i < |net.fcs| && |x| == net.fcs[i].inDim ==>
          |w.fc(i, x)| == net.fcs[i].outDim)
    && (forall i: nat, x: Vec :: i < |net.fcs| && |x| == net.fcs[i].inDim ==>
          |w.proj(i, x)| == net.fcs[i].outDim)
    && (forall x: Vec :: |x| == net.fcOut.inDim ==> |w.out(x)| == net.fcOut.outDim)
  }

  /** `dims[i]` for `dims = [input_dim] + hidden_layer_dims`. */
  function DimAt(inputDim: nat, hidden: seq<nat>, i: nat): nat
    requires i <= |hidden|
  {
    if i == 0 then inputDim else hidden[i - 1]
  }

  /** `fcs`: one biased layer from `dims[i]` to `dims[i + 1]` per hidden width. */
  function HiddenLayers(inputDim: nat, hidden: seq<nat>): (fcs: seq<Linear>)
    ensures |fcs| == |hidden|
    ensures forall i :: 0 <= i < |fcs| ==> fcs[i] == Linear(DimAt(inputDim, hidden, i), hidden[i], true)
  {
    seq(|hidden|, i requires 0 <= i < |hidden| => Linear(DimAt(inputDim, hidden, i), hidden[i], true))
  }

  /** `res_fcs`: the identity where `dims[i] == dims[i + 1]`, an unbiased projection otherwise. */
  function Skips(inputDim: nat, hidden: seq<nat>): (res: seq<Skip>)
    ensures |res| == |hidden|
    ensures forall i :: 0 <= i < |res| ==>
              res[i] == if DimAt(inputDim, hidden, i) != hidden[i]
                        then Projection(Linear(DimAt(inputDim, hidden, i), hidden[i], false))
                        else Identity
  {
    seq(|hidden|, i requires 0 <= i < |hidden| =>
      if DimAt(inputDim, hidden, i) != hidden[i]
      then Projection(Linear(DimAt(inputDim, hidden, i), hidden[i], false))
      else Identity)
  }

  /** `__init__`: one sub-layer per consecutive pair of `dims = [input_dim] + hidden_layer_dims`,
      then `fc_out` from `dims[-1]` to `output_dim`. */
  function Build(inputDim: nat, outputDim: nat, hidden: seq<nat>): (net: Net)
    ensures |net.fcs| == |net.resFcs| == |hidden|
    ensures WellFormed(net) && Chained(net, inputDim, outputDim)
  {
    var net := Net(HiddenLayers(inputDim, hidden), Skips(inputDim, hidden),
                   Linear(DimAt(inputDim, hidden, |hidden|), outputDim, true));
    BuildChained(net, inputDim, outputDim, hidden);
    net
  }

  lemma BuildChained(net: Net, inputDim: nat, outputDim: nat, hidden: seq<nat>)
    requires net == Net(HiddenLayers(inputDim, hidden), Skips(inputDim, hidden),
                        Linear(DimAt(inputDim, hidden, |hidden|), outputDim, true))
    ensures WellFormed(net) && Chained(net, inputDim, outputDim)
  {
    forall i, j | 0 <= i < |net.fcs| && j == i + 1 && j < |net.fcs|
      ensures net.fcs[i].outDim == net.fcs[j].inDim
    {
      assert net.fcs[j].inDim == DimAt(inputDim, hidden, j) == hidden[i];
    }
    assert InputDim(net) == inputDim;
    assert Chained(net, inputDim, outputDim);
    forall i | 0 <= i < |net.resFcs|
      ensures net.resFcs[i].Identity? <==> net.fcs[i].inDim == net.fcs[i].outDim
    {
    }
  }

  /** The `ResidualNetwork` with `dims = [input_dim] + hidden_layer_dims` has one sub-layer per
      hidden width; sub-layer `i` maps `dims[i]` to `dims[i + 1]` and its skip branch is the
      identity exactly when those agree; `fc_out` maps `dims[-1]` to `output_dim`. */
  lemma BuildShapes(inputDim: nat, outputDim: nat, hidden: seq<nat>)
    ensures var net := Build(inputDim, outputDim, hidden);
      && |net.fcs| == |hidden|
      && (forall i :: 0 <= i < |hidden| ==>
            net.fcs[i] == Linear(if i == 0 then inputDim else hidden[i - 1], hidden[i], true))
      && (forall i :: 0 <= i < |hidden| ==>
            (net.resFcs[i] == Identity <==> net.fcs[i].inDim == hidden[i]))
      && net.fcOut == Linear(if hidden == [] then inputDim else hidden[|hidden| - 1], outputDim, true)
  {
  }

  /** `nn.LeakyReLU()`: the identity on non-negative entries, a factor of `NEGATIVE_SLOPE`
      on negative ones, so every entry keeps its sign. */
  function LeakyRelu(v: Vec): (r: Vec)
    ensures |r| == |v|
    ensures forall k :: 0 <= k < |v| && v[k] >= 0.0 ==> r[k] == v[k]
    ensures forall k :: 0 <= k < |v| && v[k] < 0.0 ==> v[k] < r[k] < 0.0
  {
    seq(|v|, k requires 0 <= k < |v| => if v[k] >= 0.0 then v[k] else NEGATIVE_SLOPE * v[k])
  }

  /** One residual sub-layer: `act(fc(x)) + res_fc(x)`. */
  function Layer(net: Net, w: Weights, i: nat, x: Vec): (y: Vec)
    requires WellFormed(net) && Shaped(net, w)
    requires i < |net.fcs| && |x| == net.fcs[i].inDim
    ensures |y| == net.fcs[i].outDim
  {
    var skip := match net.resFcs[i] case Identity => x case Projection(_) => w.proj(i, x);
    Add(LeakyRelu(w.fc(i, x)), skip)
  }

  /** The feature vector after the first `k` sub-layers. */
  function Hidden(net: Net, w: Weights, k: nat, x: Vec): (y: Vec)
    requires WellFormed(net) && Shaped(net, w)
    requires k <= |net.fcs| && |x| == InputDim(net)
    ensures |y| == if k == 0 then InputDim(net) else net.fcs[k - 1].outDim
    decreases k
  {
    if k == 0 then x else Layer(net, w, k - 1, Hidden(net, w, k - 1, x))
  }

  /** The network as a function: all sub-layers, then `fc_out`. */
  function Apply(net: Net, w: Weights, x: Vec): (y: Vec)
    requires WellFormed(net) && Shaped(net, w) && |x| == InputDim(net)
    ensures |y| == net.fcOut.outDim
  {
    w.out(Hidden(net, w, |net.fcs|, x))
  }

  /** `forward`: the loop that reassigns `fea` once per sub-layer. */
  method Forward(net: Net, w: Weights, fea: Vec) returns (y: Vec)
    requires WellFormed(net) && Shaped(net, w) && |fea| == InputDim(net)
    ensures y == Apply(net, w, fea)
    ensures |y| == net.fcOut.outDim
  {
    var x := fea;
    for i := 0 to |net.fcs|
      invariant x == Hidden(net, w, i, fea)
    {
      var skip := match net.resFcs[i] case Identity => x case Projection(_) => w.proj(i, x);
      x := Add(LeakyRelu(w.fc(i, x)), skip);
    }
    y := w.out(x);
  }

  /** A sub-layer whose widths agree adds its input back unchanged. */
  lemma IdentitySkipAddsInput(net: Net, w: Weights, i: nat, x: Vec)
    requires WellFormed(net) && Shaped(net, w)
    requires i < |net.fcs| && |x| == net.fcs[i].inDim
    requires net.fcs[i].inDim == net.fcs[i].outDim
    ensures Layer(net, w, i, x) == Add(LeakyRelu(w.fc(i, x)), x)
  {
  }

  /** With no hidden layers the network is the single map `fc_out` from input to output. */
  lemma EmptyHiddenIsOneMap(inputDim: nat, outputDim: nat, w: Weights, x: Vec)
    requires Shaped(Build(inputDim, outputDim, []), w) && |x| == inputDim
    ensures Build(inputDim, outputDim, []).fcOut == Linear(inputDim, outputDim, true)
    ensures Apply(Build(inputDim, outputDim, []), w, x) == w.out(x)
  {
  }
}
