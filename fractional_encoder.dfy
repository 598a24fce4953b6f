/**
 * `FractionalEncoder` (kingcrab.py lines 154-192): clamps a fractional amount,
 * quantises it to an index of a precomputed table with `resolution` rows, and
 * returns that row. The sine/cosine values of the table are given, not computed.
 */
module FractionalEncoder {
  import opened Wrappers
  import opened Tensor

  /** `table` is the `pe` buffer (`resolution` rows of `width == d_model // 2` values);
      `log2` is the logarithm used by the log-scale mode. */
  datatype Config = Config(resolution: nat, log10: bool, table: Mat, width: nat, log2: real -> real)

  ghost predicate Valid(c: Config) {
    c.resolution > 0 && IsMatrix(c.table, c.resolution, c.width)
  }

  /** `torch.round`: the nearest integer, ties to the even one. */
  function Round(y: real): (r: int)
    ensures r as real - 0.5 <= y <= r as real + 0.5
    ensures (y == r as real - 0.5 || y == r as real + 0.5) ==> r % 2 == 0
  {
    var f := y.Floor;
    var d := y - f as real;
    if d < 0.5 then f
    else if d > 0.5 then f + 1
    else if f % 2 == 0 then f
    else f + 1
  }

  /** The log-scale remapping `0.0025 * log2(x) ** 2` (line 185). */
  function LogCompress(c: Config, x: real): (r: real)
    ensures r >= 0.0
  {
    var l := c.log2(x);
    SquareNonNegative(l);
    0.0025 * (l * l)
  }

  /** The value that is quantised: in log mode the remapped value with `x[x > 1] = 1`
      (line 186), then in both modes `x[x < 1 / resolution] = 1 / resolution` (line 188). */
  function Clamped(c: Config, x: real): real
    requires c.resolution > 0
  {
    var v := if c.log10 then (if LogCompress(c, x) > 1.0 then 1.0 else LogCompress(c, x)) else x;
    var floor := 1.0 / c.resolution as real;
    if v < floor then floor else v
  }

  /** The clamped value is at least `1 / resolution`, at most 1 in log mode, and in linear
      mode any value already at or above `1 / resolution` passes unchanged. */
  lemma ClampedBounds(c: Config, x: real)
    requires c.resolution > 0
    ensures Clamped(c, x) >= 1.0 / c.resolution as real
    ensures c.log10 ==> Clamped(c, x) <= 1.0
    ensures !c.log10 && x >= 1.0 / c.resolution as real ==> Clamped(c, x) == x
  {
    assert 1.0 / c.resolution as real <= 1.0;
  }

  /** `frac_idx = round(x * resolution) - 1` (line 189) of an already clamped value. */
  function Quantise(v: real, resolution: nat): int {
    Round(v * resolution as real) - 1
  }

  /** The table index `forward` uses for the input value `x` (lines 183-190). */
  function Index(c: Config, x: real): int
    requires c.resolution > 0
  {
    Quantise(Clamped(c, x), c.resolution)
  }

  /** The clamp at line 188 keeps the index non-negative, so `pe[frac_idx]` never wraps
      around to the end of the table. */
  lemma IndexNonNegative(c: Config, x: real)
    requires c.resolution > 0
    ensures Index(c, x) >= 0
  {
    ClampedBounds(c, x);
    QuantiseNonNegative(Clamped(c, x), c.resolution);
  }

  predicate IndicesInRange(c: Config, xs: Vec)
    requires c.resolution > 0
  {
    forall i :: 0 <= i < |xs| ==> 0 <= Index(c, xs[i]) < c.resolution
  }

  /** `forward` over the slots of one compound: the table row of every index, or the
      index error that `self.pe[frac_idx]` raises when an index is past the table. */
  function Encode(c: Config, xs: Vec): (r: Result<Mat, Fault>)
    requires Valid(c)
    ensures r.Ok? <==> IndicesInRange(c, xs)
    ensures r.Err? ==> r.error == FractionIndexOutOfRange
    ensures r.Ok? ==> IsMatrix(r.value, |xs|, c.width)
  {
    if IndicesInRange(c, xs) then Ok(seq(|xs|, i requires 0 <= i < |xs| => c.table[Index(c, xs[i])]))
    else Err(FractionIndexOutOfRange)
  }

  /** `x[x > hi] = hi`, in place. */
  method ClampAbove(a: array<real>, hi: real)
    modifies a
    ensures forall i :: 0 <= i < a.Length ==> a[i] == if old(a[i]) > hi then hi else old(a[i])
  {
    for i := 0 to a.Length
      invariant forall k :: 0 <= k < i ==> a[k] == if old(a[k]) > hi then hi else old(a[k])
      invariant forall k :: i <= k < a.Length ==> a[k] == old(a[k])
    {
      if a[i] > hi {
        a[i] := hi;
      }
    }
  }

  /** `x[x < lo] = lo`, in place. */
  method RaiseBelow(a: array<real>, lo: real)
    modifies a
    ensures forall i :: 0 <= i < a.Length ==> a[i] == if old(a[i]) < lo then lo else old(a[i])
  {
    for i := 0 to a.Length
      invariant forall k :: 0 <= k < i ==> a[k] == if old(a[k]) < lo then lo else old(a[k])
      invariant forall k :: i <= k < a.Length ==> a[k] == old(a[k])
    {
      if a[i] < lo {
        a[i] := lo;
      }
    }
  }

  /** Lines 183-188: clone (or, in log mode, remap) the input and clamp it in place. */
  method ClampAll(c: Config, xs: Vec) returns (x: array<real>)
    requires c.resolution > 0
    ensures fresh(x) && x.Length == |xs|
    ensures forall i :: 0 <= i < |xs| ==> x[i] == Clamped(c, xs[i])
  {
    if c.log10 {
      x := new real[|xs|](i requires 0 <= i < |xs| => LogCompress(c, xs[i]));
      ClampAbove(x, 1.0);
    } else {
      x := new real[|xs|](i requires 0 <= i < |xs| => xs[i]);
    }
    RaiseBelow(x, 1.0 / c.resolution as real);
  }

  /** `forward`: quantise the clamped values and gather the table rows. */
  method Forward(c: Config, xs: Vec) returns (r: Result<Mat, Fault>)
    requires Valid(c)
    ensures r == Encode(c, xs)
  {
    var x := ClampAll(c, xs);
    var clamped := x[..];
    var fracIdx := seq(|xs|, i requires 0 <= i < |xs| => Quantise(clamped[i], c.resolution));
    assert forall i :: 0 <= i < |xs| ==> clamped[i] == Clamped(c, xs[i]);
    assert forall i :: 0 <= i < |xs| ==> fracIdx[i] == Index(c, xs[i]);
    if forall i :: 0 <= i < |fracIdx| ==> 0 <= fracIdx[i] < c.resolution {
      assert IndicesInRange(c, xs);
      r := Ok(seq(|xs|, i requires 0 <= i < |xs| => c.table[fracIdx[i]]));
      assert r.value == Encode(c, xs).value;
    } else {
      assert !IndicesInRange(c, xs);
      r := Err(FractionIndexOutOfRange);
    }
  }

  lemma MulMonotone(a: real, b: real, n: real)
    requires a <= b && 0.0 <= n
    ensures a * n <= b * n
  {
    assert (b - a) * n >= 0.0;
  }

  lemma SquareNonNegative(l: real)
    ensures l * l >= 0.0
  {
    if l < 0.0 {
      assert l * l == (-l) * (-l);
    }
  }

  lemma InverseTimes(n: real)
    requires n > 0.0
    ensures (1.0 / n) * n == 1.0
  {
  }

  /** A real between 1 and the resolution rounds to an integer between 1 and the resolution. */
  lemma RoundBetween(y: real, resolution: nat)
    requires 1.0 <= y <= resolution as real
    ensures 1 <= Round(y) <= resolution
  {
    var r := Round(y);
    assert r as real >= 0.5;
    assert r as real <= resolution as real + 0.5;
  }

  /** Every clamped value lies in `[1 / resolution, 1]` and so quantises into the table. */
  lemma QuantiseInRange(v: real, resolution: nat)
    requires resolution > 0
    requires 1.0 / resolution as real <= v <= 1.0
    ensures 0 <= Quantise(v, resolution) < resolution
  {
    var n := resolution as real;
    MulMonotone(1.0 / n, v, n);
    InverseTimes(n);
    MulMonotone(v, 1.0, n);
    RoundBetween(v * n, resolution);
  }

  lemma RoundAtLeastOne(y: real)
    requires y >= 1.0
    ensures Round(y) >= 1
  {
    var r := Round(y);
    assert r as real >= 0.5;
  }

  lemma QuantiseNonNegative(v: real, resolution: nat)
    requires resolution > 0 && v >= 1.0 / resolution as real
    ensures Quantise(v, resolution) >= 0
  {
    var n := resolution as real;
    MulMonotone(1.0 / n, v, n);
    InverseTimes(n);
    RoundAtLeastOne(v * n);
  }

  /** Values at or below `1 / resolution` in linear mode all map to the first row. */
  lemma BelowFloorIsFirstRow(c: Config, x: real)
    requires c.resolution > 0 && !c.log10
    requires x <= 1.0 / c.resolution as real
    ensures Index(c, x) == 0
  {
    var n := c.resolution as real;
    assert Clamped(c, x) == 1.0 / n;
    InverseTimes(n);
    assert Round(1.0) == 1;
  }

  /** In linear mode every value up to 1 (a fraction, or padding 0) indexes the table. */
  lemma LinearIndexInRange(c: Config, x: real)
    requires c.resolution > 0 && !c.log10
    requires x <= 1.0
    ensures 0 <= Index(c, x) < c.resolution
  {
    QuantiseInRange(Clamped(c, x), c.resolution);
  }

  /** A real more than half past an integer rounds above that integer. */
  lemma RoundPast(y: real, m: nat)
    requires y > m as real + 0.5
    ensures Round(y) > m
  {
    var r := Round(y);
    assert r as real >= y - 0.5;
  }

  lemma PastOne(x: real, n: real)
    requires n > 0.0 && x * n > n
    ensures x > 1.0
  {
    if x <= 1.0 {
      MulMonotone(x, 1.0, n);
    }
  }

  /** A linear-mode value of at least 1 passes the clamp unchanged. */
  lemma LinearClampKeeps(c: Config, x: real)
    requires c.resolution > 0 && !c.log10 && x >= 1.0
    ensures Clamped(c, x) == x
  {
    assert 1.0 / c.resolution as real <= 1.0;
  }

  /** In linear mode a value past `1 + 1 / (2 * resolution)` indexes past the table. */
  lemma LinearIndexPastTable(c: Config, x: real)
    requires c.resolution > 0 && !c.log10
    requires x * c.resolution as real > c.resolution as real + 0.5
    ensures Index(c, x) >= c.resolution
  {
    PastOne(x, c.resolution as real);
    UnclampedIndex(c, x);
    RoundPast(x * c.resolution as real, c.resolution);
  }

  lemma UnclampedIndex(c: Config, x: real)
    requires c.resolution > 0 && !c.log10 && x >= 1.0
    ensures Index(c, x) == Round(x * c.resolution as real) - 1
  {
    LinearClampKeeps(c, x);
  }

  /** `frac_idx + 1` is the level nearest to `v * resolution`. */
  lemma QuantiseNearest(v: real, resolution: nat)
    ensures var i := Quantise(v, resolution);
      (i + 1) as real - 0.5 <= v * resolution as real <= (i + 1) as real + 0.5
  {
    var y := v * resolution as real;
    assert Quantise(v, resolution) + 1 == Round(y);
  }

  /** In log mode the clamp to 1 keeps every index inside the table, whatever real value
      `log2` returns. (A NaN from `torch.log2` of a negative input passes both clamps; the
      model has no NaN.) */
  lemma LogIndexInRange(c: Config, x: real)
    requires c.resolution > 0 && c.log10
    ensures 0 <= Index(c, x) < c.resolution
  {
    assert 1.0 / c.resolution as real <= 1.0;
    QuantiseInRange(Clamped(c, x), c.resolution);
  }

  /** Linear mode succeeds on every vector of values up to 1; log mode on every vector of
      non-negative values (on a negative value `torch.log2` gives NaN and the index at
      line 190 is undefined). */
  lemma EncodeSucceeds(c: Config, xs: Vec)
    requires Valid(c)
    requires !c.log10 ==> forall i :: 0 <= i < |xs| ==> xs[i] <= 1.0
    requires c.log10 ==> forall i :: 0 <= i < |xs| ==> 0.0 <= xs[i]
    ensures Encode(c, xs).Ok?
    ensures forall i :: 0 <= i < |xs| ==> Encode(c, xs).value[i] == c.table[Index(c, xs[i])]
  {
    forall i | 0 <= i < |xs|
      ensures 0 <= Index(c, xs[i]) < c.resolution
    {
      if c.log10 {
        LogIndexInRange(c, xs[i]);
      } else {
        LinearIndexInRange(c, xs[i]);
      }
    }
  }
}
