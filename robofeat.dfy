/**
 * The batch featurisation script (submit_robofeat.py): split the CIF strings
 * into chunks, featurise every chunk (recording `['failed']` for a structure
 * the featuriser rejects), collect the job outputs in job order and stack
 * them into one row per structure. CIF parsing and the featuriser are given
 * as functions that may fail.
 */
module Robofeat {
  import opened Wrappers

  /** One cell of a feature row. */
  datatype Value = Text(s: string) | Number(x: real) | Flag(b: bool)

  /** What the featuriser returns for one structure: a list of values, or one value. */
  datatype Entry = Row(cells: seq<Value>) | Scalar(v: Value)

  /** Why a step raises: `range` with step 0, or a CIF that does not parse (its index). */
  datatype Failure = ZeroStep | Unparsable(index: nat)

  /** The sentinel `['failed']` stored for a structure whose featurisation raised. */
  const FAILED: Entry := Row([Text("failed")])

  // ---------------------------------------------------------------- chunks

  /** Successive chunks of `n` items; the last one holds what is left. */
  function ChunksOf<T>(lst: seq<T>, n: nat): (c: seq<seq<T>>)
    requires n > 0
    ensures forall k :: 0 <= k < |c| ==> 1 <= |c[k]| <= n
    ensures |lst| > 0 <==> |c| > 0
    decreases |lst|
  {
    if |lst| == 0 then []
    else if |lst| <= n then [lst]
    else [lst[..n]] + ChunksOf(lst[n..], n)
  }

  function Flatten<T>(ss: seq<seq<T>>): seq<T> {
    if ss == [] then [] else ss[0] + Flatten(ss[1..])
  }

  function Min(a: int, b: int): int {
    if a <= b then a else b
  }

  lemma ChunksStep<T>(lst: seq<T>, i: nat, n: nat)
    requires n > 0 && i < |lst|
    ensures ChunksOf(lst[i..], n) ==
            [lst[i..Min(i + n, |lst|)]] + ChunksOf(lst[Min(i + n, |lst|)..], n)
  {
    if |lst[i..]| > n {
      assert lst[i..][..n] == lst[i..i + n];
      assert lst[i..][n..] == lst[i + n..];
    } else {
      assert lst[i..Min(i + n, |lst|)] == lst[i..];
      assert lst[Min(i + n, |lst|)..] == [];
    }
  }

  /** `chunks(lst, n)` (lines 8-14): `range(0, len(lst), n)` raises for `n == 0` and is
      empty for a negative `n`; otherwise every start `i` contributes `lst[i:i + n]`. */
  method Chunks<T>(lst: seq<T>, n: int) returns (r: Result<seq<seq<T>>, Failure>)
    ensures n == 0 ==> r == Err(ZeroStep)
    ensures n < 0 ==> r == Ok([])
    ensures n > 0 ==> r == Ok(ChunksOf(lst, n))
  {
    if n == 0 {
      return Err(ZeroStep);
    }
    if n < 0 {
      return Ok([]);
    }
    var out: seq<seq<T>> := [];
    var i := 0;
    while i < |lst|
      invariant 0 <= i
      invariant out + ChunksOf(lst[Min(i, |lst|)..], n) == ChunksOf(lst, n)
      decreases |lst| - i
    {
      ChunksStep(lst, i, n);
      out := out + [lst[i..Min(i + n, |lst|)]];
      i := i + n;
    }
    assert lst[Min(i, |lst|)..] == [];
    assert out + ChunksOf(lst[Min(i, |lst|)..], n) == out;
    return Ok(out);
  }

  /** Concatenating the chunks gives back the list, in order. */
  lemma {:induction false} ChunksRoundTrip<T>(lst: seq<T>, n: nat)
    requires n > 0
    ensures Flatten(ChunksOf(lst, n)) == lst
    decreases |lst|
  {
    if |lst| == 0 {
    } else if |lst| <= n {
      assert Flatten([lst]) == lst + Flatten([]);
    } else {
      var c := ChunksOf(lst, n);
      assert c[1..] == ChunksOf(lst[n..], n);
      ChunksRoundTrip(lst[n..], n);
      assert lst == lst[..n] + lst[n..];
    }
  }

  /** Every chunk but the last has exactly `n` items; the last has between 1 and `n`. */
  lemma {:induction false} ChunkSizes<T>(lst: seq<T>, n: nat)
    requires n > 0
    ensures var c := ChunksOf(lst, n);
      && (forall k :: 0 <= k < |c| - 1 ==> |c[k]| == n)
      && (|c| > 0 ==> 1 <= |c[|c| - 1]| <= n)
    decreases |lst|
  {
    if |lst| > n {
      var c := ChunksOf(lst, n);
      var rest := ChunksOf(lst[n..], n);
      ChunkSizes(lst[n..], n);
      assert c == [lst[..n]] + rest;
      assert forall k :: 1 <= k < |c| ==> c[k] == rest[k - 1];
    }
  }

  lemma MulAtLeast(n: int, k: int)
    requires n > 0 && k >= 1
    ensures n * k >= n
  {
    assert n * k == n + n * (k - 1);
  }

  /** Euclidean division has one quotient per remainder in `[0, n)`. */
  lemma DivUnique(x: int, n: int, q: int, r: int)
    requires n > 0 && 0 <= r < n && x == n * q + r
    ensures x / n == q
  {
    var q0, r0 := x / n, x % n;
    assert x == n * q0 + r0;
    if q > q0 {
      assert n * (q - q0) == r0 - r;
      MulAtLeast(n, q - q0);
    } else if q < q0 {
      assert n * (q0 - q) == r - r0;
      MulAtLeast(n, q0 - q);
    }
  }

  lemma DivStep(a: nat, n: nat)
    requires n > 0
    ensures (a + n) / n == a / n + 1
  {
    var q, r := a / n, a % n;
    assert a == n * q + r;
    assert a + n == n * (q + 1) + r;
    DivUnique(a + n, n, q + 1, r);
  }

  /** There are `ceil(len(lst) / n)` chunks; an empty list has none. */
  lemma {:induction false} ChunkCount<T>(lst: seq<T>, n: nat)
    requires n > 0
    ensures |ChunksOf(lst, n)| == (|lst| + n - 1) / n
    decreases |lst|
  {
    if |lst| == 0 {
      DivUnique(n - 1, n, 0, n - 1);
    } else if |lst| <= n {
      DivUnique(|lst| + n - 1, n, 1, |lst| - 1);
    } else {
      ChunkCount(lst[n..], n);
      DivStep(|lst| - n + n - 1, n);
    }
  }

  // ---------------------------------------------------------------- robofeaturize

  /** The stored entry for one parsed structure: the featuriser's result, or the sentinel
      when it raised (lines 24-28). */
  function Outcome(e: Option<Entry>): (r: Entry)
    ensures e.Some? ==> r == e.value
    ensures e.None? ==> r == FAILED
  {
    match e
    case Some(v) => v
    case None => FAILED
  }

  predicate AllParse<S>(cifs: seq<string>, parse: string -> Option<S>) {
    forall i :: 0 <= i < |cifs| ==> parse(cifs[i]).Some?
  }

  /** The position of the first CIF that does not parse. */
  function FirstUnparsableIndex<S>(cifs: seq<string>, parse: string -> Option<S>): (k: nat)
    requires !AllParse(cifs, parse)
    ensures k < |cifs| && parse(cifs[k]).None?
    ensures AllParse(cifs[..k], parse)
  {
    if parse(cifs[0]).None? then 0
    else
      assert !AllParse(cifs[1..], parse) by {
        var j :| 0 <= j < |cifs| && parse(cifs[j]).None?;
        assert cifs[1..][j - 1] == cifs[j];
      }
      var k := FirstUnparsableIndex(cifs[1..], parse);
      assert cifs[..k + 1] == [cifs[0]] + cifs[1..][..k];
      k + 1
  }

  /** `robofeaturize` as a function: one entry per CIF, or the error of the first CIF that
      does not parse (line 23 is outside the `try`, so that error ends the whole call). */
  function Featurize<S>(cifs: seq<string>, parse: string -> Option<S>, featurize: S -> Option<Entry>): (r: Result<seq<Entry>, Failure>)
    ensures r.Ok? <==> AllParse(cifs, parse)
    ensures r.Ok? ==> |r.value| == |cifs|
    ensures r.Err? ==> r.error.Unparsable? && r.error.index < |cifs|
                       && parse(cifs[r.error.index]).None? && AllParse(cifs[..r.error.index], parse)
  {
    if AllParse(cifs, parse) then
      Ok(seq(|cifs|, i requires 0 <= i < |cifs| => Outcome(featurize(parse(cifs[i]).value))))
    else
      Err(Unparsable(FirstUnparsableIndex(cifs, parse)))
  }

  /** The entries that `robofeaturize` returns, once every slot has been filled. */
  function Filled(features: seq<Option<Entry>>): (r: seq<Entry>)
    requires forall k :: 0 <= k < |features| ==> features[k].Some?
    ensures |r| == |features| && forall k :: 0 <= k < |r| ==> features[k] == Some(r[k])
  {
    seq(|features|, k requires 0 <= k < |features| => features[k].value)
  }

  /** `robofeaturize` (lines 16-29): fill the preallocated `features` list by index. */
  method Robofeaturize<S>(cifs: seq<string>, parse: string -> Option<S>, featurize: S -> Option<Entry>)
    returns (r: Result<seq<Entry>, Failure>)
    ensures r == Featurize(cifs, parse, featurize)
  {
    var nids := |cifs|;
    var features := new Option<Entry>[nids](_ => None);
    for i := 0 to nids
      invariant AllParse(cifs[..i], parse)
      invariant forall k :: 0 <= k < i ==> features[k] == Some(Outcome(featurize(parse(cifs[k]).value)))
    {
      var structure := parse(cifs[i]);
      if structure.None? {
        FirstUnparsable(cifs, parse, featurize, i);
        return Err(Unparsable(i));
      }
      var result := featurize(structure.value);
      if result.Some? {
        features[i] := result;
      } else {
        features[i] := Some(FAILED);
      }
      assert cifs[..i + 1] == cifs[..i] + [cifs[i]];
    }
    assert cifs[..nids] == cifs;
    var entries := Filled(features[..]);
    r := Ok(entries);
    assert Featurize(cifs, parse, featurize).value == entries;
  }

  /** The error of `robofeaturize` names the first CIF that does not parse. */
  lemma FirstUnparsable<S>(cifs: seq<string>, parse: string -> Option<S>, featurize: S -> Option<Entry>, i: nat)
    requires i < |cifs| && AllParse(cifs[..i], parse) && parse(cifs[i]).None?
    ensures Featurize(cifs, parse, featurize) == Err(Unparsable(i))
  {
    var e := FirstUnparsableIndex(cifs, parse);
  }

  /** The sentinel marks exactly the structures the featuriser rejected, when it does not
      return the sentinel itself for any of the given structures. */
  lemma SentinelMarksFailures<S>(cifs: seq<string>, parse: string -> Option<S>, featurize: S -> Option<Entry>)
    requires Featurize(cifs, parse, featurize).Ok?
    requires forall i :: 0 <= i < |cifs| ==> featurize(parse(cifs[i]).value) != Some(FAILED)
    ensures forall i :: 0 <= i < |cifs| ==>
              (Featurize(cifs, parse, featurize).value[i] == FAILED <==> featurize(parse(cifs[i]).value).None?)
  {
    var entries := Featurize(cifs, parse, featurize).value;
    forall i | 0 <= i < |cifs|
      ensures entries[i] == FAILED <==> featurize(parse(cifs[i]).value).None?
    {
      var s := parse(cifs[i]).value;
      var e := featurize(s);
      assert entries[i] == Outcome(e);
      if e.Some? {
        assert entries[i] == e.value != FAILED;
      }
    }
  }

  /** Featurising two lists one after the other gives the featurisation of the whole list. */
  lemma FeaturizeConcat<S>(a: seq<string>, b: seq<string>, parse: string -> Option<S>, featurize: S -> Option<Entry>)
    requires Featurize(a, parse, featurize).Ok? && Featurize(b, parse, featurize).Ok?
    ensures Featurize(a + b, parse, featurize) ==
            Ok(Featurize(a, parse, featurize).value + Featurize(b, parse, featurize).value)
  {
    var ab := a + b;
    assert forall i :: 0 <= i < |ab| ==> ab[i] == if i < |a| then a[i] else b[i - |a|];
    assert AllParse(ab, parse);
    var fa, fb := Featurize(a, parse, featurize).value, Featurize(b, parse, featurize).value;
    assert Featurize(ab, parse, featurize).value == fa + fb;
  }

  // ---------------------------------------------------------------- collecting and stacking

  /** The job outputs in job order, or the error of the first job that raised (`job.result()`
      re-raises the exception of a failed job). */
  function Collected(jobs: seq<Result<seq<Entry>, Failure>>): (r: Result<seq<seq<Entry>>, Failure>)
    ensures r.Ok? <==> forall j :: 0 <= j < |jobs| ==> jobs[j].Ok?
    ensures r.Ok? ==> |r.value| == |jobs| && forall j :: 0 <= j < |jobs| ==> r.value[j] == jobs[j].value
    decreases |jobs|
  {
    if jobs == [] then Ok([])
    else match jobs[0]
      case Err(f) => Err(f)
      case Ok(v) =>
        match Collected(jobs[1..])
        case Err(f) => Err(f)
        case Ok(rest) => Ok([v] + rest)
  }

  /** Lines 51-54: append the result of every job in turn. */
  method Collect(jobs: seq<Result<seq<Entry>, Failure>>) returns (r: Result<seq<seq<Entry>>, Failure>)
    ensures r == Collected(jobs)
  {
    var output: seq<seq<Entry>> := [];
    for i := 0 to |jobs|
      invariant |output| == i
      invariant forall j :: 0 <= j < i ==> jobs[j].Ok? && output[j] == jobs[j].value
    {
      if jobs[i].Err? {
        FirstFailedJob(jobs, i);
        return Err(jobs[i].error);
      }
      output := output + [jobs[i].value];
    }
    r := Ok(output);
    assert output == Collected(jobs).value;
  }

  /** `job.result()` of the first failed job is the error that ends the collection. */
  lemma {:induction false} FirstFailedJob(jobs: seq<Result<seq<Entry>, Failure>>, i: nat)
    requires i < |jobs| && jobs[i].Err?
    requires forall j :: 0 <= j < i ==> jobs[j].Ok?
    ensures Collected(jobs) == Err(jobs[i].error)
    decreases i
  {
    if i > 0 {
      FirstFailedJob(jobs[1..], i - 1);
    }
  }

  /** `i if isinstance(i, list) else [i]`. */
  function AsRow(e: Entry): (row: seq<Value>)
    ensures e.Row? ==> row == e.cells
    ensures e.Scalar? ==> row == [e.v]
  {
    match e
    case Row(cells) => cells
    case Scalar(v) => [v]
  }

  /** Line 63: one row per entry of every job output, jobs in order. */
  function Stack(output: seq<seq<Entry>>): (rows: seq<seq<Value>>)
    ensures |rows| == |Flatten(output)|
    ensures forall k :: 0 <= k < |rows| ==> rows[k] == AsRow(Flatten(output)[k])
  {
    var entries := Flatten(output);
    seq(|entries|, k requires 0 <= k < |entries| => AsRow(entries[k]))
  }

  function TotalLength<T>(ss: seq<seq<T>>): nat {
    if ss == [] then 0 else |ss[0]| + TotalLength(ss[1..])
  }

  lemma {:induction false} FlattenLength<T>(ss: seq<seq<T>>)
    ensures |Flatten(ss)| == TotalLength(ss)
  {
    if ss != [] {
      FlattenLength(ss[1..]);
    }
  }

  lemma {:induction false} FlattenConcat<T>(a: seq<seq<T>>, b: seq<seq<T>>)
    ensures Flatten(a + b) == Flatten(a) + Flatten(b)
  {
    if a == [] {
      assert a + b == b;
    } else {
      assert (a + b)[1..] == a[1..] + b;
      FlattenConcat(a[1..], b);
    }
  }

  /** The stacked table has one row per entry of every job output. */
  lemma StackRowCount(output: seq<seq<Entry>>)
    ensures |Stack(output)| == TotalLength(output)
  {
    FlattenLength(output);
  }

  /** Stacking the outputs of two groups of jobs puts the rows of the first group first. */
  lemma StackConcat(a: seq<seq<Entry>>, b: seq<seq<Entry>>)
    ensures Stack(a + b) == Stack(a) + Stack(b)
  {
    FlattenConcat(a, b);
  }

  lemma AllParseConcat<S>(a: seq<string>, b: seq<string>, parse: string -> Option<S>)
    ensures AllParse(a + b, parse) <==> AllParse(a, parse) && AllParse(b, parse)
  {
    var ab := a + b;
    assert forall i :: 0 <= i < |ab| ==> ab[i] == if i < |a| then a[i] else b[i - |a|];
    assert forall i :: 0 <= i < |b| ==> b[i] == ab[|a| + i];
  }

  /** Featurising groups of CIFs job by job and concatenating the outputs gives the
      featurisation of all the CIFs together. */
  lemma {:induction false} FeaturizeFlatten<S>(cs: seq<seq<string>>, parse: string -> Option<S>, featurize: S -> Option<Entry>)
    requires AllParse(Flatten(cs), parse)
    ensures var jobs := seq(|cs|, j requires 0 <= j < |cs| => Featurize(cs[j], parse, featurize));
      && Collected(jobs).Ok?
      && Flatten(Collected(jobs).value) == Featurize(Flatten(cs), parse, featurize).value
    decreases |cs|
  {
    var jobs := seq(|cs|, j requires 0 <= j < |cs| => Featurize(cs[j], parse, featurize));
    if cs == [] {
      assert Flatten(Collected(jobs).value) == [];
    } else {
      var rest := Flatten(cs[1..]);
      assert Flatten(cs) == cs[0] + rest;
      AllParseConcat(cs[0], rest, parse);
      FeaturizeConcat(cs[0], rest, parse, featurize);
      FeaturizeFlatten(cs[1..], parse, featurize);
      var jobs' := seq(|cs| - 1, j requires 0 <= j < |cs| - 1 => Featurize(cs[1..][j], parse, featurize));
      assert jobs[1..] == jobs';
      var out := Collected(jobs).value;
      assert out == [jobs[0].value] + Collected(jobs').value;
      assert out[1..] == Collected(jobs').value;
    }
  }

  /** The collection of per-group jobs succeeds exactly when every CIF of every group
      parses: the only error `robofeaturize` lets through is a parse failure. */
  lemma {:induction false} CollectedOkIff<S>(cs: seq<seq<string>>, parse: string -> Option<S>, featurize: S -> Option<Entry>)
    ensures var jobs := seq(|cs|, j requires 0 <= j < |cs| => Featurize(cs[j], parse, featurize));
      Collected(jobs).Ok? <==> AllParse(Flatten(cs), parse)
    decreases |cs|
  {
    var jobs := seq(|cs|, j requires 0 <= j < |cs| => Featurize(cs[j], parse, featurize));
    if cs != [] {
      var rest := Flatten(cs[1..]);
      assert Flatten(cs) == cs[0] + rest;
      AllParseConcat(cs[0], rest, parse);
      CollectedOkIff(cs[1..], parse, featurize);
      var jobs' := seq(|cs| - 1, j requires 0 <= j < |cs| - 1 => Featurize(cs[1..][j], parse, featurize));
      assert jobs[1..] == jobs';
      assert (forall j :: 0 <= j < |jobs| ==> jobs[j].Ok?) <==>
             jobs[0].Ok? && (forall j :: 0 <= j < |jobs'| ==> jobs'[j].Ok?);
    }
  }

  /** Chunking the CIFs, featurising every chunk and concatenating the job outputs gives the
      featurisation of the whole list: the stacked rows line up with the input CIFs. */
  lemma ChunkedFeaturize<S>(cifs: seq<string>, n: nat, parse: string -> Option<S>, featurize: S -> Option<Entry>)
    requires n > 0 && AllParse(cifs, parse)
    ensures var c := ChunksOf(cifs, n);
      var jobs := seq(|c|, j requires 0 <= j < |c| => Featurize(c[j], parse, featurize));
      && Collected(jobs).Ok?
      && Flatten(Collected(jobs).value) == Featurize(cifs, parse, featurize).value
  {
    ChunksRoundTrip(cifs, n);
    FeaturizeFlatten(ChunksOf(cifs, n), parse, featurize);
  }
}
