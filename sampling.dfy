/** The submit step: a draw of SampleSize indices without replacement from the
    selected segment. The random source is an explicit parameter: its j-th value
    chooses a position among the candidates not drawn yet. */
module Sampling {
  import opened Points
  import opened Zones

  /** How many submissions a submit draws. */
  const SampleSize: nat := 10

  /** The two ways numpy's choice without replacement refuses a draw: an empty
      candidate list with at least one draw asked for, or more draws asked for
      than a non-empty candidate list holds. */
  datatype Error = EmptyCandidates | SampleLargerThanPopulation

  datatype Result<T> = Ok(value: T) | Err(error: Error)

  predicate Distinct(s: seq<nat>) {
    forall j, k :: 0 <= j < k < |s| ==> s[j] != s[k]
  }

  /** The candidates left after taking out position t. */
  function Without(pool: seq<nat>, t: nat): (r: seq<nat>)
    requires t < |pool|
    ensures |r| == |pool| - 1
    ensures multiset(r) + multiset{pool[t]} == multiset(pool)
    ensures Distinct(pool) ==> Distinct(r) && pool[t] !in r
  {
    assert pool == pool[..t] + [pool[t]] + pool[t + 1..];
    pool[..t] + pool[t + 1..]
  }

  /** k draws without replacement from `pool`, the draws numbered from `step`;
      the result is in draw order. */
  function DrawFrom(pool: seq<nat>, k: nat, source: nat -> nat, step: nat): (r: seq<nat>)
    requires k <= |pool|
    ensures |r| == k
    ensures multiset(r) <= multiset(pool)
    ensures k == |pool| ==> multiset(r) == multiset(pool)
    ensures Distinct(pool) ==> Distinct(r)
    decreases k
  {
    if k == 0 then []
    else
      var t := source(step) % |pool|;
      var rest := DrawFrom(Without(pool, t), k - 1, source, step + 1);
      assert Distinct(pool) ==> pool[t] !in multiset(rest);
      [pool[t]] + rest
  }

  /** np.random.choice(selection, k, replace=False). */
  function Choice(selection: seq<nat>, k: nat, source: nat -> nat): (r: Result<seq<nat>>)
    ensures r.Err? <==> |selection| < k
    ensures |selection| == 0 < k ==> r == Err(EmptyCandidates)
    ensures 0 < |selection| < k ==> r == Err(SampleLargerThanPopulation)
    ensures r.Ok? ==> |r.value| == k && multiset(r.value) <= multiset(selection)
    ensures r.Ok? && Distinct(selection) ==> Distinct(r.value)
    ensures r.Ok? && k == |selection| ==> multiset(r.value) == multiset(selection)
  {
    if |selection| == 0 && k > 0 then Err(EmptyCandidates)
    else if |selection| < k then Err(SampleLargerThanPopulation)
    else Ok(DrawFrom(selection, k, source, 0))
  }

  lemma {:induction false} IncreasingIsDistinct(s: seq<nat>)
    requires StrictlyIncreasing(s)
    ensures Distinct(s)
  {
  }

  /** Every element of a sub-multiset is an element of the larger one. */
  lemma SubMultisetMembers(a: seq<nat>, b: seq<nat>)
    requires multiset(a) <= multiset(b)
    ensures forall e :: e in a ==> e in b
  {
    forall e | e in a ensures e in b {
      assert e in multiset(a);
    }
  }

  /** The whole submit path: choose the segment's rectangle, filter the
      population by it, then draw SampleSize indices from the filtered list. */
  function Submit(xs: seq<real>, ys: seq<real>, seg: Segment,
                  valuesX: (real, real), valuesY: (real, real),
                  source: nat -> nat): (r: Result<seq<nat>>)
    requires |xs| == |ys|
    ensures r.Err? <==> |Select(xs, ys, SegmentRange(seg, valuesX, valuesY))| < SampleSize
    ensures r.Ok? ==> |r.value| == SampleSize && Distinct(r.value)
    ensures r.Ok? ==> forall i :: i in r.value ==>
              i < |xs| && Contains(SegmentRange(seg, valuesX, valuesY), xs[i], ys[i])
  {
    var zone := SegmentRange(seg, valuesX, valuesY);
    var selected := Select(xs, ys, zone);
    IncreasingIsDistinct(selected);
    var r := Choice(selected, SampleSize, source);
    if r.Ok? then SubMultisetMembers(r.value, selected); r else r
  }

  /** A selection of exactly SampleSize indices is drawn in full, in some order. */
  lemma ExactSizeDrawsAll(selection: seq<nat>, source: nat -> nat)
    requires |selection| == SampleSize
    ensures Choice(selection, SampleSize, source).Ok?
    ensures multiset(Choice(selection, SampleSize, source).value) == multiset(selection)
  {
  }

  /** On the clamped population of NPoints submissions, submitting "All Points"
      always succeeds, and every drawn index is a valid population index. */
  lemma AllPointsSubmitSucceeds(rawX: seq<real>, rawY: seq<real>,
                                valuesX: (real, real), valuesY: (real, real),
                                source: nat -> nat)
    requires |rawX| == NPoints && |rawY| == NPoints
    ensures Submit(Clip(rawX), Clip(rawY), AllPoints, valuesX, valuesY, source).Ok?
  {
    ClampedAllPointsSelectsAll(rawX, rawY, valuesX, valuesY);
  }
}
