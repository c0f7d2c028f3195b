/** The population's post-processing: every generated coordinate is clamped
    element-wise into the closed interval [Floor, Ceiling] (np.clip). The raw
    Gaussian draws themselves are an input to this model. */
module Points {

  /** Lower and upper clamp bounds applied to both x and y. */
  const Floor: real := 0.01
  const Ceiling: real := 0.99

  /** Number of submissions the population holds. */
  const NPoints: nat := 1000

  predicate InRange(v: real) {
    Floor <= v <= Ceiling
  }

  predicate AllInRange(s: seq<real>) {
    forall i :: 0 <= i < |s| ==> InRange(s[i])
  }

  /** Clamp of one value: raised to Floor, lowered to Ceiling, otherwise kept. */
  function ClampValue(v: real): (r: real)
    ensures InRange(r)
    ensures InRange(v) ==> r == v
    ensures v < Floor ==> r == Floor
    ensures v > Ceiling ==> r == Ceiling
  {
    if v < Floor then Floor else if v > Ceiling then Ceiling else v
  }

  /** Element-wise clamp of a whole coordinate array. */
  function Clip(s: seq<real>): (r: seq<real>)
    ensures |r| == |s|
    ensures AllInRange(r)
    ensures forall i :: 0 <= i < |s| && InRange(s[i]) ==> r[i] == s[i]
    ensures forall i :: 0 <= i < |s| && s[i] < Floor ==> r[i] == Floor
    ensures forall i :: 0 <= i < |s| && s[i] > Ceiling ==> r[i] == Ceiling
  {
    seq(|s|, i requires 0 <= i < |s| => ClampValue(s[i]))
  }

  /** Clamping an array already in range leaves it as it is ... */
  lemma ClipKeepsInRange(s: seq<real>)
    requires AllInRange(s)
    ensures Clip(s) == s
  {
  }

  /** ... so clamping twice is clamping once. */
  lemma ClipIdempotent(s: seq<real>)
    ensures Clip(Clip(s)) == Clip(s)
  {
    ClipKeepsInRange(Clip(s));
  }
}
