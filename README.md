# Strike-zone submission prioritisation: the computational core

The Streamlit page `submission.py` generates 1000 synthetic submissions, each a
point (bind propensity x, prospect value y); lets the user draw a rectangular
"Strike Zone" with two range sliders; and, on "Submit", draws 10 submissions at
random, without replacement, from the chosen segment ("Strike Zone" or "All
Points"). This project models the exact part of that pipeline in Dafny:

- `Points` (points.dfy): the element-wise clamp of the x and y arrays into
  [0.01, 0.99] (`np.clip`).
- `Zones` (zones.dfy): the segment table mapping each segment name to a rectangle
  `(xMin, xMax, yMin, yMax)`, and the list comprehension that keeps, in index
  order, every index whose point lies inside the rectangle, bounds inclusive.
- `Sampling` (sampling.dfy): `np.random.choice(selected_points, 10, replace=False)`,
  with the random source made an explicit parameter `source: nat -> nat` (the
  j-th random number picks a position among the candidates not drawn yet), and
  the whole submit path from segment to draw.

Coordinates are exact `real`s. The raw Gaussian arrays are arbitrary inputs
`rawX`, `rawY` of equal length (NPoints = 1000 where the code fixes it).

Error behaviour of the code:
- The filter has no error case: a rectangle with min > max on an axis selects
  nothing (`Zones.InvertedZoneSelectsNothing`).
- Nothing guards the draw: `np.random.choice` refuses when the segment has fewer
  than 10 points (`Sampling.Choice` returns `Err`).
- The message "No points available in the selected segment." is shown whenever
  the button is not pressed (submission.py:138-139), not when the selection is
  small.
- The generation parameters are constants.
- The displayed metric multiplies the already-rounded x and y values, not the
  raw ones. The metric is not modelled (see Left out).

## Model

| member | source | states |
|---|---|---|
| `Points.ClampValue` | submission.py:31-32 | the clamped value lies in [0.01, 0.99]; an in-range value is kept, one below 0.01 becomes 0.01, one above 0.99 becomes 0.99 |
| `Points.Clip` | submission.py:31-32 | clamping an array keeps its length, puts every entry in [0.01, 0.99], keeps in-range entries and raises/lowers out-of-range ones to the nearer bound |
| `Points.ClipKeepsInRange` | submission.py:31-32 | an array already inside [0.01, 0.99] is unchanged by the clamp |
| `Points.ClipIdempotent` | submission.py:31-32 | clamping twice gives the same array as clamping once |
| `Zones.SegmentRange` | submission.py:46-49 | the Strike Zone's bounds are the two slider pairs; All Points contains exactly the points of the closed unit square; with slider outputs 0 <= min <= max <= 1 the rectangle is well ordered and inside the unit square |
| `Zones.SelectUpToExact` | submission.py:118-121 | the comprehension over the first n indices yields exactly the indices i < n whose point is in the closed rectangle, strictly increasing, each below n |
| `Zones.Select` | submission.py:118-121 | the filter yields exactly the indices i < n_points with xMin <= x[i] <= xMax and yMin <= y[i] <= yMax (boundary points included), strictly increasing, no longer than the population |
| `Zones.ClampedAllPointsSelectsAll` | submission.py:118-121 | after clamping x and y, the All Points segment selects every index 0 .. n-1 in order |
| `Zones.SelectMonotone` | submission.py:118-121 | a rectangle inside another selects exactly those indices of the larger selection that it contains, in the same order; hence a subset |
| `Zones.StrikeZoneWithinAllPoints` | submission.py:46-49 | for slider outputs in [0, 1], the Strike Zone selection is the All Points selection restricted to the Strike Zone: every Strike Zone index is an All Points index, and the list is no longer |
| `Zones.DegenerateZone` | submission.py:118-121 | a rectangle with min = max on the x axis is accepted and selects exactly the points on that x value within the y range; with min = max on both axes, exactly the points at that corner |
| `Zones.InvertedZoneSelectsNothing` | submission.py:118-121 | the filter has no error case: a rectangle with min > max on an axis selects the empty list |
| `Sampling.Without` | submission.py:125 | removing the drawn position leaves one candidate fewer, the same multiset less the drawn element, and (for distinct candidates) no copy of it |
| `Sampling.DrawFrom` | submission.py:125 | k draws without replacement yield k elements forming a sub-multiset of the candidates, the whole multiset when k equals their number, and distinct elements when the candidates are distinct |
| `Sampling.Choice` | submission.py:125 | the draw fails exactly when fewer than k candidates exist, as `EmptyCandidates` when there are none and `SampleLargerThanPopulation` otherwise; otherwise it yields k elements of the candidates, distinct when they are, all of them when k equals their number |
| `Sampling.Submit` | submission.py:115-125 | submitting a segment fails exactly when its selection has fewer than 10 indices; otherwise it yields 10 distinct population indices, each naming a point inside the segment's rectangle |
| `Sampling.ExactSizeDrawsAll` | submission.py:125 | a selection of exactly 10 indices is drawn in full, as some permutation |
| `Sampling.AllPointsSubmitSucceeds` | submission.py:118-125 | on the clamped population of 1000 points, submitting All Points never fails |

## Left out

- Streamlit widgets and page layout (logo, header, sliders, select box, button, text output): UI. Slider outputs appear only as the predicate `SliderRange` (0 <= min <= max <= 1).
- The plotly figure (shapes, scatter trace, layout): rendering only.
- The Gaussian generation with `np.random.normal`: floating-point randomness from a foreign library; the raw arrays are inputs.
- The distribution of `np.random.choice`: every k-subset being equally likely cannot be stated over an explicit source; only which results are possible is modelled.
- Rounding of the drawn x and y, the per-point "Expected Prospect Value", its sum and the `pandas.DataFrame`: floating-point rounding and display.
- Floating point itself: coordinates are exact reals, so 0.01 and 0.99 are the exact decimals rather than their nearest doubles.
- The page's rerun on every interaction (a fresh population each time): each call of the model takes its population as input.
- Sampling.Choice: numpy raises an uncaught `ValueError` (one message for an empty candidate list, another for too few candidates), which stops the page run with a traceback; the model returns the matching `Err` value instead, and models no message text.
