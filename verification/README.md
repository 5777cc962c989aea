# Limb-darkening analysis core in Dafny

This project models the numerical core of a limb-darkening analyser. The analyser
takes a solar or stellar disk in an image and does three things:

- it extracts a radially averaged intensity profile as a function of
  mu = sqrt(1 - (r/R)^2);
- it fits parametric limb-darkening laws to that profile;
- it reports R^2 and the reduced chi-square of each fit.

There are five modules:

- `Wrappers` (`wrappers.dfy`) holds `Option` and `Result`. `Option` stands for NumPy's NaN marker on
  an invalid ring. `Result` stands for raised exceptions.
- `Numerics` (`numerics.dfy`) holds the reductions the source takes from NumPy: sum, mean, population
  variance (with its square root for `np.std`) and maximum. It also holds a minimum, which the
  source never takes: it only serves to state the bounds on a ring's value.
  - It also holds `Maths`, which carries `sqrt`, `ln` and the power operator
    as parameters. The facts the proofs rely on about them are collected in the predicate
    `Lawful`: `sqrt` is the non-negative square root, `ln(1) = 0`, `1^e = 1` and `x^1 = x`.
  - `sqrt(0) = 0`, `sqrt(1) = 1` and the monotonicity of `sqrt` are proved from `Lawful`.
- `LimbModels` (`limb_models.dfy`) covers `limb_models.py`: the five laws, the tables
  `MODEL_FUNCTIONS` and `MODEL_INITIAL_GUESSES`, and `get_model_latex`.
- `RadialAnalysis` (`radial_analysis.dfy`) covers `extract_radial_profile`.
  - The image is a sequence of rows.
  - The disk test and the ring of a pixel are computed exactly on integers:
    - a pixel is in the disk iff `0 <= radius` and `d2 <= radius^2`;
    - its ring is the integer square root of `d2`.
    - Two lemmas show that these agree with `sqrt(d2) <= radius` and `int(sqrt(d2))`.
  - The binning loop, which writes `i_binned[r]` in place, is the method `BinIntensities` over an
    array. Its body is the method `ClipRing`. Both are proved against the specification
    functions `Rings` and `RingValue`.
  - The rest of the pipeline is made of pure functions:
    - dropping invalid rings;
    - clipping the normalised radius;
    - mu;
    - the anchor;
    - normalisation;
    - the joint sort by mu.

    `ExtractRadialProfile` is proved equal to the specification `RadialProfile`.
- `FittingEngine` (`fitting_engine.dfy`) covers `calculate_statistics`, `fit_model` and
  `fit_all_models`.
  - `curve_fit` is a `Solver` parameter. It returns either no fit or
    the coefficients together with the diagonal of their covariance.
  - `fit_all_models` is a method with a loop that collects the successful fits. It is followed by a
    stable sort by R^2, highest first.

## Model

| member | source | states |
|---|---|---|
| `RadialAnalysis.SqDist` | backend/radial_analysis.py:12 | the squared distance is zero only at the centre |
| `RadialAnalysis.InDisk` | backend/radial_analysis.py:15 | a pixel passes the disk test only when the integer part of its distance is at most the radius, and always when it is below the radius |
| `RadialAnalysis.InDiskIffWithinRadius` | backend/radial_analysis.py:12-15 | the integer disk test holds exactly when the square root of the squared distance is at most the radius |
| `RadialAnalysis.ISqrt` | backend/radial_analysis.py:21 | the ring index is the largest integer whose square does not exceed the squared distance |
| `RadialAnalysis.Ring` | backend/radial_analysis.py:21 | a pixel's ring r satisfies r^2 <= d^2 < (r + 1)^2 |
| `RadialAnalysis.RingIsFloorOfDistance` | backend/radial_analysis.py:21 | a pixel's ring is the floor of its distance from the centre |
| `RadialAnalysis.Row` | backend/radial_analysis.py:9 | one row of the index grid holds exactly that row's pixels, each with its own coordinates and value |
| `RadialAnalysis.PixelsFrom` | backend/radial_analysis.py:9 | the enumeration holds exactly the image's pixels, each with its own coordinates and value |
| `RadialAnalysis.PixelsFromDistinct` | backend/radial_analysis.py:9 | the enumeration lists every pixel exactly once |
| `RadialAnalysis.InDiskPixels` | backend/radial_analysis.py:15-17 | the masked pixels are exactly the pixels within the disk |
| `RadialAnalysis.InDiskPixelsCount` | backend/radial_analysis.py:15-17 | the mask keeps each pixel within the disk as many times as it occurs, and drops every other pixel |
| `RadialAnalysis.InDiskPixelsDistinct` | backend/radial_analysis.py:15-17 | the mask keeps distinct pixels distinct |
| `RadialAnalysis.DiskPixelsExactlyOnce` | backend/radial_analysis.py:9-17 | the disk pixels are every pixel of the image within the disk, each exactly once, with its own value |
| `RadialAnalysis.CentreOnly` | backend/radial_analysis.py:12-17 | without a positive radius every pixel in the disk is the centre pixel, in ring 0 |
| `RadialAnalysis.MaxRing` | backend/radial_analysis.py:24 | `max_r` is the ring of some disk pixel and no disk pixel lies in a higher ring |
| `RadialAnalysis.RingValues` | backend/radial_analysis.py:29 | the values in ring r are exactly those of the disk pixels whose ring is r |
| `RadialAnalysis.RingValuesCount` | backend/radial_analysis.py:29 | over distinct pixels, each value occurs in ring r as many times as there are pixels of ring r with that value |
| `RadialAnalysis.Survivors` | backend/radial_analysis.py:33-34 | the clipped pixels are exactly those strictly within the bound of the mean; a bound of 0 keeps nothing |
| `RadialAnalysis.SurvivorsCount` | backend/radial_analysis.py:33-34 | each value strictly within the bound survives as many times as it occurs, and every other value is dropped |
| `RadialAnalysis.RingValue` | backend/radial_analysis.py:30-38 | a ring's value, when there is one, lies between the ring's smallest and largest pixel |
| `RadialAnalysis.RingDroppedIff` | backend/radial_analysis.py:30-38 | a ring has no value exactly when it is empty or all its pixels are equal, single-pixel rings included |
| `RadialAnalysis.ClipRing` | backend/radial_analysis.py:29-38 | one pass of the loop computes the ring's value: it lies between the ring's smallest and largest pixel, and with lawful maths there is none exactly when the ring is empty or uniform |
| `RadialAnalysis.Rings` | backend/radial_analysis.py:25-38 | there is one entry per ring 0..max_r |
| `RadialAnalysis.RingsWithinPixelRange` | backend/radial_analysis.py:25-38 | every ring with a value is occupied, and its value lies between the ring's smallest and largest pixel |
| `RadialAnalysis.BinIntensities` | backend/radial_analysis.py:25-38 | the loop fills one entry per ring 0..max_r, each the clipped mean of that ring or no value |
| `RadialAnalysis.DropInvalid` | backend/radial_analysis.py:41-43 | radii and intensities stay aligned and of equal length, radii strictly ascend, and the kept rings are exactly those with a value |
| `RadialAnalysis.NothingKept` | backend/radial_analysis.py:41-43 | when no ring has a value both arrays are empty |
| `RadialAnalysis.KeptRingsValues` | backend/radial_analysis.py:24-43 | the kept radii strictly ascend, never exceed max_r, and each is paired with the clipped value of its ring |
| `RadialAnalysis.KeptRingIff` | backend/radial_analysis.py:28-43 | ring r survives exactly when r <= max_r and its pixels are present and not all equal |
| `RadialAnalysis.CentreRingUniform` | backend/radial_analysis.py:29-38 | when every ring-0 pixel has one value, ring 0 is uniform and keeps no value |
| `RadialAnalysis.CentreRingNeverKept` | backend/radial_analysis.py:21-43 | ring 0 holds only the centre pixel, so it never keeps a value and the profile has no sample from it |
| `RadialAnalysis.NoRingWithoutRadius` | backend/radial_analysis.py:15-46 | with radius 0 no ring survives, so the division by the radius is never applied to an element |
| `RadialAnalysis.KeptWithinRadius` | backend/radial_analysis.py:15-43 | every kept ring index is at most the radius |
| `RadialAnalysis.Clip` | backend/radial_analysis.py:47 | the clipped value lies in the interval, is unchanged inside it, is the lower end below it and the upper end above it |
| `RadialAnalysis.Mu` | backend/radial_analysis.py:46-50 | the centre ring gets sqrt(1), and every ring at or beyond the radius is clipped to sqrt(0) |
| `RadialAnalysis.MuWithinUnit` | backend/radial_analysis.py:46-50 | every mu lies in [0, 1] |
| `RadialAnalysis.MuDecreasing` | backend/radial_analysis.py:46-50 | within the radius, mu strictly decreases as the ring moves outwards |
| `RadialAnalysis.MuArray` | backend/radial_analysis.py:46-50 | one mu per kept ring |
| `RadialAnalysis.LeadCount` | backend/radial_analysis.py:53-54 | the anchor uses all the rings when there are at most 11, and otherwise exactly the first 11 |
| `RadialAnalysis.Anchor` | backend/radial_analysis.py:53-55 | the anchor is never 0, bounds every leading intensity, and is the leading maximum unless that is 0 or there are no rings, when it is 1 |
| `RadialAnalysis.Normalised` | backend/radial_analysis.py:57 | one normalised intensity per kept ring |
| `RadialAnalysis.LeadingNormalisedAtMostOne` | backend/radial_analysis.py:53-57 | with non-negative intensities the leading rings normalise to at most 1 |
| `RadialAnalysis.PeakNormalisesToOne` | backend/radial_analysis.py:53-57 | when some leading ring is brighter than 0, some leading ring normalises to exactly 1 |
| `RadialAnalysis.UnsortedSamples` | backend/radial_analysis.py:46-57 | sample i pairs the mu of kept ring i with its intensity divided by the anchor |
| `RadialAnalysis.Insert` | backend/radial_analysis.py:60-61 | inserting into a mu-sorted sequence keeps it sorted and adds exactly one sample |
| `RadialAnalysis.SortByMu` | backend/radial_analysis.py:60-61 | the output is sorted by mu and is a permutation of the (mu, intensity) pairs |
| `RadialAnalysis.SortReversesDecreasing` | backend/radial_analysis.py:60-61 | on strictly decreasing mu the sort is exactly the reversal |
| `RadialAnalysis.UnsortedDecreasing` | backend/radial_analysis.py:41-50 | before the sort, mu strictly decreases along the kept rings, so there are no ties |
| `RadialAnalysis.ProfileReversesRings` | backend/radial_analysis.py:41-61 | the profile is the kept rings from the outermost inwards |
| `RadialAnalysis.SortedWithinUnit` | backend/radial_analysis.py:46-61 | every mu of the sorted output lies in [0, 1] |
| `RadialAnalysis.RadialProfile` | backend/radial_analysis.py:3-61 | extraction fails exactly when the disk holds no pixel, and otherwise returns as many mu values as intensities |
| `RadialAnalysis.SortedSamplesWellFormed` | backend/radial_analysis.py:46-61 | for any kept rings, the sorted arrays have equal length, every mu lies in [0, 1], and mu never decreases |
| `RadialAnalysis.ProfileWellFormed` | backend/radial_analysis.py:41-61 | the two output arrays have equal length, every mu lies in [0, 1], and mu never decreases |
| `RadialAnalysis.ProfileFailsIffDiskEmpty` | backend/radial_analysis.py:15-24 | extraction fails exactly when no pixel of the image lies within the disk |
| `RadialAnalysis.ExtractRadialProfile` | backend/radial_analysis.py:3-61 | the extraction returns exactly the specified profile or error |
| `Numerics.Max` | backend/radial_analysis.py:54 | the maximum is an element and bounds every element from above |
| `Numerics.Min` | backend/radial_analysis.py:33-36 | not a reduction of the source: the smallest pixel of a ring, an element bounding every element from below, in whose terms `RingValue` bounds the clipped mean of lines 33-36 |
| `Numerics.SumWithin` | backend/fitting_engine.py:11-12 | a sum of n values lies between n times any lower and n times any upper bound of the values |
| `Numerics.SumNonNegative` | backend/fitting_engine.py:24 | a sum of non-negative values is non-negative |
| `Numerics.SumOfConstant` | backend/fitting_engine.py:24 | a sum of n copies of c is n times c |
| `Numerics.MeanWithin` | backend/radial_analysis.py:36 | a mean lies within any bounds of its data |
| `Numerics.MeanOfUniform` | backend/radial_analysis.py:32 | the mean of equal values is that value |
| `Numerics.VarianceZeroIffUniform` | backend/radial_analysis.py:32-33 | the population variance is zero exactly when all values are equal |
| `Numerics.SumSqDevZero` | backend/fitting_engine.py:11-12 | a sum of squared deviations is zero exactly when every value equals the centre |
| `Numerics.SomeDeviationWithinVariance` | backend/radial_analysis.py:32-33 | some value deviates from the mean by at most the standard deviation |
| `Numerics.SqrtLeIffLe` | backend/radial_analysis.py:12-15 | the square root preserves order in both directions |
| `Numerics.Variance` | backend/fitting_engine.py:22 | the population variance is never negative |
| `LimbModels.LinearLaw` | backend/limb_models.py:3-5 | 1 at mu = 1, 1 - u at mu = 0, constant 1 when u = 0 |
| `LimbModels.QuadraticLaw` | backend/limb_models.py:7-9 | 1 at mu = 1, 1 - a - b at mu = 0, constant 1 without coefficients, the linear law when b = 0 |
| `LimbModels.SquareRootLaw` | backend/limb_models.py:11-13 | constant 1 without coefficients, and 1 at mu = 1 |
| `LimbModels.MuSafe` | backend/limb_models.py:19 | the logarithm's argument lies in [1e-10, 1]: mu inside that interval, 1e-10 below it, 1 above it |
| `LimbModels.LogarithmicLaw` | backend/limb_models.py:15-20 | constant 1 without coefficients, and 1 at mu = 1 |
| `LimbModels.ClaretLaw` | backend/limb_models.py:22-24 | constant 1 without coefficients, and 1 at mu = 1 |
| `LimbModels.Arity` | backend/limb_models.py:3-24 | every law takes between one and four coefficients |
| `LimbModels.Evaluate` | backend/limb_models.py:3-24 | every law is 1 at mu = 1 whatever its coefficients, and constant 1 when they are all zero |
| `LimbModels.ClaretReducesToLinear` | backend/limb_models.py:5-24 | the Claret law with coefficients (0, u, 0, 0) is the linear law with u |
| `LimbModels.LogarithmicClamped` | backend/limb_models.py:19-20 | below 1e-10 the logarithmic law takes its value at 1e-10, and above 1 its value at 1, which is 1 |
| `LimbModels.CatalogueConsistent` | backend/limb_models.py:27-41 | the two tables share the same five keys, and each guess has as many entries as its law has coefficients |
| `LimbModels.GetModelLatex` | backend/limb_models.py:43-51 | the result is non-empty exactly for the five catalogue names, and is that law's formula |
| `FittingEngine.Residuals` | backend/fitting_engine.py:10 | one residual per observation |
| `FittingEngine.ResidualSumOfSquares` | backend/fitting_engine.py:11 | ss_res is never negative, and is 0 exactly when every residual is 0 |
| `FittingEngine.TotalSumOfSquares` | backend/fitting_engine.py:12 | ss_tot is never negative and equals n times the population variance of the observations |
| `FittingEngine.RSquared` | backend/fitting_engine.py:11-15 | R^2 is 0 when ss_tot is 0 and never exceeds 1 |
| `FittingEngine.Dof` | backend/fitting_engine.py:18 | the degrees of freedom are at least 1 and at least n - num_params, and are one of the two |
| `FittingEngine.ObsVariance` | backend/fitting_engine.py:22 | the variance used is positive: the residual variance when that is positive, otherwise 1e-10 |
| `FittingEngine.ChiSquare` | backend/fitting_engine.py:24 | chi-square is never negative |
| `FittingEngine.ChiSquareOfZeroResiduals` | backend/fitting_engine.py:24 | chi-square of all-zero residuals is 0 |
| `FittingEngine.CalculateStatistics` | backend/fitting_engine.py:5-27 | residuals are observed minus fitted, one per observation; R^2 is 0 when ss_tot is 0 and at most 1; reduced chi-square is chi-square of the residuals over their variance, divided by the degrees of freedom, and is at least 0 |
| `FittingEngine.PerfectFitHasZeroChiSquare` | backend/fitting_engine.py:10-25 | a fit equal to the observations gets reduced chi-square 0 |
| `FittingEngine.UnderdeterminedChiSquare` | backend/fitting_engine.py:18-25 | with no more observations than parameters the degrees of freedom clamp to 1, so reduced chi-square is chi-square itself |
| `FittingEngine.TotalSumZeroIffConstant` | backend/fitting_engine.py:12-15 | ss_tot is 0 exactly when the observations are constant |
| `FittingEngine.ConstantDataHasZeroRSquared` | backend/fitting_engine.py:12-15 | constant observations get R^2 = 0 whatever the fit |
| `FittingEngine.PerfectFitHasUnitRSquared` | backend/fitting_engine.py:10-15 | a fit equal to varying observations gets R^2 = 1 |
| `FittingEngine.FittedCurve` | backend/fitting_engine.py:47 | one fitted value per mu |
| `FittingEngine.FitModel` | backend/fitting_engine.py:29-63 | an unknown name gives exactly the unknown-model error; any other failure is one fit error and no partial result; success happens exactly when the name is known, the lengths agree and the solver returns one coefficient per initial guess; a success echoes the name, carries `get_model_latex`'s formula, the solver's coefficients, the square roots of the covariance diagonal as standard errors, the law evaluated at every mu and the statistics computed with num_params = len(popt) |
| `FittingEngine.Successes` | backend/fitting_engine.py:69-75 | the collected results are at most one per name, every one a successful fit of some name, and every successful fit is among them |
| `FittingEngine.CollectSuccesses` | backend/fitting_engine.py:69-75 | the loop over the catalogue collects exactly the successful fits, in catalogue order |
| `FittingEngine.InsertByRSquared` | backend/fitting_engine.py:80 | inserting into an R^2-ranked list keeps it ranked and adds exactly one result |
| `FittingEngine.RankByRSquared` | backend/fitting_engine.py:80 | the ranking is non-increasing in R^2 and a permutation of the results |
| `FittingEngine.SuccessesDistinct` | backend/fitting_engine.py:69-75 | the collected results name distinct catalogue models |
| `FittingEngine.DistinctModelsPermuted` | backend/fitting_engine.py:80 | reordering keeps the model names distinct |
| `FittingEngine.RankingOfSuccesses` | backend/fitting_engine.py:69-80 | the ranked successes of the five laws hold at most five results, name distinct models, and are exactly the successful fits |
| `FittingEngine.FitAllModels` | backend/fitting_engine.py:65-81 | never fails; returns exactly the successful fits, at most one per model and at most five, ranked by R^2 from highest to lowest |

## Left out

- Floating point is left out: `real` replaces IEEE doubles. NaN propagation, infinities and rounding are not modelled.
  - A ring without a value is `None` rather than NaN.
  - The mean of an empty array is 0 rather than NaN. It is only ever taken where it is summed over nothing, or compared with `> 0`, where NaN and 0 behave alike.
- `sqrt`, `ln` and the power operator are the fields of `Maths`. Only the facts in `Lawful` are assumed of them.
  - The square root of a negative `mu`, and the logarithm of a non-positive number, are whatever `Maths` returns, not NaN.
  - `RadialProfile` and `ExtractRadialProfile` require `Lawful`. It is what guarantees that the ring of a zero radius is dropped before the division by the radius.
- The distance test and the ring index are exact integer computations. The source takes a floating-point square root, which is exact on perfect squares that fit in a double, so the two agree on small images. They may differ in two cases. First, a non-square `d2` just below `(k + 1)^2` can have its double square root rounded up to `k + 1` once `k` is above about 2^26. Second, a `d2` above 2^53 is itself rounded before the root is taken.
- Only two-dimensional (greyscale) images are modelled. The centre and the radius are integers, as the source's signature declares.
- `curve_fit` is an oracle (`Solver`). Nothing is claimed about convergence, about `maxfev`, or about the covariance beyond the square root taken of its diagonal.
- Any exception `curve_fit` raises is the oracle's `None`. Observation and mu arrays of different lengths are one such failure: NumPy broadcasting of a length-1 array against a longer one is not modelled.
- The exception messages are not modelled. The errors carry only the model name.
- `np.argsort`'s default sort is not stable. The model sorts with a stable insertion sort. `UnsortedDecreasing` and `ProfileReversesRings` show there are never ties for a positive radius, so the two orders coincide.
- The ranking by R^2 is a stable sort, as Python's `sorted` is. NaN R^2 values, which make Python's order undefined, are not modelled.
- RankByRSquared: stability among equal R^2 is built into the definition. It is not stated as a separate property.
- `fit_all_models`' bare `except` also catches interrupts and other non-fitting exceptions. Only fitting failures are modelled.
- The model follows the code in these places, where a reader might expect otherwise:
  - the normalisation anchor is the maximum of the first min(11, n) kept intensities, not their mean;
  - the anchor is replaced by 1 only when it is exactly 0, not when it is negative;
  - a profile with no valid ring is not an error: the code returns two empty arrays (`Ok(Profile([], []))`);
  - the docstring of `fit_all_models` (backend/fitting_engine.py:67) says it sorts by reduced chi-square, but the code at line 80 ranks by R^2.
- `backend/disk_detection.py`, `backend/image_processing.py`, `backend/report_generator.py` and `backend/main.py` are not part of this model. They cover OpenCV circle detection, image filtering, report rendering and the web transport with its cache.
