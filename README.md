# baybe targets and objectives, in Dafny

This project models baybe's target-to-objective pipeline. The pipeline turns rows of
raw measurements into transformed target values and then, for multi-target
objectives, into one scalar per row. The pipeline has two layers, and each is one
Dafny module:

- `Targets` models the legacy `baybe/targets.py`. It covers `NumericalTarget`
  (mode `MIN`/`MAX`/`MATCH`, bounds interval, bound-transform name), with:
  - its default bound transform;
  - its validators;
  - its `transform`, which dispatches on mode and on whether the bounds are bounded.

  It also covers `Objective` (`SINGLE`/`DESIRABILITY`), with:
  - its default weights;
  - the normalisation of the weights to sum 100;
  - its validators;
  - its `transform`, which combines the target columns into `Comp_Target` in
    desirability mode.
- `Desirability` models `baybe/objectives/desirability.py`. It covers:
  - weights that must be strictly positive and are normalised to sum 1;
  - `_is_all_numerical_targets` (`Desirability.IsAllNumericalTargets`);
  - `scalarize`, which dispatches on the `Scalarization` enum;
  - the `DesirabilityObjective` validators;
  - its `transform`, which returns one `Desirability` column.

Two modules support them:

- `Outcomes` has the error, result and argument types. Each exception the code raises
  is an `Error` constructor, and a raising call returns `Err`.
- `Frames` stands in for the pandas and numpy operations the code uses:
  - column selection `data[[...]]`;
  - column assignment `t[name] = col`;
  - `DataFrame.values` and `pd.DataFrame({name: vals}, index=...)`;
  - `np.average(..., axis=1, weights=w)`.

Notes on the modelling:

- **Argument defaults.** An argument the caller leaves out is `Omitted`, so the attrs
  default applies. An explicit `None` is `Given(None)`.
- **Order of construction.** attrs first runs the converters and defaults, in field
  order, then the validators, in field order. Construction follows that order, and the
  contracts say which error wins when several apply.
- **Unseen helpers.** The helpers the code imports are parameters of arrow type and are
  never given bodies:
  - `Interval.is_bounded` and `is_finite`;
  - `bound_linear`, `bound_triangular` and `bound_bell`;
  - `geom_mean`;
  - `NumericalTarget.is_normalized`, and the newer `NumericalTarget.transform` that
    desirability.py calls.

  For the two interval predicates, `Targets.ConventionalIntervals` states what they
  mean ("finite" means both ends finite, "bounded" means at least one). It is used only
  as a hypothesis of the lemmas that speak about interval ends.
- **Both transform methods are imperative.** `Objective.transform` and
  `DesirabilityObjective.transform` are `method`s (`TransformObjective`). Each is proved
  equal to a specification function, `TransformedTable`. Its `for` loop, which
  overwrites the copied table one target column per iteration, is the `while` loop of
  `TransformColumns`. That method is proved equal to `Frames.AssignColumns`, a fold
  over the columns; the loop invariant relates the partial table to the fold over the
  first `i` columns. The properties of the result are lemmas about `TransformedTable`.
- **Tables are values.** The input frame therefore cannot be changed by a transform.
  That it is copied is implicit, and the `...ReadsOnlyTargetColumns` lemmas state that
  only the target columns are read.

Two behaviours of the code worth noting:

- A bounded target built with an explicit `bounds_transform_func=None` passes every
  validator (targets.py:141). Its `transform` then raises a `KeyError` at the table
  lookup (targets.py:167), as stated by `Targets.ExplicitNoneOnBoundedRaises`.
- `Objective.transform` rejects an unknown `combine_func` (targets.py:272-275). The
  `in_` validator at targets.py:203 already refuses such values at construction, so
  for a constructed objective that branch cannot be reached
  (`Targets.ConstructedCombinationNeverRaises`).
- `GEOM_MEAN` is the default of both `combine_func` and `scalarization`. Its result is
  stated as `geom_mean` applied to the rows of the transformed target columns
  (`Targets.GeomMeanCombination`, `Desirability.DefaultScalarizationIsGeomMean`).

## Model

| member | source | states |
|---|---|---|
| Targets.ValidTransforms | baybe/targets.py:33-37 | MAX and MIN admit exactly LINEAR, and MATCH admits exactly TRIANGULAR and BELL. The first entry is TRIANGULAR for MATCH and LINEAR otherwise. Every admitted name has a bound function. |
| Targets.BoundsTransformFuncs | baybe/targets.py:159-163 | The bound-transform table has an entry exactly for LINEAR, TRIANGULAR and BELL. |
| Targets.DefaultBoundsTransformFunc | baybe/targets.py:104-117 | A bounded target defaults to TRIANGULAR for MATCH and to LINEAR otherwise. An unbounded target defaults to no transform. A default is always admitted by the target's mode. |
| Targets.ValidateBounds | baybe/targets.py:119-134 | Passes iff the bounds are finite or unbounded, and also finite when the mode is MATCH. A half-bounded interval fails first, with the half-bounded error. A MATCH target with unbounded bounds fails with the finite-bounds error. |
| Targets.ValidateBoundsTransformFunc | baybe/targets.py:136-147 | Passes iff the transform is None or one of the names its mode admits. Otherwise it fails with the incompatibility error. |
| Targets.NewNumericalTarget | baybe/targets.py:100-147 | Construction succeeds iff the bounds rule, the MATCH rule and the transform rule all hold. The target keeps its name, mode and bounds. It holds the given transform, or the bounds-dependent default when none was passed. Each failure raises its own error, half-bounded first. |
| Targets.ConstructionIsConsistency | baybe/targets.py:100-147 | Every constructed target satisfies the invariant `Consistent`. A target is consistent exactly when constructing it from its own fields returns it unchanged. |
| Targets.HalfBoundedRejected | baybe/targets.py:119-127 | An interval with exactly one finite end is refused in every mode and with every transform. |
| Targets.MatchNeedsFiniteEnds | baybe/targets.py:128-134 | A constructed MATCH target has two finite ends. A MATCH target with two infinite ends is refused with the finite-bounds error. |
| Targets.Negated | baybe/targets.py:177-178 | Each value is negated, and the column keeps its length. |
| Targets.TransformTarget | baybe/targets.py:149-180 | Bounded bounds: succeeds iff the held name is in the table. It then applies that bound function to the bounds' ends, with `descending` False for MAX, True for MIN and not passed for MATCH. Otherwise it raises the table's KeyError. Unbounded bounds: MIN negates every value and every other mode returns the values unchanged. |
| Targets.ConstructedDispatch | baybe/targets.py:164-172 | On a constructed bounded target holding a transform: a MAX target goes to ascending `bound_linear`, a MIN target to descending `bound_linear`, and a MATCH target to `bound_triangular` or `bound_bell` with no direction. |
| Targets.DefaultTransformNeverRaises | baybe/targets.py:104-117 | A target built with the default transform is always transformed without error. |
| Targets.ExplicitNoneOnBoundedRaises | baybe/targets.py:166-167 | A bounded target built with an explicit None transform is accepted, and its transform raises the KeyError. |
| Targets.MatchIsBounded | baybe/targets.py:174-176 | A constructed MATCH target never reaches the unbounded branch, because the validators exclude it. |
| Targets.NormalizeWeights | baybe/targets.py:40-49 | Each weight becomes `100*w_i/sum(w)`, the list keeps its length, and a non-empty result sums to 100. There is no result when the weights sum to zero. |
| Targets.NormalizeWeightsKeepsRatios | baybe/targets.py:49 | Normalisation keeps the ratio of any two weights. |
| Targets.DefaultWeights | baybe/targets.py:206-210 | The default has one 1.0 per target. |
| Targets.ValidateTargets | baybe/targets.py:212-228 | Passes iff there is at least one target, SINGLE has exactly one target, and DESIRABILITY has only bounded targets. Each failure has its own error, in this order. |
| Targets.NewObjective | baybe/targets.py:199-245 | Construction succeeds iff the target rules hold, any given weights match the target count (with non-zero sum), and any given `combine_func` is MEAN or GEOM_MEAN. Mode and targets are kept. The weights sum to 100 and are `100*w_i/sum(w)`, or `100/n` each by default. `combine_func` defaults to GEOM_MEAN. No targets raises the min-length error. A weight count that does not match raises the weights error. |
| Targets.TargetColumns | baybe/targets.py:264 | Each target contributes its transform of its own input column. |
| Targets.Combine | baybe/targets.py:266-278 | Returns the single column `Comp_Target` on the table's index. GEOM_MEAN gives exactly `geom_mean` of the table's values and weights, put in that column. MEAN gives the row-wise weighted average, or the error of `np.average` when the weights do not fit. An unknown `combine_func` raises. |
| Targets.TransformObjective | baybe/targets.py:247-280 | Selection, the column loop and the combination compute exactly `TransformedTable`, including every error. |
| Targets.TransformColumns | baybe/targets.py:263-264 | The loop over the targets, overwriting each copied column with its target's transform, computes exactly the fold `Frames.AssignColumns` over the target columns, including the first error. |
| Targets.TransformedColumns | baybe/targets.py:261-264 | In SINGLE mode the transform succeeds iff every target column is present and each transform succeeds with one value per row. On success there is one column per target, in target order, on the input's index. Each column holds the transform of its target (the last target of that name wins). |
| Targets.DesirabilityColumn | baybe/targets.py:277-278 | In DESIRABILITY mode a result is the single column `Comp_Target`, on the input's index, with one value per row. |
| Targets.ConstructedCombinationNeverRaises | baybe/targets.py:261-278 | For a constructed objective, the transform fails only on a missing column, a target transform that raises, or a column of the wrong length: the combination step never raises an unknown-function or weights error. If `geom_mean` returns one value per row, the transform succeeds iff every target column is present and transforms into one value per row. |
| Targets.MeanIsWeightedMean | baybe/targets.py:270-277 | With MEAN and distinct target names, each `Comp_Target` value is `sum(w_i*x_i)/sum(w_i)` over its row's transformed values. |
| Targets.ConstructedMeanIsWeightedMean | baybe/targets.py:270-277 | For a constructed objective the same value is `sum(w_i*x_i)/100`. |
| Targets.GeomMeanCombination | baybe/targets.py:268-278 | In desirability mode with GEOM_MEAN and distinct target names, `Comp_Target` is `geom_mean` of the rows of the transformed target columns, with the objective's weights. |
| Targets.DefaultCombinationIsGeomMean | baybe/targets.py:202-203 | An objective built without `combine_func` combines with `geom_mean`, as stated above. |
| Targets.ColumnsFormed | baybe/targets.py:262-264 | The selection and the column loop both succeed iff every target column is present and every target transforms it into one value per row. |
| Targets.ResolvedTransform | baybe/targets.py:101-117 | A given transform (None included) is kept. When omitted, there is a transform iff the bounds are bounded, and it is one the mode admits. |
| Targets.Descending | baybe/targets.py:168-171 | MAX and MIN pass a direction and MATCH does not. The direction is descending exactly for MIN. |
| Targets.Bounded | baybe/targets.py:224 | Holds iff every target's bounds are bounded. |
| Targets.TransformedTable | baybe/targets.py:247-280 | A result is a frame on the input's index. A failure is a missing column, a target transform error, a wrong-length column, an unknown `combine_func` or an `np.average` weights error. |
| Targets.TransformReadsOnlyTargetColumns | baybe/targets.py:261-264 | Two inputs that agree on the index and on the target columns give the same result. |
| Desirability.NormalizeWeights | baybe/objectives/desirability.py:23-38 | Raises iff some weight is not strictly positive. Otherwise each weight becomes `w_i/sum(w)`, the list keeps its length, and a non-empty result sums to 1. |
| Desirability.NormalizedWeightsPositive | baybe/objectives/desirability.py:36-38 | The normalised weights are strictly positive. |
| Desirability.NormalizeWeightsKeepsRatios | baybe/objectives/desirability.py:38 | Normalisation keeps the ratio of any two weights. |
| Desirability.DefaultWeights | baybe/objectives/desirability.py:95-98 | The default has one 1.0 per target. |
| Desirability.DefaultWeightsNormalizeToUniform | baybe/objectives/desirability.py:86-98 | The default weights normalise to `1/n` each. |
| Desirability.NormalizedWeightsGiveSameMean | baybe/objectives/desirability.py:38 | The weighted mean under the normalised weights equals the weighted mean under the raw weights. |
| Desirability.Scalarize | baybe/objectives/desirability.py:48-73 | GEOM_MEAN goes to `geom_mean`. A member without a branch raises NotImplementedError, and only such a member does. MEAN is exactly `np.average` along the rows with the weights. With positive weights, one per column, gives one value per row: `sum(w_i*x_i)/sum(w_i)`. |
| Desirability.ConvertedWeights | baybe/objectives/desirability.py:86-98 | Raises iff some given weight is not strictly positive. Otherwise the weights keep their count (n by default), are positive and sum to 1. They are `w_i/sum(w)`, or `1/n` each by default. |
| Desirability.NewDesirabilityObjective | baybe/objectives/desirability.py:80-119 | Construction succeeds iff the given weights are strictly positive, one per target, and there are at least two targets, all numerical and all normalised. Targets are kept. The scalarization defaults to GEOM_MEAN. The weights are the converted ones: one per target, positive, summing to 1. A failure raises the weight error first, then the min-length, numerical, normalised and weight-count errors, in that order. |
| Desirability.NormalizedPositive | baybe/objectives/desirability.py:86-119 | A constructed objective, with any scalarization, has one weight per target and at least two, all positive, summing to 1. |
| Desirability.TargetColumns | baybe/objectives/desirability.py:126-127 | Each target contributes its transform of its own input column. |
| Desirability.TransformObjective | baybe/objectives/desirability.py:121-135 | Selection, the column loop and `scalarize` compute exactly `TransformedTable`, including every error. |
| Desirability.TransformColumns | baybe/objectives/desirability.py:126-127 | The loop over the targets, overwriting each copied column with its target's transform, computes exactly the fold `Frames.AssignColumns` over the target columns. |
| Desirability.ColumnsFormed | baybe/objectives/desirability.py:125-127 | The selection and the column loop both succeed iff every target column is present and every target transforms it into one value per row. |
| Desirability.MeanRows | baybe/objectives/desirability.py:67-73 | With MEAN, weights that match the targets and sum to 1, and distinct names, a filled table gives one `Desirability` value per row, the weighted sum `sum(w_i*x_i)` of its transformed values. |
| Desirability.DesirabilityColumn | baybe/objectives/desirability.py:130-133 | A result is the single column `Desirability`, on the input's index, with one value per row. |
| Desirability.UnimplementedScalarizationRaises | baybe/objectives/desirability.py:69-72 | A scalarization without a branch never gives a result. Once the target columns can be formed, it raises NotImplementedError. |
| Desirability.ConstructedMeanIsWeightedMean | baybe/objectives/desirability.py:67-73 | For a constructed objective with MEAN and distinct target names, the transform succeeds iff every target column is present and transforms into one value per row. Each `Desirability` value is then `sum(w_i*x_i)` over its row, with the normalised weights. |
| Desirability.DefaultMeanIsPlainMean | baybe/objectives/desirability.py:95-98 | With the default weights and MEAN, each `Desirability` value is the plain mean of its row. |
| Desirability.MeanStaysNormalized | baybe/objectives/desirability.py:67-73 | With MEAN, if every transformed target value lies in [0, 1], so does every `Desirability` value. |
| Desirability.IsAllNumericalTargets | baybe/objectives/desirability.py:41-45 | Holds iff every target is a numerical target. |
| Desirability.AllNormalized | baybe/objectives/desirability.py:107 | Holds iff every target reports itself normalised. |
| Desirability.TransformedTable | baybe/objectives/desirability.py:121-135 | A result is the one column `Desirability` on the input's index. A failure is a missing column, a wrong-length column, an `np.average` weights error or NotImplementedError. |
| Desirability.DefaultScalarizationIsGeomMean | baybe/objectives/desirability.py:90-92 | An objective built without `scalarization` gives, with distinct target names, `geom_mean` of the rows of the transformed target columns, with the normalised weights. |
| Desirability.TransformReadsOnlyTargetColumns | baybe/objectives/desirability.py:125-127 | Two inputs that agree on the index and on the target columns give the same result. |
| Frames.Select | baybe/targets.py:262 | Succeeds iff every named column exists. It keeps the index and lists exactly the named columns with their data. A missing name raises KeyError. |
| Frames.SelectReadsOnlyNamed | baybe/targets.py:262 | The selection depends only on the named columns. |
| Frames.SetColumn | baybe/targets.py:264 | Assignment replaces, or appends, that one column and keeps the index. A column of the wrong length is refused. |
| Frames.SingleColumn | baybe/targets.py:278 | The new frame has one named column on the given index. A values list of the wrong length is refused. |
| Frames.AssignColumnsErrorPropagates | baybe/targets.py:263-264 | An error raised in an iteration is the loop's error. |
| Frames.AssignColumnsAdvance | baybe/targets.py:263-264 | One iteration assigns the next column to the partial table, and an error in it is the error of the whole loop. |
| Frames.AssignColumnsShape | baybe/targets.py:263-264 | When every name is already a column, the loop succeeds iff every assigned column has one value per row. The loop then keeps the index and the column list. |
| Frames.AssignColumnsContents | baybe/targets.py:263-264 | After the loop, each assigned name holds the column assigned to it last. |
| Frames.AssignColumnsUntouched | baybe/targets.py:263-264 | Columns that are not assigned keep their data. |
| Frames.AssignColumnsErrors | baybe/targets.py:263-264 | A failed loop failed on a raising column or on a column of the wrong length. |
| Frames.AssignedRows | baybe/targets.py:277 | With distinct names, each row of `.values` of the filled table is the row of the assigned columns. |
| Frames.AssignColumns | baybe/targets.py:263-264 | The loop keeps the index, and every column it started with or assigned is present afterwards. |
| Frames.AssignedValues | baybe/targets.py:277 | With distinct names, `.values` of the filled table is the matrix of the assigned columns, row by row. |
| Frames.Values | baybe/targets.py:277 | `.values` is a rectangular matrix with one row per index entry and one entry per column, in column order. |
| Frames.Average | baybe/targets.py:271 | Succeeds iff there is one weight per column and the weights do not sum to zero. Each row's value is then `sum(w_i*x_i)/sum(w_i)`. |
| Frames.AverageScaleInvariant | baybe/targets.py:271 | Scaling all weights by a non-zero factor does not change the average. |
| Frames.AverageUniform | baybe/targets.py:271 | With equal weights, the average of a row is its plain mean. |
| Frames.AverageWithinBounds | baybe/targets.py:271 | With positive weights, the average of values in [lo, hi] lies in [lo, hi]. |

## Left out

- The bodies of the imported helpers: `bound_linear`, `bound_triangular`, `bound_bell`,
  `geom_mean`, `Interval.is_bounded`/`is_finite`, `NumericalTarget.is_normalized` and
  the newer `NumericalTarget.transform`. Their code is not part of this model, so they
  are uninterpreted parameters and only the dispatch to them is proved.
- The newer `baybe.targets.numerical.NumericalTarget` is not part of this model. Its
  numerical targets stand on `Targets.NumericalTarget` as a record, and the
  model uses only the target's name and the two helpers above.
- Targets of other kinds appear only as `Desirability.NonNumerical`, with a name. The
  `instance_of(Target)` check on non-target objects is a type check that Dafny's types
  already make.
- Mode strings outside their `Literal` types are left out (closed enums). So are the `Scalarization(...)` conversion of strings and the `convert_bounds`
  conversion of tuples into an `Interval`. The conversion of the weights into floats
  (cattrs) and the `deep_iterable(instance_of(float))` check on legacy weights are type
  checks that the `real` type already makes.
- Targets.NewObjective: the source does not reject weights that sum to zero. numpy then
  gives inf/nan weights. The model raises `NonFiniteWeights` after all validators,
  because reals have no inf or nan.
- Targets.ConstructedCombinationNeverRaises: the body of `geom_mean` is not part of this
  model, so a wrong-length result of it is not excluded. The lemma's iff is stated only
  under the hypothesis `Targets.RowwiseGeomMean` (one value per row).
- Desirability.ConstructedMeanIsWeightedMean: the newer `NumericalTarget.transform` is a
  parameter returning a column, so the model cannot express it raising. The iff of this
  lemma, and the error lists of `Desirability.TransformedTable`, assume that it does not.
- Targets.NewNumericalTarget: the `bounds` default (`None`, turned into an unbounded
  interval by `convert_bounds`) is not modelled. The bounds are always passed as an
  `Interval`.
- IEEE floating point (rounding, NaN, inf) is left out: all numbers are reals.
- pandas goes no further than "same index, named columns". Assigning a column of the
  wrong length is refused (ColumnLengthMismatch) where pandas would align or broadcast.
  Duplicate target names are allowed, and the last assignment wins.
- The logging warning in the default bound transform, serialisation (`SerialMixin`) and
  the abstract `Objective` base class.
- `botorch.py`, `device_mode.py`, the benchmark configuration and the tests: they are
  not part of this core (torch/BoTorch optimisation, global flags, timing).
