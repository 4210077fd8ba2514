/** The legacy target and objective definitions of baybe/targets.py: numerical targets
    with a mode, bounds and a bound transform, and the objective that transforms and,
    in desirability mode, combines their columns. */
module Targets {
  import opened Outcomes
  import opened Frames

  /** The optimisation mode of a numerical target ("MIN", "MAX", "MATCH"). */
  datatype Mode = Min | Max | Match

  /** An interval of target values; `None` stands for an infinite end (-inf below,
      +inf above). */
  datatype Interval = Interval(lower: Option<real>, upper: Option<real>)

  /** A bound transform is called with the values, the two ends of the bounds and the
      `descending` keyword (`None` when the call does not pass it). */
  type BoundFn = (Column, Option<real>, Option<real>, Option<bool>) -> Column

  /** The helpers that targets.py imports from baybe.utils. Their code is not part of
      this model, so they are left uninterpreted and passed in. */
  datatype Helpers = Helpers(
    isBounded: Interval -> bool,
    isFinite: Interval -> bool,
    boundLinear: BoundFn,
    boundTriangular: BoundFn,
    boundBell: BoundFn,
    geomMean: (Matrix, seq<real>) -> Column)

  /** What the two interval predicates of baybe.utils are meant to say: finite means
      both ends finite, bounded means at least one end finite. Used only as a
      hypothesis, to state the rules about half-bounded intervals in terms of the ends. */
  ghost predicate ConventionalIntervals(h: Helpers) {
    (forall i: Interval :: h.isFinite(i) <==> i.lower.Some? && i.upper.Some?) &&
    (forall i: Interval :: h.isBounded(i) <==> i.lower.Some? || i.upper.Some?)
  }

  const LINEAR := "LINEAR"
  const TRIANGULAR := "TRIANGULAR"
  const BELL := "BELL"

  datatype BoundFunction = BoundLinear | BoundTriangular | BoundBell

  /** The table `bounds_transform_funcs`: which helper a bound-transform name selects. */
  function BoundsTransformFuncs(name: string): (r: Option<BoundFunction>)
    ensures r.Some? <==> name in [LINEAR, TRIANGULAR, BELL]
  {
    if name == LINEAR then Some(BoundLinear)
    else if name == TRIANGULAR then Some(BoundTriangular)
    else if name == BELL then Some(BoundBell)
    else None
  }

  function Helper(h: Helpers, f: BoundFunction): BoundFn {
    match f
    case BoundLinear => h.boundLinear
    case BoundTriangular => h.boundTriangular
    case BoundBell => h.boundBell
  }

  /** `_VALID_TRANSFORMS`: the bound transforms each mode admits, the default first. */
  function ValidTransforms(mode: Mode): (r: seq<string>)
    ensures |r| >= 1 && r[0] == if mode == Match then TRIANGULAR else LINEAR
    ensures forall n :: n in r ==> BoundsTransformFuncs(n).Some?
    ensures mode != Match ==> forall n :: n in r <==> n == LINEAR
    ensures mode == Match ==> forall n :: n in r <==> n == TRIANGULAR || n == BELL
  {
    match mode
    case Max => [LINEAR]
    case Min => [LINEAR]
    case Match => [TRIANGULAR, BELL]
  }

  datatype NumericalTarget = NumericalTarget(
    name: string, mode: Mode, bounds: Interval, boundsTransformFunc: Option<string>)

  /** `_default_bounds_transform_func`: the first admitted transform when the bounds are
      bounded, no transform otherwise. */
  function DefaultBoundsTransformFunc(h: Helpers, mode: Mode, bounds: Interval): (r: Option<string>)
    ensures h.isBounded(bounds) ==> r == Some(if mode == Match then TRIANGULAR else LINEAR)
    ensures !h.isBounded(bounds) ==> r == None
    ensures r.Some? ==> r.value in ValidTransforms(mode)
  {
    if h.isBounded(bounds) then Some(ValidTransforms(mode)[0]) else None
  }

  /** `_validate_bounds`. */
  function ValidateBounds(h: Helpers, mode: Mode, bounds: Interval): (r: Check)
    ensures r.Pass? <==>
      (h.isFinite(bounds) || !h.isBounded(bounds)) && (mode == Match ==> h.isFinite(bounds))
    ensures r.Fail? && !(h.isFinite(bounds) || !h.isBounded(bounds)) ==> r.error == HalfBoundedInterval
    ensures r.Fail? && (h.isFinite(bounds) || !h.isBounded(bounds)) ==> r.error == MatchNeedsFiniteBounds
  {
    if !(h.isFinite(bounds) || !h.isBounded(bounds)) then Fail(HalfBoundedInterval)
    else if mode == Match && !h.isFinite(bounds) then Fail(MatchNeedsFiniteBounds)
    else Pass
  }

  /** `_validate_bounds_transform_func`. */
  function ValidateBoundsTransformFunc(mode: Mode, value: Option<string>): (r: Check)
    ensures r.Pass? <==> value.None? || value.value in ValidTransforms(mode)
    ensures r.Fail? ==> r.error == IncompatibleTransform
  {
    if value.Some? && value.value !in ValidTransforms(mode) then Fail(IncompatibleTransform) else Pass
  }

  /** The transform the constructed target holds: the given one, or the default. */
  function ResolvedTransform(h: Helpers, mode: Mode, bounds: Interval, tf: Arg<Option<string>>): (r: Option<string>)
    ensures tf.Given? ==> r == tf.value
    ensures tf.Omitted? ==> (r.Some? <==> h.isBounded(bounds))
    ensures tf.Omitted? && r.Some? ==> r.value in ValidTransforms(mode)
  {
    match tf
    case Omitted => DefaultBoundsTransformFunc(h, mode, bounds)
    case Given(v) => v
  }

  /** `NumericalTarget(name, mode, bounds, bounds_transform_func)`: the default is filled
      in first, then the bounds and the transform are validated, in that order. */
  function NewNumericalTarget(h: Helpers, name: string, mode: Mode, bounds: Interval,
                              tf: Arg<Option<string>>): (r: Result<NumericalTarget>)
    ensures r.Ok? <==>
      (h.isFinite(bounds) || !h.isBounded(bounds)) &&
      (mode == Match ==> h.isFinite(bounds)) &&
      (tf.Given? && tf.value.Some? ==> tf.value.value in ValidTransforms(mode))
    ensures r.Ok? ==> r.value.name == name && r.value.mode == mode && r.value.bounds == bounds
    ensures r.Ok? && tf.Given? ==> r.value.boundsTransformFunc == tf.value
    ensures r.Ok? && tf.Omitted? ==> (r.value.boundsTransformFunc ==
      if h.isBounded(bounds) then Some(if mode == Match then TRIANGULAR else LINEAR) else None)
    ensures !(h.isFinite(bounds) || !h.isBounded(bounds)) ==> r == Err(HalfBoundedInterval)
    ensures (h.isFinite(bounds) || !h.isBounded(bounds)) && mode == Match && !h.isFinite(bounds) ==>
      r == Err(MatchNeedsFiniteBounds)
    ensures r.Err? ==> r.error in {HalfBoundedInterval, MatchNeedsFiniteBounds, IncompatibleTransform}
  {
    var t := NumericalTarget(name, mode, bounds, ResolvedTransform(h, mode, bounds, tf));
    match ValidateBounds(h, mode, bounds)
    case Fail(e) => Err(e)
    case Pass =>
      match ValidateBoundsTransformFunc(mode, t.boundsTransformFunc)
      case Fail(e) => Err(e)
      case Pass => Ok(t)
  }

  /** The invariant every constructed numerical target satisfies. */
  predicate Consistent(h: Helpers, t: NumericalTarget) {
    (h.isFinite(t.bounds) || !h.isBounded(t.bounds)) &&
    (t.mode == Match ==> h.isFinite(t.bounds)) &&
    (t.boundsTransformFunc.Some? ==> t.boundsTransformFunc.value in ValidTransforms(t.mode))
  }

  /** Construction yields exactly the consistent targets: what it returns is consistent,
      and every consistent target is what construction returns for its own fields. */
  lemma ConstructionIsConsistency(h: Helpers, t: NumericalTarget, name: string, mode: Mode,
                                  bounds: Interval, tf: Arg<Option<string>>)
    ensures NewNumericalTarget(h, name, mode, bounds, tf).Ok? ==>
      Consistent(h, NewNumericalTarget(h, name, mode, bounds, tf).value)
    ensures Consistent(h, t) <==>
      NewNumericalTarget(h, t.name, t.mode, t.bounds, Given(t.boundsTransformFunc)) == Ok(t)
  {
    if tf.Omitted? && h.isBounded(bounds) {
      assert DefaultBoundsTransformFunc(h, mode, bounds).value in ValidTransforms(mode);
    }
  }

  /** With the interval predicates meaning what they say, an interval with exactly one
      finite end is refused, whatever the mode and the transform. */
  lemma HalfBoundedRejected(h: Helpers, name: string, mode: Mode, bounds: Interval, tf: Arg<Option<string>>)
    requires ConventionalIntervals(h)
    requires bounds.lower.Some? != bounds.upper.Some?
    ensures NewNumericalTarget(h, name, mode, bounds, tf) == Err(HalfBoundedInterval)
  {
  }

  /** With the interval predicates meaning what they say, a MATCH target needs two
      finite ends, and one with two infinite ends is refused for that reason. */
  lemma MatchNeedsFiniteEnds(h: Helpers, name: string, bounds: Interval, tf: Arg<Option<string>>)
    requires ConventionalIntervals(h)
    ensures NewNumericalTarget(h, name, Match, bounds, tf).Ok? ==>
      bounds.lower.Some? && bounds.upper.Some?
    ensures bounds.lower.None? && bounds.upper.None? ==>
      NewNumericalTarget(h, name, Match, bounds, tf) == Err(MatchNeedsFiniteBounds)
  {
  }

  /** The `descending` keyword the transform passes: False for MAX, True for MIN, and
      none for MATCH. */
  function Descending(mode: Mode): (r: Option<bool>)
    ensures r.Some? <==> mode != Match
    ensures r.Some? ==> (r.value <==> mode == Min)
  {
    match mode
    case Max => Some(false)
    case Min => Some(true)
    case Match => None
  }

  function Negated(data: Column): (r: Column)
    ensures |r| == |data| && forall i :: 0 <= i < |data| ==> r[i] == -data[i]
  {
    seq(|data|, i requires 0 <= i < |data| => -data[i])
  }

  /** `NumericalTarget.transform`. Bounded: the bound transform the name selects, with
      the direction of the mode (a name the table lacks, such as an explicit None, raises
      a KeyError). Unbounded: MIN negates, every other mode keeps the values. */
  function TransformTarget(h: Helpers, t: NumericalTarget, data: Column): (r: Result<Column>)
    ensures r.Err? ==> r.error == UnknownBoundTransform
    ensures h.isBounded(t.bounds) ==>
      (r.Ok? <==> t.boundsTransformFunc.Some? && t.boundsTransformFunc.value in [LINEAR, TRIANGULAR, BELL])
    ensures h.isBounded(t.bounds) && t.boundsTransformFunc == Some(LINEAR) ==>
      r == Ok(h.boundLinear(data, t.bounds.lower, t.bounds.upper,
                            if t.mode == Max then Some(false) else if t.mode == Min then Some(true) else None))
    ensures h.isBounded(t.bounds) && t.boundsTransformFunc == Some(TRIANGULAR) ==>
      r == Ok(h.boundTriangular(data, t.bounds.lower, t.bounds.upper, Descending(t.mode)))
    ensures h.isBounded(t.bounds) && t.boundsTransformFunc == Some(BELL) ==>
      r == Ok(h.boundBell(data, t.bounds.lower, t.bounds.upper, Descending(t.mode)))
    ensures !h.isBounded(t.bounds) ==> r.Ok? && |r.value| == |data|
    ensures !h.isBounded(t.bounds) && t.mode == Min ==> forall i :: 0 <= i < |data| ==> r.value[i] == -data[i]
    ensures !h.isBounded(t.bounds) && t.mode != Min ==> r.value == data
  {
    if h.isBounded(t.bounds) then
      var f := if t.boundsTransformFunc.Some? then BoundsTransformFuncs(t.boundsTransformFunc.value) else None;
      match f
      case None => Err(UnknownBoundTransform)
      case Some(fn) => Ok(Helper(h, fn)(data, t.bounds.lower, t.bounds.upper, Descending(t.mode)))
    else if t.mode == Min then Ok(Negated(data))
    else Ok(data)
  }

  /** A constructed target whose bounds are bounded and which holds a transform is
      transformed by the one bound transform its mode admits: ascending LINEAR for MAX,
      descending LINEAR for MIN, TRIANGULAR or BELL without a direction for MATCH. */
  lemma ConstructedDispatch(h: Helpers, t: NumericalTarget, data: Column)
    requires Consistent(h, t) && h.isBounded(t.bounds) && t.boundsTransformFunc.Some?
    ensures t.mode == Max ==> TransformTarget(h, t, data) == Ok(h.boundLinear(data, t.bounds.lower, t.bounds.upper, Some(false)))
    ensures t.mode == Min ==> TransformTarget(h, t, data) == Ok(h.boundLinear(data, t.bounds.lower, t.bounds.upper, Some(true)))
    ensures t.mode == Match ==> (TransformTarget(h, t, data) in
      {Ok(h.boundTriangular(data, t.bounds.lower, t.bounds.upper, None)),
       Ok(h.boundBell(data, t.bounds.lower, t.bounds.upper, None))})
  {
    assert t.boundsTransformFunc.value in ValidTransforms(t.mode);
  }

  /** A target constructed with the default transform never fails to transform. */
  lemma DefaultTransformNeverRaises(h: Helpers, name: string, mode: Mode, bounds: Interval, data: Column)
    requires NewNumericalTarget(h, name, mode, bounds, Omitted).Ok?
    ensures TransformTarget(h, NewNumericalTarget(h, name, mode, bounds, Omitted).value, data).Ok?
  {
  }

  /** An explicit None passes validation even on bounded bounds, and the transform of
      such a target then raises, because the table has no entry for it. */
  lemma ExplicitNoneOnBoundedRaises(h: Helpers, name: string, mode: Mode, bounds: Interval, data: Column)
    requires NewNumericalTarget(h, name, mode, bounds, Given(None)).Ok? && h.isBounded(bounds)
    ensures TransformTarget(h, NewNumericalTarget(h, name, mode, bounds, Given(None)).value, data) ==
      Err(UnknownBoundTransform)
  {
  }

  /** With the interval predicates meaning what they say, a constructed MATCH target is
      always on the bounded branch of the transform. */
  lemma MatchIsBounded(h: Helpers, t: NumericalTarget)
    requires ConventionalIntervals(h) && Consistent(h, t) && t.mode == Match
    ensures h.isBounded(t.bounds)
  {
  }

  // ---------------------------------------------------------------------------
  // Objective

  /** The objective mode ("SINGLE", "DESIRABILITY"). */
  datatype ObjectiveMode = Single | Desirability

  /** The value of `combine_func`: "MEAN", "GEOM_MEAN" or some other string. */
  datatype CombineFunc = Mean | GeomMean | OtherCombineFunc(name: string)

  datatype Objective = Objective(
    mode: ObjectiveMode, targets: seq<NumericalTarget>, weights: seq<real>, combineFunc: CombineFunc)

  /** `_normalize_weights`: every weight scaled so that they sum to 100. A non-empty list
      summing to zero has no such scaling (numpy yields inf or nan); that is `None`. */
  function NormalizeWeights(w: seq<real>): (r: Option<seq<real>>)
    ensures r.None? <==> |w| > 0 && Sum(w) == 0.0
    ensures r.Some? ==> |r.value| == |w|
    ensures r.Some? ==> forall i :: 0 <= i < |w| ==> r.value[i] == 100.0 * w[i] / Sum(w)
    ensures r.Some? && |w| > 0 ==> Sum(r.value) == 100.0
  {
    if |w| == 0 then Some([])
    else if Sum(w) == 0.0 then None
    else
      ScaledToSum(w, 100.0);
      Some(Scaled(w, 100.0 / Sum(w)))
  }

  /** Normalisation keeps the ratio between any two weights. */
  lemma NormalizeWeightsKeepsRatios(w: seq<real>, i: nat, j: nat)
    requires NormalizeWeights(w).Some? && i < |w| && j < |w|
    ensures NormalizeWeights(w).value[i] * w[j] == NormalizeWeights(w).value[j] * w[i]
  {
    ScaledRatios(w, 100.0 / Sum(w));
  }

  /** `_default_weights`: one 1.0 per target. */
  function DefaultWeights(n: nat): (r: seq<real>)
    ensures |r| == n && forall i :: 0 <= i < n ==> r[i] == 1.0
  {
    seq(n, i => 1.0)
  }

  /** No target has unbounded bounds. */
  function Bounded(h: Helpers, targets: seq<NumericalTarget>): (r: bool)
    ensures r <==> forall t :: t in targets ==> h.isBounded(t.bounds)
  {
    forall i :: 0 <= i < |targets| ==> h.isBounded(targets[i].bounds)
  }

  /** `min_len(1)` followed by `_validate_targets`. */
  function ValidateTargets(h: Helpers, mode: ObjectiveMode, targets: seq<NumericalTarget>): (r: Check)
    ensures r.Pass? <==>
      |targets| >= 1 && (mode == Single ==> |targets| == 1) && (mode == Desirability ==> Bounded(h, targets))
    ensures |targets| == 0 ==> r == Fail(NoTargets)
    ensures |targets| >= 1 && mode == Single && |targets| != 1 ==> r == Fail(SingleNeedsOneTarget)
    ensures |targets| >= 1 && mode == Desirability && !Bounded(h, targets) ==> r == Fail(UnboundedTarget)
  {
    if |targets| == 0 then Fail(NoTargets)
    else if mode == Single && |targets| != 1 then Fail(SingleNeedsOneTarget)
    else if mode == Desirability && !Bounded(h, targets) then Fail(UnboundedTarget)
    else Pass
  }

  /** `Objective(mode, targets, weights, combine_func)`: the weights default to one per
      target and are normalised before the validators of the targets, the weights and
      `combine_func` run, in that order. */
  function NewObjective(h: Helpers, mode: ObjectiveMode, targets: seq<NumericalTarget>,
                        weights: Arg<seq<real>>, combineFunc: Arg<CombineFunc>): (r: Result<Objective>)
    ensures r.Ok? <==>
      |targets| >= 1 && (mode == Single ==> |targets| == 1) && (mode == Desirability ==> Bounded(h, targets)) &&
      (weights.Given? ==> |weights.value| == |targets| && Sum(weights.value) != 0.0) &&
      (combineFunc.Given? ==> !combineFunc.value.OtherCombineFunc?)
    ensures r.Ok? ==> r.value.mode == mode && r.value.targets == targets
    ensures r.Ok? ==> |r.value.weights| == |targets| && Sum(r.value.weights) == 100.0
    ensures r.Ok? && weights.Given? ==>
      forall i :: 0 <= i < |targets| ==> r.value.weights[i] == 100.0 * weights.value[i] / Sum(weights.value)
    ensures r.Ok? && weights.Omitted? ==>
      forall i :: 0 <= i < |targets| ==> r.value.weights[i] == 100.0 / |targets| as real
    ensures r.Ok? ==> r.value.combineFunc == if combineFunc.Given? then combineFunc.value else GeomMean
    ensures |targets| == 0 ==> r == Err(NoTargets)
    ensures ValidateTargets(h, mode, targets).Pass? && weights.Given? && |weights.value| != |targets| ==>
      r == Err(WeightCountMismatch)
    ensures r.Err? ==> (r.error in
      {NoTargets, SingleNeedsOneTarget, UnboundedTarget, WeightCountMismatch, UnknownCombineFunc, NonFiniteWeights})
  {
    var raw := match weights case Omitted => DefaultWeights(|targets|) case Given(w) => w;
    var combine := match combineFunc case Omitted => GeomMean case Given(c) => c;
    var normalized := NormalizeWeights(raw);
    match ValidateTargets(h, mode, targets)
    case Fail(e) => Err(e)
    case Pass =>
      if |raw| != |targets| then Err(WeightCountMismatch)
      else if combine.OtherCombineFunc? then Err(UnknownCombineFunc)
      else if normalized.None? then
        assert weights.Given? by {
          if weights.Omitted? { SumConstant(raw, 1.0); }
        }
        Err(NonFiniteWeights)
      else
        assert weights.Omitted? ==> forall i :: 0 <= i < |targets| ==> normalized.value[i] == 100.0 / |targets| as real by {
          if weights.Omitted? { SumConstant(raw, 1.0); }
        }
        Ok(Objective(mode, targets, normalized.value, combine))
  }

  function Names(targets: seq<NumericalTarget>): (r: seq<string>)
    ensures |r| == |targets| && forall j :: 0 <= j < |targets| ==> r[j] == targets[j].name
  {
    seq(|targets|, j requires 0 <= j < |targets| => targets[j].name)
  }

  /** The column each target contributes: its transform of its own input column. */
  function TargetColumns(h: Helpers, targets: seq<NumericalTarget>, data: Frame): (r: seq<Result<Column>>)
    ensures |r| == |targets|
    ensures forall j :: 0 <= j < |targets| && targets[j].name in data.data ==>
      r[j] == TransformTarget(h, targets[j], data.data[targets[j].name])
    ensures forall j :: 0 <= j < |targets| && targets[j].name !in data.data ==> r[j] == Err(MissingColumn)
  {
    seq(|targets|, j requires 0 <= j < |targets| =>
      if targets[j].name in data.data then TransformTarget(h, targets[j], data.data[targets[j].name])
      else Err(MissingColumn))
  }

  /** The desirability step: the columns combined row by row into "Comp_Target". */
  function Combine(h: Helpers, combineFunc: CombineFunc, weights: seq<real>, t: Frame): (r: Result<Frame>)
    requires Valid(t)
    ensures r.Ok? ==> Valid(r.value) && r.value.index == t.index && r.value.columns == ["Comp_Target"]
    ensures combineFunc.OtherCombineFunc? ==> r == Err(UnknownCombineFunc)
    ensures combineFunc == GeomMean ==> r == SingleColumn("Comp_Target", h.geomMean(Values(t), weights), t.index)
    ensures combineFunc == Mean && Average(Values(t), weights).Ok? ==>
      r == Ok(Frame(t.index, ["Comp_Target"], map["Comp_Target" := Average(Values(t), weights).value]))
    ensures combineFunc == Mean && Average(Values(t), weights).Err? ==> r == Err(Average(Values(t), weights).error)
  {
    var vals := match combineFunc
      case GeomMean => Ok(h.geomMean(Values(t), weights))
      case Mean => Average(Values(t), weights)
      case OtherCombineFunc(_) => Err(UnknownCombineFunc);
    match vals
    case Err(e) => Err(e)
    case Ok(v) => SingleColumn("Comp_Target", v, t.index)
  }

  /** The result of `Objective.transform`, as a function of its inputs. */
  function TransformedTable(h: Helpers, obj: Objective, data: Frame): (r: Result<Frame>)
    requires Valid(data)
    ensures r.Ok? ==> Valid(r.value) && r.value.index == data.index
    ensures r.Err? ==>
      r.error in {MissingColumn, UnknownBoundTransform, ColumnLengthMismatch, UnknownCombineFunc, WeightShapeMismatch, ZeroWeightSum}
  {
    var names := Names(obj.targets);
    match Select(data, names)
    case Err(e) => Err(e)
    case Ok(selected) =>
      var cols := TargetColumns(h, obj.targets, data);
      AssignColumnsShape(selected, names, cols);
      match AssignColumns(selected, names, cols)
      case Err(e) =>
        AssignColumnsErrors(selected, names, cols);
        Err(e)
      case Ok(t) => if obj.mode == Desirability then Combine(h, obj.combineFunc, obj.weights, t) else Ok(t)
  }

  /** `Objective.transform`: copies the target columns, overwrites each with its target's
      transform, and in desirability mode replaces them by their combination. */
  method TransformObjective(h: Helpers, obj: Objective, data: Frame) returns (r: Result<Frame>)
    requires Valid(data)
    ensures r == TransformedTable(h, obj, data)
  {
    var selected := Select(data, Names(obj.targets));
    if selected.Err? {
      return Err(selected.error);
    }
    var transformed := TransformColumns(h, obj.targets, data, selected.value);
    if transformed.Err? {
      LoopFailed(h, obj, data);
      return Err(transformed.error);
    }
    LoopDone(h, obj, data, transformed.value);
    if obj.mode == Desirability {
      r := Combine(h, obj.combineFunc, obj.weights, transformed.value);
    } else {
      r := Ok(transformed.value);
    }
  }

  /** The loop of `transform`: overwrites each copied target column with its target's
      transform of its input column, in target order; a raising transform ends it. */
  method TransformColumns(h: Helpers, targets: seq<NumericalTarget>, data: Frame, selected: Frame)
    returns (r: Result<Frame>)
    requires forall t :: t in targets ==> t.name in data.data
    ensures r == AssignColumns(selected, Names(targets), TargetColumns(h, targets, data))
  {
    var names := Names(targets);
    ghost var cols := TargetColumns(h, targets, data);
    var transformed := selected;
    var i := 0;
    while i < |targets|
      invariant 0 <= i <= |targets|
      invariant AssignColumns(selected, names[..i], cols[..i]) == Ok(transformed)
    {
      var target := targets[i];
      assert target in targets;
      var col := TransformTarget(h, target, data.data[target.name]);
      assert cols[i] == col && names[i] == target.name;
      AssignColumnsAdvance(selected, names, cols, i, transformed);
      if col.Err? {
        return Err(col.error);
      }
      var next := SetColumn(transformed, target.name, col.value);
      if next.Err? {
        return Err(next.error);
      }
      transformed := next.value;
      i := i + 1;
    }
    assert names[..i] == names && cols[..i] == cols;
    r := Ok(transformed);
  }

  /** The transform once its column loop has failed. */
  lemma LoopFailed(h: Helpers, obj: Objective, data: Frame)
    requires Valid(data) && Select(data, Names(obj.targets)).Ok?
    requires AssignColumns(Select(data, Names(obj.targets)).value, Names(obj.targets), TargetColumns(h, obj.targets, data)).Err?
    ensures TransformedTable(h, obj, data) ==
      Err(AssignColumns(Select(data, Names(obj.targets)).value, Names(obj.targets), TargetColumns(h, obj.targets, data)).error)
  {
  }

  /** The transform once its column loop has filled the table `t`. */
  lemma LoopDone(h: Helpers, obj: Objective, data: Frame, t: Frame)
    requires Valid(data) && Select(data, Names(obj.targets)).Ok?
    requires AssignColumns(Select(data, Names(obj.targets)).value, Names(obj.targets), TargetColumns(h, obj.targets, data)) == Ok(t)
    ensures Valid(t) && t.index == data.index && t.columns == Names(obj.targets)
    ensures TransformedTable(h, obj, data) == if obj.mode == Desirability then Combine(h, obj.combineFunc, obj.weights, t) else Ok(t)
  {
    var names := Names(obj.targets);
    AssignColumnsShape(Select(data, names).value, names, TargetColumns(h, obj.targets, data));
  }

  /** Outside desirability mode the transform returns one transformed column per target,
      in target order and with the input's index. It succeeds exactly when every target
      column is present and every target transforms it into one value per row. */
  lemma {:induction false} TransformedColumns(h: Helpers, obj: Objective, data: Frame)
    requires Valid(data) && obj.mode != Desirability
    ensures TransformedTable(h, obj, data).Ok? <==>
      forall j :: 0 <= j < |obj.targets| ==>
        obj.targets[j].name in data.columns &&
        TransformTarget(h, obj.targets[j], data.data[obj.targets[j].name]).Ok? &&
        |TransformTarget(h, obj.targets[j], data.data[obj.targets[j].name]).value| == |data.index|
    ensures TransformedTable(h, obj, data).Ok? ==>
      var f := TransformedTable(h, obj, data).value;
      Valid(f) && f.index == data.index && f.columns == Names(obj.targets) &&
      forall j :: 0 <= j < |obj.targets| && LastOccurrence(Names(obj.targets), j) ==>
        f.data[obj.targets[j].name] == TransformTarget(h, obj.targets[j], data.data[obj.targets[j].name]).value
  {
    var names := Names(obj.targets);
    var sel := Select(data, names);
    if sel.Ok? {
      var cols := TargetColumns(h, obj.targets, data);
      AssignColumnsShape(sel.value, names, cols);
      if AssignColumns(sel.value, names, cols).Ok? {
        AssignColumnsContents(sel.value, names, cols);
      }
    } else {
      var j :| j in names && j !in data.columns;
    }
  }

  /** In desirability mode a successful transform returns the single column
      "Comp_Target", with the input's index and one value per input row. */
  lemma DesirabilityColumn(h: Helpers, obj: Objective, data: Frame)
    requires Valid(data) && obj.mode == Desirability && TransformedTable(h, obj, data).Ok?
    ensures var f := TransformedTable(h, obj, data).value;
      Valid(f) && f.columns == ["Comp_Target"] && f.index == data.index &&
      |f.data["Comp_Target"]| == |data.index|
  {
    var names := Names(obj.targets);
    var sel := Select(data, names);
    AssignColumnsShape(sel.value, names, TargetColumns(h, obj.targets, data));
  }

  /** `geom_mean` returns one value per row. A hypothesis about the helper, whose code
      is not part of this model. */
  ghost predicate RowwiseGeomMean(h: Helpers) {
    forall m: Matrix, w: seq<real> :: |h.geomMean(m, w)| == |m.rows|
  }

  /** Every target column is present, and every target transforms it without error into
      one value per row. */
  predicate Transformable(h: Helpers, targets: seq<NumericalTarget>, data: Frame)
    requires Valid(data)
  {
    forall j :: 0 <= j < |targets| ==>
      targets[j].name in data.columns &&
      TransformTarget(h, targets[j], data.data[targets[j].name]).Ok? &&
      |TransformTarget(h, targets[j], data.data[targets[j].name]).value| == |data.index|
  }

  /** The selection and the column loop of the transform both succeed exactly when the
      targets are transformable. */
  lemma ColumnsFormed(h: Helpers, targets: seq<NumericalTarget>, data: Frame)
    requires Valid(data)
    ensures var names := Names(targets);
      (Select(data, names).Ok? && AssignColumns(Select(data, names).value, names, TargetColumns(h, targets, data)).Ok?)
        <==> Transformable(h, targets, data)
  {
    var names := Names(targets);
    var sel := Select(data, names);
    if sel.Ok? {
      AssignColumnsShape(sel.value, names, TargetColumns(h, targets, data));
    } else {
      var n :| n in names && n !in data.columns;
      var j :| 0 <= j < |names| && names[j] == n;
    }
  }

  /** For a constructed objective, a transform fails only on a missing column, a target
      transform that raises, or a column of the wrong length: `combine_func` is known and
      the weights match the columns and sum to 100. When `geom_mean` returns one value
      per row, the transform succeeds exactly when its targets are transformable, so the
      combination step never fails. */
  lemma ConstructedCombinationNeverRaises(h: Helpers, mode: ObjectiveMode, targets: seq<NumericalTarget>,
                                          weights: Arg<seq<real>>, combineFunc: Arg<CombineFunc>, data: Frame)
    requires Valid(data) && NewObjective(h, mode, targets, weights, combineFunc).Ok?
    ensures var r := TransformedTable(h, NewObjective(h, mode, targets, weights, combineFunc).value, data);
      r.Err? ==> r.error in {MissingColumn, UnknownBoundTransform, ColumnLengthMismatch}
    ensures RowwiseGeomMean(h) ==>
      (TransformedTable(h, NewObjective(h, mode, targets, weights, combineFunc).value, data).Ok? <==>
       Transformable(h, targets, data))
  {
    var obj := NewObjective(h, mode, targets, weights, combineFunc).value;
    var names := Names(obj.targets);
    var sel := Select(data, names);
    ColumnsFormed(h, targets, data);
    if sel.Ok? {
      var cols := TargetColumns(h, obj.targets, data);
      var loop := AssignColumns(sel.value, names, cols);
      if loop.Ok? {
        var t := loop.value;
        LoopDone(h, obj, data, t);
        assert Values(t).width == |obj.weights|;
        if RowwiseGeomMean(h) && obj.mode == Desirability && obj.combineFunc == GeomMean {
          assert |h.geomMean(Values(t), obj.weights)| == |Values(t).rows|;
        }
      } else {
        LoopFailed(h, obj, data);
        AssignColumnsErrors(sel.value, names, cols);
      }
    }
  }

  /** In desirability mode with "GEOM_MEAN" (the default) and distinct target names, the
      "Comp_Target" column is what `geom_mean` returns for the rows of the transformed
      target columns and the objective's weights. */
  lemma GeomMeanCombination(h: Helpers, obj: Objective, data: Frame)
    requires Valid(data) && Distinct(Names(obj.targets))
    requires obj.mode == Desirability && obj.combineFunc == GeomMean
    requires TransformedTable(h, obj, data).Ok?
    ensures var f := TransformedTable(h, obj, data).value;
      "Comp_Target" in f.data &&
      f.data["Comp_Target"] == h.geomMean(ColumnsMatrix(TargetColumns(h, obj.targets, data), |data.index|), obj.weights)
  {
    var names := Names(obj.targets);
    var sel := Select(data, names).value;
    var cols := TargetColumns(h, obj.targets, data);
    AssignColumnsShape(sel, names, cols);
    AssignedValues(sel, names, cols);
  }

  /** A desirability objective constructed without a `combine_func` combines with
      `geom_mean`. */
  lemma DefaultCombinationIsGeomMean(h: Helpers, targets: seq<NumericalTarget>, weights: Arg<seq<real>>,
                                     data: Frame, obj: Objective)
    requires Valid(data) && Distinct(Names(targets))
    requires NewObjective(h, Desirability, targets, weights, Omitted) == Ok(obj)
    requires TransformedTable(h, obj, data).Ok?
    ensures var f := TransformedTable(h, obj, data).value;
      "Comp_Target" in f.data &&
      f.data["Comp_Target"] == h.geomMean(ColumnsMatrix(TargetColumns(h, targets, data), |data.index|), obj.weights)
  {
    GeomMeanCombination(h, obj, data);
  }

  /** In desirability mode with "MEAN" and distinct target names, each "Comp_Target"
      value is the weighted mean `sum(w_i * x_i) / sum(w_i)` of the transformed target
      values of its row. */
  lemma MeanIsWeightedMean(h: Helpers, obj: Objective, data: Frame)
    requires Valid(data) && Distinct(Names(obj.targets))
    requires obj.mode == Desirability && obj.combineFunc == Mean
    requires TransformedTable(h, obj, data).Ok?
    ensures Sum(obj.weights) != 0.0 && |obj.weights| == |obj.targets|
    ensures var f := TransformedTable(h, obj, data).value;
      "Comp_Target" in f.data && |f.data["Comp_Target"]| == |data.index| &&
      forall i :: 0 <= i < |data.index| ==>
        f.data["Comp_Target"][i] == Dot(obj.weights, RowOf(TargetColumns(h, obj.targets, data), i)) / Sum(obj.weights)
  {
    var names := Names(obj.targets);
    var sel := Select(data, names).value;
    var cols := TargetColumns(h, obj.targets, data);
    AssignColumnsShape(sel, names, cols);
    AssignedRows(sel, names, cols);
    var t := AssignColumns(sel, names, cols).value;
    var m := Values(t);
    assert TransformedTable(h, obj, data) == Combine(h, Mean, obj.weights, t);
    var avg := Average(m, obj.weights);
    assert avg.Ok?;
    var f := TransformedTable(h, obj, data).value;
    assert f.data["Comp_Target"] == avg.value;
    forall i | 0 <= i < |data.index|
      ensures f.data["Comp_Target"][i] == Dot(obj.weights, RowOf(cols, i)) / Sum(obj.weights)
    {
      assert m.rows[i] == RowOf(cols, i);
    }
  }

  /** For a constructed desirability objective with "MEAN" the weights sum to 100, so
      each "Comp_Target" value is `sum(w_i * x_i) / 100`. */
  lemma ConstructedMeanIsWeightedMean(h: Helpers, targets: seq<NumericalTarget>, weights: Arg<seq<real>>, data: Frame)
    requires Valid(data) && Distinct(Names(targets))
    requires NewObjective(h, Desirability, targets, weights, Given(Mean)).Ok?
    requires TransformedTable(h, NewObjective(h, Desirability, targets, weights, Given(Mean)).value, data).Ok?
    ensures var obj := NewObjective(h, Desirability, targets, weights, Given(Mean)).value;
      var f := TransformedTable(h, obj, data).value;
      "Comp_Target" in f.data && |f.data["Comp_Target"]| == |data.index| &&
      forall i :: 0 <= i < |data.index| ==>
        f.data["Comp_Target"][i] == Dot(obj.weights, RowOf(TargetColumns(h, targets, data), i)) / 100.0
  {
    var obj := NewObjective(h, Desirability, targets, weights, Given(Mean)).value;
    assert obj.targets == targets && obj.mode == Desirability && obj.combineFunc == Mean;
    assert Sum(obj.weights) == 100.0;
    MeanIsWeightedMean(h, obj, data);
  }

  /** The transform reads nothing of the input but its index and the target columns:
      inputs that agree on those give the same result. */
  lemma TransformReadsOnlyTargetColumns(h: Helpers, obj: Objective, d1: Frame, d2: Frame)
    requires Valid(d1) && Valid(d2) && d1.index == d2.index
    requires forall t :: t in obj.targets ==> (t.name in d1.columns <==> t.name in d2.columns)
    requires forall t :: t in obj.targets && t.name in d1.columns ==> d1.data[t.name] == d2.data[t.name]
    ensures TransformedTable(h, obj, d1) == TransformedTable(h, obj, d2)
  {
    var names := Names(obj.targets);
    forall n | n in names ensures (n in d1.columns <==> n in d2.columns) && (n in d1.columns ==> d1.data[n] == d2.data[n]) {
      var j :| 0 <= j < |names| && names[j] == n;
      assert obj.targets[j] in obj.targets;
    }
    SelectReadsOnlyNamed(d1, d2, names);
    var c1, c2 := TargetColumns(h, obj.targets, d1), TargetColumns(h, obj.targets, d2);
    forall j | 0 <= j < |obj.targets| ensures c1[j] == c2[j] {
      assert obj.targets[j] in obj.targets;
    }
    assert c1 == c2;
  }
}
