/** The desirability objective of baybe/objectives/desirability.py: at least two
    normalised numerical targets, strictly positive weights normalised to sum to 1, and a
    scalarization that turns the per-target columns into one "Desirability" column. */
module Desirability {
  import opened Outcomes
  import opened Frames
  import Targets

  /** A target of the objective: a numerical target or a target of another kind. */
  datatype Target = Numerical(numerical: Targets.NumericalTarget) | NonNumerical(targetName: string)
  {
    function Name(): string {
      match this
      case Numerical(t) => t.name
      case NonNumerical(n) => n
    }
  }

  /** What desirability.py calls but whose code is not part of this model: the
      `is_normalized` property and the `transform` method of the targets, and `geom_mean`. */
  datatype Collaborators = Collaborators(
    isNormalized: Targets.NumericalTarget -> bool,
    transform: (Target, Column) -> Column,
    geomMean: (Matrix, seq<real>) -> Column)

  /** The members of the `Scalarization` enum; `OtherScalarization` stands for any member
      that `scalarize` has no branch for. */
  datatype Scalarization = GeomMean | Mean | OtherScalarization(name: string)

  /** `_normalize_weights`: refuses any weight that is not strictly positive, and divides
      every weight by their sum. */
  function NormalizeWeights(w: seq<real>): (r: Result<seq<real>>)
    ensures r.Err? <==> exists i :: 0 <= i < |w| && w[i] <= 0.0
    ensures r.Err? ==> r.error == NonPositiveWeight
    ensures r.Ok? ==> |r.value| == |w|
    ensures r.Ok? && |w| > 0 ==> Sum(w) > 0.0
    ensures r.Ok? ==> forall i :: 0 <= i < |w| ==> r.value[i] == w[i] / Sum(w)
    ensures r.Ok? && |w| > 0 ==> Sum(r.value) == 1.0
  {
    if exists i :: 0 <= i < |w| && w[i] <= 0.0 then Err(NonPositiveWeight)
    else if |w| == 0 then Ok([])
    else
      SumPositive(w);
      ScaledToSum(w, 1.0);
      Ok(Scaled(w, 1.0 / Sum(w)))
  }

  /** The normalised weights are strictly positive. */
  lemma NormalizedWeightsPositive(w: seq<real>)
    requires NormalizeWeights(w).Ok?
    ensures forall i :: 0 <= i < |w| ==> NormalizeWeights(w).value[i] > 0.0
  {
    if |w| > 0 {
      SumPositive(w);
      var s := Sum(w);
      forall i | 0 <= i < |w| ensures NormalizeWeights(w).value[i] > 0.0 {
        QuotientPositive(w[i], s);
      }
    }
  }

  lemma QuotientPositive(a: real, s: real)
    requires a > 0.0 && s > 0.0
    ensures a / s > 0.0
  {
  }

  /** Normalisation keeps the ratio between any two weights. */
  lemma NormalizeWeightsKeepsRatios(w: seq<real>, i: nat, j: nat)
    requires NormalizeWeights(w).Ok? && i < |w| && j < |w|
    ensures NormalizeWeights(w).value[i] * w[j] == NormalizeWeights(w).value[j] * w[i]
  {
    QuotientCrossRatio(w[i], w[j], Sum(w));
  }

  lemma QuotientCrossRatio(a: real, b: real, s: real)
    requires s != 0.0
    ensures (a / s) * b == (b / s) * a
  {
    var p, q := a / s, b / s;
    assert p * s == a && q * s == b;
    assert p * b == p * (q * s) == q * (p * s);
  }

  /** `_default_weights`: one 1.0 per target. */
  function DefaultWeights(n: nat): (r: seq<real>)
    ensures |r| == n && forall i :: 0 <= i < n ==> r[i] == 1.0
  {
    seq(n, i => 1.0)
  }

  /** The default weights normalise to 1/n each. */
  lemma DefaultWeightsNormalizeToUniform(n: nat)
    ensures NormalizeWeights(DefaultWeights(n)).Ok?
    ensures forall i :: 0 <= i < n ==> NormalizeWeights(DefaultWeights(n)).value[i] == 1.0 / n as real
  {
    SumConstant(DefaultWeights(n), 1.0);
  }

  /** Normalising the weights does not change the weighted mean they give. */
  lemma NormalizedWeightsGiveSameMean(m: Matrix, w: seq<real>)
    requires Rectangular(m) && NormalizeWeights(w).Ok? && |w| > 0
    ensures Average(m, NormalizeWeights(w).value) == Average(m, w)
  {
    SumPositive(w);
    AverageScaleInvariant(m, w, 1.0 / Sum(w));
  }

  /** `_is_all_numerical_targets`. */
  /** `_is_all_numerical_targets`: every target is a numerical target. */
  function IsAllNumericalTargets(targets: seq<Target>): (r: bool)
    ensures r <==> forall t :: t in targets ==> t.Numerical?
  {
    forall i :: 0 <= i < |targets| ==> targets[i].Numerical?
  }

  /** Every (numerical) target reports itself normalized. */
  function AllNormalized(c: Collaborators, targets: seq<Target>): (r: bool)
    requires IsAllNumericalTargets(targets)
    ensures r <==> forall t :: t in targets ==> c.isNormalized(t.numerical)
  {
    forall i :: 0 <= i < |targets| ==> c.isNormalized(targets[i].numerical)
  }

  /** `scalarize`: GEOM_MEAN goes to `geom_mean`, MEAN to the row-wise weighted mean, and
      any other member raises NotImplementedError. */
  function Scalarize(c: Collaborators, values: Matrix, scalarization: Scalarization, weights: seq<real>): (r: Result<Column>)
    requires Rectangular(values)
    ensures scalarization == GeomMean ==> r == Ok(c.geomMean(values, weights))
    ensures scalarization.OtherScalarization? <==> r == Err(NotImplementedScalarization)
    ensures scalarization == Mean ==> r == Average(values, weights)
    ensures scalarization == Mean && |weights| == values.width > 0 && (forall i :: 0 <= i < |weights| ==> weights[i] > 0.0) ==>
      r.Ok? && |r.value| == |values.rows| && Sum(weights) > 0.0 &&
      forall i :: 0 <= i < |values.rows| ==> r.value[i] == Dot(weights, values.rows[i]) / Sum(weights)
  {
    PositiveWeightsSum(weights);
    match scalarization
    case GeomMean => Ok(c.geomMean(values, weights))
    case Mean => Average(values, weights)
    case OtherScalarization(_) => Err(NotImplementedScalarization)
  }

  lemma PositiveWeightsSum(w: seq<real>)
    ensures |w| > 0 && (forall i :: 0 <= i < |w| ==> w[i] > 0.0) ==> Sum(w) > 0.0
  {
    if |w| > 0 && (forall i :: 0 <= i < |w| ==> w[i] > 0.0) {
      SumPositive(w);
    }
  }

  datatype DesirabilityObjective = DesirabilityObjective(
    targets: seq<Target>, weights: seq<real>, scalarization: Scalarization)

  /** The `weights` field before its validator runs: the default (one 1.0 per target)
      when omitted, then the `_normalize_weights` converter. */
  function ConvertedWeights(n: nat, weights: Arg<seq<real>>): (r: Result<seq<real>>)
    ensures r.Err? <==> weights.Given? && exists i :: 0 <= i < |weights.value| && weights.value[i] <= 0.0
    ensures r.Err? ==> r.error == NonPositiveWeight
    ensures r.Ok? ==> |r.value| == if weights.Given? then |weights.value| else n
    ensures r.Ok? ==> forall i :: 0 <= i < |r.value| ==> r.value[i] > 0.0
    ensures r.Ok? && |r.value| > 0 ==> Sum(r.value) == 1.0
    ensures r.Ok? && weights.Given? && |weights.value| > 0 ==> (Sum(weights.value) > 0.0 &&
      forall i :: 0 <= i < |r.value| ==> r.value[i] == weights.value[i] / Sum(weights.value))
    ensures r.Ok? && weights.Omitted? ==> forall i :: 0 <= i < n ==> r.value[i] == 1.0 / n as real
  {
    var raw := match weights case Omitted => DefaultWeights(n) case Given(w) => w;
    DefaultWeightsNormalizeToUniform(n);
    var r := NormalizeWeights(raw);
    if r.Ok? then NormalizedWeightsPositive(raw); r else r
  }

  /** `DesirabilityObjective(targets, weights, scalarization)`: the weights are converted
      first (which may raise), then the validators of the targets and of the weights run. */
  function NewDesirabilityObjective(c: Collaborators, targets: seq<Target>, weights: Arg<seq<real>>,
                                    scalarization: Arg<Scalarization>): (r: Result<DesirabilityObjective>)
    ensures r.Ok? <==>
      (weights.Given? ==> (forall i :: 0 <= i < |weights.value| ==> weights.value[i] > 0.0) &&
                          |weights.value| == |targets|) &&
      |targets| >= 2 && IsAllNumericalTargets(targets) && AllNormalized(c, targets)
    ensures r.Ok? ==> r.value.targets == targets
    ensures r.Ok? ==> r.value.scalarization == if scalarization.Given? then scalarization.value else GeomMean
    ensures r.Ok? ==> r.value.weights == ConvertedWeights(|targets|, weights).value
    ensures r.Ok? ==> |r.value.weights| == |targets| && Sum(r.value.weights) == 1.0
    ensures r.Ok? ==> forall i :: 0 <= i < |targets| ==> r.value.weights[i] > 0.0
    ensures r.Err? ==> (r.error ==
      if ConvertedWeights(|targets|, weights).Err? then NonPositiveWeight
      else if |targets| < 2 then TooFewTargets
      else if !IsAllNumericalTargets(targets) then NonNumericalTarget
      else if !AllNormalized(c, targets) then UnnormalizedTarget
      else WeightCountMismatch)
  {
    match ConvertedWeights(|targets|, weights)
    case Err(e) => Err(e)
    case Ok(normalized) =>
      var s := match scalarization case Omitted => GeomMean case Given(v) => v;
      if |targets| < 2 then Err(TooFewTargets)
      else if !IsAllNumericalTargets(targets) then Err(NonNumericalTarget)
      else if !AllNormalized(c, targets) then Err(UnnormalizedTarget)
      else if |normalized| != |targets| then Err(WeightCountMismatch)
      else Ok(DesirabilityObjective(targets, normalized, s))
  }

  function Names(targets: seq<Target>): (r: seq<string>)
    ensures |r| == |targets| && forall j :: 0 <= j < |targets| ==> r[j] == targets[j].Name()
  {
    seq(|targets|, j requires 0 <= j < |targets| => targets[j].Name())
  }

  /** The column each target contributes: its transform of its own input column. */
  function TargetColumns(c: Collaborators, targets: seq<Target>, data: Frame): (r: seq<Result<Column>>)
    ensures |r| == |targets|
    ensures forall j :: 0 <= j < |targets| && targets[j].Name() in data.data ==>
      r[j] == Ok(c.transform(targets[j], data.data[targets[j].Name()]))
    ensures forall j :: 0 <= j < |targets| && targets[j].Name() !in data.data ==> r[j] == Err(MissingColumn)
  {
    seq(|targets|, j requires 0 <= j < |targets| =>
      if targets[j].Name() in data.data then Ok(c.transform(targets[j], data.data[targets[j].Name()]))
      else Err(MissingColumn))
  }

  /** The result of `DesirabilityObjective.transform`, as a function of its inputs. */
  function TransformedTable(c: Collaborators, obj: DesirabilityObjective, data: Frame): (r: Result<Frame>)
    requires Valid(data)
    ensures r.Ok? ==> Valid(r.value) && r.value.index == data.index && r.value.columns == ["Desirability"]
    ensures r.Err? ==>
      r.error in {MissingColumn, ColumnLengthMismatch, WeightShapeMismatch, ZeroWeightSum, NotImplementedScalarization}
  {
    var names := Names(obj.targets);
    match Select(data, names)
    case Err(e) => Err(e)
    case Ok(selected) =>
      var cols := TargetColumns(c, obj.targets, data);
      AssignColumnsShape(selected, names, cols);
      match AssignColumns(selected, names, cols)
      case Err(e) =>
        AssignColumnsErrors(selected, names, cols);
        Err(e)
      case Ok(t) =>
        match Scalarize(c, Values(t), obj.scalarization, obj.weights)
        case Err(e) => Err(e)
        case Ok(vals) => SingleColumn("Desirability", vals, t.index)
  }

  /** `DesirabilityObjective.transform`: copies the target columns, overwrites each with
      its target's transform, scalarises the rows and returns them as "Desirability". */
  method TransformObjective(c: Collaborators, obj: DesirabilityObjective, data: Frame) returns (r: Result<Frame>)
    requires Valid(data)
    ensures r == TransformedTable(c, obj, data)
  {
    var selected := Select(data, Names(obj.targets));
    if selected.Err? {
      return Err(selected.error);
    }
    var transformed := TransformColumns(c, obj.targets, data, selected.value);
    if transformed.Err? {
      LoopFailed(c, obj, data);
      return Err(transformed.error);
    }
    LoopDone(c, obj, data, transformed.value);
    var vals := Scalarize(c, Values(transformed.value), obj.scalarization, obj.weights);
    if vals.Err? {
      return Err(vals.error);
    }
    r := SingleColumn("Desirability", vals.value, transformed.value.index);
  }

  /** The loop of `transform`: overwrites each copied target column with its target's
      transform of its input column, in target order. */
  method TransformColumns(c: Collaborators, targets: seq<Target>, data: Frame, selected: Frame) returns (r: Result<Frame>)
    requires forall t :: t in targets ==> t.Name() in data.data
    ensures r == AssignColumns(selected, Names(targets), TargetColumns(c, targets, data))
  {
    var names := Names(targets);
    ghost var cols := TargetColumns(c, targets, data);
    var transformed := selected;
    var i := 0;
    while i < |targets|
      invariant 0 <= i <= |targets|
      invariant AssignColumns(selected, names[..i], cols[..i]) == Ok(transformed)
    {
      var target := targets[i];
      assert target in targets;
      var col := c.transform(target, data.data[target.Name()]);
      assert cols[i] == Ok(col) && names[i] == target.Name();
      AssignColumnsAdvance(selected, names, cols, i, transformed);
      var next := SetColumn(transformed, target.Name(), col);
      if next.Err? {
        return Err(next.error);
      }
      transformed := next.value;
      i := i + 1;
    }
    assert names[..i] == names && cols[..i] == cols;
    r := Ok(transformed);
  }

  /** The transform once its column loop has failed. */
  lemma LoopFailed(c: Collaborators, obj: DesirabilityObjective, data: Frame)
    requires Valid(data) && Select(data, Names(obj.targets)).Ok?
    requires AssignColumns(Select(data, Names(obj.targets)).value, Names(obj.targets), TargetColumns(c, obj.targets, data)).Err?
    ensures TransformedTable(c, obj, data) ==
      Err(AssignColumns(Select(data, Names(obj.targets)).value, Names(obj.targets), TargetColumns(c, obj.targets, data)).error)
  {
  }

  /** The transform once its column loop has filled the table `t`. */
  lemma LoopDone(c: Collaborators, obj: DesirabilityObjective, data: Frame, t: Frame)
    requires Valid(data) && Select(data, Names(obj.targets)).Ok?
    requires AssignColumns(Select(data, Names(obj.targets)).value, Names(obj.targets), TargetColumns(c, obj.targets, data)) == Ok(t)
    ensures Valid(t) && t.index == data.index && t.columns == Names(obj.targets)
    ensures var s := Scalarize(c, Values(t), obj.scalarization, obj.weights);
      TransformedTable(c, obj, data) == if s.Err? then Err(s.error) else SingleColumn("Desirability", s.value, t.index)
  {
    var names := Names(obj.targets);
    AssignColumnsShape(Select(data, names).value, names, TargetColumns(c, obj.targets, data));
  }

  /** A successful transform returns the single column "Desirability", with the input's
      index and one value per input row. */
  lemma DesirabilityColumn(c: Collaborators, obj: DesirabilityObjective, data: Frame)
    requires Valid(data) && TransformedTable(c, obj, data).Ok?
    ensures var f := TransformedTable(c, obj, data).value;
      Valid(f) && f.columns == ["Desirability"] && f.index == data.index &&
      |f.data["Desirability"]| == |data.index|
  {
    var names := Names(obj.targets);
    AssignColumnsShape(Select(data, names).value, names, TargetColumns(c, obj.targets, data));
  }

  /** When the per-target columns can be formed, a member `scalarize` has no branch for
      raises NotImplementedError. */
  lemma UnimplementedScalarizationRaises(c: Collaborators, obj: DesirabilityObjective, data: Frame)
    requires Valid(data) && obj.scalarization.OtherScalarization?
    ensures TransformedTable(c, obj, data).Ok? == false
    ensures (forall t :: t in obj.targets ==> (t.Name() in data.columns &&
               |c.transform(t, data.data[t.Name()])| == |data.index|)) ==>
      TransformedTable(c, obj, data) == Err(NotImplementedScalarization)
  {
    var names := Names(obj.targets);
    var sel := Select(data, names);
    if forall t :: t in obj.targets ==> (t.Name() in data.columns &&
         |c.transform(t, data.data[t.Name()])| == |data.index|) {
      forall n | n in names ensures n in data.columns {
        var j :| 0 <= j < |names| && names[j] == n;
        assert obj.targets[j] in obj.targets;
      }
      var cols := TargetColumns(c, obj.targets, data);
      forall j | 0 <= j < |cols| ensures cols[j].Ok? && |cols[j].value| == |sel.value.index| {
        assert obj.targets[j] in obj.targets;
      }
      AssignColumnsShape(sel.value, names, cols);
    }
  }

  /** For a constructed objective with MEAN and distinct target names, the transform
      succeeds exactly when every target column is present and transforms into one value
      per row; each "Desirability" value is then the weighted mean of its row's
      transformed values under the normalised weights (which sum to 1). */
  lemma ConstructedMeanIsWeightedMean(c: Collaborators, targets: seq<Target>, weights: Arg<seq<real>>, data: Frame)
    requires Valid(data) && Distinct(Names(targets))
    requires NewDesirabilityObjective(c, targets, weights, Given(Mean)).Ok?
    ensures var obj := NewDesirabilityObjective(c, targets, weights, Given(Mean)).value;
      TransformedTable(c, obj, data).Ok? <==>
        forall t :: t in targets ==> t.Name() in data.columns && |c.transform(t, data.data[t.Name()])| == |data.index|
    ensures var obj := NewDesirabilityObjective(c, targets, weights, Given(Mean)).value;
      var r := TransformedTable(c, obj, data);
      r.Ok? ==> ("Desirability" in r.value.data && |r.value.data["Desirability"]| == |data.index| &&
        forall i :: 0 <= i < |data.index| ==>
          r.value.data["Desirability"][i] == Dot(obj.weights, RowOf(TargetColumns(c, targets, data), i)))
  {
    var obj := NewDesirabilityObjective(c, targets, weights, Given(Mean)).value;
    var names := Names(targets);
    var sel := Select(data, names);
    ColumnsFormed(c, targets, data);
    if sel.Ok? {
      var loop := AssignColumns(sel.value, names, TargetColumns(c, targets, data));
      if loop.Ok? {
        NormalizedPositive(c, targets, weights, Given(Mean));
        MeanRows(c, obj, data, loop.value);
      } else {
        LoopFailed(c, obj, data);
      }
    }
  }

  /** The selection and the column loop both succeed exactly when every target column is
      present and every target transforms it into one value per row. */
  lemma ColumnsFormed(c: Collaborators, targets: seq<Target>, data: Frame)
    requires Valid(data)
    ensures var names := Names(targets);
      (Select(data, names).Ok? && AssignColumns(Select(data, names).value, names, TargetColumns(c, targets, data)).Ok?)
        <==> forall t :: t in targets ==> t.Name() in data.columns && |c.transform(t, data.data[t.Name()])| == |data.index|
  {
    var names := Names(targets);
    var sel := Select(data, names);
    var cols := TargetColumns(c, targets, data);
    if sel.Ok? {
      AssignColumnsShape(sel.value, names, cols);
      if AssignColumns(sel.value, names, cols).Ok? {
        forall t | t in targets ensures t.Name() in data.columns && |c.transform(t, data.data[t.Name()])| == |data.index| {
          var j :| 0 <= j < |targets| && targets[j] == t;
          assert names[j] in names;
        }
      } else if forall t :: t in targets ==> t.Name() in data.columns && |c.transform(t, data.data[t.Name()])| == |data.index| {
        forall j | 0 <= j < |cols| ensures cols[j].Ok? && |cols[j].value| == |sel.value.index| {
          assert targets[j] in targets;
        }
      }
    } else {
      var n :| n in names && n !in data.columns;
      var j :| 0 <= j < |names| && names[j] == n;
      assert targets[j] in targets;
    }
  }

  /** With MEAN, weights that match the targets and sum to 1, and distinct target names,
      a filled table `t` gives one "Desirability" value per row: the weighted sum of the
      row's transformed values. */
  lemma MeanRows(c: Collaborators, obj: DesirabilityObjective, data: Frame, t: Frame)
    requires Valid(data) && Distinct(Names(obj.targets)) && obj.scalarization == Mean
    requires |obj.weights| == |obj.targets| && Sum(obj.weights) == 1.0
    requires Select(data, Names(obj.targets)).Ok?
    requires AssignColumns(Select(data, Names(obj.targets)).value, Names(obj.targets), TargetColumns(c, obj.targets, data)) == Ok(t)
    ensures var r := TransformedTable(c, obj, data);
      r.Ok? && "Desirability" in r.value.data && |r.value.data["Desirability"]| == |data.index| &&
      forall i :: 0 <= i < |data.index| ==>
        r.value.data["Desirability"][i] == Dot(obj.weights, RowOf(TargetColumns(c, obj.targets, data), i))
  {
    var names := Names(obj.targets);
    var sel := Select(data, names).value;
    var cols := TargetColumns(c, obj.targets, data);
    LoopDone(c, obj, data, t);
    AssignedRows(sel, names, cols);
    var m := Values(t);
    var r := TransformedTable(c, obj, data);
    assert r == SingleColumn("Desirability", Average(m, obj.weights).value, t.index);
    forall i | 0 <= i < |data.index|
      ensures r.value.data["Desirability"][i] == Dot(obj.weights, RowOf(cols, i))
    {
      assert m.rows[i] == RowOf(cols, i);
    }
  }

  /** The weights of a constructed objective: positive, one per target, summing to 1. */
  lemma NormalizedPositive(c: Collaborators, targets: seq<Target>, weights: Arg<seq<real>>,
                           scalarization: Arg<Scalarization>)
    requires NewDesirabilityObjective(c, targets, weights, scalarization).Ok?
    ensures var w := NewDesirabilityObjective(c, targets, weights, scalarization).value.weights;
      |w| == |targets| > 0 && Sum(w) == 1.0 && forall i :: 0 <= i < |w| ==> w[i] > 0.0
  {
  }

  /** Without a `scalarization` the objective scalarises with `geom_mean`: with distinct
      target names, the "Desirability" column is what `geom_mean` returns for the rows of
      the transformed target columns and the normalized weights. */
  lemma DefaultScalarizationIsGeomMean(c: Collaborators, targets: seq<Target>, weights: Arg<seq<real>>,
                                       data: Frame, obj: DesirabilityObjective)
    requires Valid(data) && Distinct(Names(targets))
    requires NewDesirabilityObjective(c, targets, weights, Omitted) == Ok(obj)
    requires TransformedTable(c, obj, data).Ok?
    ensures TransformedTable(c, obj, data).value.data["Desirability"] ==
      c.geomMean(ColumnsMatrix(TargetColumns(c, targets, data), |data.index|), obj.weights)
  {
    var names := Names(targets);
    var sel := Select(data, names).value;
    var cols := TargetColumns(c, targets, data);
    AssignColumnsShape(sel, names, cols);
    AssignedValues(sel, names, cols);
  }

  /** With the default weights and MEAN, each "Desirability" value is the plain mean of
      its row's transformed values. */
  lemma DefaultMeanIsPlainMean(c: Collaborators, targets: seq<Target>, data: Frame, obj: DesirabilityObjective)
    requires Valid(data) && Distinct(Names(targets))
    requires NewDesirabilityObjective(c, targets, Omitted, Given(Mean)) == Ok(obj)
    requires TransformedTable(c, obj, data).Ok?
    ensures var f := TransformedTable(c, obj, data).value;
      "Desirability" in f.data && |f.data["Desirability"]| == |data.index| &&
      forall i :: 0 <= i < |data.index| ==>
        f.data["Desirability"][i] == Sum(RowOf(TargetColumns(c, targets, data), i)) / |targets| as real
  {
    var names := Names(targets);
    var cols := TargetColumns(c, targets, data);
    assert Select(data, names).Ok? && AssignColumns(Select(data, names).value, names, cols).Ok?;
    NormalizedPositive(c, targets, Omitted, Given(Mean));
    MeanRows(c, obj, data, AssignColumns(Select(data, names).value, names, cols).value);
    var d := TransformedTable(c, obj, data).value.data["Desirability"];
    DefaultObjectiveWeights(c, targets, obj);
    UniformMeans(d, obj.weights, cols, |data.index|, |targets|);
  }

  /** `1/n` for each of n entries. */
  function Uniform(n: nat): (r: seq<real>)
    requires n > 0
    ensures |r| == n && forall j :: 0 <= j < n ==> r[j] == 1.0 / n as real
  {
    seq(n, j => 1.0 / n as real)
  }

  /** A MEAN objective built with the default weights has `1/n` for each of its n targets. */
  lemma DefaultObjectiveWeights(c: Collaborators, targets: seq<Target>, obj: DesirabilityObjective)
    requires NewDesirabilityObjective(c, targets, Omitted, Given(Mean)) == Ok(obj)
    ensures |targets| > 0 && obj.weights == Uniform(|targets|)
  {
  }

  lemma UniformMeans(d: Column, w: seq<real>, cols: seq<Result<Column>>, m: nat, k: nat)
    requires |d| == m && |cols| == k > 0 && w == Uniform(k)
    requires forall i :: 0 <= i < m ==> d[i] == Dot(w, RowOf(cols, i))
    ensures forall i :: 0 <= i < m ==> d[i] == Sum(RowOf(cols, i)) / k as real
  {
    var n := k as real;
    forall i | 0 <= i < m ensures d[i] == Sum(RowOf(cols, i)) / n {
      UniformDot(w, RowOf(cols, i), 1.0 / n, n);
    }
  }

  lemma UniformDot(w: seq<real>, x: seq<real>, c: real, n: real)
    requires |w| == |x| && n > 0.0 && c == 1.0 / n && forall j :: 0 <= j < |w| ==> w[j] == c
    ensures Dot(w, x) == Sum(x) / n
  {
    DotConstantWeights(w, x, c);
    ReciprocalTimes(Dot(w, x), Sum(x), c, n);
  }

  lemma ReciprocalTimes(a: real, s: real, c: real, n: real)
    requires n > 0.0 && c == 1.0 / n && a == c * s
    ensures a == s / n
  {
  }

  /** With MEAN, desirability values are in [0, 1] whenever every transformed target
      value is: the weighted mean of normalised targets is itself normalised. */
  lemma MeanStaysNormalized(c: Collaborators, targets: seq<Target>, weights: Arg<seq<real>>, data: Frame,
                            obj: DesirabilityObjective)
    requires Valid(data) && Distinct(Names(targets))
    requires NewDesirabilityObjective(c, targets, weights, Given(Mean)) == Ok(obj)
    requires forall i, j :: 0 <= i < |data.index| && 0 <= j < |targets| ==>
      0.0 <= RowOf(TargetColumns(c, targets, data), i)[j] <= 1.0
    requires TransformedTable(c, obj, data).Ok?
    ensures var f := TransformedTable(c, obj, data).value;
      "Desirability" in f.data && |f.data["Desirability"]| == |data.index| &&
      forall i :: 0 <= i < |data.index| ==> 0.0 <= f.data["Desirability"][i] <= 1.0
  {
    ConstructedMeanIsWeightedMean(c, targets, weights, data);
    NormalizedPositive(c, targets, weights, Given(Mean));
    var d := TransformedTable(c, obj, data).value.data["Desirability"];
    var cols := TargetColumns(c, targets, data);
    UnitWeightedMeans(d, obj.weights, cols, |data.index|);
  }

  lemma UnitWeightedMeans(d: Column, w: seq<real>, cols: seq<Result<Column>>, n: nat)
    requires |d| == n && |w| == |cols| && Sum(w) == 1.0 && forall j :: 0 <= j < |w| ==> w[j] > 0.0
    requires forall i :: 0 <= i < n ==> d[i] == Dot(w, RowOf(cols, i))
    requires forall i, j :: 0 <= i < n && 0 <= j < |cols| ==> 0.0 <= RowOf(cols, i)[j] <= 1.0
    ensures forall i :: 0 <= i < n ==> 0.0 <= d[i] <= 1.0
  {
    forall i | 0 <= i < n ensures 0.0 <= d[i] <= 1.0 {
      DotBounds(w, RowOf(cols, i), 0.0, 1.0);
    }
  }

  /** The transform reads only the target columns (and the index) of its input. */
  lemma TransformReadsOnlyTargetColumns(c: Collaborators, obj: DesirabilityObjective, d1: Frame, d2: Frame)
    requires Valid(d1) && Valid(d2) && d1.index == d2.index
    requires forall t :: t in obj.targets ==> (t.Name() in d1.columns <==> t.Name() in d2.columns)
    requires forall t :: t in obj.targets && t.Name() in d1.columns ==> d1.data[t.Name()] == d2.data[t.Name()]
    ensures TransformedTable(c, obj, d1) == TransformedTable(c, obj, d2)
  {
    var names := Names(obj.targets);
    forall n | n in names ensures (n in d1.columns <==> n in d2.columns) && (n in d1.columns ==> d1.data[n] == d2.data[n]) {
      var j :| 0 <= j < |names| && names[j] == n;
      assert obj.targets[j] in obj.targets;
    }
    SelectReadsOnlyNamed(d1, d2, names);
    var c1, c2 := TargetColumns(c, obj.targets, d1), TargetColumns(c, obj.targets, d2);
    forall j | 0 <= j < |obj.targets| ensures c1[j] == c2[j] {
      assert obj.targets[j] in obj.targets;
    }
    assert c1 == c2;
  }
}
