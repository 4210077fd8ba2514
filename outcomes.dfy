/** Failure-carrying values shared by the target and objective modules. */
module Outcomes {

  datatype Option<T> = None | Some(value: T)

  /** A constructor argument that the caller may leave out, so that the attribute's
      default applies. `Given(None)` (an explicit `None`) is not the same as `Omitted`. */
  datatype Arg<T> = Omitted | Given(value: T)

  /** The exceptions raised by the modelled code, one constructor per distinct cause. */
  datatype Error =
    // NumericalTarget construction
    | HalfBoundedInterval
    | MatchNeedsFiniteBounds
    | IncompatibleTransform
    // NumericalTarget.transform: the bound-transform table has no entry for the name
    | UnknownBoundTransform
    // legacy Objective construction and transform
    | NoTargets
    | SingleNeedsOneTarget
    | UnboundedTarget
    | WeightCountMismatch
    | UnknownCombineFunc
    | NonFiniteWeights
    // DesirabilityObjective construction and scalarize
    | NonPositiveWeight
    | TooFewTargets
    | NonNumericalTarget
    | UnnormalizedTarget
    | NotImplementedScalarization
    // table access and numpy averaging
    | MissingColumn
    | ColumnLengthMismatch
    | WeightShapeMismatch
    | ZeroWeightSum

  datatype Result<T> = Ok(value: T) | Err(error: Error)

  /** The outcome of a validator: it passes or raises. */
  datatype Check = Pass | Fail(error: Error)
}
