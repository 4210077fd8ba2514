/** The tabular values the targets and objectives work on: a stand-in for the pandas
    DataFrame (rows by index label, named columns of reals), its `.values` matrix, and
    the row-wise weighted average `np.average(values, axis=1, weights=w)`. */
module Frames {
  import opened Outcomes

  type Column = seq<real>
  type Label = int

  /** A DataFrame: an index of row labels, an ordered list of column names (duplicates
      allowed, as in pandas) and the column data by name. */
  datatype Frame = Frame(index: seq<Label>, columns: seq<string>, data: map<string, Column>)

  /** Every listed column has data, one value per row, and no data is unlisted. */
  predicate Valid(f: Frame) {
    (forall c :: c in f.columns ==> c in f.data && |f.data[c]| == |f.index|) &&
    (forall c :: c in f.data ==> c in f.columns)
  }

  /** `data[names]`: the named columns, in the order given, with the same index.
      A name the frame lacks raises a KeyError. */
  function Select(f: Frame, names: seq<string>): (r: Result<Frame>)
    requires Valid(f)
    ensures r.Ok? <==> forall n :: n in names ==> n in f.columns
    ensures r.Err? ==> r.error == MissingColumn
    ensures r.Ok? ==> Valid(r.value) && r.value.index == f.index && r.value.columns == names
    ensures r.Ok? ==> forall n :: n in names ==> r.value.data[n] == f.data[n]
  {
    if forall n :: n in names ==> n in f.columns then
      Ok(Frame(f.index, names, map n | n in names :: f.data[n]))
    else
      Err(MissingColumn)
  }

  /** Two frames that agree on the named columns (same index, same presence, same data)
      give the same selection. */
  lemma SelectReadsOnlyNamed(f: Frame, g: Frame, names: seq<string>)
    requires Valid(f) && Valid(g) && f.index == g.index
    requires forall n :: n in names ==> (n in f.columns <==> n in g.columns)
    requires forall n :: n in names && n in f.columns ==> f.data[n] == g.data[n]
    ensures Select(f, names) == Select(g, names)
  {
    if Select(f, names).Ok? {
      assert Select(f, names).value.data == Select(g, names).value.data;
    }
  }

  /** `f[name] = col`: replaces the column (or appends it when new); values whose
      length differs from the index are refused, as pandas refuses them. */
  function SetColumn(f: Frame, name: string, col: Column): (r: Result<Frame>)
    ensures r.Ok? <==> |col| == |f.index|
    ensures r.Err? ==> r.error == ColumnLengthMismatch
    ensures r.Ok? ==> r.value.index == f.index && r.value.data == f.data[name := col]
    ensures r.Ok? ==> r.value.columns == if name in f.columns then f.columns else f.columns + [name]
    ensures r.Ok? && Valid(f) ==> Valid(r.value)
  {
    if |col| != |f.index| then Err(ColumnLengthMismatch)
    else Ok(Frame(f.index, if name in f.columns then f.columns else f.columns + [name], f.data[name := col]))
  }

  /** `pd.DataFrame({name: vals}, index=index)`. */
  function SingleColumn(name: string, vals: Column, index: seq<Label>): (r: Result<Frame>)
    ensures r.Ok? <==> |vals| == |index|
    ensures r.Err? ==> r.error == ColumnLengthMismatch
    ensures r.Ok? ==> Valid(r.value) && r.value.index == index && r.value.columns == [name]
    ensures r.Ok? ==> r.value.data[name] == vals
  {
    if |vals| != |index| then Err(ColumnLengthMismatch)
    else Ok(Frame(index, [name], map[name := vals]))
  }

  /** Column `names[j]` is not overwritten by a later assignment. */
  predicate LastOccurrence(names: seq<string>, j: int)
    requires 0 <= j < |names|
  {
    forall k :: j < k < |names| ==> names[k] != names[j]
  }

  /** The effect of the column-overwriting loop `for ...: transformed[names[j]] = cols[j]`:
      assigns the columns in order and stops at the first one that failed. */
  function AssignColumns(acc: Frame, names: seq<string>, cols: seq<Result<Column>>): (r: Result<Frame>)
    requires |names| == |cols|
    ensures r.Ok? ==> r.value.index == acc.index
    ensures r.Ok? ==> forall n :: n in acc.data || n in names ==> n in r.value.data
    decreases |names|
  {
    if names == [] then Ok(acc)
    else
      var k := |names| - 1;
      assert forall n :: n in names ==> n in names[..k] || n == names[k];
      match AssignColumns(acc, names[..k], cols[..k])
      case Err(e) => Err(e)
      case Ok(f) =>
        match cols[k]
        case Err(e) => Err(e)
        case Ok(c) => SetColumn(f, names[k], c)
  }

  /** One more iteration of the loop: the assignment of the first i + 1 columns in terms
      of the assignment of the first i. */
  lemma AssignColumnsStep(acc: Frame, names: seq<string>, cols: seq<Result<Column>>, i: nat)
    requires |names| == |cols| && i < |names|
    ensures AssignColumns(acc, names[..i + 1], cols[..i + 1]) ==
      match AssignColumns(acc, names[..i], cols[..i])
      case Err(e) => Err(e)
      case Ok(f) => (match cols[i] case Err(e) => Err(e) case Ok(c) => SetColumn(f, names[i], c))
  {
    assert names[..i + 1][..i] == names[..i];
    assert cols[..i + 1][..i] == cols[..i];
  }

  /** A failure in the first i assignments is the failure of the whole loop. */
  lemma {:induction false} AssignColumnsErrorPropagates(acc: Frame, names: seq<string>, cols: seq<Result<Column>>, i: nat)
    requires |names| == |cols| && i <= |names|
    requires AssignColumns(acc, names[..i], cols[..i]).Err?
    ensures AssignColumns(acc, names, cols) == AssignColumns(acc, names[..i], cols[..i])
    decreases |names| - i
  {
    if i < |names| {
      AssignColumnsStep(acc, names, cols, i);
      AssignColumnsErrorPropagates(acc, names, cols, i + 1);
    } else {
      assert names[..i] == names && cols[..i] == cols;
    }
  }

  /** One iteration of the loop from the partial table `f`: the next prefix is `f` with
      the next column assigned, and an error there is the error of the whole loop. */
  lemma AssignColumnsAdvance(acc: Frame, names: seq<string>, cols: seq<Result<Column>>, i: nat, f: Frame)
    requires |names| == |cols| && i < |names|
    requires AssignColumns(acc, names[..i], cols[..i]) == Ok(f)
    ensures AssignColumns(acc, names[..i + 1], cols[..i + 1]) ==
      match cols[i] case Err(e) => Err(e) case Ok(c) => SetColumn(f, names[i], c)
    ensures AssignColumns(acc, names[..i + 1], cols[..i + 1]).Err? ==>
      AssignColumns(acc, names, cols) == AssignColumns(acc, names[..i + 1], cols[..i + 1])
  {
    AssignColumnsStep(acc, names, cols, i);
    if AssignColumns(acc, names[..i + 1], cols[..i + 1]).Err? {
      AssignColumnsErrorPropagates(acc, names, cols, i + 1);
    }
  }

  /** The loop succeeds exactly when every new column has one value per row (given that
      every name is already a column of `acc`), and then keeps the frame valid, its index
      and its column list. */
  lemma {:induction false} AssignColumnsShape(acc: Frame, names: seq<string>, cols: seq<Result<Column>>)
    requires |names| == |cols| && Valid(acc)
    requires forall n :: n in names ==> n in acc.columns
    ensures AssignColumns(acc, names, cols).Ok? <==>
      forall j :: 0 <= j < |cols| ==> cols[j].Ok? && |cols[j].value| == |acc.index|
    ensures AssignColumns(acc, names, cols).Ok? ==>
      var f := AssignColumns(acc, names, cols).value;
      Valid(f) && f.index == acc.index && f.columns == acc.columns
    decreases |names|
  {
    if names != [] {
      var k := |names| - 1;
      var pn, pc := names[..k], cols[..k];
      assert forall n :: n in pn ==> n in names;
      AssignColumnsShape(acc, pn, pc);
      assert forall j :: 0 <= j < k ==> pc[j] == cols[j];
      assert names[k] in names;
      var prev := AssignColumns(acc, pn, pc);
      assert AssignColumns(acc, names, cols) ==
        match prev
        case Err(e) => Err(e)
        case Ok(f) => (match cols[k] case Err(e) => Err(e) case Ok(c) => SetColumn(f, names[k], c));
    }
  }

  lemma LastOccurrencePrefix(names: seq<string>, j: nat)
    requires j + 1 < |names| && LastOccurrence(names, j)
    ensures LastOccurrence(names[..|names| - 1], j) && names[j] != names[|names| - 1]
  {
  }

  /** A successful loop was successful on every shorter prefix, and its last step
      assigned its last column. */
  lemma AssignColumnsLastStep(acc: Frame, names: seq<string>, cols: seq<Result<Column>>)
    requires |names| == |cols| && names != []
    requires AssignColumns(acc, names, cols).Ok?
    ensures var k := |names| - 1;
      AssignColumns(acc, names[..k], cols[..k]).Ok? && cols[k].Ok? &&
      AssignColumns(acc, names, cols).value.data ==
        AssignColumns(acc, names[..k], cols[..k]).value.data[names[k] := cols[k].value]
  {
  }

  /** A successful loop computed every one of its columns. */
  lemma {:induction false} AssignedAllOk(acc: Frame, names: seq<string>, cols: seq<Result<Column>>, j: nat)
    requires |names| == |cols| && j < |cols|
    requires AssignColumns(acc, names, cols).Ok?
    ensures cols[j].Ok?
    decreases |names|
  {
    var k := |names| - 1;
    AssignColumnsLastStep(acc, names, cols);
    if j < k {
      AssignedAllOk(acc, names[..k], cols[..k], j);
      assert cols[..k][j] == cols[j];
    }
  }

  /** After a successful loop the last column assigned to a name is its value. */
  lemma {:induction false} AssignedAt(acc: Frame, names: seq<string>, cols: seq<Result<Column>>, j: nat)
    requires |names| == |cols| && j < |names| && LastOccurrence(names, j)
    requires AssignColumns(acc, names, cols).Ok?
    ensures cols[j].Ok?
    ensures names[j] in AssignColumns(acc, names, cols).value.data
    ensures AssignColumns(acc, names, cols).value.data[names[j]] == cols[j].value
    decreases |names|
  {
    var k := |names| - 1;
    AssignColumnsLastStep(acc, names, cols);
    if j < k {
      var pn, pc := names[..k], cols[..k];
      LastOccurrencePrefix(names, j);
      AssignedAt(acc, pn, pc, j);
      assert pn[j] == names[j] && pc[j] == cols[j];
    }
  }

  /** After a successful loop every column holds the last value assigned to it. */
  lemma AssignColumnsContents(acc: Frame, names: seq<string>, cols: seq<Result<Column>>)
    requires |names| == |cols|
    requires AssignColumns(acc, names, cols).Ok?
    ensures forall j :: 0 <= j < |cols| ==> cols[j].Ok?
    ensures forall j :: 0 <= j < |names| && LastOccurrence(names, j) ==>
      names[j] in AssignColumns(acc, names, cols).value.data &&
      AssignColumns(acc, names, cols).value.data[names[j]] == cols[j].value
  {
    forall j | 0 <= j < |cols| ensures cols[j].Ok? {
      AssignedAllOk(acc, names, cols, j);
    }
    forall j | 0 <= j < |names| && LastOccurrence(names, j)
      ensures names[j] in AssignColumns(acc, names, cols).value.data &&
        AssignColumns(acc, names, cols).value.data[names[j]] == cols[j].value
    {
      AssignedAt(acc, names, cols, j);
    }
  }

  /** A successful loop leaves the columns it assigns nothing to as they were. */
  lemma {:induction false} AssignColumnsUntouched(acc: Frame, names: seq<string>, cols: seq<Result<Column>>, n: string)
    requires |names| == |cols|
    requires AssignColumns(acc, names, cols).Ok?
    requires n in acc.data && n !in names
    ensures n in AssignColumns(acc, names, cols).value.data
    ensures AssignColumns(acc, names, cols).value.data[n] == acc.data[n]
    decreases |names|
  {
    if names != [] {
      var k := |names| - 1;
      AssignColumnsLastStep(acc, names, cols);
      assert n !in names[..k];
      AssignColumnsUntouched(acc, names[..k], cols[..k], n);
    }
  }

  /** A failed loop failed on a column that raised, or on a column of the wrong length. */
  lemma {:induction false} AssignColumnsErrors(acc: Frame, names: seq<string>, cols: seq<Result<Column>>)
    requires |names| == |cols| && AssignColumns(acc, names, cols).Err?
    ensures var e := AssignColumns(acc, names, cols).error;
      e == ColumnLengthMismatch || exists j :: 0 <= j < |cols| && cols[j] == Err(e)
    decreases |names|
  {
    var k := |names| - 1;
    if AssignColumns(acc, names[..k], cols[..k]).Err? {
      AssignColumnsErrors(acc, names[..k], cols[..k]);
      var e := AssignColumns(acc, names, cols).error;
      if e != ColumnLengthMismatch {
        var j :| 0 <= j < k && cols[..k][j] == Err(e);
        assert cols[j] == Err(e);
      }
    }
  }

  /** No name occurs twice. */
  predicate Distinct(names: seq<string>) {
    forall j, k :: 0 <= j < k < |names| ==> names[j] != names[k]
  }

  /** Row i across a list of computed columns (0 where a column is missing or short). */
  function RowOf(cols: seq<Result<Column>>, i: nat): (r: seq<real>)
    ensures |r| == |cols|
  {
    seq(|cols|, j requires 0 <= j < |cols| => if cols[j].Ok? && i < |cols[j].value| then cols[j].value[i] else 0.0)
  }

  /** With distinct names, the rows of the assigned frame are the rows of the assigned columns. */
  lemma AssignedRows(acc: Frame, names: seq<string>, cols: seq<Result<Column>>)
    requires |names| == |cols| && Valid(acc) && Distinct(names) && acc.columns == names
    requires AssignColumns(acc, names, cols).Ok?
    ensures Valid(AssignColumns(acc, names, cols).value)
    ensures AssignColumns(acc, names, cols).value.index == acc.index
    ensures forall i :: 0 <= i < |acc.index| ==>
      Values(AssignColumns(acc, names, cols).value).rows[i] == RowOf(cols, i)
  {
    AssignColumnsShape(acc, names, cols);
    AssignColumnsContents(acc, names, cols);
    var f := AssignColumns(acc, names, cols).value;
    forall i | 0 <= i < |acc.index| ensures Values(f).rows[i] == RowOf(cols, i) {
      forall j | 0 <= j < |names| ensures Values(f).rows[i][j] == RowOf(cols, i)[j] {
        assert LastOccurrence(names, j);
      }
    }
  }

  /** The matrix whose rows are the rows of a list of computed columns. */
  function ColumnsMatrix(cols: seq<Result<Column>>, n: nat): (m: Matrix)
    ensures Rectangular(m) && m.width == |cols| && |m.rows| == n
  {
    Matrix(|cols|, seq(n, i requires 0 <= i < n => RowOf(cols, i)))
  }

  /** With distinct names, `.values` of the filled table is the matrix of the assigned
      columns. */
  lemma AssignedValues(acc: Frame, names: seq<string>, cols: seq<Result<Column>>)
    requires |names| == |cols| && Valid(acc) && Distinct(names) && acc.columns == names
    requires AssignColumns(acc, names, cols).Ok?
    ensures Valid(AssignColumns(acc, names, cols).value)
    ensures Values(AssignColumns(acc, names, cols).value) == ColumnsMatrix(cols, |acc.index|)
  {
    AssignColumnsShape(acc, names, cols);
    AssignedRows(acc, names, cols);
    var m, c := Values(AssignColumns(acc, names, cols).value), ColumnsMatrix(cols, |acc.index|);
    assert m.rows == c.rows;
  }

  /** `frame.values`: the rows of the frame, each listing the columns in column order. */
  datatype Matrix = Matrix(width: nat, rows: seq<seq<real>>)

  predicate Rectangular(m: Matrix) {
    forall i :: 0 <= i < |m.rows| ==> |m.rows[i]| == m.width
  }

  function Values(f: Frame): (m: Matrix)
    requires Valid(f)
    ensures Rectangular(m) && m.width == |f.columns| && |m.rows| == |f.index|
    ensures forall i, j :: 0 <= i < |f.index| && 0 <= j < |f.columns| ==> m.rows[i][j] == f.data[f.columns[j]][i]
  {
    Matrix(|f.columns|, seq(|f.index|, i requires 0 <= i < |f.index| =>
      seq(|f.columns|, j requires 0 <= j < |f.columns| => f.data[f.columns[j]][i])))
  }

  function Sum(s: seq<real>): real {
    if s == [] then 0.0 else s[0] + Sum(s[1..])
  }

  /** `sum(w_i * x_i)`. */
  function Dot(w: seq<real>, x: seq<real>): real
    requires |w| == |x|
  {
    if w == [] then 0.0 else w[0] * x[0] + Dot(w[1..], x[1..])
  }

  function Scaled(w: seq<real>, k: real): (r: seq<real>)
    ensures |r| == |w| && forall i :: 0 <= i < |w| ==> r[i] == w[i] * k
  {
    seq(|w|, i requires 0 <= i < |w| => w[i] * k)
  }

  lemma ScaledTail(w: seq<real>, k: real)
    requires w != []
    ensures Scaled(w, k)[0] == w[0] * k && Scaled(w, k)[1..] == Scaled(w[1..], k)
  {
    assert forall i :: 0 <= i < |w| - 1 ==> Scaled(w, k)[1..][i] == Scaled(w[1..], k)[i];
  }

  lemma {:induction false} SumScaled(w: seq<real>, k: real)
    ensures Sum(Scaled(w, k)) == Sum(w) * k
  {
    if w != [] {
      ScaledTail(w, k);
      SumScaled(w[1..], k);
    }
  }

  /** Scaling by c / Sum(w) makes each entry c * w[i] / Sum(w), and the entries sum to c. */
  lemma ScaledToSum(w: seq<real>, c: real)
    requires Sum(w) != 0.0
    ensures forall i :: 0 <= i < |w| ==> Scaled(w, c / Sum(w))[i] == c * w[i] / Sum(w)
    ensures Sum(Scaled(w, c / Sum(w))) == c
  {
    var s := Sum(w);
    SumScaled(w, c / s);
    MulDivide(s, c, s);
    ScaledEntries(w, c, s);
  }

  lemma ScaledEntries(w: seq<real>, c: real, s: real)
    requires s != 0.0
    ensures forall i :: 0 <= i < |w| ==> Scaled(w, c / s)[i] == c * w[i] / s
  {
    forall i | 0 <= i < |w| ensures Scaled(w, c / s)[i] == c * w[i] / s {
      MulDivide(w[i], c, s);
    }
  }

  lemma MulDivide(a: real, c: real, s: real)
    requires s != 0.0
    ensures a * (c / s) == c * a / s
  {
  }

  /** Scaling keeps the ratio between any two entries. */
  lemma ScaledRatios(w: seq<real>, k: real)
    ensures forall i, j :: 0 <= i < |w| && 0 <= j < |w| ==> Scaled(w, k)[i] * w[j] == Scaled(w, k)[j] * w[i]
  {
    forall i, j | 0 <= i < |w| && 0 <= j < |w|
      ensures Scaled(w, k)[i] * w[j] == Scaled(w, k)[j] * w[i]
    {
      calc {
        Scaled(w, k)[i] * w[j];
        (w[i] * k) * w[j];
        (w[j] * k) * w[i];
        Scaled(w, k)[j] * w[i];
      }
    }
  }

  lemma {:induction false} SumConstant(s: seq<real>, c: real)
    requires forall i :: 0 <= i < |s| ==> s[i] == c
    ensures Sum(s) == |s| as real * c
  {
    if s != [] {
      SumConstant(s[1..], c);
    }
  }

  lemma {:induction false} SumPositive(s: seq<real>)
    requires |s| > 0 && forall i :: 0 <= i < |s| ==> s[i] > 0.0
    ensures Sum(s) > 0.0
  {
    if |s| > 1 {
      SumPositive(s[1..]);
    }
  }

  lemma {:induction false} DotScaledWeights(w: seq<real>, x: seq<real>, k: real)
    requires |w| == |x|
    ensures Dot(Scaled(w, k), x) == k * Dot(w, x)
  {
    if w != [] {
      ScaledTail(w, k);
      DotScaledWeights(w[1..], x[1..], k);
    }
  }

  lemma {:induction false} DotConstantWeights(w: seq<real>, x: seq<real>, c: real)
    requires |w| == |x| && forall i :: 0 <= i < |w| ==> w[i] == c
    ensures Dot(w, x) == c * Sum(x)
  {
    if w != [] {
      DotConstantWeights(w[1..], x[1..], c);
    }
  }

  /** With non-negative weights, a weighted sum of values in [lo, hi] lies between
      lo and hi times the weight sum. */
  lemma DotBounds(w: seq<real>, x: seq<real>, lo: real, hi: real)
    requires |w| == |x|
    requires forall i :: 0 <= i < |w| ==> w[i] >= 0.0
    requires forall i :: 0 <= i < |x| ==> lo <= x[i] <= hi
    ensures lo * Sum(w) <= Dot(w, x) <= hi * Sum(w)
  {
    DotLower(w, x, lo);
    DotUpper(w, x, hi);
  }

  lemma {:induction false} DotLower(w: seq<real>, x: seq<real>, lo: real)
    requires |w| == |x|
    requires forall i :: 0 <= i < |w| ==> w[i] >= 0.0
    requires forall i :: 0 <= i < |x| ==> lo <= x[i]
    ensures lo * Sum(w) <= Dot(w, x)
  {
    if w != [] {
      DotLower(w[1..], x[1..], lo);
      var a, s := w[0], Sum(w[1..]);
      ProductLower(a, x[0], lo);
      Distribute(lo, a, s);
    }
  }

  lemma {:induction false} DotUpper(w: seq<real>, x: seq<real>, hi: real)
    requires |w| == |x|
    requires forall i :: 0 <= i < |w| ==> w[i] >= 0.0
    requires forall i :: 0 <= i < |x| ==> x[i] <= hi
    ensures Dot(w, x) <= hi * Sum(w)
  {
    if w != [] {
      DotUpper(w[1..], x[1..], hi);
      var a, s := w[0], Sum(w[1..]);
      ProductUpper(a, x[0], hi);
      Distribute(hi, a, s);
    }
  }

  lemma ProductLower(a: real, x: real, lo: real)
    requires a >= 0.0 && lo <= x
    ensures lo * a <= a * x
  {
    assert a * (x - lo) >= 0.0;
  }

  lemma ProductUpper(a: real, x: real, hi: real)
    requires a >= 0.0 && x <= hi
    ensures a * x <= hi * a
  {
    assert a * (hi - x) >= 0.0;
  }

  lemma Distribute(k: real, a: real, b: real)
    ensures k * (a + b) == k * a + k * b
  {
  }

  /** `np.average(m, axis=1, weights=w)`: one value per row, `sum(w_i * x_i) / sum(w_i)`.
      numpy raises when the weights do not match the row width or sum to zero. */
  function Average(m: Matrix, w: seq<real>): (r: Result<Column>)
    requires Rectangular(m)
    ensures r.Ok? <==> |w| == m.width && Sum(w) != 0.0
    ensures r.Err? ==> r.error == if |w| != m.width then WeightShapeMismatch else ZeroWeightSum
    ensures r.Ok? ==> |r.value| == |m.rows|
    ensures r.Ok? ==> forall i :: 0 <= i < |m.rows| ==> r.value[i] == Dot(w, m.rows[i]) / Sum(w)
  {
    if |w| != m.width then Err(WeightShapeMismatch)
    else if Sum(w) == 0.0 then Err(ZeroWeightSum)
    else Ok(seq(|m.rows|, i requires 0 <= i < |m.rows| => Dot(w, m.rows[i]) / Sum(w)))
  }

  lemma DivideScaled(d1: real, s1: real, d: real, s: real, k: real)
    requires s != 0.0 && k != 0.0 && d1 == k * d && s1 == s * k
    ensures d1 / s1 == d / s
  {
    assert d1 == (d / s) * s1;
  }

  /** Rescaling every weight by the same non-zero factor leaves the average unchanged. */
  lemma AverageScaleInvariant(m: Matrix, w: seq<real>, k: real)
    requires Rectangular(m) && k != 0.0
    ensures Average(m, Scaled(w, k)) == Average(m, w)
  {
    SumScaled(w, k);
    if |w| == m.width && Sum(w) != 0.0 {
      var a, b := Average(m, Scaled(w, k)).value, Average(m, w).value;
      forall i | 0 <= i < |m.rows| ensures a[i] == b[i] {
        DotScaledWeights(w, m.rows[i], k);
        DivideScaled(Dot(Scaled(w, k), m.rows[i]), Sum(Scaled(w, k)), Dot(w, m.rows[i]), Sum(w), k);
      }
      assert a == b;
    }
  }

  /** With equal non-zero weights the weighted average is the plain mean of the row. */
  lemma AverageUniform(m: Matrix, w: seq<real>, c: real)
    requires Rectangular(m) && |w| == m.width > 0 && c != 0.0
    requires forall i :: 0 <= i < |w| ==> w[i] == c
    ensures Average(m, w).Ok?
    ensures forall i :: 0 <= i < |m.rows| ==> Average(m, w).value[i] == Sum(m.rows[i]) / m.width as real
  {
    SumConstant(w, c);
    var n := m.width as real;
    NonZeroProduct(n, c);
    var a := Average(m, w).value;
    forall i | 0 <= i < |m.rows| ensures a[i] == Sum(m.rows[i]) / n {
      DotConstantWeights(w, m.rows[i], c);
      UniformQuotient(Dot(w, m.rows[i]), Sum(w), Sum(m.rows[i]), c, n);
    }
  }

  lemma NonZeroProduct(n: real, c: real)
    requires n > 0.0 && c != 0.0
    ensures n * c != 0.0
  {
  }

  lemma UniformQuotient(d: real, s: real, x: real, c: real, n: real)
    requires n > 0.0 && c != 0.0 && d == c * x && s == n * c
    ensures d / s == x / n
  {
    assert d == (x / n) * s;
  }

  /** With positive weights the average of each row lies between the row's bounds. */
  lemma AverageWithinBounds(m: Matrix, w: seq<real>, lo: real, hi: real)
    requires Rectangular(m) && |w| == m.width > 0
    requires forall j :: 0 <= j < |w| ==> w[j] > 0.0
    requires forall i, j :: 0 <= i < |m.rows| && 0 <= j < m.width ==> lo <= m.rows[i][j] <= hi
    ensures Average(m, w).Ok?
    ensures forall i :: 0 <= i < |m.rows| ==> lo <= Average(m, w).value[i] <= hi
  {
    SumPositive(w);
    forall i | 0 <= i < |m.rows| ensures lo <= Average(m, w).value[i] <= hi {
      DotBounds(w, m.rows[i], lo, hi);
      QuotientBetween(Dot(w, m.rows[i]), Sum(w), lo, hi);
    }
  }

  lemma QuotientBetween(d: real, s: real, lo: real, hi: real)
    requires s > 0.0 && lo * s <= d <= hi * s
    ensures lo <= d / s <= hi
  {
    var q := d / s;
    assert q * s == d;
    assert (q - lo) * s >= 0.0 && (hi - q) * s >= 0.0;
  }
}
