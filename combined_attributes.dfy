/** The custom transformer `CombinedAttributesAdder`: it appends ratio
    columns (rooms per household, population per household and, when
    configured, bedrooms per room) to a numeric matrix whose columns
    3, 4, 5 and 6 hold total rooms, total bedrooms, population and
    households.

    Cells have any type `T`; the division of two cells is a parameter, so
    the model states which cells feed which new column and leaves the
    quotient to whoever supplies `divide`. That division is total: it can
    give a float array's infinities and NaNs on a zero denominator, but it
    cannot raise as Python's `/` does on an object array. */
module CombinedAttributes {

  const RoomsIx: nat := 3
  const BedroomIx: nat := 4
  const PopulationIx: nat := 5
  const HouseholdsIx: nat := 6

  /** A two-dimensional array: `width` columns, every row that wide. The
      width is kept apart from the rows so that an array without rows
      still has one, as in NumPy. */
  datatype Matrix<T> = Matrix(width: nat, rows: seq<seq<T>>) {
    ghost predicate Valid() {
      forall i :: 0 <= i < |rows| ==> |rows[i]| == width
    }
  }

  /** What `transform` gives back: the new array, or NumPy's `IndexError`
      for the first column index it could not read. */
  datatype Outcome<T> = Ok(value: Matrix<T>) | IndexError(index: nat, width: nat)

  /** `X[:, j]`. */
  function Column<T>(X: Matrix<T>, j: nat): (column: seq<T>)
    requires X.Valid() && j < X.width
    ensures |column| == |X.rows|
    ensures forall i :: 0 <= i < |X.rows| ==> column[i] == X.rows[i][j]
  {
    seq(|X.rows|, i requires 0 <= i < |X.rows| => X.rows[i][j])
  }

  /** Element-wise `numerators / denominators`. */
  function Ratio<T>(numerators: seq<T>, denominators: seq<T>, divide: (T, T) -> T): (quotients: seq<T>)
    requires |numerators| == |denominators|
    ensures |quotients| == |numerators|
    ensures forall i :: 0 <= i < |numerators| ==> quotients[i] == divide(numerators[i], denominators[i])
  {
    seq(|numerators|, i requires 0 <= i < |numerators| => divide(numerators[i], denominators[i]))
  }

  /** `np.c_[X, c1, c2, ...]`: the columns appended to the right of `X`, in
      the order given. */
  function AppendColumns<T>(X: Matrix<T>, columns: seq<seq<T>>): (r: Matrix<T>)
    requires X.Valid()
    requires forall c :: 0 <= c < |columns| ==> |columns[c]| == |X.rows|
    ensures r.Valid() && r.width == X.width + |columns| && |r.rows| == |X.rows|
    ensures forall i :: 0 <= i < |X.rows| ==> r.rows[i][..X.width] == X.rows[i]
    ensures forall i, c :: 0 <= i < |X.rows| && 0 <= c < |columns| ==> r.rows[i][X.width + c] == columns[c][i]
  {
    Matrix(X.width + |columns|,
           seq(|X.rows|, i requires 0 <= i < |X.rows| =>
             X.rows[i] + seq(|columns|, c requires 0 <= c < |columns| => columns[c][i])))
  }

  /** The first `k` columns of `X`. */
  function Prefix<T>(X: Matrix<T>, k: nat): (r: Matrix<T>)
    requires X.Valid() && k <= X.width
  {
    Matrix(k, seq(|X.rows|, i requires 0 <= i < |X.rows| => X.rows[i][..k]))
  }

  datatype CombinedAttributesAdder = CombinedAttributesAdder(addBedroomsPerRoom: bool := true) {

    /** `fit(X, y=None)`: there is nothing to learn, and the transformer
        itself is returned. */
    function Fit<T>(X: Matrix<T>): (fitted: CombinedAttributesAdder)
      ensures fitted == this
    {
      this
    }

    /** How many columns `transform` appends. */
    function Added(): nat {
      if addBedroomsPerRoom then 3 else 2
    }

    /** `transform(X)`. Line 220 reads column 3 before column 6, so a
        matrix of at most 3 columns fails on index 3 and one of 4 to 6
        columns on index 6. */
    function Transform<T>(X: Matrix<T>, divide: (T, T) -> T): (r: Outcome<T>)
      requires X.Valid()
      ensures r.Ok? <==> X.width > HouseholdsIx
      ensures r.IndexError? ==> r.width == X.width && r.index == if X.width <= RoomsIx then RoomsIx else HouseholdsIx
      ensures r.Ok? ==> r.value.Valid()
      ensures r.Ok? ==> |r.value.rows| == |X.rows| && r.value.width == X.width + Added()
      ensures r.Ok? ==> forall i :: 0 <= i < |X.rows| ==> r.value.rows[i][..X.width] == X.rows[i]
    {
      if X.width <= RoomsIx then IndexError(RoomsIx, X.width)
      else if X.width <= HouseholdsIx then IndexError(HouseholdsIx, X.width)
      else
        var roomsPerHousehold := Ratio(Column(X, RoomsIx), Column(X, HouseholdsIx), divide);
        var populationPerHousehold := Ratio(Column(X, PopulationIx), Column(X, HouseholdsIx), divide);
        if addBedroomsPerRoom then
          var bedroomsPerRoom := Ratio(Column(X, BedroomIx), Column(X, RoomsIx), divide);
          Ok(AppendColumns(X, [roomsPerHousehold, populationPerHousehold, bedroomsPerRoom]))
        else
          Ok(AppendColumns(X, [roomsPerHousehold, populationPerHousehold]))
    }
  }

  /** Which cells feed each new column: in every row, rooms / households,
      then population / households, then (when configured) bedrooms /
      rooms. */
  lemma TransformDerivedColumns<T>(adder: CombinedAttributesAdder, X: Matrix<T>, divide: (T, T) -> T)
    requires X.Valid() && X.width > HouseholdsIx
    ensures var r := adder.Transform(X, divide);
      && r.Ok?
      && forall i :: 0 <= i < |X.rows| ==>
           var row, out := X.rows[i], r.value.rows[i];
           && out[X.width] == divide(row[RoomsIx], row[HouseholdsIx])
           && out[X.width + 1] == divide(row[PopulationIx], row[HouseholdsIx])
           && (adder.addBedroomsPerRoom ==> out[X.width + 2] == divide(row[BedroomIx], row[RoomsIx]))
  {
  }

  /** Dropping the appended columns gives the input back. */
  lemma TransformThenPrefix<T>(adder: CombinedAttributesAdder, X: Matrix<T>, divide: (T, T) -> T)
    requires X.Valid() && X.width > HouseholdsIx
    ensures adder.Transform(X, divide).Ok?
    ensures Prefix(adder.Transform(X, divide).value, X.width) == X
  {
    var out := adder.Transform(X, divide).value;
    assert Prefix(out, X.width).rows == X.rows;
  }

  /** Without `bedrooms_per_room` the result is the full result less its
      last column. */
  lemma WithoutBedroomsIsPrefix<T>(X: Matrix<T>, divide: (T, T) -> T)
    requires X.Valid() && X.width > HouseholdsIx
    ensures var full := CombinedAttributesAdder(true).Transform(X, divide);
      var short := CombinedAttributesAdder(false).Transform(X, divide);
      && full.Ok? && short.Ok?
      && Prefix(full.value, X.width + 2) == short.value
  {
    var full := CombinedAttributesAdder(true).Transform(X, divide).value;
    var short := CombinedAttributesAdder(false).Transform(X, divide).value;
    forall i | 0 <= i < |X.rows|
      ensures full.rows[i][..X.width + 2] == short.rows[i]
    {
      TransformDerivedColumns(CombinedAttributesAdder(true), X, divide);
      TransformDerivedColumns(CombinedAttributesAdder(false), X, divide);
      assert full.rows[i][..X.width] == short.rows[i][..X.width];
    }
  }

  /** Fitting changes nothing: the default keeps `add_bedrooms_per_room`
      on, and transforming with a fitted adder is transforming with the
      adder. */
  lemma FitThenTransform<T>(adder: CombinedAttributesAdder, trainX: Matrix<T>, X: Matrix<T>, divide: (T, T) -> T)
    requires X.Valid()
    ensures CombinedAttributesAdder().addBedroomsPerRoom
    ensures adder.Fit(trainX).addBedroomsPerRoom == adder.addBedroomsPerRoom
    ensures adder.Fit(trainX).Transform(X, divide) == adder.Transform(X, divide)
  {
  }

  /** Over the reals, with a division that is exact wherever the
      denominator is not zero: each new cell whose denominator is not zero,
      times that denominator, is its numerator. */
  lemma RealRatios(adder: CombinedAttributesAdder, X: Matrix<real>, divide: (real, real) -> real)
    requires X.Valid() && X.width > HouseholdsIx
    requires forall a, b :: b != 0.0 ==> divide(a, b) == a / b
    ensures var r := adder.Transform(X, divide);
      && r.Ok?
      && forall i :: 0 <= i < |X.rows| ==>
           var row, out := X.rows[i], r.value.rows[i];
           && (row[HouseholdsIx] != 0.0 ==> out[X.width] * row[HouseholdsIx] == row[RoomsIx])
           && (row[HouseholdsIx] != 0.0 ==> out[X.width + 1] * row[HouseholdsIx] == row[PopulationIx])
           && (adder.addBedroomsPerRoom && row[RoomsIx] != 0.0 ==> out[X.width + 2] * row[RoomsIx] == row[BedroomIx])
  {
    TransformDerivedColumns(adder, X, divide);
  }
}
