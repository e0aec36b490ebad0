/** perform_feature_engineering: encode the five categorical columns, keep
    the 19 feature columns in their declared order, take Churn as the label
    vector and split the rows into a training and a test part. */
module Features {
  import opened Table
  import opened Labels
  import opened Encoder

  const CatColumns: seq<string> := [
    "Gender",
    "Education_Level",
    "Marital_Status",
    "Income_Category",
    "Card_Category"]

  const KeepCols: seq<string> := [
    "Customer_Age",
    "Dependent_count",
    "Months_on_book",
    "Total_Relationship_Count",
    "Months_Inactive_12_mon",
    "Contacts_Count_12_mon",
    "Credit_Limit",
    "Total_Revolving_Bal",
    "Avg_Open_To_Buy",
    "Total_Amt_Chng_Q4_Q1",
    "Total_Trans_Amt",
    "Total_Trans_Ct",
    "Total_Ct_Chng_Q4_Q1",
    "Avg_Utilization_Ratio",
    "Gender_Churn",
    "Education_Level_Churn",
    "Marital_Status_Churn",
    "Income_Category_Churn",
    "Card_Category_Churn"]

  /** The first 14 kept columns, copied from the input unchanged. */
  const RawColumns: seq<string> := KeepCols[..14]

  /** A feature matrix: its column names and one row of cells per input row. */
  datatype Matrix = Matrix(columns: seq<string>, rows: seq<seq<Value>>)

  /** The split train_test_split draws: a permutation of the row positions
      whose first nTest entries are the test rows and the rest the training
      rows. */
  datatype Shuffle = Shuffle(order: seq<nat>, nTest: nat)

  ghost predicate ValidShuffle(s: Shuffle, n: nat)
  {
    && |s.order| == n
    && multiset(s.order) == multiset(Range(n))
    && s.nTest <= n
  }

  lemma ShuffleBounds(s: Shuffle, n: nat)
    requires ValidShuffle(s, n)
    ensures forall k | 0 <= k < |s.order| :: s.order[k] < n
  {
    forall k | 0 <= k < |s.order| ensures s.order[k] < n {
      assert s.order[k] in multiset(Range(n));
    }
  }

  /** The four results of perform_feature_engineering together with the row
      positions each part was taken from. */
  datatype SplitData = SplitData(
    xTrain: Matrix, xTest: Matrix,
    yTrain: seq<Value>, yTest: seq<Value>,
    trainRows: seq<nat>, testRows: seq<nat>)

  /** The first of the columns that the cells lack, if any. */
  function FirstMissing(cells: map<string, seq<Value>>, cols: seq<string>): (r: Option<string>)
    ensures r.None? <==> forall c | c in cols :: c in cells
    ensures r.Some? ==> r.value in cols && r.value !in cells
  {
    if cols == [] then None
    else if cols[0] !in cells then Some(cols[0])
    else FirstMissing(cells, cols[1..])
  }

  /** `frame[cols]`: KeyError on an absent column, otherwise every row
      restricted to cols, in the order of cols. */
  function Project(f: Frame, cols: seq<string>): (r: Result<Matrix, Error>)
    requires WellFormed(f)
    ensures r.Success? <==> forall c | c in cols :: c in f.cells
    ensures r.Failure? ==> r.error.name in cols && r.error.name !in f.cells
    ensures r.Success? ==> r.value.columns == cols && |r.value.rows| == f.height
    ensures r.Success? ==> forall i | 0 <= i < f.height ::
      |r.value.rows[i]| == |cols| &&
      forall j | 0 <= j < |cols| :: r.value.rows[i][j] == f.cells[cols[j]][i]
  {
    match FirstMissing(f.cells, cols)
    case Some(c) => Failure(MissingColumn(c))
    case None =>
      Success(Matrix(cols, seq(f.height, i requires 0 <= i < f.height =>
        seq(|cols|, j requires 0 <= j < |cols| => f.cells[cols[j]][i]))))
  }

  /** train_test_split(x, y): both are cut along the same row positions. */
  function SplitRows(x: Matrix, y: seq<Value>, s: Shuffle): (r: SplitData)
    requires |x.rows| == |y| && ValidShuffle(s, |y|)
    ensures r.xTrain.columns == x.columns && r.xTest.columns == x.columns
    ensures |r.xTest.rows| == |r.yTest| == |r.testRows| == s.nTest
    ensures |r.xTrain.rows| == |r.yTrain| == |r.trainRows| == |y| - s.nTest
  {
    var test := s.order[..s.nTest];
    var train := s.order[s.nTest..];
    ShuffleBounds(s, |y|);
    SplitData(
      Matrix(x.columns, Pick(x.rows, train)), Matrix(x.columns, Pick(x.rows, test)),
      Pick(y, train), Pick(y, test),
      train, test)
  }

  /** The feature rows, labels and positions of one part line up with the
      rows of the whole they were taken from. */
  ghost predicate Aligned(part: Matrix, labels: seq<Value>, rows: seq<nat>, x: Matrix, y: seq<Value>)
  {
    && part.columns == x.columns
    && |part.rows| == |labels| == |rows|
    && forall k | 0 <= k < |rows| ::
         rows[k] < |x.rows| && rows[k] < |y| &&
         part.rows[k] == x.rows[rows[k]] && labels[k] == y[rows[k]]
  }

  /** Each row's features and label land in the same part at the same
      place, and the parts keep the column names. */
  lemma SplitRowsAligned(x: Matrix, y: seq<Value>, s: Shuffle)
    requires |x.rows| == |y| && ValidShuffle(s, |y|)
    ensures Aligned(SplitRows(x, y, s).xTrain, SplitRows(x, y, s).yTrain, SplitRows(x, y, s).trainRows, x, y)
    ensures Aligned(SplitRows(x, y, s).xTest, SplitRows(x, y, s).yTest, SplitRows(x, y, s).testRows, x, y)
  {
    ShuffleBounds(s, |y|);
  }

  /** The split is a partition: every row position lands in exactly one
      part, and nothing is dropped or duplicated. */
  lemma SplitRowsPartition(x: Matrix, y: seq<Value>, s: Shuffle)
    requires |x.rows| == |y| && ValidShuffle(s, |y|)
    ensures |SplitRows(x, y, s).trainRows| + |SplitRows(x, y, s).testRows| == |y|
    ensures forall r: nat | r < |y| ::
      multiset(SplitRows(x, y, s).trainRows)[r] + multiset(SplitRows(x, y, s).testRows)[r] == 1
    ensures forall r: nat | r < |y| ::
      (r in SplitRows(x, y, s).trainRows) != (r in SplitRows(x, y, s).testRows)
  {
    var train: seq<nat> := SplitRows(x, y, s).trainRows;
    var test: seq<nat> := SplitRows(x, y, s).testRows;
    assert s.order == test + train;
    assert multiset(s.order) == multiset(test) + multiset(train);
    forall r: nat | r < |y|
      ensures multiset(train)[r] + multiset(test)[r] == 1
      ensures (r in train) != (r in test)
    {
      RangeCounts(|y|, r);
      assert (r in train) == (multiset(train)[r] > 0);
      assert (r in test) == (multiset(test)[r] > 0);
    }
  }

  /** The columns perform_feature_engineering reads: a Churn column, what
      the encoder needs for the five categorical columns, and the 14 raw
      columns. */
  ghost predicate HasRequiredColumns(f: Frame)
  {
    && Churn in f.cells
    && CanEncode(f, CatColumns)
    && (forall c | c in RawColumns :: c in f.cells)
  }

  const EncodedColumns: seq<string> := [
    "Gender_Churn", "Education_Level_Churn", "Marital_Status_Churn",
    "Income_Category_Churn", "Card_Category_Churn"]

  lemma DerivedCatName(k: nat)
    requires k < 5
    ensures Derived(CatColumns[k]) == EncodedColumns[k]
  {
    if k == 0 {
      assert Derived(CatColumns[0]) == "Gender_Churn";
    } else if k == 1 {
      assert Derived(CatColumns[1]) == "Education_Level_Churn";
    } else if k == 2 {
      assert Derived(CatColumns[2]) == "Marital_Status_Churn";
    } else if k == 3 {
      assert Derived(CatColumns[3]) == "Income_Category_Churn";
    } else {
      assert Derived(CatColumns[4]) == "Card_Category_Churn";
    }
  }

  lemma DerivedCatNames()
    ensures DerivedNames(CatColumns) == EncodedColumns
  {
    forall k | 0 <= k < 5 ensures DerivedNames(CatColumns)[k] == EncodedColumns[k] {
      DerivedCatName(k);
    }
  }

  /** The kept columns: the 14 raw ones, then the encoded column of each
      categorical column in its order, 19 in all. */
  lemma KeepColsLayout()
    ensures |KeepCols| == 19 && |RawColumns| == 14
    ensures KeepCols == RawColumns + DerivedNames(CatColumns)
  {
    DerivedCatNames();
    assert KeepCols[14..] == EncodedColumns;
    assert KeepCols == KeepCols[..14] + KeepCols[14..];
  }

  /** The encoder never reads a column it writes, and Churn is not among
      the categorical columns. */
  lemma CatColumnsSeparate()
    ensures NoDerivedCategory(CatColumns) && Churn !in CatColumns
  {
  }

  /** No raw column is the encoded column of a categorical one. */
  lemma RawColumnsNotDerived()
    ensures forall c | c in RawColumns :: c !in DerivedNames(CatColumns)
  {
    KeepColsLayout();
  }

  /** perform_feature_engineering(frame): the frame it leaves behind (the
      encoder writes into the caller's frame) and its result. The label
      vector is taken before encoding, the features after it. */
  function FeatureEngineering(f: Frame, s: Shuffle): (r: (Frame, Result<SplitData, Error>))
    requires WellFormed(f) && ValidShuffle(s, f.height)
    ensures Extends(f, r.0, DerivedNames(CatColumns))
    ensures r.1.Success? ==> r.1.value.xTrain.columns == KeepCols && r.1.value.xTest.columns == KeepCols
    ensures r.1.Success? ==> |r.1.value.yTrain| + |r.1.value.yTest| == f.height
  {
    if Churn !in f.cells then (f, Failure(MissingColumn(Churn)))
    else
      var y := f.cells[Churn];
      var (g, err) := EncodeAll(f, CatColumns);
      if err.Some? then (g, Failure(err.value))
      else match Project(g, KeepCols)
        case Failure(e) => (g, Failure(e))
        case Success(x) => (g, Success(SplitRows(x, y, s)))
  }

  /** After a successful encoding, every encoded column is present and a
      column the encoder does not write is present and unchanged exactly
      when it was before. */
  lemma EncodedColumnsPresent(f: Frame, categories: seq<string>, raw: seq<string>)
    requires WellFormed(f) && NoDerivedCategory(categories) && CanEncode(f, categories)
    requires forall c | c in raw :: c !in DerivedNames(categories)
    ensures var g := EncodeAll(f, categories).0;
      && (forall c | c in DerivedNames(categories) :: c in g.cells)
      && (forall c | c in raw :: (c in g.cells) == (c in f.cells))
      && (forall c | c in raw && c in f.cells :: g.cells[c] == f.cells[c])
  {
    EncodeAllRates(f, categories);
    var g := EncodeAll(f, categories).0;
    forall c | c in DerivedNames(categories) ensures c in g.cells {
      var k :| 0 <= k < |categories| && DerivedNames(categories)[k] == c;
    }
  }

  /** What perform_feature_engineering should put in feature j of row i, stated on the
      frame before encoding: the cell of a raw column, or the mean Churn of
      the rows that share row i's value of a categorical column. */
  ghost function ReferenceFeature(f: Frame, categories: seq<string>, raw: seq<string>, i: nat, j: nat): Value
    requires WellFormed(f) && CanEncode(f, categories) && categories != []
    requires forall c | c in raw :: c in f.cells
    requires i < f.height && j < |raw| + |categories|
  {
    if j < |raw| then f.cells[raw[j]][i]
    else
      var keys := f.cells[categories[j - |raw|]];
      Num(GroupMean(keys, Numbers(f.cells[Churn]), keys[i]))
  }

  /** The reference feature matrix: the raw columns, then the encoded
      column of each category, row by row. */
  ghost function ReferenceMatrix(f: Frame, categories: seq<string>, raw: seq<string>): Matrix
    requires WellFormed(f) && CanEncode(f, categories) && categories != []
    requires forall c | c in raw :: c in f.cells
  {
    Matrix(raw + DerivedNames(categories), seq(f.height, i requires 0 <= i < f.height =>
      seq(|raw| + |categories|, j requires 0 <= j < |raw| + |categories| =>
        ReferenceFeature(f, categories, raw, i, j))))
  }

  lemma ProjectedRawCell(f: Frame, categories: seq<string>, raw: seq<string>, i: nat, j: nat)
    requires WellFormed(f) && NoDerivedCategory(categories) && CanEncode(f, categories) && categories != []
    requires forall c | c in raw :: c in f.cells && c !in DerivedNames(categories)
    requires i < f.height && j < |raw|
    ensures var r := Project(EncodeAll(f, categories).0, raw + DerivedNames(categories));
      r.Success? && r.value.rows[i][j] == ReferenceFeature(f, categories, raw, i, j)
  {
    EncodedColumnsPresent(f, categories, raw);
    assert (raw + DerivedNames(categories))[j] == raw[j];
  }

  lemma ProjectedEncodedCell(f: Frame, categories: seq<string>, raw: seq<string>, i: nat, j: nat)
    requires WellFormed(f) && NoDerivedCategory(categories) && CanEncode(f, categories) && categories != []
    requires forall c | c in raw :: c in f.cells && c !in DerivedNames(categories)
    requires i < f.height && |raw| <= j < |raw| + |categories|
    ensures var r := Project(EncodeAll(f, categories).0, raw + DerivedNames(categories));
      r.Success? && r.value.rows[i][j] == ReferenceFeature(f, categories, raw, i, j)
  {
    EncodedColumnsPresent(f, categories, raw);
    EncodeAllRates(f, categories);
    assert (raw + DerivedNames(categories))[j] == Derived(categories[j - |raw|]);
  }

  lemma ProjectedRow(f: Frame, categories: seq<string>, raw: seq<string>, i: nat)
    requires WellFormed(f) && NoDerivedCategory(categories) && CanEncode(f, categories) && categories != []
    requires forall c | c in raw :: c in f.cells && c !in DerivedNames(categories)
    requires i < f.height
    ensures var r := Project(EncodeAll(f, categories).0, raw + DerivedNames(categories));
      r.Success? && r.value.rows[i] == ReferenceMatrix(f, categories, raw).rows[i]
  {
    EncodedColumnsPresent(f, categories, raw);
    var x := Project(EncodeAll(f, categories).0, raw + DerivedNames(categories)).value;
    forall j | 0 <= j < |raw| + |categories|
      ensures x.rows[i][j] == ReferenceFeature(f, categories, raw, i, j)
    {
      if j < |raw| {
        ProjectedRawCell(f, categories, raw, i, j);
      } else {
        ProjectedEncodedCell(f, categories, raw, i, j);
      }
    }
  }

  /** Encoding and then projecting onto the raw columns followed by the
      encoded ones gives the reference feature matrix. */
  lemma ProjectEncoded(f: Frame, categories: seq<string>, raw: seq<string>)
    requires WellFormed(f) && NoDerivedCategory(categories) && CanEncode(f, categories) && categories != []
    requires forall c | c in raw :: c in f.cells && c !in DerivedNames(categories)
    ensures Project(EncodeAll(f, categories).0, raw + DerivedNames(categories))
         == Success(ReferenceMatrix(f, categories, raw))
  {
    EncodedColumnsPresent(f, categories, raw);
    var x := Project(EncodeAll(f, categories).0, raw + DerivedNames(categories)).value;
    var m := ReferenceMatrix(f, categories, raw);
    forall i | 0 <= i < f.height ensures x.rows[i] == m.rows[i] {
      ProjectedRow(f, categories, raw, i);
    }
    assert x.rows == m.rows;
  }

  /** The feature matrix perform_feature_engineering should produce. */
  ghost function FeatureMatrix(f: Frame): Matrix
    requires WellFormed(f) && HasRequiredColumns(f)
  {
    ReferenceMatrix(f, CatColumns, RawColumns)
  }

  /** Projecting the encoded frame onto the raw columns followed by the
      encoded ones succeeds exactly when the raw columns were there, and
      otherwise names a missing raw column. */
  lemma ProjectAfterEncoding(f: Frame, categories: seq<string>, raw: seq<string>)
    requires WellFormed(f) && NoDerivedCategory(categories) && CanEncode(f, categories)
    requires forall c | c in raw :: c !in DerivedNames(categories)
    ensures var r := Project(EncodeAll(f, categories).0, raw + DerivedNames(categories));
      && (r.Success? <==> forall c | c in raw :: c in f.cells)
      && (r.Failure? ==> r.error.name in raw && r.error.name !in f.cells)
  {
    EncodedColumnsPresent(f, categories, raw);
  }

  /** perform_feature_engineering succeeds exactly when the frame has a
      numeric Churn column, the five categorical columns and the 14 raw
      columns; otherwise it names Churn or a required column the frame
      lacks, before anything is split. */
  lemma FeatureEngineeringSucceeds(f: Frame, s: Shuffle)
    requires WellFormed(f) && ValidShuffle(s, f.height)
    ensures FeatureEngineering(f, s).1.Success? <==> HasRequiredColumns(f)
    ensures FeatureEngineering(f, s).1.Failure? ==>
      var name := FeatureEngineering(f, s).1.error.name;
      || (name == Churn && (Churn !in f.cells || !Numeric(f.cells[Churn])))
      || ((name in CatColumns || name in RawColumns) && name !in f.cells)
  {
    if Churn in f.cells {
      CatColumnsSeparate();
      EncodeAllSucceeds(f, CatColumns);
      var (g, err) := EncodeAll(f, CatColumns);
      if err.Some? {
        EncodeAllFailure(f, CatColumns);
        assert FeatureEngineering(f, s).1 == Failure(err.value);
        assert !HasRequiredColumns(f);
      } else {
        RawColumnsNotDerived();
        KeepColsLayout();
        ProjectAfterEncoding(f, CatColumns, RawColumns);
        var r := Project(g, KeepCols);
        assert r.Success? == HasRequiredColumns(f);
        assert r.Success? ==> FeatureEngineering(f, s).1.Success?;
        assert r.Failure? ==> FeatureEngineering(f, s).1 == Failure(r.error);
      }
    }
  }

  /** On a frame with the required columns, perform_feature_engineering
      leaves the encoded frame behind and splits the reference feature
      matrix and the Churn column along the drawn permutation. */
  lemma FeatureEngineeringResult(f: Frame, s: Shuffle)
    requires WellFormed(f) && ValidShuffle(s, f.height) && HasRequiredColumns(f)
    ensures FeatureEngineering(f, s).0 == EncodeAll(f, CatColumns).0
    ensures FeatureEngineering(f, s).1 == Success(SplitRows(FeatureMatrix(f), f.cells[Churn], s))
  {
    CatColumnsSeparate();
    RawColumnsNotDerived();
    KeepColsLayout();
    EncodeAllSucceeds(f, CatColumns);
    ProjectEncoded(f, CatColumns, RawColumns);
  }

  /** The four results of a successful run: both feature parts carry the 19
      kept columns in order, every row lands in exactly one part, and its
      feature row and its label land there together. */
  lemma FeatureEngineeringSplit(f: Frame, s: Shuffle)
    requires WellFormed(f) && ValidShuffle(s, f.height) && HasRequiredColumns(f)
    ensures FeatureEngineering(f, s).1.Success?
    ensures var d := FeatureEngineering(f, s).1.value;
      && d.xTrain.columns == KeepCols && d.xTest.columns == KeepCols
      && Aligned(d.xTrain, d.yTrain, d.trainRows, FeatureMatrix(f), f.cells[Churn])
      && Aligned(d.xTest, d.yTest, d.testRows, FeatureMatrix(f), f.cells[Churn])
      && |d.yTrain| + |d.yTest| == f.height
      && (forall r: nat | r < f.height :: (r in d.trainRows) != (r in d.testRows))
  {
    FeatureEngineeringResult(f, s);
    SplitRowsAligned(FeatureMatrix(f), f.cells[Churn], s);
    SplitRowsPartition(FeatureMatrix(f), f.cells[Churn], s);
  }
}
