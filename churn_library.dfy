/** The mutable pandas frame that perform_eda, encoder_helper and
    perform_feature_engineering work on. Each method changes the frame in
    place as the library does and is proved against the value-level
    definitions in Labels, Encoder and Features. */
module ChurnLibrary {
  import opened Table
  import opened Labels
  import opened Encoder
  import opened Features

  /** The inner loop of encoder_helper: `category_groups.loc[val]` for
      every value of the category column, in row order. */
  method LookUpGroupMeans(keys: seq<Value>, labels: seq<real>) returns (col: seq<Value>)
    requires |keys| == |labels|
    ensures col == TargetEncode(keys, labels)
  {
    var groups := GroupMeans(keys, labels);
    ghost var encoded := TargetEncode(keys, labels);
    col := [];
    var i := 0;
    while i < |keys|
      invariant 0 <= i <= |keys|
      invariant col == encoded[..i]
    {
      assert groups[keys[i]] == GroupMean(keys, labels, keys[i]);
      assert encoded[..i + 1] == encoded[..i] + [encoded[i]];
      col := col + [Num(groups[keys[i]])];
      i := i + 1;
    }
    assert encoded[..|keys|] == encoded;
  }

  class DataFrame {
    var columns: seq<string>
    var cells: map<string, seq<Value>>
    var height: nat

    /** The frame's current contents as a value. */
    function Snapshot(): Frame
      reads this
    {
      Frame(columns, cells, height)
    }

    ghost predicate Valid()
      reads this
    {
      WellFormed(Snapshot())
    }

    constructor (f: Frame)
      requires WellFormed(f)
      ensures Valid() && Snapshot() == f
    {
      columns := f.columns;
      cells := f.cells;
      height := f.height;
    }

    /** `frame[name] = col`. */
    method SetItem(name: string, col: seq<Value>)
      requires Valid() && |col| == height
      modifies this
      ensures Valid()
      ensures Snapshot() == SetColumn(old(Snapshot()), name, col)
    {
      if name !in cells {
        columns := columns + [name];
      }
      cells := cells[name := col];
    }

    /** The label step of perform_eda: `frame["Churn"]` is computed from
        `frame["Attrition_Flag"]`, which raises KeyError when absent. */
    method PerformEda() returns (err: Option<Error>)
      requires Valid()
      modifies this
      ensures Valid()
      ensures AttritionFlag !in old(cells) ==>
        err == Some(MissingColumn(AttritionFlag)) && Snapshot() == old(Snapshot())
      ensures AttritionFlag in old(cells) ==>
        err == None && Snapshot() == SetColumn(old(Snapshot()), Churn, ChurnColumn(old(cells)[AttritionFlag]))
    {
      if AttritionFlag !in cells {
        return Some(MissingColumn(AttritionFlag));
      }
      SetItem(Churn, ChurnColumn(cells[AttritionFlag]));
      err := None;
    }

    /** encoder_helper(frame, category_lst, response): for each category in
        turn, group the rows by it, look up each row's mean Churn, and write
        the column `<category>_Churn`. The frame is returned on success; the
        first KeyError ends the call with the earlier columns already
        written. `response` is not used. */
    method EncoderHelper(categoryLst: seq<string>, response: string) returns (r: Result<DataFrame, Error>)
      requires Valid()
      modifies this
      ensures Valid()
      ensures Snapshot() == EncodeAll(old(Snapshot()), categoryLst).0
      ensures r.Success? <==> EncodeAll(old(Snapshot()), categoryLst).1.None?
      ensures r.Success? ==> r.value == this
      ensures r.Failure? ==> EncodeAll(old(Snapshot()), categoryLst).1 == Some(r.error)
    {
      ghost var start := Snapshot();
      var k := 0;
      while k < |categoryLst|
        invariant 0 <= k <= |categoryLst|
        invariant Valid()
        invariant EncodeAll(start, categoryLst) == EncodeAll(Snapshot(), categoryLst[k..])
      {
        var category := categoryLst[k];
        assert categoryLst[k..][0] == category && categoryLst[k..][1..] == categoryLst[k + 1..];
        EncodeAllStep(Snapshot(), categoryLst[k..]);
        if category !in cells {
          return Failure(MissingColumn(category));
        }
        if category == Churn || Churn !in cells || !Numeric(cells[Churn]) {
          return Failure(MissingColumn(Churn));
        }
        var col := LookUpGroupMeans(cells[category], Numbers(cells[Churn]));
        SetItem(Derived(category), col);
        k := k + 1;
      }
      return Success(this);
    }

    /** perform_feature_engineering(frame, response): read the label column,
        encode the five categorical columns into this frame, project the
        nineteen feature columns and split rows by the shuffle s. */
    method PerformFeatureEngineering(response: string, s: Shuffle) returns (r: Result<SplitData, Error>)
      requires Valid() && ValidShuffle(s, height)
      modifies this
      ensures Valid()
      ensures (Snapshot(), r) == FeatureEngineering(old(Snapshot()), s)
    {
      if Churn !in cells {
        return Failure(MissingColumn(Churn));
      }
      var yData := cells[Churn];
      var encoded := EncoderHelper(CatColumns, response);
      if encoded.Failure? {
        return Failure(encoded.error);
      }
      var xData := Project(Snapshot(), KeepCols);
      if xData.Failure? {
        return Failure(xData.error);
      }
      r := Success(SplitRows(xData.value, yData, s));
    }
  }
}
