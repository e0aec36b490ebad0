# Churn library: labelling, target encoding, feature selection and ranking

This project models the deterministic table transformations of the customer
churn library `churn_library.py`:

- the churn label that `perform_eda` derives from `Attrition_Flag`;
- `encoder_helper`, which target-encodes categorical columns in place:
  for every listed category it groups the rows by that column, takes the mean
  `Churn` of each group and writes the column `<category>_Churn`;
- `perform_feature_engineering`, which reads the label vector, encodes the
  five categorical columns, keeps the 19 feature columns in their declared
  order and splits the rows into a training part and a test part;
- the ranking step of `feature_importance_plot`, which orders the feature
  names by descending importance (`np.argsort(...)[::-1]`).

Modules:

- `Table` (`table.dfy`): cell values, the `Frame` value (column order, the
  cells of each column, the row count), column assignment `SetColumn`, and
  the `Option`/`Result` wrappers. A pandas `KeyError` is the error
  `MissingColumn(name)`.
- `Labels` (`labels.dfy`): the churn label.
- `Encoder` (`encoder.dfy`): group means, the encoded column of one category
  (`TargetEncode`), and the whole call as a function on frames (`EncodeAll`),
  with its properties.
- `Features` (`features.dfy`): the column lists, projection onto columns,
  the split along a drawn permutation, and `FeatureEngineering`, with its
  properties.
- `Ranking` (`ranking.dfy`): argsort as an insertion sort of positions,
  reversal, and the ranked names.
- `ChurnLibrary` (`churn_library.dfy`): a `DataFrame` class whose fields
  the methods update in place, as pandas does. Its methods `PerformEda`,
  `EncoderHelper` (the outer loop over the categories) and
  `PerformFeatureEngineering` are proved equal to the functions above. The
  inner loop of `encoder_helper`, which looks up each row's group mean, is
  the module-level method `LookUpGroupMeans`, which `EncoderHelper` calls.

The random split is a parameter. A `Shuffle` is a permutation of the row
positions plus the number of test rows. The test rows are the first entries
of the permutation and the training rows the rest, as `train_test_split`
takes them.

Three facts about the code that the model keeps:

- The derived column is named `<category>_Churn` (line 106).
- Equal importances have no promised order. `np.argsort` is not stable by
  default, so the model promises nothing about how ties are ordered.
- Assigning a `<category>_Churn` column that already exists overwrites it
  in place, at its old position.

## Model

| member | source | states |
|---|---|---|
| Labels.ChurnLabel | churn_library.py:58-60 | the label is 0 exactly when the flag is the text "Existing Customer" and 1 exactly when it is anything else |
| Labels.ChurnColumn | churn_library.py:58-60 | the label column has one entry per row, and row i holds the label of row i's flag |
| Labels.ChurnColumnIsBinary | churn_library.py:58-60 | the label column is numeric, holds only 0 and 1, and is 1 exactly at the rows whose flag is not "Existing Customer" |
| ChurnLibrary.DataFrame.PerformEda | churn_library.py:58-60 | a frame without Attrition_Flag raises KeyError and is left as it was; otherwise Churn is set to the labels of the flags, replacing or appending it, and no other column changes |
| Table.SetColumn | churn_library.py:106 | assignment keeps the frame well formed with the same rows; the named column holds the new cells; every other column is unchanged; an existing name keeps the column order and a new name is appended last |
| ChurnLibrary.DataFrame.SetItem | churn_library.py:106 | the in-place assignment leaves the frame equal to SetColumn of the old frame |
| Encoder.Derived | churn_library.py:106 | the derived name is the category followed by "_Churn" |
| Encoder.DerivedInjective | churn_library.py:106 | two categories with the same derived column name are the same category |
| Encoder.ChurnIsNotDerived | churn_library.py:106 | the encoder never writes the Churn column |
| Encoder.GroupLabelsMeaning | churn_library.py:103 | the group of a value holds one label per row with that value, and its labels add up to the labels of all rows with that value |
| Encoder.CountIsMultiplicity | churn_library.py:103 | the number of rows counted for a value is the number of times it occurs in the column |
| Encoder.GroupMean | churn_library.py:103 | a value that occurs has a non-empty group, and its mean is the sum of the labels of the rows with that value divided by the number of those rows |
| Encoder.GroupMeans | churn_library.py:103 | the groupby table has an entry for exactly the values that occur in the category column; each entry is the sum of the labels of the rows with that value divided by the number of those rows |
| Encoder.GroupSumRaise | churn_library.py:103 | raising one row's label by d raises the label sum of that row's group by d |
| Encoder.TargetEncode | churn_library.py:103-106 | row i of the encoded column is the mean label of the rows sharing row i's value, and rows with equal values get equal encodings |
| ChurnLibrary.LookUpGroupMeans | churn_library.py:102-105 | the loop that looks up each row's group mean builds exactly the encoded column TargetEncode |
| Encoder.RatesWithinUnitInterval | churn_library.py:103-105 | with 0/1 labels every encoded value lies in [0, 1] |
| Encoder.LabelRatesWithinUnitInterval | churn_library.py:103-105 | with the labels perform_eda derives, the label column is numeric and every encoded value lies in [0, 1] |
| Encoder.OwnLabelCounted | churn_library.py:103-105 | every row's own label is part of its encoding: raising row i's label by d raises row i's group mean by d divided by the size of its group |
| Encoder.LoneRowGetsOwnLabel | churn_library.py:103-105 | a row whose value no other row shares is encoded as exactly its own label |
| Encoder.EncodeOne | churn_library.py:101-106 | one category fails exactly when the category is absent, is Churn, or Churn is absent or not numeric; the error names the category when it is absent and Churn otherwise; on success only the derived column is written |
| Encoder.EncodeAll | churn_library.py:101-107 | the frame left behind has the same rows, keeps the old columns first and in order, and differs from the input only in derived columns of listed categories, even after a failure |
| Encoder.EncodeAllSucceeds | churn_library.py:101-106 | when no listed category is another's derived name, the encoder raises nothing exactly when Churn is present and numeric (if any category is listed), Churn is not listed, and every listed category is present |
| Encoder.EncodeAllFailure | churn_library.py:101-106 | a failure names Churn only when Churn is absent, not numeric, or itself listed; otherwise it names a listed category that the frame lacks |
| Encoder.EncodeAllRates | churn_library.py:101-106 | after a successful run, for each listed category C the column C_Churn exists and row i holds the mean Churn of the input rows whose C equals row i's C |
| Encoder.EncodeAllKeepsInputs | churn_library.py:101-106 | Churn and every listed category keep their cells through the encoder |
| Encoder.EncodeAllFixed | churn_library.py:103-106 | a frame that already holds the encoding of every listed category is returned unchanged and without error |
| Encoder.EncoderIdempotent | churn_library.py:101-107 | when no listed category is another's derived name, running the encoder on its own successful output gives the same frame and no error |
| ChurnLibrary.DataFrame.EncoderHelper | churn_library.py:88-107 | the in-place loops leave the frame equal to EncodeAll of the old frame; the call returns the same frame object exactly when EncodeAll raises nothing, and otherwise returns EncodeAll's error |
| Features.KeepColsLayout | churn_library.py:131-150 | the 19 kept columns are the 14 raw columns followed by the derived name of each of the five categorical columns, in order |
| Features.CatColumnsSeparate | churn_library.py:122-127 | no categorical column is the derived name of a categorical column, and Churn is not one of them |
| Features.RawColumnsNotDerived | churn_library.py:131-150 | no raw kept column is a derived column, so the encoder leaves the raw columns unchanged |
| Features.FirstMissing | churn_library.py:152 | no column is reported exactly when every requested column is present; a reported column is requested and absent |
| Features.Project | churn_library.py:152 | selecting columns succeeds exactly when all are present, otherwise it names an absent requested column; on success the matrix has the requested columns in order, one row per frame row, and cell (i, j) is row i of column j |
| Features.EncodedColumnsPresent | churn_library.py:130-152 | after a successful encoding every derived column is present, and a column the encoder does not write is present and unchanged exactly when it was before |
| Features.ProjectAfterEncoding | churn_library.py:130-152 | projecting the encoded frame onto raw plus derived columns succeeds exactly when the raw columns were present, and otherwise names an absent raw column |
| Features.ProjectEncoded | churn_library.py:130-152 | encoding and then projecting gives the reference matrix: each raw cell from the input, and each encoded cell the mean Churn of the input rows sharing the row's category value |
| Features.SplitRows | churn_library.py:157-159 | both parts keep the feature columns; the test part has as many feature rows, labels and row positions as the drawn test size, and the training part has the rest |
| Features.SplitRowsAligned | churn_library.py:157-159 | each part keeps the column names, and its feature rows and its labels are those of the same source rows in the same order |
| Features.SplitRowsPartition | churn_library.py:157-159 | the two parts together have one entry per row, and every row position occurs exactly once in exactly one part |
| Features.FeatureEngineering | churn_library.py:109-160 | the frame left behind has the same rows, keeps the old columns first and in order, and differs from the input only in the derived columns of the five categories; on success both feature parts have the 19 kept columns in order and the labels of the two parts number N together |
| Features.FeatureEngineeringSucceeds | churn_library.py:109-160 | the call succeeds exactly when the frame has Churn, the five usable categorical columns and the 14 raw columns; a failure names Churn only when Churn is absent or not numeric, and otherwise names a missing required column |
| Features.FeatureEngineeringResult | churn_library.py:109-160 | on such a frame the call leaves the encoded frame behind and returns the reference feature matrix and the Churn column, taken before encoding, split along the drawn permutation |
| Features.FeatureEngineeringSplit | churn_library.py:109-160 | both feature parts have the 19 kept columns in order; every row's features and label land in the same part; the parts have N entries together and each row is in exactly one of them |
| ChurnLibrary.DataFrame.PerformFeatureEngineering | churn_library.py:109-160 | the method leaves the frame and returns the result that FeatureEngineering gives for the old frame |
| Ranking.ArgSort | churn_library.py:247 | the argsort is a permutation of the positions 0 .. n-1 along which the scores do not decrease |
| Ranking.Reversed | churn_library.py:247 | reversal keeps the length and the elements and reads them back to front |
| Ranking.ReversedDescending | churn_library.py:247 | reversing an ascending order of positions gives one along which the scores do not increase |
| Ranking.RankIndices | churn_library.py:245-247 | the ranked indices are a permutation of the feature positions, and the importances do not increase along them |
| Ranking.RankNames | churn_library.py:247-249 | the ranked names are the feature names read along the ranked indices, and each name occurs as often as it does among the columns |

## Left out

- Reading the CSV (`import_data`) and the plots of `perform_eda` are left out: they are I/O. The KeyError those plots raise when a plotted column is absent is also not modelled; only the label step is.
- `classification_report_image`, `train_models`, the grid search, the logistic regression, shap and `joblib` persistence are left out: they are foreign library calls and floating-point optimisation.
- `feature_importance_plot`: the bar chart at lines 250-255 is left out. Line 251 indexes the score array by column names. Only the ranking at lines 245-249 is modelled.
- FeatureEngineering: the randomness of `train_test_split` with `random_state=42` is a `Shuffle` parameter. The model does not fix the test size to `ceil(0.3 N)`; it accepts any test size up to N. It does not model the ValueError sklearn raises when a part would be empty.
- Numbers are exact reals. Floating-point rounding of the group means is not modelled, and NaN is not a cell value.
- EncodeOne: the model follows pandas 1.x. There `groupby(category).mean()` drops the non-numeric columns from the means, so a text Churn column is absent and `["Churn"]` raises KeyError. Only Churn's mean is modelled. Under pandas 2.0 and later, `groupby(category).mean()` raises TypeError on every frame `perform_eda` produces, because `Attrition_Flag` and the other categorical columns hold text; that behaviour is not modelled.
- EncodeOne: whether Churn counts as numeric is read off its cells (`Numeric`), not off a pandas dtype. A frame with no rows therefore always has a numeric Churn in the model. In pandas, the Churn column that `perform_eda` derives from an empty text `Attrition_Flag` may keep the object dtype, and then the group mean raises instead of giving an empty column. The dtype of a zero-row column is not modelled.
- Project: pandas reports all missing columns in one KeyError; the model names the first missing one.
- PerformFeatureEngineering: `x_data[keep_cols] = ...` assigns into an empty frame and aligns on the index. With the default row index this is the row-by-row projection the model uses; other indexes are not modelled.
- EncoderHelper and PerformFeatureEngineering take `response` and ignore it, as the source does.
- `churn_script_logging_and_tests.py` is not part of this model. Its line 81 expects a `__Churn` suffix. Its lines 56-59 expect split sizes computed with `round`.
