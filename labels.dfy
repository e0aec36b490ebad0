/** The churn label of perform_eda: a customer is labelled 0 when still
    an existing customer and 1 otherwise. */
module Labels {
  import opened Table

  const AttritionFlag := "Attrition_Flag"
  const Churn := "Churn"
  const ExistingCustomer := "Existing Customer"

  /** The label is 0 exactly for the text "Existing Customer"; any other
      flag, attrited or not, is 1. */
  function ChurnLabel(flag: Value): (r: Value)
    ensures r == Num(0.0) <==> flag == Text(ExistingCustomer)
    ensures r == Num(1.0) <==> flag != Text(ExistingCustomer)
  {
    if flag == Text(ExistingCustomer) then Num(0.0) else Num(1.0)
  }

  /** Every label is 0 or 1. */
  ghost predicate Binary(labels: seq<real>)
  {
    forall k | 0 <= k < |labels| :: labels[k] == 0.0 || labels[k] == 1.0
  }

  /** The label of each row, row by row. */
  function ChurnColumn(flags: seq<Value>): (r: seq<Value>)
    ensures |r| == |flags|
    ensures forall i | 0 <= i < |flags| :: r[i] == ChurnLabel(flags[i])
  {
    seq(|flags|, i requires 0 <= i < |flags| => ChurnLabel(flags[i]))
  }

  /** The label column holds only 0 and 1, is numeric, and marks as 1 exactly
      the rows whose flag is not "Existing Customer". */
  lemma ChurnColumnIsBinary(flags: seq<Value>)
    ensures Numeric(ChurnColumn(flags)) && Binary(Numbers(ChurnColumn(flags)))
    ensures forall i | 0 <= i < |flags| ::
      (ChurnColumn(flags)[i] == Num(1.0)) == (flags[i] != Text(ExistingCustomer))
  {
    var labels := Numbers(ChurnColumn(flags));
    forall k | 0 <= k < |labels| ensures labels[k] == 0.0 || labels[k] == 1.0 {
      assert ChurnColumn(flags)[k] == Num(labels[k]);
    }
  }
}
