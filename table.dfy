/** A pandas data frame as a value: named columns in their display order,
    the cells of every column, and the number of rows. */
module Table {

  datatype Option<+T> = None | Some(value: T)

  datatype Result<+T, +E> = Success(value: T) | Failure(error: E)

  /** One cell: a number (the numeric columns and the 0/1 labels) or a text
      label (the categorical columns). NaN is not a value of this model. */
  datatype Value = Num(x: real) | Text(s: string)

  /** pandas raises KeyError when a column the code asks for is absent. */
  datatype Error = MissingColumn(name: string)

  datatype Frame = Frame(columns: seq<string>, cells: map<string, seq<Value>>, height: nat)

  ghost predicate Distinct<T>(s: seq<T>)
  {
    forall i, j | 0 <= i < j < |s| :: s[i] != s[j]
  }

  /** Column names are unique, the order lists exactly the stored columns,
      and every column has one cell per row. */
  ghost predicate WellFormed(f: Frame)
  {
    && Distinct(f.columns)
    && (forall c :: c in f.cells <==> c in f.columns)
    && (forall c | c in f.cells :: |f.cells[c]| == f.height)
  }

  /** Every cell of the column is a number. The model takes this for pandas
      treating the column as numeric; for a column with no rows it holds
      whatever the column's dtype. */
  predicate Numeric(col: seq<Value>)
  {
    forall i | 0 <= i < |col| :: col[i].Num?
  }

  function Numbers(col: seq<Value>): (r: seq<real>)
    requires Numeric(col)
    ensures |r| == |col|
    ensures forall i | 0 <= i < |col| :: col[i] == Num(r[i])
  {
    seq(|col|, i requires 0 <= i < |col| => col[i].x)
  }

  /** `frame[name] = col`: a new name is appended after the existing columns,
      an existing one is replaced where it stands; nothing else changes. */
  function SetColumn(f: Frame, name: string, col: seq<Value>): (g: Frame)
    requires WellFormed(f) && |col| == f.height
    ensures WellFormed(g) && g.height == f.height
    ensures name in g.cells && g.cells[name] == col
    ensures forall c | c in f.cells && c != name :: c in g.cells && g.cells[c] == f.cells[c]
    ensures forall c | c in g.cells :: c in f.cells || c == name
    ensures name in f.cells ==> g.columns == f.columns
    ensures name !in f.cells ==> g.columns == f.columns + [name]
  {
    Frame(if name in f.cells then f.columns else f.columns + [name], f.cells[name := col], f.height)
  }

  /** The positions 0 .. n-1. */
  function Range(n: nat): (r: seq<nat>)
    ensures |r| == n
    ensures forall i | 0 <= i < n :: r[i] == i
  {
    seq(n, i => i)
  }

  /** The elements of s at the given positions, in the order of the positions. */
  function Pick<T>(s: seq<T>, positions: seq<nat>): (r: seq<T>)
    requires forall k | 0 <= k < |positions| :: positions[k] < |s|
    ensures |r| == |positions|
    ensures forall k | 0 <= k < |positions| :: r[k] == s[positions[k]]
  {
    seq(|positions|, k requires 0 <= k < |positions| => s[positions[k]])
  }

  /** Every position below n occurs exactly once in the list of rows. */
  lemma {:induction false} RangeCounts(n: nat, r: nat)
    ensures multiset(Range(n))[r] == if r < n then 1 else 0
  {
    if n > 0 {
      RangeCounts(n - 1, r);
      assert Range(n) == Range(n - 1) + [n - 1];
    }
  }
}
