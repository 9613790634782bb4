/** The nine-column diabetes table that the analysis script loads, and the
    relations between tables that the row-selection operations are stated with. */
module DataTable {

  /** The column names of the table, in the order of the columns in the file. */
  datatype Column =
    | Pregnancies
    | Glucose
    | BloodPressure
    | SkinThickness
    | Insulin
    | Bmi
    | DiabetesPedigreeFunction
    | Age
    | Outcome

  /** Number of columns of every row. */
  const Width: nat := 9

  /** Position of a column inside a row. */
  function Position(c: Column): (i: nat)
    ensures i < Width
  {
    match c
    case Pregnancies => 0
    case Glucose => 1
    case BloodPressure => 2
    case SkinThickness => 3
    case Insulin => 4
    case Bmi => 5
    case DiabetesPedigreeFunction => 6
    case Age => 7
    case Outcome => 8
  }

  /** One row of cell values, one value per column. */
  type Row = r: seq<real> | |r| == Width
    witness [0.0, 0.0, 0.0, 0.0, 0.0, 0.0, 0.0, 0.0, 0.0]

  /** The value of column `c` in a row. */
  function Cell(row: Row, c: Column): real
  {
    row[Position(c)]
  }

  /** A row together with its index label (pandas drops rows by label). */
  datatype Entry = Entry(index: int, row: Row)

  /** A table: its entries in row order. */
  type Table = seq<Entry>

  /** No two entries of the table share an index label. */
  predicate DistinctLabels(t: Table)
  {
    t == [] || ((forall e :: e in t[1..] ==> e.index != t[0].index) && DistinctLabels(t[1..]))
  }

  /** `s` is obtained from `t` by deleting entries: order-preserving, nothing added or altered. */
  predicate IsSubsequence<T(==)>(s: seq<T>, t: seq<T>)
    decreases |t|
  {
    s == [] || (t != [] && ((s[0] == t[0] && IsSubsequence(s[1..], t[1..])) || IsSubsequence(s, t[1..])))
  }

  /** The labels 0, 1, 2, ... that a freshly loaded table receives, one per row. */
  function Indexed(rows: seq<Row>, first: int): (t: Table)
    ensures |t| == |rows|
    ensures forall i :: 0 <= i < |t| ==> t[i] == Entry(first + i, rows[i])
    ensures forall e :: e in t ==> first <= e.index
    ensures DistinctLabels(t)
    decreases |rows|
  {
    if rows == [] then []
    else
      var rest := Indexed(rows[1..], first + 1);
      [Entry(first, rows[0])] + rest
  }
}
