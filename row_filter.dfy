/** The row filter of main.py: `drop_column_values` deletes, in place, every row
    whose given column holds a sentinel value, and the script runs it once per
    column over Glucose, Blood_pressure, Skin_thickness, Insulin and Bmi with
    sentinel 0. */
module RowFilter {
  import opened DataTable

  /** The rows whose column `c` differs from `v`, in their original order. */
  function Keep(t: Table, c: Column, v: real): (r: Table)
    ensures |r| <= |t|
    ensures forall e :: e in r ==> e in t && Cell(e.row, c) != v
    ensures forall e :: e in t && Cell(e.row, c) != v ==> e in r
    decreases |t|
  {
    if t == [] then []
    else
      assert t == [t[0]] + t[1..];
      (if Cell(t[0].row, c) != v then [t[0]] else []) + Keep(t[1..], c, v)
  }

  /** Filtering keeps the surviving rows in order and unaltered. */
  lemma {:induction false} KeepIsSubsequence(t: Table, c: Column, v: real)
    ensures IsSubsequence(Keep(t, c, v), t)
    decreases |t|
  {
    if t != [] {
      KeepIsSubsequence(t[1..], c, v);
      var rest := Keep(t[1..], c, v);
      if Cell(t[0].row, c) != v {
        assert Keep(t, c, v) == [t[0]] + rest;
        assert ([t[0]] + rest)[1..] == rest;
      } else {
        assert Keep(t, c, v) == rest;
      }
    }
  }

  /** Filtering a table with distinct labels leaves distinct labels. */
  lemma {:induction false} KeepDistinct(t: Table, c: Column, v: real)
    requires DistinctLabels(t)
    ensures DistinctLabels(Keep(t, c, v))
    decreases |t|
  {
    if t != [] {
      KeepDistinct(t[1..], c, v);
      var rest := Keep(t[1..], c, v);
      if Cell(t[0].row, c) != v {
        assert Keep(t, c, v) == [t[0]] + rest;
        assert ([t[0]] + rest)[1..] == rest;
        forall e | e in rest
          ensures e.index != t[0].index
        {
          assert e in t[1..];
        }
      } else {
        assert Keep(t, c, v) == rest;
      }
    }
  }

  /** The index labels of the rows whose column `c` equals `v`
      (`data[data[column_name] == value].index`). */
  function MatchingLabels(t: Table, c: Column, v: real): (labels: seq<int>)
    ensures forall e :: e in t && Cell(e.row, c) == v ==> e.index in labels
    ensures forall l :: l in labels ==> exists e :: e in t && e.index == l && Cell(e.row, c) == v
    decreases |t|
  {
    if t == [] then []
    else
      assert t == [t[0]] + t[1..];
      (if Cell(t[0].row, c) == v then [t[0].index] else []) + MatchingLabels(t[1..], c, v)
  }

  /** The table without the rows whose label is listed (`data.drop(labels)`). */
  function DropLabels(t: Table, labels: seq<int>): (r: Table)
    ensures forall e :: e in r ==> e in t && e.index !in labels
    ensures forall e :: e in t && e.index !in labels ==> e in r
    decreases |t|
  {
    if t == [] then []
    else
      assert t == [t[0]] + t[1..];
      (if t[0].index in labels then [] else [t[0]]) + DropLabels(t[1..], labels)
  }

  /** Dropping by label removes exactly the matching rows when the labels
      listed are exactly those of the matching rows. */
  lemma {:induction false} DropLabelsIsKeep(t: Table, labels: seq<int>, c: Column, v: real)
    requires forall e :: e in t ==> (e.index in labels <==> Cell(e.row, c) == v)
    ensures DropLabels(t, labels) == Keep(t, c, v)
    decreases |t|
  {
    if t != [] {
      assert t[0] in t;
      forall e | e in t[1..]
        ensures e.index in labels <==> Cell(e.row, c) == v
      {
        assert e in t;
      }
      DropLabelsIsKeep(t[1..], labels, c, v);
    }
  }

  /** On a table whose labels are distinct, a row's label is among the matching
      labels exactly when the row itself matches. */
  lemma {:induction false} MatchingLabelsExact(t: Table, c: Column, v: real)
    requires DistinctLabels(t)
    ensures forall e :: e in t ==> (e.index in MatchingLabels(t, c, v) <==> Cell(e.row, c) == v)
    decreases |t|
  {
    if t != [] {
      var rest := MatchingLabels(t[1..], c, v);
      MatchingLabelsExact(t[1..], c, v);
      assert MatchingLabels(t, c, v) == (if Cell(t[0].row, c) == v then [t[0].index] else []) + rest;
      assert t[0].index !in rest;
      forall e | e in t
        ensures e.index in MatchingLabels(t, c, v) <==> Cell(e.row, c) == v
      {
        if e != t[0] {
          assert e in t[1..] by { assert t == [t[0]] + t[1..]; }
        }
      }
    }
  }

  /** Deleting the rows found by label, as `drop_column_values` does, is the
      filter `Keep` on a table with distinct labels. */
  lemma DropMatchingIsKeep(t: Table, c: Column, v: real)
    requires DistinctLabels(t)
    ensures DropLabels(t, MatchingLabels(t, c, v)) == Keep(t, c, v)
  {
    MatchingLabelsExact(t, c, v);
    DropLabelsIsKeep(t, MatchingLabels(t, c, v), c, v);
  }

  /** No column of `cs` holds `v` in this row. */
  predicate SentinelFree(row: Row, cs: seq<Column>, v: real)
  {
    forall i :: 0 <= i < |cs| ==> Cell(row, cs[i]) != v
  }

  /** The rows in which no column of `cs` holds `v`, in their original order. */
  function Clean(t: Table, cs: seq<Column>, v: real): (r: Table)
    ensures |r| <= |t|
    ensures forall e :: e in r ==> e in t && SentinelFree(e.row, cs, v)
    ensures forall e :: e in t && SentinelFree(e.row, cs, v) ==> e in r
    decreases |t|
  {
    if t == [] then []
    else
      assert t == [t[0]] + t[1..];
      (if SentinelFree(t[0].row, cs, v) then [t[0]] else []) + Clean(t[1..], cs, v)
  }

  /** With no column to check, nothing is removed. */
  lemma {:induction false} CleanNothing(t: Table, v: real)
    ensures Clean(t, [], v) == t
    decreases |t|
  {
    if t != [] {
      CleanNothing(t[1..], v);
      assert t == [t[0]] + t[1..];
    }
  }

  /** One more pass of `Keep` over a cleaned table cleans it for one more column. */
  lemma {:induction false} KeepAfterClean(t: Table, cs: seq<Column>, c: Column, v: real)
    ensures Keep(Clean(t, cs, v), c, v) == Clean(t, cs + [c], v)
    decreases |t|
  {
    if t != [] {
      KeepAfterClean(t[1..], cs, c, v);
      var row := t[0].row;
      assert SentinelFree(row, cs + [c], v) <==> SentinelFree(row, cs, v) && Cell(row, c) != v by {
        if SentinelFree(row, cs, v) && Cell(row, c) != v {
          forall i | 0 <= i < |cs + [c]|
            ensures Cell(row, (cs + [c])[i]) != v
          {
            if i < |cs| {
              assert (cs + [c])[i] == cs[i];
            }
          }
        }
        if SentinelFree(row, cs + [c], v) {
          assert Cell(row, (cs + [c])[|cs|]) != v;
          forall i | 0 <= i < |cs|
            ensures Cell(row, cs[i]) != v
          {
            assert (cs + [c])[i] == cs[i];
          }
        }
      }
      var rest := Clean(t[1..], cs, v);
      if SentinelFree(row, cs, v) {
        assert Clean(t, cs, v) == [t[0]] + rest;
        assert ([t[0]] + rest)[1..] == rest;
      } else {
        assert Clean(t, cs, v) == rest;
      }
    }
  }

  /** Cleaning keeps the surviving rows in order and unaltered. */
  lemma {:induction false} CleanIsSubsequence(t: Table, cs: seq<Column>, v: real)
    ensures IsSubsequence(Clean(t, cs, v), t)
    decreases |t|
  {
    if t != [] {
      CleanIsSubsequence(t[1..], cs, v);
      var rest := Clean(t[1..], cs, v);
      if SentinelFree(t[0].row, cs, v) {
        assert Clean(t, cs, v) == [t[0]] + rest;
        assert ([t[0]] + rest)[1..] == rest;
      } else {
        assert Clean(t, cs, v) == rest;
      }
    }
  }

  /** Pass `k` of a drop loop over the columns `cs` turns the table cleaned for
      the first `k` columns into the table cleaned for the first `k + 1`. */
  lemma CleanStep(t: Table, cs: seq<Column>, k: nat, v: real)
    requires k < |cs|
    ensures Keep(Clean(t, cs[..k], v), cs[k], v) == Clean(t, cs[..k + 1], v)
  {
    assert cs[..k + 1] == cs[..k] + [cs[k]];
    KeepAfterClean(t, cs[..k], cs[k], v);
  }

  /** Each further pass of the drop loop only deletes rows: the table after
      pass `k + 1` is a subsequence of the table after pass `k`, so the row count
      never increases and a dropped row never returns. */
  lemma CleanNarrowing(t: Table, cs: seq<Column>, k: nat, v: real)
    requires k < |cs|
    ensures IsSubsequence(Clean(t, cs[..k + 1], v), Clean(t, cs[..k], v))
    ensures |Clean(t, cs[..k + 1], v)| <= |Clean(t, cs[..k], v)|
  {
    CleanStep(t, cs, k, v);
    KeepIsSubsequence(Clean(t, cs[..k], v), cs[k], v);
  }

  /** The columns in which 0 marks a missing measurement, in the order the script drops them. */
  const ErroneousColumns: seq<Column> := [Glucose, BloodPressure, SkinThickness, Insulin, Bmi]

  /** The sentinel that marks a missing measurement. */
  const Missing: real := 0.0

  /** A pandas DataFrame holding the table, updated in place. */
  class DataFrame {
    var entries: Table

    /** `read_csv` gives every row its own label, and dropping rows never reuses one. */
    ghost predicate Valid()
      reads this
    {
      DistinctLabels(entries)
    }

    /** The frame `pd.read_csv` builds: the rows in file order, labelled 0, 1, 2, ... */
    constructor Load(rows: seq<Row>)
      ensures Valid()
      ensures |entries| == |rows|
      ensures forall i :: 0 <= i < |rows| ==> entries[i] == Entry(i, rows[i])
    {
      entries := Indexed(rows, 0);
    }

    /** `drop_column_values(data, c, v)`: removes, in place, every row whose
        column `c` equals `v`; the other rows stay, unchanged and in order. */
    method DropColumnValues(c: Column, v: real)
      requires Valid()
      modifies this
      ensures Valid()
      ensures entries == Keep(old(entries), c, v)
      ensures IsSubsequence(entries, old(entries))
      ensures forall e :: e in entries ==> Cell(e.row, c) != v
    {
      var labels := MatchingLabels(entries, c, v);
      DropMatchingIsKeep(entries, c, v);
      KeepDistinct(entries, c, v);
      KeepIsSubsequence(entries, c, v);
      entries := DropLabels(entries, labels);
    }
  }

  /** The loop of main.py that drops the rows with a missing measurement, one
      column at a time, each pass working on the result of the previous one. */
  method DropErroneousRows(df: DataFrame)
    requires df.Valid()
    modifies df
    ensures df.Valid()
    ensures df.entries == Clean(old(df.entries), ErroneousColumns, Missing)
    ensures IsSubsequence(df.entries, old(df.entries))
    ensures forall e :: e in df.entries ==> SentinelFree(e.row, ErroneousColumns, Missing)
    ensures forall e :: e in old(df.entries) && SentinelFree(e.row, ErroneousColumns, Missing) ==> e in df.entries
  {
    ghost var original := df.entries;
    CleanNothing(original, Missing);
    var i := 0;
    while i < |ErroneousColumns|
      invariant 0 <= i <= |ErroneousColumns|
      invariant df.Valid()
      invariant df.entries == Clean(original, ErroneousColumns[..i], Missing)
    {
      df.DropColumnValues(ErroneousColumns[i], Missing);
      CleanStep(original, ErroneousColumns, i, Missing);
      i := i + 1;
    }
    assert ErroneousColumns[..i] == ErroneousColumns;
    CleanIsSubsequence(original, ErroneousColumns, Missing);
  }
}
