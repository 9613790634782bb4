/** Class balancing of main.py (`equalize_data`): the rows of the two Outcome
    classes are cut to a common length `min_l` and the Outcome-1 rows are put
    before the Outcome-0 rows, each class in its original order. */
module Equalize {
  import opened DataTable

  /** The rows whose Outcome equals `k`, in their original order
      (`data[data["Outcome"] == k]`). */
  function Select(t: Table, k: real): (r: Table)
    ensures |r| <= |t|
    ensures forall e :: e in r ==> e in t && Cell(e.row, Outcome) == k
    ensures forall e :: e in t && Cell(e.row, Outcome) == k ==> e in r
    decreases |t|
  {
    if t == [] then []
    else
      assert t == [t[0]] + t[1..];
      (if Cell(t[0].row, Outcome) == k then [t[0]] else []) + Select(t[1..], k)
  }

  /** Selecting a class keeps its rows in order and unaltered. */
  lemma {:induction false} SelectIsSubsequence(t: Table, k: real)
    ensures IsSubsequence(Select(t, k), t)
    decreases |t|
  {
    if t != [] {
      SelectIsSubsequence(t[1..], k);
      var rest := Select(t[1..], k);
      if Cell(t[0].row, Outcome) == k {
        assert Select(t, k) == [t[0]] + rest;
        assert ([t[0]] + rest)[1..] == rest;
      } else {
        assert Select(t, k) == rest;
      }
    }
  }

  /** Selecting from two tables placed one after the other selects from each in turn. */
  lemma {:induction false} SelectAppend(a: Table, b: Table, k: real)
    ensures Select(a + b, k) == Select(a, k) + Select(b, k)
    decreases |a|
  {
    if a != [] {
      SelectAppend(a[1..], b, k);
      assert (a + b)[1..] == a[1..] + b;
      assert (a + b)[0] == a[0];
    } else {
      assert a + b == b;
    }
  }

  /** A table made only of class-`k` rows is its own class-`k` selection. */
  lemma {:induction false} SelectAll(t: Table, k: real)
    requires forall e :: e in t ==> Cell(e.row, Outcome) == k
    ensures Select(t, k) == t
    decreases |t|
  {
    if t != [] {
      assert t[0] in t;
      forall e | e in t[1..]
        ensures Cell(e.row, Outcome) == k
      {
        assert e in t;
      }
      SelectAll(t[1..], k);
      assert t == [t[0]] + t[1..];
    }
  }

  /** A table with no class-`k` row has an empty class-`k` selection. */
  lemma {:induction false} SelectNone(t: Table, k: real)
    requires forall e :: e in t ==> Cell(e.row, Outcome) != k
    ensures Select(t, k) == []
    decreases |t|
  {
    if t != [] {
      assert t[0] in t;
      forall e | e in t[1..]
        ensures Cell(e.row, Outcome) != k
      {
        assert e in t;
      }
      SelectNone(t[1..], k);
    }
  }

  /** Joining a block of class-`k` rows and a block of class-`j` rows, `k != j`,
      gives a table whose class-`k` and class-`j` selections are those blocks. */
  lemma SelectJoin(a: Table, b: Table, k: real, j: real)
    requires k != j
    requires forall e :: e in a ==> Cell(e.row, Outcome) == k
    requires forall e :: e in b ==> Cell(e.row, Outcome) == j
    ensures Select(a + b, k) == a && Select(a + b, j) == b
  {
    SelectAppend(a, b, k);
    SelectAppend(a, b, j);
    SelectAll(a, k);
    SelectAll(b, j);
    SelectNone(a, j);
    SelectNone(b, k);
  }

  /** Placing the first `m` Outcome-1 rows before the first `m` Outcome-0 rows
      gives a table whose classes are exactly those two prefixes. */
  lemma SelectPrefixes(t: Table, m: nat)
    requires m <= |Select(t, 0.0)| && m <= |Select(t, 1.0)|
    ensures var r := Select(t, 1.0)[..m] + Select(t, 0.0)[..m];
      && Select(r, 1.0) == Select(t, 1.0)[..m]
      && Select(r, 0.0) == Select(t, 0.0)[..m]
  {
    var zeros := Select(t, 0.0);
    var ones := Select(t, 1.0);
    assert forall e :: e in ones[..m] ==> e in ones;
    assert forall e :: e in zeros[..m] ==> e in zeros;
    SelectJoin(ones[..m], zeros[..m], 1.0, 0.0);
  }

  /** Python's `True` and `False` taken as the integers 1 and 0. */
  function AsInt(b: bool): nat
  {
    if b then 1 else 0
  }

  /** The smaller of two class sizes. */
  function Min(a: nat, b: nat): nat
  {
    if a <= b then a else b
  }

  /** `min_l` as line 110 of main.py computes it from the class sizes `l0` and `l1`. */
  function MinLength(l0: nat, l1: nat): (m: nat)
    ensures m <= l0 && m <= l1
  {
    l0 * AsInt(l0 < l1) + l1 * AsInt(l0 > l1)
  }

  /** `min_l` is the smaller class size exactly when the sizes differ (or the
      smaller one is 0 anyway). */
  lemma MinLengthIsMin(l0: nat, l1: nat)
    ensures MinLength(l0, l1) == Min(l0, l1) <==> (l0 != l1 || l0 == 0)
  {
  }

  /** With equal class sizes, `min_l` is 0. */
  lemma MinLengthOfEqualSizes(l0: nat, l1: nat)
    requires l0 == l1
    ensures MinLength(l0, l1) == 0
  {
  }

  /** `equalize_data(data)`, as written: the first `min_l` Outcome-1 rows, then
      the first `min_l` Outcome-0 rows. The input is a value and is not changed. */
  function EqualizeData(t: Table): (r: Table)
    ensures |r| == 2 * MinLength(|Select(t, 0.0)|, |Select(t, 1.0)|)
    ensures forall e :: e in r ==> e in t
    ensures forall e :: e in r ==> Cell(e.row, Outcome) == 0.0 || Cell(e.row, Outcome) == 1.0
  {
    var zeros := Select(t, 0.0);
    var ones := Select(t, 1.0);
    var m := MinLength(|zeros|, |ones|);
    assert forall e :: e in ones[..m] ==> e in ones;
    assert forall e :: e in zeros[..m] ==> e in zeros;
    ones[..m] + zeros[..m]
  }

  /** The Outcome-1 rows of the result come first; then the Outcome-0 rows. */
  lemma EqualizeOnesFirst(t: Table)
    ensures var m := MinLength(|Select(t, 0.0)|, |Select(t, 1.0)|);
      && (forall i :: 0 <= i < m ==> Cell(EqualizeData(t)[i].row, Outcome) == 1.0)
      && (forall i :: m <= i < 2 * m ==> Cell(EqualizeData(t)[i].row, Outcome) == 0.0)
  {
    var zeros := Select(t, 0.0);
    var ones := Select(t, 1.0);
    var m := MinLength(|zeros|, |ones|);
    var r := EqualizeData(t);
    forall i | 0 <= i < m
      ensures Cell(r[i].row, Outcome) == 1.0
    {
      assert r[i] == ones[i];
      assert ones[i] in ones;
    }
    forall i | m <= i < 2 * m
      ensures Cell(r[i].row, Outcome) == 0.0
    {
      assert r[i] == zeros[i - m];
      assert zeros[i - m] in zeros;
    }
  }

  /** Each class in the result is the first `min_l` rows of that class in the
      input, in their original order. */
  lemma EqualizeClassPrefixes(t: Table)
    ensures var m := MinLength(|Select(t, 0.0)|, |Select(t, 1.0)|);
      && Select(EqualizeData(t), 1.0) == Select(t, 1.0)[..m]
      && Select(EqualizeData(t), 0.0) == Select(t, 0.0)[..m]
  {
    SelectPrefixes(t, MinLength(|Select(t, 0.0)|, |Select(t, 1.0)|));
  }

  /** When the class sizes differ, the result holds equally many rows of each
      class, as many as the smaller class has. */
  lemma EqualizeBalanced(t: Table)
    requires |Select(t, 0.0)| != |Select(t, 1.0)|
    ensures |Select(EqualizeData(t), 0.0)| == Min(|Select(t, 0.0)|, |Select(t, 1.0)|)
    ensures |Select(EqualizeData(t), 1.0)| == Min(|Select(t, 0.0)|, |Select(t, 1.0)|)
  {
    EqualizeClassPrefixes(t);
    MinLengthIsMin(|Select(t, 0.0)|, |Select(t, 1.0)|);
  }

  /** When both classes are equally large, `min_l` is 0 and the result is empty. */
  lemma EqualizeEqualSizesEmpty(t: Table)
    requires |Select(t, 0.0)| == |Select(t, 1.0)|
    ensures EqualizeData(t) == []
  {
    MinLengthOfEqualSizes(|Select(t, 0.0)|, |Select(t, 1.0)|);
  }

  /** A table of one Outcome-1 row and one Outcome-0 row, already balanced, comes
      back from `equalize_data` empty. */
  lemma BalancedPairIsDropped(one: Row, zero: Row)
    requires Cell(one, Outcome) == 1.0 && Cell(zero, Outcome) == 0.0
    ensures EqualizeData([Entry(0, one), Entry(1, zero)]) == []
    ensures EqualizeIntended([Entry(0, one), Entry(1, zero)]) == [Entry(0, one), Entry(1, zero)]
  {
    var t := [Entry(0, one), Entry(1, zero)];
    assert t[1..] == [Entry(1, zero)];
    assert t[1..][1..] == [];
    assert Select(t, 0.0) == [Entry(1, zero)];
    assert Select(t, 1.0) == [Entry(0, one)];
  }

  /** Class balancing with `min_l` taken as the smaller class size, which is what
      the docstring of `equalize_data` asks for. */
  function EqualizeIntended(t: Table): (r: Table)
    ensures forall e :: e in r ==> e in t
  {
    var zeros := Select(t, 0.0);
    var ones := Select(t, 1.0);
    var m := Min(|zeros|, |ones|);
    assert forall e :: e in ones[..m] ==> e in ones;
    assert forall e :: e in zeros[..m] ==> e in zeros;
    ones[..m] + zeros[..m]
  }

  /** The intended balancing always yields equally many rows of each class, as
      many as the smaller class has, each class in its original order. */
  lemma IntendedBalanced(t: Table)
    ensures var m := Min(|Select(t, 0.0)|, |Select(t, 1.0)|);
      && Select(EqualizeIntended(t), 1.0) == Select(t, 1.0)[..m]
      && Select(EqualizeIntended(t), 0.0) == Select(t, 0.0)[..m]
      && |Select(EqualizeIntended(t), 0.0)| == |Select(EqualizeIntended(t), 1.0)| == m
  {
    SelectPrefixes(t, Min(|Select(t, 0.0)|, |Select(t, 1.0)|));
  }

  /** Where the class sizes differ, the code as written and the intended
      balancing agree. */
  lemma IntendedAgreesWhenUnequal(t: Table)
    requires |Select(t, 0.0)| != |Select(t, 1.0)|
    ensures EqualizeData(t) == EqualizeIntended(t)
  {
    MinLengthIsMin(|Select(t, 0.0)|, |Select(t, 1.0)|);
  }
}
