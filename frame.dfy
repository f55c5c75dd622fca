/** The in-memory data frame the feature-engineering helpers work on: an
    ordered list of column names and a sequence of rows, each row holding one
    cell per column. Only the handful of frame operations those helpers use
    are modelled: selecting columns by name, replacing a named column and
    appending a new one. */
module Frame {

  datatype Option<+T> = None | Some(value: T)

  datatype Result<+T, +E> = Ok(value: T) | Err(error: E)

  /** One cell of a frame. Numbers are integers; `Missing` stands for NaN. */
  datatype Cell = Str(s: string) | Num(n: int) | Missing

  /** A frame, stored row by row. Row order is the frame's index order. */
  datatype Table = Table(columns: seq<string>, rows: seq<seq<Cell>>)

  /** The record identifier every helper keeps as its first output column. */
  const Key: string := "SK_ID_CURR"

  predicate Distinct<T(==)>(xs: seq<T>)
  {
    forall i, j :: 0 <= i < j < |xs| ==> xs[i] != xs[j]
  }

  /** Every row has exactly one cell per column. */
  predicate Rectangular(t: Table)
  {
    forall row :: 0 <= row < |t.rows| ==> |t.rows[row]| == |t.columns|
  }

  /** A frame whose column names are also unique. */
  predicate WellFormed(t: Table)
  {
    Rectangular(t) && Distinct(t.columns)
  }

  /** Every name of `names` is a column of `t`. */
  predicate HasColumns(t: Table, names: seq<string>)
  {
    forall n :: n in names ==> n in t.columns
  }

  /** `k` is the position of the first occurrence of `x` in `xs`. */
  predicate FirstIndex<T(==)>(xs: seq<T>, x: T, k: int)
  {
    0 <= k < |xs| && xs[k] == x && x !in xs[..k]
  }

  /** The position of the first occurrence of `x` in `xs`, as a list's
      `index` method finds it; `None` where that method raises. */
  function IndexOf<T(==)>(xs: seq<T>, x: T): (r: Option<nat>)
    ensures r.Some? <==> x in xs
    ensures r.Some? ==> FirstIndex(xs, x, r.value)
  {
    if |xs| == 0 then None
    else if xs[0] == x then Some(0)
    else
      match IndexOf(xs[1..], x)
      case None => None
      case Some(i) =>
        assert xs[1..][..i] == xs[1..i + 1];
        assert xs[..i + 1] == [xs[0]] + xs[1..i + 1];
        Some(i + 1)
  }

  /** The position of column `name`; with duplicate names, the first. */
  function Position(names: seq<string>, name: string): (p: nat)
    requires name in names
    ensures FirstIndex(names, name, p)
  {
    IndexOf(names, name).value
  }

  /** A first occurrence is unique. */
  lemma IndexOfIs<T>(xs: seq<T>, x: T, i: nat)
    requires FirstIndex(xs, x, i)
    ensures IndexOf(xs, x) == Some(i)
  {
    var p := IndexOf(xs, x).value;
    assert forall k :: 0 <= k < i ==> xs[..i][k] == xs[k];
    assert forall k :: 0 <= k < p ==> xs[..p][k] == xs[k];
  }

  lemma PositionIs(names: seq<string>, name: string, i: nat)
    requires FirstIndex(names, name, i)
    ensures Position(names, name) == i
  {
    IndexOfIs(names, name, i);
  }

  /** Positions in a prefix do not move when columns are appended. */
  lemma PositionAppend(names: seq<string>, extra: seq<string>, name: string)
    requires name in names
    ensures name in names + extra
    ensures Position(names + extra, name) == Position(names, name)
  {
    var p := Position(names, name);
    assert (names + extra)[..p] == names[..p];
    PositionIs(names + extra, name, p);
  }

  /** The cell of column `name` in row `row`. */
  function At(t: Table, row: int, name: string): Cell
    requires Rectangular(t) && 0 <= row < |t.rows| && name in t.columns
  {
    t.rows[row][Position(t.columns, name)]
  }

  /** Column `name`, top to bottom. */
  function Column(t: Table, name: string): (c: seq<Cell>)
    requires Rectangular(t) && name in t.columns
    ensures |c| == |t.rows|
    ensures forall row :: 0 <= row < |t.rows| ==> c[row] == At(t, row, name)
  {
    seq(|t.rows|, row requires 0 <= row < |t.rows| => At(t, row, name))
  }

  /** Label-based selection of the columns `names`, in that order, keeping
      every row. */
  function Select(t: Table, names: seq<string>): (r: Table)
    requires Rectangular(t) && HasColumns(t, names)
    ensures r.columns == names && |r.rows| == |t.rows| && Rectangular(r)
    ensures forall row, k :: 0 <= row < |t.rows| && 0 <= k < |names| ==>
      At(r, row, names[k]) == At(t, row, names[k])
    ensures forall row, n :: 0 <= row < |t.rows| && n in names ==> At(r, row, n) == At(t, row, n)
  {
    var r := Table(names, seq(|t.rows|, row requires 0 <= row < |t.rows| =>
      seq(|names|, k requires 0 <= k < |names| => At(t, row, names[k]))));
    assert forall k :: 0 <= k < |names| ==> names[Position(names, names[k])] == names[k];
    assert forall n :: n in names ==> names[Position(names, n)] == n;
    r
  }

  /** Assignment to an existing column: column `name` becomes `values`,
      every other column keeps its cells. */
  function SetColumn(t: Table, name: string, values: seq<Cell>): (r: Table)
    requires Rectangular(t) && name in t.columns && |values| == |t.rows|
    ensures r.columns == t.columns && |r.rows| == |t.rows| && Rectangular(r)
    ensures forall row :: 0 <= row < |t.rows| ==> At(r, row, name) == values[row]
    ensures forall row, other :: 0 <= row < |t.rows| && other in t.columns && other != name ==>
      At(r, row, other) == At(t, row, other)
  {
    var p := Position(t.columns, name);
    Table(t.columns, seq(|t.rows|, row requires 0 <= row < |t.rows| => t.rows[row][p := values[row]]))
  }

  /** Assignment to a new column: `name` is appended after the existing
      columns, which keep their cells. */
  function AddColumn(t: Table, name: string, values: seq<Cell>): (r: Table)
    requires Rectangular(t) && name !in t.columns && |values| == |t.rows|
    ensures r.columns == t.columns + [name] && |r.rows| == |t.rows| && Rectangular(r)
    ensures forall row :: 0 <= row < |t.rows| ==> At(r, row, name) == values[row]
    ensures forall row, other :: 0 <= row < |t.rows| && other in t.columns ==>
      At(r, row, other) == At(t, row, other)
  {
    var r := Table(t.columns + [name], seq(|t.rows|, row requires 0 <= row < |t.rows| => t.rows[row] + [values[row]]));
    assert FirstIndex(t.columns + [name], name, |t.columns|);
    PositionIs(t.columns + [name], name, |t.columns|);
    forall other | other in t.columns
      ensures Position(t.columns + [name], other) == Position(t.columns, other)
    {
      PositionAppend(t.columns, [name], other);
    }
    r
  }
}
