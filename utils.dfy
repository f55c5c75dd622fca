/** The three feature-engineering helpers of the loan-default project that
    carry rules of their own: explicit-rank label encoding, row-wise
    aggregation of column groups, and the cleanup of the "days" columns.
    Each takes a frame and returns a new frame whose first column is the
    record identifier `Key`, with the input's rows in the input's order. */
module Utils {
  import opened Frame

  /** `out` has the columns `Key` followed by `names`, one row per row of
      `df`, and carries `df`'s identifier column over unchanged. */
  predicate KeyedBy(out: Table, names: seq<string>, df: Table)
  {
    && out.columns == [Key] + names
    && |out.rows| == |df.rows|
    && Rectangular(out)
    && Rectangular(df)
    && Key in df.columns
    && forall row :: 0 <= row < |df.rows| ==> At(out, row, Key) == At(df, row, Key)
  }

  /** No cell of column `name` is a string. */
  predicate NumericColumn(t: Table, name: string)
    requires Rectangular(t) && name in t.columns
  {
    forall row :: 0 <= row < |t.rows| ==> !At(t, row, name).Str?
  }

  // ---------------------------------------------------------------------
  // label_encoding
  // ---------------------------------------------------------------------

  /** The value found in row `row` of the `position`-th labelled column is
      not in that column's category list. */
  datatype LabelError = NotInCategories(position: nat, row: nat, value: Cell)

  /** `code` is the rank of `value` in `categories`: the 0-based position of
      its first occurrence. */
  predicate Encodes(categories: seq<Cell>, value: Cell, code: Cell)
  {
    code.Num? && FirstIndex(categories, value, code.n)
  }

  /** One labelled column, value by value from the top: each value becomes
      its rank in `categories`; the first value that is not listed stops the
      column and is reported by its row. */
  function EncodeColumn(values: seq<Cell>, categories: seq<Cell>): (r: Result<seq<Cell>, nat>)
    ensures r.Ok? <==> forall k :: 0 <= k < |values| ==> values[k] in categories
    ensures r.Ok? ==> |r.value| == |values|
    ensures r.Ok? ==> forall k :: 0 <= k < |values| ==> Encodes(categories, values[k], r.value[k])
    ensures r.Err? ==> r.error < |values| && values[r.error] !in categories
    ensures r.Err? ==> forall k :: 0 <= k < r.error ==> values[k] in categories
  {
    if |values| == 0 then Ok([])
    else
      match IndexOf(categories, values[0])
      case None => Err(0)
      case Some(code) =>
        match EncodeColumn(values[1..], categories)
        case Err(k) => Err(k + 1)
        case Ok(rest) => Ok([Num(code)] + rest)
  }

  /** Every labelled column is encoded up to, but not including, the column
      `e.position`, whose row `e.row` holds the first unlisted value. */
  predicate FirstFailure(df: Table, colToLabel: seq<string>, colCategories: seq<seq<Cell>>, e: LabelError)
    requires Rectangular(df) && HasColumns(df, colToLabel) && |colToLabel| <= |colCategories|
  {
    && e.position < |colToLabel|
    && e.row < |df.rows|
    && e.value == At(df, e.row, colToLabel[e.position])
    && e.value !in colCategories[e.position]
    && (forall i, row :: 0 <= i < e.position && 0 <= row < |df.rows| ==>
          At(df, row, colToLabel[i]) in colCategories[i])
    && (forall row :: 0 <= row < e.row ==>
          At(df, row, colToLabel[e.position]) in colCategories[e.position])
  }

  /** What `LabelEncoding` needs of its input: the labelled columns exist,
      are distinct and are not the identifier, and every one has a category
      list of at most 128 entries, so that each rank fits a signed byte. */
  predicate Labelable(df: Table, colToLabel: seq<string>, colCategories: seq<seq<Cell>>)
  {
    && WellFormed(df) && Key in df.columns && HasColumns(df, colToLabel)
    && Key !in colToLabel && Distinct(colToLabel)
    && |colToLabel| <= |colCategories|
    && forall i :: 0 <= i < |colToLabel| ==> |colCategories[i]| <= 128
  }

  /** The frame being built by `LabelEncoding` once the first `i` labelled
      columns are encoded: the others still hold the input's values. */
  predicate LabelledUpTo(df: Table, colToLabel: seq<string>, colCategories: seq<seq<Cell>>, out: Table, i: int)
    requires Labelable(df, colToLabel, colCategories)
  {
    && 0 <= i <= |colToLabel|
    && KeyedBy(out, colToLabel, df)
    && (forall j, row :: 0 <= j < i && 0 <= row < |df.rows| ==>
          Encodes(colCategories[j], At(df, row, colToLabel[j]), At(out, row, colToLabel[j])))
    && (forall j, row :: i <= j < |colToLabel| && 0 <= row < |df.rows| ==>
          At(out, row, colToLabel[j]) == At(df, row, colToLabel[j]))
  }

  /** Encoding column `i` in place extends the encoded prefix by one. */
  lemma LabelStep(df: Table, colToLabel: seq<string>, colCategories: seq<seq<Cell>>, out: Table, i: int, codes: seq<Cell>)
    requires Labelable(df, colToLabel, colCategories)
    requires LabelledUpTo(df, colToLabel, colCategories, out, i) && i < |colToLabel|
    requires EncodeColumn(Column(out, colToLabel[i]), colCategories[i]) == Ok(codes)
    ensures LabelledUpTo(df, colToLabel, colCategories, SetColumn(out, colToLabel[i], codes), i + 1)
  {
    var col := colToLabel[i];
    var values := Column(out, col);
    var next := SetColumn(out, col, codes);
    forall row | 0 <= row < |df.rows|
      ensures Encodes(colCategories[i], At(df, row, col), At(next, row, col))
    {
      assert values[row] == At(df, row, col);
    }
    forall j, row | 0 <= j < |colToLabel| && j != i && 0 <= row < |df.rows|
      ensures At(next, row, colToLabel[j]) == At(out, row, colToLabel[j])
    {
      assert colToLabel[j] in out.columns && colToLabel[j] != col;
    }
    forall row | 0 <= row < |df.rows|
      ensures At(next, row, Key) == At(df, row, Key)
    {
      assert Key != col;
    }
  }

  /** An unlisted value in column `i` is the first one of the whole frame. */
  lemma LabelFailure(df: Table, colToLabel: seq<string>, colCategories: seq<seq<Cell>>, out: Table, i: int, k: nat)
    requires Labelable(df, colToLabel, colCategories)
    requires LabelledUpTo(df, colToLabel, colCategories, out, i) && i < |colToLabel|
    requires EncodeColumn(Column(out, colToLabel[i]), colCategories[i]) == Err(k)
    ensures k < |df.rows|
    ensures FirstFailure(df, colToLabel, colCategories, NotInCategories(i, k, At(df, k, colToLabel[i])))
  {
    forall j, row | 0 <= j < i && 0 <= row < |df.rows|
      ensures At(df, row, colToLabel[j]) in colCategories[j]
    {
      var code := At(out, row, colToLabel[j]);
      assert colCategories[j][code.n] == At(df, row, colToLabel[j]);
    }
  }

  /** Selects `Key` and the columns `colToLabel`, then replaces, column by
      column, each value of the i-th listed column by its rank in the i-th
      category list. An unlisted value fails the whole call. */
  method LabelEncoding(df: Table, colToLabel: seq<string>, colCategories: seq<seq<Cell>>)
    returns (r: Result<Table, LabelError>)
    requires Labelable(df, colToLabel, colCategories)
    ensures r.Ok? <==> forall i, row :: 0 <= i < |colToLabel| && 0 <= row < |df.rows| ==>
      At(df, row, colToLabel[i]) in colCategories[i]
    ensures r.Ok? ==> KeyedBy(r.value, colToLabel, df)
    ensures r.Ok? ==> forall i, row :: 0 <= i < |colToLabel| && 0 <= row < |df.rows| ==>
      Encodes(colCategories[i], At(df, row, colToLabel[i]), At(r.value, row, colToLabel[i]))
    ensures r.Err? ==> FirstFailure(df, colToLabel, colCategories, r.error)
  {
    var out := Select(df, [Key] + colToLabel);
    var i := 0;
    while i < |colToLabel|
      invariant LabelledUpTo(df, colToLabel, colCategories, out, i)
    {
      var col := colToLabel[i];
      match EncodeColumn(Column(out, col), colCategories[i])
      case Err(k) =>
        LabelFailure(df, colToLabel, colCategories, out, i, k);
        r := Err(NotInCategories(i, k, At(df, k, col)));
        return;
      case Ok(codes) =>
        LabelStep(df, colToLabel, colCategories, out, i, codes);
        out := SetColumn(out, col, codes);
      i := i + 1;
    }
    forall i, row | 0 <= i < |colToLabel| && 0 <= row < |df.rows|
      ensures At(df, row, colToLabel[i]) in colCategories[i]
    {
      var code := At(out, row, colToLabel[i]);
      assert colCategories[i][code.n] == At(df, row, colToLabel[i]);
    }
    r := Ok(out);
  }

  /** Weekday names ranked from lower to higher. */
  const Weekdays: seq<Cell> :=
    [Str("Monday"), Str("Tuesday"), Str("Wednesday"), Str("Thursday"), Str("Friday"), Str("Saturday"), Str("Sunday")]

  /** Ranks are 0-based: Monday is encoded as 0 (not 1), Wednesday as 2 and
      Sunday as 6; a missing cell is not a weekday name and fails. */
  lemma WeekdayRanks()
    ensures Encodes(Weekdays, Str("Monday"), Num(0)) && !Encodes(Weekdays, Str("Monday"), Num(1))
    ensures Encodes(Weekdays, Str("Wednesday"), Num(2))
    ensures Encodes(Weekdays, Str("Sunday"), Num(6))
    ensures Missing !in Weekdays
  {
  }

  // ---------------------------------------------------------------------
  // aggregate_columns_on_col
  // ---------------------------------------------------------------------

  /** One entry of the name -> column-list mapping: column `output` is the
      row-wise sum of the columns `inputs`. */
  datatype Aggregation = Aggregation(output: string, inputs: seq<string>)

  /** The mapping's output names, in its iteration order. */
  function Outputs(m: seq<Aggregation>): (names: seq<string>)
    ensures |names| == |m| && forall i :: 0 <= i < |m| ==> names[i] == m[i].output
  {
    seq(|m|, i requires 0 <= i < |m| => m[i].output)
  }

  /** What a cell adds to a row sum: its number, or nothing. */
  function Amount(c: Cell): int
  {
    if c.Num? then c.n else 0
  }

  /** Sum of the numbers among `cells`: missing cells are skipped, so an
      empty or all-missing list sums to 0. */
  function SumPresent(cells: seq<Cell>): (s: int)
    ensures (forall k :: 0 <= k < |cells| ==> !cells[k].Num? || cells[k].n >= 0) ==> s >= 0
    ensures (forall k :: 0 <= k < |cells| ==> !cells[k].Num? || cells[k].n <= 0) ==> s <= 0
  {
    if |cells| == 0 then 0 else Amount(cells[0]) + SumPresent(cells[1..])
  }

  /** The cells of row `row` in the columns `names`, in that order. */
  function RowCells(df: Table, row: int, names: seq<string>): (cells: seq<Cell>)
    requires Rectangular(df) && 0 <= row < |df.rows| && HasColumns(df, names)
  {
    seq(|names|, k requires 0 <= k < |names| => At(df, row, names[k]))
  }

  /** The row-wise sum of the columns `names`. */
  function SumColumns(df: Table, names: seq<string>): (c: seq<Cell>)
    requires Rectangular(df) && HasColumns(df, names)
    ensures |c| == |df.rows|
    ensures forall row :: 0 <= row < |df.rows| ==> c[row] == Num(SumPresent(RowCells(df, row, names)))
    ensures forall row :: 0 <= row < |df.rows| && (forall k :: 0 <= k < |names| ==> At(df, row, names[k]) == Missing) ==>
      c[row] == Num(0)
  {
    var c := seq(|df.rows|, row requires 0 <= row < |df.rows| => Num(SumPresent(RowCells(df, row, names))));
    assert forall row :: 0 <= row < |df.rows| && (forall k :: 0 <= k < |names| ==> At(df, row, names[k]) == Missing) ==>
      SumPresent(RowCells(df, row, names)) == 0 by {
      forall row | 0 <= row < |df.rows| && (forall k :: 0 <= k < |names| ==> At(df, row, names[k]) == Missing)
        ensures SumPresent(RowCells(df, row, names)) == 0
      {
        SumPresentAllMissing(RowCells(df, row, names));
      }
    }
    c
  }

  /** Every listed input column exists and holds no strings. */
  predicate Summable(df: Table, m: seq<Aggregation>)
    requires Rectangular(df)
  {
    forall i :: 0 <= i < |m| ==>
      && HasColumns(df, m[i].inputs)
      && forall k :: 0 <= k < |m[i].inputs| ==> NumericColumn(df, m[i].inputs[k])
  }

  /** What `AggregateColumnsOnCol` needs of its input: the output names are
      distinct and are not the identifier, and the input columns exist and
      hold no strings. */
  predicate Aggregatable(df: Table, m: seq<Aggregation>)
  {
    && WellFormed(df) && Key in df.columns && Summable(df, m)
    && Key !in Outputs(m) && Distinct(Outputs(m))
  }

  /** The frame being built by `AggregateColumnsOnCol` once the first `i`
      entries of the mapping have their column. */
  predicate AggregatedUpTo(df: Table, m: seq<Aggregation>, out: Table, i: int)
    requires Aggregatable(df, m)
  {
    && 0 <= i <= |m|
    && KeyedBy(out, Outputs(m)[..i], df)
    && forall j, row :: 0 <= j < i && 0 <= row < |df.rows| ==>
         At(out, row, m[j].output) == Num(SumPresent(RowCells(df, row, m[j].inputs)))
  }

  /** Appending the sum column of entry `i` extends the built prefix by one. */
  lemma AggregateStep(df: Table, m: seq<Aggregation>, out: Table, i: int)
    requires Aggregatable(df, m) && AggregatedUpTo(df, m, out, i) && i < |m|
    ensures m[i].output !in out.columns
    ensures AggregatedUpTo(df, m, AddColumn(out, m[i].output, SumColumns(df, m[i].inputs)), i + 1)
  {
    var names := Outputs(m);
    assert forall j :: 0 <= j < i ==> names[..i][j] == names[j];
    var sums := SumColumns(df, m[i].inputs);
    var next := AddColumn(out, m[i].output, sums);
    assert names[..i + 1] == names[..i] + [m[i].output];
    forall j, row | 0 <= j <= i && 0 <= row < |df.rows|
      ensures At(next, row, m[j].output) == Num(SumPresent(RowCells(df, row, m[j].inputs)))
    {
      if j < i {
        assert m[j].output in out.columns;
      } else {
        assert At(next, row, m[i].output) == sums[row];
      }
    }
  }

  /** Starts from the identifier column alone and appends, entry by entry of
      the mapping, one column holding the row-wise sum of the entry's input
      columns. */
  method AggregateColumnsOnCol(df: Table, columnsToAggregate: seq<Aggregation>) returns (out: Table)
    requires Aggregatable(df, columnsToAggregate)
    ensures KeyedBy(out, Outputs(columnsToAggregate), df)
    ensures forall i, row :: 0 <= i < |columnsToAggregate| && 0 <= row < |df.rows| ==>
      At(out, row, columnsToAggregate[i].output) == Num(SumPresent(RowCells(df, row, columnsToAggregate[i].inputs)))
  {
    var m := columnsToAggregate;
    out := Select(df, [Key]);
    var i := 0;
    while i < |m|
      invariant AggregatedUpTo(df, m, out, i)
    {
      AggregateStep(df, m, out, i);
      out := AddColumn(out, m[i].output, SumColumns(df, m[i].inputs));
      i := i + 1;
    }
    assert Outputs(m)[..|m|] == Outputs(m);
  }

  /** Sums over consecutive pieces add up. */
  lemma {:induction false} SumPresentAppend(a: seq<Cell>, b: seq<Cell>)
    ensures SumPresent(a + b) == SumPresent(a) + SumPresent(b)
  {
    if |a| == 0 {
      assert a + b == b;
    } else {
      assert (a + b)[1..] == a[1..] + b;
      SumPresentAppend(a[1..], b);
    }
  }

  /** An empty or all-missing list of cells sums to 0. */
  lemma {:induction false} SumPresentAllMissing(cells: seq<Cell>)
    requires forall k :: 0 <= k < |cells| ==> cells[k] == Missing
    ensures SumPresent(cells) == 0
  {
    if |cells| > 0 {
      SumPresentAllMissing(cells[1..]);
    }
  }

  /** A missing cell contributes nothing, wherever it stands. */
  lemma SumPresentSkipsMissing(a: seq<Cell>, b: seq<Cell>)
    ensures SumPresent(a + [Missing] + b) == SumPresent(a + b)
  {
    SumPresentAppend(a + [Missing], b);
    SumPresentAppend(a, [Missing]);
    SumPresentAppend(a, b);
  }

  /** Taking one cell out of a list takes its amount out of the sum. */
  lemma {:induction false} SumPresentRemove(b: seq<Cell>, j: int)
    requires 0 <= j < |b|
    ensures SumPresent(b) == Amount(b[j]) + SumPresent(b[..j] + b[j + 1..])
  {
    var rest := b[..j] + b[j + 1..];
    if j == 0 {
      assert rest == b[1..];
    } else {
      var tail := b[1..];
      SumPresentRemove(tail, j - 1);
      assert rest[0] == b[0];
      assert rest[1..] == tail[..j - 1] + tail[j..];
    }
  }

  /** In a reordering `b` of a non-empty list `a`, the head of `a` stands at
      some position `j`; without it, `b` reorders the tail of `a`. */
  lemma MatchHead(a: seq<Cell>, b: seq<Cell>) returns (j: int)
    requires multiset(a) == multiset(b) && |a| > 0
    ensures 0 <= j < |b| && b[j] == a[0]
    ensures multiset(a[1..]) == multiset(b[..j] + b[j + 1..])
  {
    assert a[0] in multiset(b);
    j :| 0 <= j < |b| && b[j] == a[0];
    assert a == [a[0]] + a[1..];
    assert b == b[..j] + [b[j]] + b[j + 1..];
    var rest := b[..j] + b[j + 1..];
    assert multiset(a[1..]) == multiset(a) - multiset{a[0]};
    assert multiset(rest) == multiset(b) - multiset{b[j]};
  }

  /** The sum depends only on which cells are listed, not on their order. */
  lemma {:induction false} SumPresentPermutation(a: seq<Cell>, b: seq<Cell>)
    requires multiset(a) == multiset(b)
    ensures SumPresent(a) == SumPresent(b)
    decreases |a|
  {
    if |a| == 0 {
      assert |multiset(b)| == 0;
    } else {
      var j := MatchHead(a, b);
      SumPresentPermutation(a[1..], b[..j] + b[j + 1..]);
      SumPresentRemove(b, j);
    }
  }

  /** A frame with two summable columns; B is missing in row 1. */
  const SumExample: Table := Table([Key, "A", "B"], [[Num(1), Num(3), Num(5)], [Num(2), Num(4), Missing]])

  /** The mapping {"total": ["A", "B"]}. */
  const TotalOfAB: seq<Aggregation> := [Aggregation("total", ["A", "B"])]

  lemma SumExampleReady()
    ensures Aggregatable(SumExample, TotalOfAB)
    ensures RowCells(SumExample, 0, TotalOfAB[0].inputs) == [Num(3), Num(5)]
    ensures RowCells(SumExample, 1, TotalOfAB[0].inputs) == [Num(4), Missing]
  {
    var t := SumExample;
    PositionIs(t.columns, "A", 1);
    PositionIs(t.columns, "B", 2);
    assert Outputs(TotalOfAB) == ["total"];
  }

  /** A caller's view: the mapping {"total": ["A", "B"]} sums A and B row
      by row, and a missing B adds nothing. */
  method AggregateExample() returns (out: Table)
    ensures out.columns == [Key, "total"] && |out.rows| == 2 && Rectangular(out)
    ensures At(out, 0, Key) == Num(1) && At(out, 0, "total") == Num(8)
    ensures At(out, 1, Key) == Num(2) && At(out, 1, "total") == Num(4)
  {
    SumExampleReady();
    out := AggregateColumnsOnCol(SumExample, TotalOfAB);
    assert SumPresent([Num(3), Num(5)]) == 8;
    assert SumPresent([Num(4), Missing]) == 4;
  }

  // ---------------------------------------------------------------------
  // columns_not_changed
  // ---------------------------------------------------------------------

  const Publish: string := "DAYS_ID_PUBLISH"

  /** The columns that count days back from the application date. */
  const DaysColumns: seq<string> := ["DAYS_BIRTH", "DAYS_EMPLOYED", "DAYS_REGISTRATION", Publish]

  /** The comparison `cell > 0`; false for a missing cell. */
  predicate IsPositive(c: Cell): (b: bool)
    ensures c == Missing ==> !b
    ensures b ==> c.Num? && AbsCell(c) == c && c != Num(0)
  {
    c.Num? && c.n > 0
  }

  /** Absolute value of a numeric cell; a missing cell stays missing. */
  function AbsCell(c: Cell): (r: Cell)
    ensures r.Num? <==> c.Num?
    ensures r.Num? ==> r.n >= 0 && (r.n == c.n || r.n == -c.n)
    ensures !c.Num? ==> r == c
  {
    match c
    case Num(n) => Num(if n < 0 then -n else n)
    case _ => c
  }

  /** The masked assignment: every row whose publish cell is positive becomes
      missing in every column, the others are kept. */
  function BlankRows(t: Table): (r: Table)
    requires Rectangular(t) && Publish in t.columns
    ensures r.columns == t.columns && |r.rows| == |t.rows| && Rectangular(r)
    ensures forall row, c :: 0 <= row < |t.rows| && c in t.columns ==>
      At(r, row, c) == if IsPositive(At(t, row, Publish)) then Missing else At(t, row, c)
  {
    Table(t.columns, seq(|t.rows|, row requires 0 <= row < |t.rows| =>
      if IsPositive(At(t, row, Publish)) then seq(|t.columns|, _ => Missing) else t.rows[row]))
  }

  /** Replaces the columns `names` by their absolute values. */
  function AbsColumns(t: Table, names: seq<string>): (r: Table)
    requires Rectangular(t)
    ensures r.columns == t.columns && |r.rows| == |t.rows| && Rectangular(r)
    ensures forall row, c :: 0 <= row < |t.rows| && c in t.columns ==>
      At(r, row, c) == if c in names then AbsCell(At(t, row, c)) else At(t, row, c)
  {
    Table(t.columns, seq(|t.rows|, row requires 0 <= row < |t.rows| =>
      seq(|t.columns|, j requires 0 <= j < |t.columns| =>
        if t.columns[j] in names then AbsCell(t.rows[row][j]) else t.rows[row][j])))
  }

  /** What `ColumnsNotChanged` needs of its input: the kept columns exist
      and include the four day columns; DAYS_ID_PUBLISH holds no strings,
      since every row compares it with 0; the other day columns hold no
      strings in the rows that are not blanked, since only those reach the
      absolute-value step. */
  predicate Cleanable(df: Table, colToKeep: seq<string>)
  {
    && WellFormed(df) && Key in df.columns && HasColumns(df, colToKeep)
    && Key !in colToKeep && Distinct(colToKeep)
    && (forall d :: d in DaysColumns ==> d in colToKeep)
    && DaysNumericWhereKept(df)
  }

  /** DAYS_ID_PUBLISH holds no strings, and neither do the other day columns
      in the rows whose DAYS_ID_PUBLISH is not positive. */
  predicate DaysNumericWhereKept(df: Table)
    requires Rectangular(df) && forall d :: d in DaysColumns ==> d in df.columns
  {
    && NumericColumn(df, Publish)
    && forall d, row :: d in DaysColumns && 0 <= row < |df.rows| && !IsPositive(At(df, row, Publish)) ==>
         !At(df, row, d).Str?
  }

  /** Selects `Key` and the columns `colToKeep`; blanks every row whose
      DAYS_ID_PUBLISH is positive, key included; then turns the four day
      columns into absolute values. */
  function ColumnsNotChanged(df: Table, colToKeep: seq<string>): (r: Table)
    requires Cleanable(df, colToKeep)
    ensures r.columns == [Key] + colToKeep && |r.rows| == |df.rows| && Rectangular(r)
    ensures forall row, c :: 0 <= row < |df.rows| && c in r.columns && IsPositive(At(df, row, Publish)) ==>
      At(r, row, c) == Missing
    ensures forall row :: 0 <= row < |df.rows| && !IsPositive(At(df, row, Publish)) ==>
      At(r, row, Key) == At(df, row, Key)
    ensures forall row, c :: 0 <= row < |df.rows| && c in colToKeep && !IsPositive(At(df, row, Publish)) ==>
      At(r, row, c) == if c in DaysColumns then AbsCell(At(df, row, c)) else At(df, row, c)
  {
    assert Publish == DaysColumns[3] && Publish in colToKeep;
    var selected := Select(df, [Key] + colToKeep);
    AbsColumns(BlankRows(selected), DaysColumns)
  }

  /** After the cleanup a day column holds no negative number and no string. */
  lemma DaysNeverNegative(df: Table, colToKeep: seq<string>, row: int, d: string)
    requires Cleanable(df, colToKeep)
    requires 0 <= row < |df.rows| && d in DaysColumns
    ensures d in ColumnsNotChanged(df, colToKeep).columns
    ensures var c := At(ColumnsNotChanged(df, colToKeep), row, d); c == Missing || (c.Num? && c.n >= 0)
  {
    assert d in colToKeep;
  }

  /** The absolute-value step changes nothing the second time. */
  lemma AbsColumnsIdempotent(t: Table, names: seq<string>)
    requires Rectangular(t)
    ensures AbsColumns(AbsColumns(t, names), names) == AbsColumns(t, names)
  {
    var once := AbsColumns(t, names);
    var twice := AbsColumns(once, names);
    forall row | 0 <= row < |t.rows|
      ensures twice.rows[row] == once.rows[row]
    {
      forall j | 0 <= j < |t.columns|
        ensures twice.rows[row][j] == once.rows[row][j]
      {
        var c := once.rows[row][j];
        assert AbsCell(AbsCell(c)) == AbsCell(c);
      }
    }
  }

  /** A frame with the identifier and the four day columns: in row 0 every
      day count is negative, in row 1 DAYS_ID_PUBLISH is positive. */
  const DaysExample: Table := Table([Key] + DaysColumns, [
    [Num(7), Num(-100), Num(-3), Num(-20), Num(-5)],
    [Num(8), Num(-1), Num(-2), Num(-3), Num(5)]])

  lemma DaysExampleShape()
    ensures WellFormed(DaysExample)
    ensures Position(DaysExample.columns, "DAYS_BIRTH") == 1
    ensures Position(DaysExample.columns, "DAYS_EMPLOYED") == 2
    ensures Position(DaysExample.columns, "DAYS_REGISTRATION") == 3
    ensures Position(DaysExample.columns, Publish) == 4
  {
    PositionIs(DaysExample.columns, "DAYS_BIRTH", 1);
    PositionIs(DaysExample.columns, "DAYS_EMPLOYED", 2);
    PositionIs(DaysExample.columns, "DAYS_REGISTRATION", 3);
    PositionIs(DaysExample.columns, Publish, 4);
  }

  lemma DaysExampleCleanable()
    ensures Cleanable(DaysExample, DaysColumns)
  {
    DaysExampleShape();
    assert NumericColumn(DaysExample, "DAYS_BIRTH");
    assert NumericColumn(DaysExample, "DAYS_EMPLOYED");
    assert NumericColumn(DaysExample, "DAYS_REGISTRATION");
    assert NumericColumn(DaysExample, Publish);
  }

  /** A frame whose one row has a string DAYS_BIRTH and a positive
      DAYS_ID_PUBLISH. */
  const StringExample: Table := Table([Key] + DaysColumns, [
    [Num(9), Str("x"), Num(-1), Num(-2), Num(5)]])

  /** A string in a day column other than DAYS_ID_PUBLISH is accepted when
      its row is blanked: the row comes out missing before the
      absolute-value step could reach the string. */
  lemma StringInBlankedRow()
    ensures Cleanable(StringExample, DaysColumns)
    ensures var r := ColumnsNotChanged(StringExample, DaysColumns);
      At(r, 0, "DAYS_BIRTH") == Missing && At(r, 0, Key) == Missing
  {
    var t := StringExample;
    PositionIs(t.columns, Publish, 4);
    assert At(t, 0, Publish) == Num(5);
  }

  /** Blanking tests the signed DAYS_ID_PUBLISH before the absolute-value
      step: a publish count of -5 keeps its row and comes out as 5, while a
      count of 5 blanks its row, identifier included. Applying the two steps
      the other way round would blank both rows. */
  lemma BlankingPrecedesAbs()
    ensures DaysExample.columns == [Key] + DaysColumns && Cleanable(DaysExample, DaysColumns)
    ensures var r := ColumnsNotChanged(DaysExample, DaysColumns);
      && At(r, 0, Key) == Num(7) && At(r, 0, "DAYS_BIRTH") == Num(100) && At(r, 0, Publish) == Num(5)
      && At(r, 1, Key) == Missing && At(r, 1, Publish) == Missing
    ensures At(BlankRows(AbsColumns(DaysExample, DaysColumns)), 0, Key) == Missing
  {
    var t := DaysExample;
    DaysExampleShape();
    DaysExampleCleanable();
    assert At(t, 0, Publish) == Num(-5) && At(t, 1, Publish) == Num(5);
  }

  /** The cleanup as a whole is not idempotent: run again on its own output
      it blanks the row whose DAYS_ID_PUBLISH it has just made positive. */
  lemma CleanupNotIdempotent()
    ensures Cleanable(DaysExample, DaysColumns)
    ensures Cleanable(ColumnsNotChanged(DaysExample, DaysColumns), DaysColumns)
    ensures ColumnsNotChanged(ColumnsNotChanged(DaysExample, DaysColumns), DaysColumns)
         != ColumnsNotChanged(DaysExample, DaysColumns)
  {
    BlankingPrecedesAbs();
    var r := ColumnsNotChanged(DaysExample, DaysColumns);
    forall k | 0 <= k < |DaysColumns|
      ensures NumericColumn(r, DaysColumns[k])
    {
      forall row | 0 <= row < |r.rows|
        ensures !At(r, row, DaysColumns[k]).Str?
      {
        DaysNeverNegative(DaysExample, DaysColumns, row, DaysColumns[k]);
      }
    }
    assert Cleanable(r, DaysColumns);
    var r2 := ColumnsNotChanged(r, DaysColumns);
    assert At(r2, 0, Key) == Missing;
  }
}
