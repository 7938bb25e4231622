/** A results spreadsheet as pandas hands it over after `read_csv`: a header
    and rows of cells. Parsing itself is not modelled. */
module Tables {
  import opened Seqs

  /** A cell value: a number, pandas' NaN (which is also what an empty cell
      reads as), or text. Numbers are abstracted to integers. */
  datatype Cell = Num(value: int) | NaN | Str(text: string)

  /** `isinstance(v, numbers.Number) and not np.isnan(v)`. */
  predicate IsNumber(c: Cell)
  {
    c.Num?
  }

  datatype Table = Table(columns: seq<string>, rows: seq<seq<Cell>>)

  /** What every parsed frame satisfies: distinct column labels and one cell
      per column in every row. */
  predicate WellFormed(t: Table)
  {
    && NoDuplicates(t.columns)
    && forall i :: 0 <= i < |t.rows| ==> |t.rows[i]| == |t.columns|
  }

  /** `df.iloc[i][col]`. */
  function At(t: Table, i: nat, col: string): Cell
    requires WellFormed(t) && i < |t.rows| && col in t.columns
  {
    t.rows[i][IndexOf(t.columns, col)]
  }

  /** `df[col]` as a list of cells, one per row. */
  function Column(t: Table, col: string): (r: seq<Cell>)
    requires WellFormed(t) && col in t.columns
    ensures |r| == |t.rows|
    ensures forall i :: 0 <= i < |r| ==> r[i] == At(t, i, col)
  {
    seq(|t.rows|, i requires 0 <= i < |t.rows| => At(t, i, col))
  }

  /** A value occurs in a column exactly when some row holds it there. */
  lemma InColumn(t: Table, col: string, v: Cell)
    requires WellFormed(t) && col in t.columns
    ensures v in Column(t, col) <==> exists i :: 0 <= i < |t.rows| && At(t, i, col) == v
  {
    var c := Column(t, col);
    if v in c {
      var i :| 0 <= i < |c| && c[i] == v;
      assert At(t, i, col) == v;
    }
  }
}
