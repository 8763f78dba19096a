/** The values the loaders work on: spreadsheet cells and tables as read,
    dated records, and pandas' Series and DataFrame with a date index. */
module Tables {
  import opened Wrappers
  import opened Dates

  /** A spreadsheet cell as the reader delivers it. `Number` is every cell that
      pd.to_numeric can read as a number, `When` a cell the reader or
      pd.to_datetime turns into a timestamp; everything else is `Text` or `Blank`. */
  datatype Cell = Number(x: real) | Text(s: string) | Blank | When(d: Date)

  /** pd.to_numeric(..., errors="coerce"): a cell that is not a number becomes
      missing instead of raising. */
  function ToNumeric(c: Cell): Option<real> {
    if c.Number? then Some(c.x) else None
  }

  /** A sheet as pd.read_excel returns it: column labels (which the reader keeps
      unique) and rectangular rows. */
  datatype Table = Table(headers: seq<string>, rows: seq<seq<Cell>>)

  predicate Distinct<T(==)>(s: seq<T>) {
    forall i, j :: 0 <= i < j < |s| ==> s[i] != s[j]
  }

  predicate IsTable(t: Table) {
    |t.headers| > 0 && Distinct(t.headers)
    && forall i :: 0 <= i < |t.rows| ==> |t.rows[i]| == |t.headers|
  }

  /** The sequence with position `k` removed (what set_index does to the columns). */
  function Without<T>(s: seq<T>, k: nat): (r: seq<T>)
    requires k < |s|
    ensures |r| == |s| - 1
    ensures forall i :: 0 <= i < |r| ==> r[i] == if i < k then s[i] else s[i + 1]
  {
    s[..k] + s[k + 1..]
  }

  lemma WithoutKeepsDistinct<T>(s: seq<T>, k: nat)
    requires k < |s| && Distinct(s)
    ensures Distinct(Without(s, k))
  {
  }

  /** One row of a table after its date column became the index. */
  datatype Row = Row(date: Date, cells: seq<Option<real>>)

  function DatesOf(rows: seq<Row>): (ds: seq<Date>)
    ensures |ds| == |rows|
    ensures forall i :: 0 <= i < |rows| ==> ds[i] == rows[i].date
  {
    seq(|rows|, i requires 0 <= i < |rows| => rows[i].date)
  }

  predicate StrictlyIncreasing(ds: seq<Date>) {
    forall i, j :: 0 <= i < j < |ds| ==> Before(ds[i], ds[j])
  }

  predicate NonDecreasing(ds: seq<Date>) {
    forall i, j :: 0 <= i < j < |ds| ==> NotAfter(ds[i], ds[j])
  }

  /** A DataFrame: a date index and named columns of possibly missing numbers. */
  datatype Frame = Frame(index: seq<Date>, names: seq<string>, cols: seq<seq<Option<real>>>)

  predicate IsFrame(f: Frame) {
    |f.names| == |f.cols| && forall c :: 0 <= c < |f.cols| ==> |f.cols[c]| == |f.index|
  }

  /** A named Series with a date index. */
  datatype Series = Series(name: string, index: seq<Date>, values: seq<Option<real>>)

  predicate IsSeries(s: Series) {
    |s.index| == |s.values|
  }

  /** The frame whose rows are `rows`, with columns labelled `names`. */
  function ToFrame(names: seq<string>, rows: seq<Row>): (f: Frame)
    requires forall i :: 0 <= i < |rows| ==> |rows[i].cells| == |names|
    ensures IsFrame(f) && f.index == DatesOf(rows) && f.names == names
    ensures forall c, i :: 0 <= c < |names| && 0 <= i < |rows| ==> f.cols[c][i] == rows[i].cells[c]
  {
    Frame(DatesOf(rows), names,
      seq(|names|, c requires 0 <= c < |names| =>
        seq(|rows|, i requires 0 <= i < |rows| => rows[i].cells[c])))
  }

  /** The position of the first column called `name`. */
  function IndexOf(names: seq<string>, name: string): (k: nat)
    requires name in names
    ensures k < |names| && names[k] == name
    ensures forall j :: 0 <= j < k ==> names[j] != name
  {
    if names[0] == name then 0 else 1 + IndexOf(names[1..], name)
  }

  /** df[name]. */
  function Column(f: Frame, name: string): seq<Option<real>>
    requires IsFrame(f) && name in f.names
  {
    f.cols[IndexOf(f.names, name)]
  }

  /** The position of the first element satisfying `p`, if any. */
  function FindFirst<T>(s: seq<T>, p: T -> bool): (r: Option<nat>)
    ensures r.None? <==> forall i :: 0 <= i < |s| ==> !p(s[i])
    ensures r.Some? ==> r.value < |s| && p(s[r.value])
                        && forall i :: 0 <= i < r.value ==> !p(s[i])
    decreases |s|
  {
    if s == [] then None
    else if p(s[0]) then Some(0)
    else match FindFirst(s[1..], p)
      case None => None
      case Some(j) => Some(j + 1)
  }
}
