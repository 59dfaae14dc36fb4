/** `SqueueGUIModel`: the Qt table model that owns the current job snapshot, its headers and
    the active sort column and direction. */
module TableModel {
  import opened Wrappers
  import opened Cells
  import opened Sorting
  import Seqs

  /** A two-dimensional numpy array: its rows, and its number of columns, which an array with
      no rows still has (`np.shape` of an empty seven-column frame is `(0, 7)`). */
  datatype Matrix = Matrix(rows: seq<Row>, width: nat)

  /** Reordering rows keeps their number and keeps them all of one width. */
  lemma RectangularPermutation(a: seq<Row>, b: seq<Row>, width: int)
    requires multiset(a) == multiset(b) && Rectangular(a, width)
    ensures |b| == |a| && Rectangular(b, width)
  {
    assert |a| == |multiset(a)| == |multiset(b)| == |b|;
    forall i | 0 <= i < |b|
      ensures |b[i]| == width
    {
      assert b[i] in multiset(a);
    }
  }

  /** A `QModelIndex`: invalid, or a row and a column. */
  datatype ModelIndex = InvalidIndex | Index(row: int, column: int)

  /** The item roles the model distinguishes. */
  datatype Role = DisplayRole | EditRole | OtherRole

  datatype Orientation = Horizontal | Vertical

  /** What `headerData` returns: None, a column name, a row number, or Python's IndexError
      for a horizontal section below `-len(headers)`. */
  datatype HeaderValue = NoHeader | Name(name: string) | Number(n: int) | IndexError

  /** What `data` shows for a cell: 'N/A', an ISO 8601 date of the given instant, or the value;
      or the ValueError that `strftime` raises on a missing instant. */
  datatype Shown = NotAvailable | IsoDate(epoch: int) | Value(cell: Cell) | ValueError

  /** The rendering of one cell: dates show as ISO 8601 text, except the sentinel instant,
      which shows as 'N/A'. A missing instant (NaT) is a date too, but `strftime` fails on it,
      so rendering it raises ValueError. Everything else shows as it is. */
  function Display(x: Cell): (d: Shown)
    ensures d == NotAvailable <==> x.Time? && x.epoch == EPOCH_SENTINEL
    ensures d.IsoDate? <==> x.Time? && x.epoch != EPOCH_SENTINEL
    ensures d.IsoDate? ==> d.epoch == x.epoch
    ensures d == ValueError <==> x.NaT?
    ensures d.Value? <==> !x.Time? && !x.NaT?
    ensures d.Value? ==> d.cell == x
  {
    match x
    case Time(t) => if t == EPOCH_SENTINEL then NotAvailable else IsoDate(t)
    case NaT => ValueError
    case _ => Value(x)
  }

  /** Where the sort column goes when new headers arrive: to the first header carrying the
      old sort column's name, or to the first column when no header does. */
  function ResolveSortColumn(oldName: string, newHeaders: seq<string>): (k: nat)
    ensures oldName in newHeaders ==> k < |newHeaders| && newHeaders[k] == oldName
    ensures oldName in newHeaders ==> forall i | 0 <= i < k :: newHeaders[i] != oldName
    ensures oldName !in newHeaders ==> k == 0
  {
    if oldName in newHeaders then Seqs.IndexOf(newHeaders, oldName) else 0
  }

  /** When the headers do not change and name every column once, the sort column stays put. */
  lemma ResolveSameHeaders(headers: seq<string>, k: nat)
    requires Seqs.Distinct(headers) && k < |headers|
    ensures ResolveSortColumn(headers[k], headers) == k
  {
    Seqs.IndexOfDistinct(headers, k);
  }

  /** How `setData` ends as written: it returns a flag, or raises AttributeError at line 133. */
  datatype SetDataOutcome = Returned(ok: bool) | AttributeError

  class SqueueGUIModel {
    var rows: seq<Row>
    var headers: seq<string>
    var r: int
    var c: int
    var sortBy: int
    var sortOrd: SortOrder

    /** The shape fields agree with the rows, every column has a header, and the sort column
        is one of them. */
    ghost predicate Valid()
      reads this
    {
      && r == |rows|
      && Rectangular(rows, c)
      && |headers| == c
      && 0 <= sortBy < c
    }

    /** A model over `rows` with `headers`, sorted on the first column in DescendingOrder
        (the rows are installed as given, not yet sorted). */
    constructor (snapshot: Matrix, headers: seq<string>)
      requires Rectangular(snapshot.rows, snapshot.width)
      requires |headers| == snapshot.width > 0
      ensures Valid()
      ensures rows == snapshot.rows && this.headers == headers
      ensures r == |snapshot.rows| && c == snapshot.width
      ensures sortBy == 0 && sortOrd == DescendingOrder
    {
      this.rows := snapshot.rows;
      this.headers := headers;
      r, c := |snapshot.rows|, snapshot.width;
      sortBy := 0;
      sortOrd := DescendingOrder;
    }

    /** Installs a new snapshot: the sort column follows its name into the new headers (or
        falls back to the first column), the direction is kept, and the rows are re-sorted. */
    method UpdateModel(newArray: Matrix, newHeaders: seq<string>)
      requires Valid()
      requires Rectangular(newArray.rows, newArray.width)
      requires |newHeaders| == newArray.width > 0
      modifies this
      ensures Valid()
      ensures headers == newHeaders
      ensures r == |newArray.rows| && c == newArray.width
      ensures sortBy == ResolveSortColumn(old(headers[sortBy]), newHeaders)
      ensures sortOrd == old(sortOrd)
      ensures multiset(rows) == multiset(newArray.rows)
      ensures Ordered(rows, sortBy, sortOrd)
    {
      var oldSortVar := headers[sortBy];
      rows := newArray.rows;
      headers := newHeaders;
      r, c := |newArray.rows|, newArray.width;
      sortBy := ResolveSortColumn(oldSortVar, newHeaders);
      rows := SortRows(rows, sortBy, sortOrd);
      RectangularPermutation(newArray.rows, rows, c);
    }

    /** The number of rows the view shows: the rows of the installed array. */
    function RowCount(): (n: int)
      reads this
      requires Valid()
      ensures n == |rows|
    {
      r
    }

    /** The number of columns the view shows: one per header. */
    function ColumnCount(): (n: int)
      reads this
      requires Valid()
      ensures n == |headers|
      ensures forall i | 0 <= i < |rows| :: |rows[i]| == n
    {
      c
    }

    /** The header of a section: a column name for horizontal sections (Python indexing, so
        negative sections count from the end), the 1-based row number for vertical ones. */
    function HeaderData(p: int, orientation: Orientation, role: Role): (h: HeaderValue)
      reads this
      ensures role != DisplayRole ==> h == NoHeader
      ensures role == DisplayRole && orientation == Vertical ==> h == Number(p + 1)
      ensures role == DisplayRole && orientation == Horizontal ==>
        (0 <= p < |headers| ==> h == Name(headers[p]))
        && (p >= |headers| ==> h == NoHeader)
        && (-|headers| <= p < 0 ==> h == Name(headers[|headers| + p]))
        && (p < -|headers| ==> h == IndexError)
    {
      if role != DisplayRole then NoHeader
      else if orientation == Vertical then Number(p + 1)
      else if p >= |headers| then NoHeader
      else if p >= 0 then Name(headers[p])
      else if p >= -|headers| then Name(headers[|headers| + p])
      else IndexError
    }

    /** The shown value of a cell: None for an invalid index, a row or column outside the
        table, or a role other than DisplayRole; otherwise the cell as Display renders it,
        which for a missing instant is the ValueError the call raises. */
    function Data(index: ModelIndex, role: Role): (v: Option<Shown>)
      reads this
      requires Valid()
      ensures v.Some? <==>
        index.Index? && 0 <= index.row < r && 0 <= index.column < c && role == DisplayRole
      ensures v.Some? ==> v.value == Display(rows[index.row][index.column])
    {
      if index.InvalidIndex? then None
      else if index.row < 0 || index.row >= RowCount() then None
      else if index.column < 0 || index.column >= ColumnCount() then None
      else if role == DisplayRole then Some(Display(rows[index.row][index.column]))
      else None
    }

    /** `setData` as written: once the guards pass, line 133 reads `.values` from a numpy
        rows, which has no such attribute, so it raises instead of storing the value. */
    function SetDataAsWritten(index: ModelIndex, value: Cell, role: Role): (o: SetDataOutcome)
      reads this
      ensures o == AttributeError <==>
        index.Index? && role == EditRole && 0 <= index.row < r && 0 <= index.column < c
      ensures o != AttributeError ==> o == Returned(false)
    {
      if index.InvalidIndex? then Returned(false)
      else if role != EditRole then Returned(false)
      else if index.row < 0 || index.row >= r then Returned(false)
      else if index.column < 0 || index.column >= c then Returned(false)
      else AttributeError
    }

    /** `setData` as intended: stores `value` in the addressed cell and reports True; any
        other request changes nothing and reports False. */
    method SetData(index: ModelIndex, value: Cell, role: Role) returns (ok: bool)
      requires Valid()
      modifies this
      ensures Valid()
      ensures ok <==>
        index.Index? && role == EditRole && 0 <= index.row < old(r) && 0 <= index.column < old(c)
      ensures ok ==> rows == old(rows)[index.row := old(rows)[index.row][index.column := value]]
      ensures !ok ==> rows == old(rows)
      ensures headers == old(headers) && r == old(r) && c == old(c)
      ensures sortBy == old(sortBy) && sortOrd == old(sortOrd)
    {
      if index.InvalidIndex? || role != EditRole {
        return false;
      }
      if index.row < 0 || index.row >= r || index.column < 0 || index.column >= c {
        return false;
      }
      rows := rows[index.row := rows[index.row][index.column := value]];
      ok := true;
    }

    /** Sorts the rows on `column` in the direction `order` selects and records both. */
    method Sort(column: int, order: SortOrder)
      requires Valid()
      requires 0 <= column < c
      modifies this
      ensures Valid()
      ensures sortBy == column && sortOrd == order
      ensures headers == old(headers) && r == old(r) && c == old(c)
      ensures multiset(rows) == multiset(old(rows))
      ensures Ordered(rows, column, order)
    {
      sortBy := column;
      sortOrd := order;
      var before := rows;
      rows := SortRows(rows, column, order);
      RectangularPermutation(before, rows, c);
    }
  }

  /** Whenever `setData` is asked to store a value at a cell inside the table with EditRole,
      the code as written raises rather than returning True. */
  lemma SetDataAsWrittenNeverStores(m: SqueueGUIModel, row: int, column: int, value: Cell)
    requires 0 <= row < m.r && 0 <= column < m.c
    ensures m.SetDataAsWritten(Index(row, column), value, EditRole) == AttributeError
  {
  }
}
