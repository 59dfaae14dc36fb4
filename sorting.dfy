/** Reordering the rows of the table by one column, as `SqueueGUIModel` does with numpy's argsort. */
module Sorting {
  import opened Cells

  /** Qt's two sort flags, as `QHeaderView` hands them to the model. */
  datatype SortOrder = AscendingOrder | DescendingOrder

  /** Every row has a cell in column `col`. */
  predicate HasColumn(rows: seq<Row>, col: nat)
  {
    forall i | 0 <= i < |rows| :: col < |rows[i]|
  }

  /** The cells of column `col`, top to bottom. */
  function Column(rows: seq<Row>, col: nat): (keys: seq<Cell>)
    requires HasColumn(rows, col)
    ensures |keys| == |rows|
    ensures forall i | 0 <= i < |rows| :: keys[i] == rows[i][col]
  {
    seq(|rows|, i requires 0 <= i < |rows| => rows[i][col])
  }

  /** Whether a cell with value `x` may appear above one with value `y` under `order`.
      The mapping is the source's: a plain argsort (smallest first) for DescendingOrder,
      the reversed argsort (largest first) for AscendingOrder. */
  predicate Before(order: SortOrder, x: Cell, y: Cell)
  {
    if order == DescendingOrder then CellLe(x, y) else CellLe(y, x)
  }

  /** The rows are ordered by column `col` in the direction `order` selects. */
  predicate Ordered(rows: seq<Row>, col: nat, order: SortOrder)
    requires HasColumn(rows, col)
  {
    forall i, j | 0 <= i < j < |rows| :: Before(order, rows[i][col], rows[j][col])
  }

  /** The rows in the opposite order: numpy's `argsort[::-1]`. */
  function Reverse<T>(s: seq<T>): (r: seq<T>)
    ensures |r| == |s|
    ensures forall i | 0 <= i < |s| :: r[i] == s[|s| - 1 - i]
  {
    seq(|s|, i requires 0 <= i < |s| => s[|s| - 1 - i])
  }

  lemma {:induction false} ReversePermutes<T>(s: seq<T>)
    ensures multiset(Reverse(s)) == multiset(s)
  {
    if s != [] {
      var n := |s| - 1;
      ReversePermutes(s[..n]);
      assert Reverse(s) == [s[n]] + Reverse(s[..n]);
      assert s == s[..n] + [s[n]];
    }
  }

  /** Placing `x` between the rows whose key is at most its own and those whose key is at
      least its own keeps the rows ordered smallest-first. */
  lemma InsertAt(sorted: seq<Row>, x: Row, col: nat, k: nat)
    requires HasColumn(sorted, col) && col < |x| && k <= |sorted|
    requires Ordered(sorted, col, DescendingOrder)
    requires forall i | 0 <= i < k :: CellLe(sorted[i][col], x[col])
    requires forall j | k <= j < |sorted| :: CellLe(x[col], sorted[j][col])
    ensures HasColumn(sorted[..k] + [x] + sorted[k..], col)
    ensures Ordered(sorted[..k] + [x] + sorted[k..], col, DescendingOrder)
  {
    var out := sorted[..k] + [x] + sorted[k..];
    assert forall i | 0 <= i < k :: out[i] == sorted[i];
    assert out[k] == x;
    assert forall i | k < i < |out| :: out[i] == sorted[i - 1];
  }

  /** Inserting `x` into rows already ordered smallest-first by column `col` keeps them ordered. */
  method Insert(sorted: seq<Row>, x: Row, col: nat) returns (out: seq<Row>)
    requires HasColumn(sorted, col) && col < |x|
    requires Ordered(sorted, col, DescendingOrder)
    ensures HasColumn(out, col)
    ensures multiset(out) == multiset(sorted) + multiset{x}
    ensures Ordered(out, col, DescendingOrder)
  {
    var k := 0;
    while k < |sorted| && CellLe(sorted[k][col], x[col])
      invariant 0 <= k <= |sorted|
      invariant forall i | 0 <= i < k :: CellLe(sorted[i][col], x[col])
    {
      k := k + 1;
    }
    if k < |sorted| {
      CellLeTotal(sorted[k][col], x[col]);
      forall j | k <= j < |sorted|
        ensures CellLe(x[col], sorted[j][col])
      {
        if j > k {
          CellLeTransitive(x[col], sorted[k][col], sorted[j][col]);
        }
      }
    }
    InsertAt(sorted, x, col, k);
    out := sorted[..k] + [x] + sorted[k..];
    assert sorted == sorted[..k] + sorted[k..];
  }

  /** numpy's `argsort` applied to the rows: a reordering by column `col`, smallest first.
      numpy's default kind is not stable, so nothing is said about rows with equal keys. */
  method ArgSort(rows: seq<Row>, col: nat) returns (sorted: seq<Row>)
    requires HasColumn(rows, col)
    ensures HasColumn(sorted, col)
    ensures multiset(sorted) == multiset(rows)
    ensures Ordered(sorted, col, DescendingOrder)
  {
    sorted := [];
    var n := 0;
    while n < |rows|
      invariant 0 <= n <= |rows|
      invariant HasColumn(sorted, col)
      invariant multiset(sorted) == multiset(rows[..n])
      invariant Ordered(sorted, col, DescendingOrder)
    {
      sorted := Insert(sorted, rows[n], col);
      assert rows[..n + 1] == rows[..n] + [rows[n]];
      n := n + 1;
    }
    assert rows[..n] == rows;
  }

  /** The reordering of lines 79-82 and 141-144: argsort on column `col`, reversed when the
      order is AscendingOrder. */
  method SortRows(rows: seq<Row>, col: nat, order: SortOrder) returns (out: seq<Row>)
    requires HasColumn(rows, col)
    ensures HasColumn(out, col)
    ensures multiset(out) == multiset(rows)
    ensures Ordered(out, col, order)
  {
    out := ArgSort(rows, col);
    if order == AscendingOrder {
      ReversePermutes(out);
      out := Reverse(out);
    }
  }

  /** In either direction, two keys that may each come first are the same key. */
  lemma BeforeAntisymmetric(order: SortOrder, x: Cell, y: Cell)
    requires Before(order, x, y) && Before(order, y, x)
    ensures x == y
  {
    CellLeAntisymmetric(x, y);
  }

  /** Removing one row keeps the others ordered. */
  lemma OrderedRemove(b: seq<Row>, col: nat, order: SortOrder, j: nat)
    requires HasColumn(b, col) && j < |b| && Ordered(b, col, order)
    ensures HasColumn(b[..j] + b[j + 1..], col)
    ensures Ordered(b[..j] + b[j + 1..], col, order)
  {
    var rest := b[..j] + b[j + 1..];
    assert forall p | 0 <= p < j :: rest[p] == b[p];
    assert forall p | j <= p < |rest| :: rest[p] == b[p + 1];
  }

  /** In ordered rows, a row whose key equals the first row's key is preceded only by rows
      with that same key. */
  lemma OrderedPrefixKeys(b: seq<Row>, col: nat, order: SortOrder, j: nat)
    requires HasColumn(b, col) && j < |b| && Ordered(b, col, order)
    requires b[j][col] == b[0][col]
    ensures forall k | 0 <= k <= j :: b[k][col] == b[0][col]
  {
    forall k | 0 < k < j
      ensures b[k][col] == b[0][col]
    {
      assert Before(order, b[0][col], b[k][col]) && Before(order, b[k][col], b[j][col]);
      BeforeAntisymmetric(order, b[0][col], b[k][col]);
    }
  }

  /** Sorting is not stable, yet the sorted column itself is determined: two reorderings of the
      same rows that are both ordered by `col` in the same direction show the same cells in
      that column. So sorting twice with the same arguments leaves the column as the first
      sort left it. */
  lemma {:induction false} OrderedColumnUnique(a: seq<Row>, b: seq<Row>, col: nat, order: SortOrder)
    requires HasColumn(a, col) && HasColumn(b, col)
    requires multiset(a) == multiset(b)
    requires Ordered(a, col, order) && Ordered(b, col, order)
    ensures Column(a, col) == Column(b, col)
  {
    if a == [] {
      assert |b| == |multiset(b)| == 0;
    } else {
      var j := HeadsAgree(a, b, col, order);
      OrderedPrefixKeys(b, col, order, j);
      RemoveMatchingHead(a, b, j);
      OrderedRemove(b, col, order, j);
      OrderedColumnUnique(a[1..], b[..j] + b[j + 1..], col, order);
      ColumnAfterRemove(b, col, j);
    }
  }

  /** The first rows of two ordered reorderings of the same rows carry the same key; `j` is
      where the first row of `a` sits in `b`. */
  lemma HeadsAgree(a: seq<Row>, b: seq<Row>, col: nat, order: SortOrder) returns (j: nat)
    requires HasColumn(a, col) && HasColumn(b, col) && a != []
    requires multiset(a) == multiset(b)
    requires Ordered(a, col, order) && Ordered(b, col, order)
    ensures j < |b| && b[j] == a[0] && b[0][col] == a[0][col]
  {
    assert a[0] in multiset(b);
    j :| 0 <= j < |b| && b[j] == a[0];
    assert b[0] in multiset(a);
    var i :| 0 <= i < |a| && a[i] == b[0];
    if i > 0 && j > 0 {
      assert Before(order, a[0][col], a[i][col]);
      assert Before(order, b[0][col], b[j][col]);
      BeforeAntisymmetric(order, a[0][col], b[0][col]);
    }
  }

  /** Taking the head of `a` out of `a`, and the same row out of `b`, leaves equal multisets. */
  lemma RemoveMatchingHead(a: seq<Row>, b: seq<Row>, j: nat)
    requires multiset(a) == multiset(b) && a != [] && j < |b| && b[j] == a[0]
    ensures multiset(b[..j] + b[j + 1..]) == multiset(a[1..])
  {
    assert b == b[..j] + [b[j]] + b[j + 1..];
    assert a == [a[0]] + a[1..];
    calc {
      multiset(b[..j] + b[j + 1..]) + multiset{a[0]};
      multiset(b[..j]) + multiset{b[j]} + multiset(b[j + 1..]);
      multiset(b[..j] + [b[j]] + b[j + 1..]);
      multiset(b);
      multiset(a);
      multiset([a[0]] + a[1..]);
      multiset(a[1..]) + multiset{a[0]};
    }
    var m := multiset(b[..j] + b[j + 1..]);
    assert m == m + multiset{a[0]} - multiset{a[0]};
  }

  /** Removing row `j` from rows whose first `j + 1` keys agree shows the same column as
      removing the first row. */
  lemma ColumnAfterRemove(b: seq<Row>, col: nat, j: nat)
    requires HasColumn(b, col) && j < |b|
    requires forall k | 0 <= k <= j :: b[k][col] == b[0][col]
    ensures HasColumn(b[..j] + b[j + 1..], col)
    ensures Column(b, col) == [b[0][col]] + Column(b[..j] + b[j + 1..], col)
  {
    var rest := b[..j] + b[j + 1..];
    assert forall p | 0 <= p < j :: rest[p] == b[p];
    assert forall p | j <= p < |rest| :: rest[p] == b[p + 1];
  }

  /** The inverted mapping on an example: rows whose `cpus` are 4, 1 and 2, sorted with
      AscendingOrder, come out largest first, 4, 2, 1, whatever order numpy leaves ties in. */
  lemma {:induction false} AscendingOrderIsLargestFirst(out: seq<Row>)
    requires multiset(out) == multiset([[Int(4)], [Int(1)], [Int(2)]])
    requires HasColumn(out, 0) && Ordered(out, 0, AscendingOrder)
    ensures Column(out, 0) == [Int(4), Int(2), Int(1)]
  {
    var expected: seq<Row> := [[Int(4)], [Int(2)], [Int(1)]];
    assert multiset(expected) == multiset([[Int(4)], [Int(1)], [Int(2)]]);
    assert Ordered(expected, 0, AscendingOrder);
    OrderedColumnUnique(out, expected, 0, AscendingOrder);
  }
}
