/** Cell values of the job table and the order in which a column of them sorts. */
module Cells {

  /** One cell of the table: the value of one job field. */
  datatype Cell =
    | Null            // a field the job record did not carry (pandas fills it with NaN)
    | Int(i: int)     // a numeric field such as `job_id`, `node_count` or `cpus`
    | Str(s: string)  // a text field such as `job_state`, `user_name` or `qos`
    | Time(epoch: int) // an instant, as seconds since the epoch, after timestamp coercion
    | NaT             // a missing instant: what timestamp coercion makes of a missing field

  /** One job as a row of the table, a cell per column. */
  type Row = seq<Cell>

  /** Every row has exactly `width` cells, as in a pandas frame or a 2-D numpy array. */
  predicate Rectangular(rows: seq<Row>, width: int)
  {
    forall i | 0 <= i < |rows| :: |rows[i]| == width
  }

  /** The value line 114 of squeue-gui.py compares `strftime('%s')` of a shown instant with.
      The model makes that comparison on the stored epoch second, which is the same thing only
      when the local timezone is UTC; the timezone is not part of this model. */
  const EPOCH_SENTINEL: int := 18000

  /** Kinds are kept apart when a column mixes them; see CellLe. */
  function Rank(c: Cell): nat
  {
    match c
    case Null => 0
    case Int(_) => 1
    case Str(_) => 2
    case Time(_) => 3
    case NaT => 4
  }

  /** Lexicographic order on strings by code point, as Python compares `str`. */
  predicate StrLe(a: string, b: string)
  {
    if a == [] then true
    else if b == [] then false
    else if a[0] != b[0] then a[0] < b[0]
    else StrLe(a[1..], b[1..])
  }

  /** The natural order of a column: numeric for integers, lexicographic for strings,
      chronological for instants, with the missing instant after every other one. */
  predicate CellLe(x: Cell, y: Cell)
  {
    if Rank(x) != Rank(y) then Rank(x) < Rank(y)
    else match (x, y)
      case (Int(a), Int(b)) => a <= b
      case (Str(a), Str(b)) => StrLe(a, b)
      case (Time(a), Time(b)) => a <= b
      case _ => true
  }

  lemma {:induction false} StrLeTotal(a: string, b: string)
    ensures StrLe(a, b) || StrLe(b, a)
  {
    if a != [] && b != [] && a[0] == b[0] {
      StrLeTotal(a[1..], b[1..]);
    }
  }

  lemma {:induction false} StrLeTransitive(a: string, b: string, c: string)
    requires StrLe(a, b) && StrLe(b, c)
    ensures StrLe(a, c)
  {
    if a != [] && b != [] && c != [] && a[0] == b[0] == c[0] {
      StrLeTransitive(a[1..], b[1..], c[1..]);
    }
  }

  lemma {:induction false} StrLeAntisymmetric(a: string, b: string)
    requires StrLe(a, b) && StrLe(b, a)
    ensures a == b
  {
    if a != [] && b != [] {
      StrLeAntisymmetric(a[1..], b[1..]);
      assert a == [a[0]] + a[1..] && b == [b[0]] + b[1..];
    }
  }

  /** Any two cells are comparable. */
  lemma CellLeTotal(x: Cell, y: Cell)
    ensures CellLe(x, y) || CellLe(y, x)
  {
    if x.Str? && y.Str? {
      StrLeTotal(x.s, y.s);
    }
  }

  lemma CellLeTransitive(x: Cell, y: Cell, z: Cell)
    requires CellLe(x, y) && CellLe(y, z)
    ensures CellLe(x, z)
  {
    if x.Str? && y.Str? && z.Str? {
      StrLeTransitive(x.s, y.s, z.s);
    }
  }

  /** Two cells that sort before each other are the same cell: the order is total, not a preorder. */
  lemma CellLeAntisymmetric(x: Cell, y: Cell)
    requires CellLe(x, y) && CellLe(y, x)
    ensures x == y
  {
    if x.Str? && y.Str? {
      StrLeAntisymmetric(x.s, y.s);
    }
  }
}
