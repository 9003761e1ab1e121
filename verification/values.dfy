/**
  Cells, rows and datasets as the spreadsheet parser hands them to the
  reconciliation engine.

  A row is a plain object in the program: an ordered list of column names,
  each bound to a cell. Reading a column that is not there yields
  `undefined` (`Missing` here); the object spread `{...row, k: v}` overwrites
  an existing column in place and otherwise appends a new one at the end.
 */
module Values {

  datatype Option<T> = None | Some(value: T)

  /** A cell value. Datatype equality stands in for the SameValueZero
      comparison that JavaScript's `Set` and `Map` use on keys. */
  datatype Value = Str(s: string) | Num(n: int) | Bool(b: bool) | Missing

  /** JavaScript truthiness: the empty string, zero, `false` and `undefined`
      are falsy, everything else is truthy. */
  function Truthy(v: Value): (b: bool)
    ensures !b <==> v == Str("") || v == Num(0) || v == Bool(false) || v == Missing
  {
    match v
    case Str(s) => s != ""
    case Num(n) => n != 0
    case Bool(b) => b
    case Missing => false
  }

  /** The columns the engine reads and writes besides the key column. */
  const PendingColumn := "Pendente"
  const ResponsibleColumn := "Responsável"
  const TextColumn := "Texto L=100"

  /** The two values of the pending flag. */
  const Yes := Str("Sim")
  const No := Str("Não")

  type Row = seq<(string, Value)>

  type Dataset = seq<Row>

  /** The column names of a row, in the order `Object.keys` lists them. */
  function Columns(row: Row): seq<string> {
    seq(|row|, i requires 0 <= i < |row| => row[i].0)
  }

  /** `row[col]`: the cell bound to `col`, or `Missing` when there is none. */
  function Get(row: Row, col: string): (v: Value)
    ensures (forall i :: 0 <= i < |row| ==> row[i].0 != col) ==> v == Missing
  {
    if |row| == 0 then Missing
    else if row[0].0 == col then row[0].1
    else Get(row[1..], col)
  }

  /** `row[col]` reads the cell of the first binding of `col`. */
  lemma {:induction false} GetReadsFirstBinding(row: Row, col: string, i: int)
    requires 0 <= i < |row| && row[i].0 == col
    requires forall j :: 0 <= j < i ==> row[j].0 != col
    ensures Get(row, col) == row[i].1
    decreases i
  {
    if i > 0 {
      GetReadsFirstBinding(row[1..], col, i - 1);
    }
  }

  /** The column list after binding `col`: unchanged when `col` is already
      there, otherwise `col` goes at the end. */
  function AddColumn(cols: seq<string>, col: string): seq<string> {
    if col in cols then cols else cols + [col]
  }

  /** `{...row, [col]: v}`. */
  function Set(row: Row, col: string, v: Value): (r: Row)
    ensures Get(r, col) == v
    ensures forall c :: c != col ==> Get(r, c) == Get(row, c)
    ensures Columns(r) == AddColumn(Columns(row), col)
  {
    if |row| == 0 then [(col, v)]
    else if row[0].0 == col then
      ColumnsCons(row[0], row[1..]);
      ColumnsCons((col, v), row[1..]);
      assert row == [row[0]] + row[1..];
      [(col, v)] + row[1..]
    else
      var rest := Set(row[1..], col, v);
      ColumnsCons(row[0], row[1..]);
      ColumnsCons(row[0], rest);
      assert row == [row[0]] + row[1..];
      [row[0]] + rest
  }

  lemma ColumnsCons(cell: (string, Value), row: Row)
    ensures Columns([cell] + row) == [cell.0] + Columns(row)
  {
  }

  /** The key value of a row: the cell in the key column. */
  function Key(row: Row, col: string): Value {
    Get(row, col)
  }

  /** The set of key values a dataset holds. */
  function KeySet(data: Dataset, col: string): set<Value> {
    set i | 0 <= i < |data| :: Key(data[i], col)
  }

  /** No two rows of `data` share a key value. */
  predicate KeysDistinct(data: Dataset, col: string) {
    forall a, b :: 0 <= a < b < |data| ==> Key(data[a], col) != Key(data[b], col)
  }

  lemma KeySetAppend(data: Dataset, row: Row, col: string)
    ensures KeySet(data + [row], col) == KeySet(data, col) + {Key(row, col)}
  {
    var d := data + [row];
    forall v | v in KeySet(d, col)
      ensures v in KeySet(data, col) + {Key(row, col)}
    {
      var i :| 0 <= i < |d| && Key(d[i], col) == v;
      if i < |data| {
        assert d[i] == data[i];
      }
    }
    forall v | v in KeySet(data, col)
      ensures v in KeySet(d, col)
    {
      var i :| 0 <= i < |data| && Key(data[i], col) == v;
      assert d[i] == data[i];
    }
    assert d[|data|] == row;
  }

  /** Two datasets whose rows hold the same key values, position by
      position, have the same key set and the same key distinctness. */
  lemma SameKeys(d: Dataset, e: Dataset, col: string)
    requires |d| == |e|
    requires forall k :: 0 <= k < |d| ==> Key(d[k], col) == Key(e[k], col)
    ensures KeySet(d, col) == KeySet(e, col)
    ensures KeysDistinct(d, col) <==> KeysDistinct(e, col)
  {
    forall v | v in KeySet(d, col)
      ensures v in KeySet(e, col)
    {
      var i :| 0 <= i < |d| && Key(d[i], col) == v;
      assert Key(e[i], col) == v;
    }
    forall v | v in KeySet(e, col)
      ensures v in KeySet(d, col)
    {
      var i :| 0 <= i < |e| && Key(e[i], col) == v;
      assert Key(d[i], col) == v;
    }
  }
}
