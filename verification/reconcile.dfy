/**
  Cross-dataset reconciliation (`compareAndAddPending`, src/App.jsx:185-199).

  The reference rows are indexed by key value, a later row overwriting an
  earlier one with the same key. Every current row is then copied with two
  columns set: `Pendente` says whether the index holds its key, and
  `Responsável` takes the indexed row's responsible party when that value is
  truthy, else the row's own value when that is truthy, else "".
 */
module Reconcile {

  import opened Values

  /** `new Map(oldData.map(row => [row[col], row]))`. */
  function BuildIndex(reference: Dataset, col: string): (m: map<Value, Row>)
    ensures m.Keys == KeySet(reference, col)
    decreases |reference|
  {
    if |reference| == 0 then map[]
    else
      var init, last := reference[..|reference| - 1], reference[|reference| - 1];
      assert reference == init + [last];
      KeySetAppend(init, last, col);
      BuildIndex(init, col)[Key(last, col) := last]
  }

  /** The position of the last row of `reference` with key value `v`, or -1. */
  function LastIndex(reference: Dataset, col: string, v: Value): (i: int)
    ensures -1 <= i < |reference|
    ensures i >= 0 ==> Key(reference[i], col) == v
    ensures forall j :: i < j < |reference| ==> Key(reference[j], col) != v
    decreases |reference|
  {
    if |reference| == 0 then -1
    else if Key(reference[|reference| - 1], col) == v then |reference| - 1
    else LastIndex(reference[..|reference| - 1], col, v)
  }

  /** The index keeps, for each key value, the last reference row holding it. */
  lemma {:induction false} IndexKeepsLastRow(reference: Dataset, col: string, v: Value)
    ensures v in BuildIndex(reference, col) <==> LastIndex(reference, col, v) >= 0
    ensures v in BuildIndex(reference, col) ==> BuildIndex(reference, col)[v] == reference[LastIndex(reference, col, v)]
    decreases |reference|
  {
    if |reference| > 0 {
      var init := reference[..|reference| - 1];
      IndexKeepsLastRow(init, col, v);
      if Key(reference[|reference| - 1], col) != v && LastIndex(init, col, v) >= 0 {
        assert reference[LastIndex(init, col, v)] == init[LastIndex(init, col, v)];
      }
    }
  }

  /** The responsible party a current row leaves reconciliation with: a
      truthy value taken from the indexed row or from the row itself, or ""
      when neither has one. A row that had a responsible party keeps one. */
  function CarriedResponsible(row: Row, index: map<Value, Row>, col: string): (v: Value)
    ensures Truthy(v) || v == Str("")
    ensures Truthy(v) ==>
      v == Get(row, ResponsibleColumn) ||
      (Key(row, col) in index && v == Get(index[Key(row, col)], ResponsibleColumn))
    ensures !Truthy(v) <==>
      !Truthy(Get(row, ResponsibleColumn)) &&
      !(Key(row, col) in index && Truthy(Get(index[Key(row, col)], ResponsibleColumn)))
  {
    var k := Key(row, col);
    if k in index && Truthy(Get(index[k], ResponsibleColumn)) then Get(index[k], ResponsibleColumn)
    else if Truthy(Get(row, ResponsibleColumn)) then Get(row, ResponsibleColumn)
    else Str("")
  }

  /** One step of the `newData.map`: the row with its pending flag and its
      carried responsible party, and nothing else changed. */
  function Annotate(row: Row, index: map<Value, Row>, col: string): (r: Row)
    ensures Get(r, PendingColumn) == Yes <==> Key(row, col) in index
    ensures Get(r, PendingColumn) == Yes || Get(r, PendingColumn) == No
    ensures Get(r, ResponsibleColumn) == CarriedResponsible(row, index, col)
    ensures forall c :: c != PendingColumn && c != ResponsibleColumn ==> Get(r, c) == Get(row, c)
    ensures Columns(r) == AddColumn(AddColumn(Columns(row), PendingColumn), ResponsibleColumn)
  {
    var pending := Key(row, col) in index;
    Set(Set(row, PendingColumn, if pending then Yes else No),
        ResponsibleColumn, CarriedResponsible(row, index, col))
  }

  /** `compareAndAddPending`: the current rows, in order, each with only
      `Pendente` and `Responsável` set. `Pendente` is "Sim" exactly when some
      reference row has the same key value; `Responsável` is the last such
      row's value when that is truthy, else the row's own truthy value, else "". */
  function CompareAndAddPending(current: Dataset, reference: Dataset, col: string): (r: Dataset)
    ensures |r| == |current|
    ensures forall i, c :: 0 <= i < |r| && c != PendingColumn && c != ResponsibleColumn ==>
      Get(r[i], c) == Get(current[i], c)
    ensures forall i :: 0 <= i < |r| ==>
      Columns(r[i]) == AddColumn(AddColumn(Columns(current[i]), PendingColumn), ResponsibleColumn)
    ensures forall i :: 0 <= i < |r| ==>
      (Get(r[i], PendingColumn) == Yes <==> Key(current[i], col) in KeySet(reference, col))
    ensures forall i :: 0 <= i < |r| ==>
      Get(r[i], PendingColumn) == Yes || Get(r[i], PendingColumn) == No
    ensures forall i :: 0 <= i < |r| ==>
      var j := LastIndex(reference, col, Key(current[i], col));
      Get(r[i], ResponsibleColumn) ==
        if j >= 0 && Truthy(Get(reference[j], ResponsibleColumn)) then Get(reference[j], ResponsibleColumn)
        else if Truthy(Get(current[i], ResponsibleColumn)) then Get(current[i], ResponsibleColumn)
        else Str("")
  {
    var index := BuildIndex(reference, col);
    var r := seq(|current|, i requires 0 <= i < |current| => Annotate(current[i], index, col));
    assert forall i :: 0 <= i < |current| ==> r[i] == Annotate(current[i], index, col);
    forall i | 0 <= i < |current| {
      IndexKeepsLastRow(reference, col, Key(current[i], col));
    }
    r
  }
}
