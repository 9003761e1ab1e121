/**
  The processing run (`processData`, src/App.jsx:110-148).

  The run aborts when either dataset is empty, or when the key column
  inferred from the current dataset is falsy (absent, or the empty name).
  Otherwise it removes duplicate keys from the current rows, reconciles
  them with the reference rows, classifies them, and counts what it did.
  The toast messages, the loading flag and the step indicator are left out;
  the two abort paths become the two `Error` values.
 */
module Pipeline {

  import opened Values
  import opened KeyColumn
  import opened Dedup
  import opened Reconcile
  import opened Classify
  import opened Text
  import opened WordMatch

  datatype Error = MissingInput | NoKeyColumn

  /** The three counters shown after a run; `responsibleAdded` is, as in the
      program, the number of rows processed. */
  datatype Stats = Stats(duplicatesRemoved: nat, responsibleAdded: nat, pendingAdded: nat)

  datatype Report = Report(rows: Dataset, stats: Stats)

  datatype Outcome = Processed(report: Report) | Aborted(error: Error)

  /** `finalData.filter(row => row.Pendente === 'Sim').length`: the number of
      rows whose `Pendente` is "Sim". */
  function CountPending(rows: Dataset): (n: nat)
    ensures n == |PendingPositions(rows)|
    ensures n <= |rows|
    ensures n == 0 <==> forall i :: 0 <= i < |rows| ==> Get(rows[i], PendingColumn) != Yes
    ensures n == |rows| <==> forall i :: 0 <= i < |rows| ==> Get(rows[i], PendingColumn) == Yes
    decreases |rows|
  {
    if |rows| == 0 then 0
    else
      var init, last := rows[..|rows| - 1], rows[|rows| - 1];
      var rest := CountPending(init);
      assert rows == init + [last];
      PendingPositionsSnoc(init, last);
      rest + (if Get(last, PendingColumn) == Yes then 1 else 0)
  }

  /** The positions of the rows whose `Pendente` is "Sim". */
  ghost function PendingPositions(rows: Dataset): set<int> {
    set i | 0 <= i < |rows| && Get(rows[i], PendingColumn) == Yes
  }

  /** Appending a row adds its position to the pending positions exactly
      when it is pending. */
  lemma PendingPositionsSnoc(init: Dataset, last: Row)
    ensures |init| !in PendingPositions(init)
    ensures PendingPositions(init + [last]) ==
      PendingPositions(init) + (if Get(last, PendingColumn) == Yes then {|init|} else {})
    ensures (forall i :: 0 <= i < |init + [last]| ==> Get((init + [last])[i], PendingColumn) == Yes) <==>
      (forall i :: 0 <= i < |init| ==> Get(init[i], PendingColumn) == Yes) && Get(last, PendingColumn) == Yes
    ensures (forall i :: 0 <= i < |init + [last]| ==> Get((init + [last])[i], PendingColumn) != Yes) <==>
      (forall i :: 0 <= i < |init| ==> Get(init[i], PendingColumn) != Yes) && Get(last, PendingColumn) != Yes
  {
    var rows := init + [last];
    assert forall i :: 0 <= i < |init| ==> rows[i] == init[i];
    assert rows[|init|] == last;
  }

  /** `processData`. */
  function ProcessData(reference: Dataset, current: Dataset, dict: Dictionary): (r: Outcome)
    ensures r == Aborted(MissingInput) <==> |reference| == 0 || |current| == 0
    ensures r == Aborted(NoKeyColumn) <==>
      && |reference| > 0 && |current| > 0
      && (FindKeyColumn(current) == None || FindKeyColumn(current) == Some(""))
    ensures r.Processed? ==>
      && r.report.stats.duplicatesRemoved + r.report.stats.responsibleAdded == |current|
      && r.report.stats.responsibleAdded == |r.report.rows|
      && r.report.stats.pendingAdded == CountPending(r.report.rows)
      && r.report.stats.pendingAdded <= r.report.stats.responsibleAdded
  {
    if |reference| == 0 || |current| == 0 then Aborted(MissingInput)
    else match FindKeyColumn(current)
      case None => Aborted(NoKeyColumn)
      case Some(col) =>
        if !Truthy(Str(col)) then Aborted(NoKeyColumn)
        else
          var unique := RemoveDuplicates(current, col);
          var withPending := CompareAndAddPending(unique, reference, col);
          var final := AssignResponsible(withPending, dict);
          Processed(Report(final, Stats(|current| - |unique|, |final|, CountPending(final))))
  }

  /** A run that goes through yields one row per first occurrence of a key
      value in the current dataset, in order. Each output row agrees with
      its source row on every column but `Pendente` and `Responsável`; it is
      pending exactly when the reference dataset has its key value; and a
      truthy responsible party on the last reference row with that key is
      carried over, whatever the classifier would have chosen. */
  lemma {:induction false} ProcessedRowsFollowFirstOccurrences(
    reference: Dataset, current: Dataset, dict: Dictionary, col: string)
    requires |reference| > 0 && |current| > 0
    requires FindKeyColumn(current) == Some(col) && col != ""
    ensures ProcessData(reference, current, dict).Processed?
    ensures
      var rows := ProcessData(reference, current, dict).report.rows;
      var idx := FirstOccurrences(current, col);
      && |rows| == |idx|
      && (forall k :: 0 <= k < |idx| ==> idx[k] < |current|)
      && (forall a, b :: 0 <= a < b < |idx| ==> idx[a] < idx[b])
      && (forall i :: 0 <= i < |current| ==> (i in idx <==> IsFirst(current, col, i)))
      && (forall k, c :: 0 <= k < |rows| && c != PendingColumn && c != ResponsibleColumn ==>
            Get(rows[k], c) == Get(current[idx[k]], c))
      && (forall k :: 0 <= k < |rows| ==>
            (Get(rows[k], PendingColumn) == Yes <==> Key(current[idx[k]], col) in KeySet(reference, col)))
      && (forall k :: 0 <= k < |rows| ==>
            var j := LastIndex(reference, col, Key(current[idx[k]], col));
            j >= 0 && Truthy(Get(reference[j], ResponsibleColumn)) ==>
              Get(rows[k], ResponsibleColumn) == Get(reference[j], ResponsibleColumn))
  {
    var unique := RemoveDuplicates(current, col);
    var idx := FirstOccurrences(current, col);
    RemoveDuplicatesKeepsFirstOccurrences(current, col);
    RunSteps(reference, current, dict, col);
    SelectedRowsKeepColumns(reference, current, dict, col, idx, unique);
    SelectedRowsReconciled(reference, current, dict, col, idx, unique);
  }

  /** Reconciliation and classification leave every column of the selected
      rows but the two they write as it was. */
  lemma SelectedRowsKeepColumns(
    reference: Dataset, current: Dataset, dict: Dictionary, col: string, idx: seq<nat>, unique: Dataset)
    requires Selects(current, col, 0, idx, unique)
    ensures
      var rows := AssignResponsible(CompareAndAddPending(unique, reference, col), dict);
      forall k, c :: 0 <= k < |rows| && c != PendingColumn && c != ResponsibleColumn ==>
        Get(rows[k], c) == Get(current[idx[k]], c)
  {
    var withPending := CompareAndAddPending(unique, reference, col);
    var rows := AssignResponsible(withPending, dict);
    forall k, c | 0 <= k < |rows| && c != PendingColumn && c != ResponsibleColumn
      ensures Get(rows[k], c) == Get(current[idx[k]], c)
    {
      ClassifyRowKeepsOtherColumns(withPending[k], dict);
    }
  }

  /** The selected rows are pending exactly when the reference dataset has
      their key value, and keep a truthy responsible party found there. */
  lemma SelectedRowsReconciled(
    reference: Dataset, current: Dataset, dict: Dictionary, col: string, idx: seq<nat>, unique: Dataset)
    requires Selects(current, col, 0, idx, unique)
    ensures
      var rows := AssignResponsible(CompareAndAddPending(unique, reference, col), dict);
      forall k :: 0 <= k < |rows| ==>
        && (Get(rows[k], PendingColumn) == Yes <==> Key(current[idx[k]], col) in KeySet(reference, col))
        && var j := LastIndex(reference, col, Key(current[idx[k]], col));
           j >= 0 && Truthy(Get(reference[j], ResponsibleColumn)) ==>
             Get(rows[k], ResponsibleColumn) == Get(reference[j], ResponsibleColumn)
  {
    var withPending := CompareAndAddPending(unique, reference, col);
    var rows := AssignResponsible(withPending, dict);
    forall k | 0 <= k < |rows|
      ensures Get(rows[k], PendingColumn) == Get(withPending[k], PendingColumn)
      ensures Truthy(Get(withPending[k], ResponsibleColumn)) ==>
        Get(rows[k], ResponsibleColumn) == Get(withPending[k], ResponsibleColumn)
    {
      ClassifyRowKeepsOtherColumns(withPending[k], dict);
    }
  }

  /** When the key column is neither of the two columns the run writes, the
      output repeats no key value and loses none, and a row is pending
      exactly when the reference dataset has its key value. */
  lemma ProcessedKeysAreUnique(reference: Dataset, current: Dataset, dict: Dictionary, col: string)
    requires |reference| > 0 && |current| > 0
    requires FindKeyColumn(current) == Some(col) && col != ""
    requires col != PendingColumn && col != ResponsibleColumn
    ensures ProcessData(reference, current, dict).Processed?
    ensures
      var rows := ProcessData(reference, current, dict).report.rows;
      && KeysDistinct(rows, col)
      && KeySet(rows, col) == KeySet(current, col)
      && (forall k :: 0 <= k < |rows| ==>
            (Get(rows[k], PendingColumn) == Yes <==> Key(rows[k], col) in KeySet(reference, col)))
  {
    var unique := RemoveDuplicates(current, col);
    var withPending := CompareAndAddPending(unique, reference, col);
    var rows := AssignResponsible(withPending, dict);
    RunSteps(reference, current, dict, col);
    assert ProcessData(reference, current, dict).report.rows == rows;
    forall k | 0 <= k < |rows|
      ensures Key(rows[k], col) == Key(unique[k], col)
      ensures Get(rows[k], PendingColumn) == Get(withPending[k], PendingColumn)
    {
      ClassifyRowKeepsOtherColumns(withPending[k], dict);
    }
    SameKeys(rows, unique, col);
  }

  /** When a row is pending exactly when the reference dataset has its key
      value, as `ProcessedKeysAreUnique` shows of a run, the pending counter
      is the number of rows whose key value the reference dataset has. */
  lemma PendingCountsKnownKeys(rows: Dataset, reference: Dataset, col: string)
    requires forall k :: 0 <= k < |rows| ==>
      (Get(rows[k], PendingColumn) == Yes <==> Key(rows[k], col) in KeySet(reference, col))
    ensures CountPending(rows) == |set k | 0 <= k < |rows| && Key(rows[k], col) in KeySet(reference, col)|
  {
    var known := set k | 0 <= k < |rows| && Key(rows[k], col) in KeySet(reference, col);
    forall k | k in PendingPositions(rows)
      ensures k in known
    {
    }
    forall k | k in known
      ensures k in PendingPositions(rows)
    {
    }
    assert PendingPositions(rows) == known;
  }

  /** The reference dataset knows process 100, assigned to Ana; the current
      dataset lists process 100 twice and process 200 once; the dictionary
      sends "sul" to Ana and "norte" to Bruno. One duplicate goes, process 100
      is pending and keeps Ana, process 200 is not pending and is classified
      as Bruno's. */
  lemma TwoProcessesRun(reference: Dataset, current: Dataset, dict: Dictionary)
    requires reference == [[("Processo", Str("100")), (ResponsibleColumn, Str("Ana"))]]
    requires current == [
      [("Processo", Str("100")), (TextColumn, Str("caso sul"))],
      [("Processo", Str("100")), (TextColumn, Str("caso sul"))],
      [("Processo", Str("200")), (TextColumn, Str("caso norte"))]]
    requires dict == [("Ana", ["sul"]), ("Bruno", ["norte"])]
    ensures ProcessData(reference, current, dict).Processed?
    ensures
      var report := ProcessData(reference, current, dict).report;
      && report.stats == Stats(1, 2, 1)
      && |report.rows| == 2
      && Key(report.rows[0], "Processo") == Str("100")
      && Key(report.rows[1], "Processo") == Str("200")
      && Get(report.rows[0], PendingColumn) == Yes
      && Get(report.rows[1], PendingColumn) == No
      && Get(report.rows[0], ResponsibleColumn) == Str("Ana")
      && Get(report.rows[1], ResponsibleColumn) == Str("Bruno")
  {
    var col := current[0][0].0;
    var unique := ExampleDedup(current, col);
    var withPending := CompareAndAddPending(unique, reference, col);
    ExampleReconcile(reference, unique, col);
    ExampleClassify(withPending, dict);
    var rows := AssignResponsible(withPending, dict);
    RunSteps(reference, current, dict, col);
    ClassifyRowKeepsOtherColumns(withPending[0], dict);
    ClassifyRowKeepsOtherColumns(withPending[1], dict);
    CountPendingOfTwo(rows);
  }

  /** A run that goes through is the composition of the three steps. */
  lemma RunSteps(reference: Dataset, current: Dataset, dict: Dictionary, col: string)
    requires |reference| > 0 && |current| > 0
    requires FindKeyColumn(current) == Some(col) && col != ""
    ensures
      var unique := RemoveDuplicates(current, col);
      var rows := AssignResponsible(CompareAndAddPending(unique, reference, col), dict);
      ProcessData(reference, current, dict) ==
        Processed(Report(rows, Stats(|current| - |unique|, |rows|, CountPending(rows))))
  {
  }

  /** Two rows, the first pending and the second not, count one. */
  lemma CountPendingOfTwo(rows: Dataset)
    requires |rows| == 2
    requires Get(rows[0], PendingColumn) == Yes && Get(rows[1], PendingColumn) != Yes
    ensures CountPending(rows) == 1
  {
    assert CountPending(rows[1..][1..]) == 0;
  }

  /** The example's key column is "Processo" and its middle row goes. */
  lemma ExampleDedup(current: Dataset, col: string) returns (unique: Dataset)
    requires current == [
      [("Processo", Str("100")), (TextColumn, Str("caso sul"))],
      [("Processo", Str("100")), (TextColumn, Str("caso sul"))],
      [("Processo", Str("200")), (TextColumn, Str("caso norte"))]]
    requires col == current[0][0].0
    ensures FindKeyColumn(current) == Some(col) && col == "Processo"
    ensures unique == RemoveDuplicates(current, col) && unique == [current[0], current[2]]
  {
    FirstColumnCandidateIsChosen(current);
    assert Key(current[0], col) == current[0][0].1;
    assert Key(current[1], col) == current[1][0].1;
    assert Key(current[2], col) == current[2][0].1;
    DropsMiddleDuplicate(current, col);
    unique := RemoveDuplicates(current, col);
  }

  /** Process 100 is known to the reference dataset and assigned to Ana;
      process 200 is unknown and leaves reconciliation unassigned. */
  lemma ExampleReconcile(reference: Dataset, unique: Dataset, col: string)
    requires reference == [[("Processo", Str("100")), (ResponsibleColumn, Str("Ana"))]]
    requires unique == [
      [("Processo", Str("100")), (TextColumn, Str("caso sul"))],
      [("Processo", Str("200")), (TextColumn, Str("caso norte"))]]
    requires col == "Processo"
    ensures
      var r := CompareAndAddPending(unique, reference, col);
      && |r| == 2
      && Key(r[0], col) == Str("100") && Key(r[1], col) == Str("200")
      && Get(r[0], PendingColumn) == Yes && Get(r[1], PendingColumn) == No
      && Get(r[0], ResponsibleColumn) == Str("Ana") && Get(r[1], ResponsibleColumn) == Str("")
      && Get(r[1], TextColumn) == Str("caso norte")
  {
    var k1, k2 := Key(unique[0], col), Key(unique[1], col);
    assert k1 == unique[0][0].1 && k2 == unique[1][0].1;
    assert Key(reference[0], col) == reference[0][0].1;
    assert KeySet(reference, col) == {k1};
    assert k1 != k2;
    var i1, i2 := LastIndex(reference, col, k1), LastIndex(reference, col, k2);
    assert i1 == 0;
    assert i2 == -1;
    assert Get(reference[0], ResponsibleColumn) == reference[0][1].1;
    assert TextColumn[0] != ResponsibleColumn[0] && "Processo"[0] != ResponsibleColumn[0];
    forall i | 0 <= i < 2
      ensures Get(unique[i], ResponsibleColumn) == Missing
    {
      var row := unique[i];
      assert row[0].0[0] != ResponsibleColumn[0] && row[1].0[0] != ResponsibleColumn[0];
      assert |row| == 2 && row[1..][0] == row[1] && |row[1..][1..]| == 0;
      assert Get(row, ResponsibleColumn) == Get(row[1..], ResponsibleColumn);
      assert Get(row[1..], ResponsibleColumn) == Get(row[1..][1..], ResponsibleColumn);
    }
    assert Get(unique[1], TextColumn) == unique[1][1].1;
  }

  /** The first row keeps Ana; the second, whose text reads "caso norte", is
      classified as Bruno's. */
  lemma ExampleClassify(rows: Dataset, dict: Dictionary)
    requires |rows| == 2
    requires Get(rows[0], ResponsibleColumn) == Str("Ana")
    requires Get(rows[1], ResponsibleColumn) == Str("")
    requires Get(rows[1], TextColumn) == Str("caso norte")
    requires dict == [("Ana", ["sul"]), ("Bruno", ["norte"])]
    ensures ClassifyRow(rows[0], dict) == rows[0]
    ensures ClassifyRow(rows[1], dict) == Set(rows[1], ResponsibleColumn, Str("Bruno"))
  {
    var text := Get(rows[1], TextColumn).s;
    NorteIsBrunos(dict, text);
    NorteRowIsBrunos(rows[1], dict, text);
  }

  /** An unassigned row whose text is already normal, such as "caso norte",
      goes to the party of the first hit, Bruno. */
  lemma NorteRowIsBrunos(row: Row, dict: Dictionary, text: string)
    requires Get(row, ResponsibleColumn) == Str("")
    requires Get(row, TextColumn) == Str(text) && NormalizeString(text) == text
    requires IsFirstHit(dict, text, 1, 0) && dict[1].0 == "Bruno"
    ensures ClassifyRow(row, dict) == Set(row, ResponsibleColumn, Str("Bruno"))
  {
    assert NormalizeText(Get(row, TextColumn)) == text;
  }

  /** "caso norte" is already normal, and in it the first hit of the example
      dictionary is Bruno's "norte". */
  lemma NorteIsBrunos(dict: Dictionary, text: string)
    requires dict == [("Ana", ["sul"]), ("Bruno", ["norte"])]
    requires text == "caso norte"
    ensures IsFirstHit(dict, text, 1, 0) && dict[1].0 == "Bruno"
    ensures NormalizeString(text) == text
  {
    ExampleNormalizes(text, "caso norte");
    CasoNorteMatches(text);
    ExampleNormalizes(dict[0].1[0], "sul");
    ExampleNormalizes(dict[1].1[0], "norte");
    assert !Hits(dict, text, 0, 0);
    assert Hits(dict, text, 1, 0);
    forall a', b' | a' < 1 || (a' == 1 && b' < 0)
      ensures !Hits(dict, text, a', b')
    {
      if 0 <= a' && 0 <= b' < |dict[a'].1| {
        assert a' == 0 && b' == 0;
      }
    }
    assert IsFirstHit(dict, text, 1, 0);
  }
}
