/**
  Key-column inference (`findProcessNumberColumn`, src/App.jsx:160-169).

  Only the first row's column names are looked at. The first one whose
  lowercased name contains `processo`, `number` or `numero` is the key
  column; when none does, the first column is. An empty dataset, and a first
  row without any column, give no column at all (`null` and `undefined`).
 */
module KeyColumn {

  import opened Values
  import opened Text

  /** A column name that reads as a process number. Every such name is at
      least as long as the shortest token, "number" or "numero". */
  function IsKeyCandidate(name: string): (b: bool)
    ensures b ==> |name| >= 6
  {
    var lower := Lower(name);
    Contains(lower, "processo") || Contains(lower, "number") || Contains(lower, "numero")
  }

  /** `Object.keys(firstRow).filter(...)`. */
  function Candidates(cols: seq<string>): (r: seq<string>)
    ensures |r| <= |cols|
    ensures forall i :: 0 <= i < |r| ==> IsKeyCandidate(r[i]) && r[i] in cols
    ensures forall j :: 0 <= j < |cols| && IsKeyCandidate(cols[j]) ==> cols[j] in r
  {
    if |cols| == 0 then []
    else if IsKeyCandidate(cols[0]) then [cols[0]] + Candidates(cols[1..])
    else Candidates(cols[1..])
  }

  /** The position of the first candidate among `cols`, `|cols|` when there is
      none: the reference the inference is measured against. */
  function FirstCandidateIndex(cols: seq<string>): (k: nat)
    ensures k <= |cols|
    ensures forall j :: 0 <= j < k ==> !IsKeyCandidate(cols[j])
    ensures k < |cols| ==> IsKeyCandidate(cols[k])
  {
    if |cols| == 0 then 0
    else if IsKeyCandidate(cols[0]) then 0
    else 1 + FirstCandidateIndex(cols[1..])
  }

  /** `findProcessNumberColumn`. */
  function FindKeyColumn(data: Dataset): (r: Option<string>)
    ensures r.None? <==> |data| == 0 || |data[0]| == 0
    ensures r.Some? ==>
      var cols := Columns(data[0]);
      var k := FirstCandidateIndex(cols);
      r.value == if k < |cols| then cols[k] else cols[0]
  {
    if |data| == 0 then None
    else
      var cols := Columns(data[0]);
      var candidates := Candidates(cols);
      CandidatesStartAtFirst(cols);
      if |candidates| > 0 then Some(candidates[0])
      else if |cols| > 0 then Some(cols[0])
      else None
  }

  /** The filtered list is empty exactly when no column is a candidate, and
      otherwise starts with the first candidate. */
  lemma {:induction false} CandidatesStartAtFirst(cols: seq<string>)
    ensures |Candidates(cols)| > 0 <==> FirstCandidateIndex(cols) < |cols|
    ensures |Candidates(cols)| > 0 ==> Candidates(cols)[0] == cols[FirstCandidateIndex(cols)]
  {
    if |cols| > 0 && !IsKeyCandidate(cols[0]) {
      CandidatesStartAtFirst(cols[1..]);
    }
  }

  /** The inferred column is one of the first row's columns, and a candidate
      wins over the fallback whenever there is one. */
  lemma FindKeyColumnPrefersCandidates(data: Dataset)
    requires |data| > 0
    ensures FindKeyColumn(data).Some? ==> FindKeyColumn(data).value in Columns(data[0])
    ensures (exists j :: 0 <= j < |data[0]| && IsKeyCandidate(Columns(data[0])[j])) ==>
      FindKeyColumn(data).Some? && IsKeyCandidate(FindKeyColumn(data).value)
  {
    var cols := Columns(data[0]);
    var k := FirstCandidateIndex(cols);
    if exists j :: 0 <= j < |data[0]| && IsKeyCandidate(cols[j]) {
      var j :| 0 <= j < |data[0]| && IsKeyCandidate(cols[j]);
      assert k <= j;
    }
  }

  /** A first column whose name contains "Processo" is the key column. */
  lemma FirstColumnCandidateIsChosen(data: Dataset)
    requires |data| > 0 && |data[0]| > 0 && data[0][0].0 == "Processo"
    ensures FindKeyColumn(data) == Some("Processo")
  {
    var name := "Processo";
    assert Lower(name) == "processo";
    assert OccursAt(Lower(name), "processo", 0);
    assert Columns(data[0])[0] == name;
  }
}
