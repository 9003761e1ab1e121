/**
  Deduplication (`removeDuplicates`, src/App.jsx:172-182).

  The rows are filtered left to right against a set of key values already
  seen: a row whose key value is in the set is dropped, otherwise its key
  value is added and the row kept. Key values are compared raw, so rows
  lacking the key column all share the key `Missing` and only the first of
  them survives.
 */
module Dedup {

  import opened Values

  /** The filter, with the `seen` set it has built so far: it keeps rows of
      `data` only, never one whose key value is already seen, and never two
      with the same key value. */
  function Scan(data: Dataset, col: string, seen: set<Value>): (r: Dataset)
    ensures |r| <= |data|
    ensures forall i :: 0 <= i < |r| ==> r[i] in data && Key(r[i], col) !in seen
    ensures KeysDistinct(r, col)
    decreases |data|
  {
    if |data| == 0 then []
    else
      var k := Key(data[0], col);
      if k in seen then Scan(data[1..], col, seen)
      else [data[0]] + Scan(data[1..], col, seen + {k})
  }

  /** `removeDuplicates`: no key value repeats, none is lost, nothing grows. */
  function RemoveDuplicates(data: Dataset, col: string): (r: Dataset)
    ensures |r| <= |data|
    ensures KeysDistinct(r, col)
    ensures KeySet(r, col) == KeySet(data, col)
  {
    var idx := FirstOccurrences(data, col);
    SurvivorsAreFirstOccurrences(data, col);
    SurvivorsCoverKeys(data, col, idx);
    Scan(data, col, {})
  }

  /** Row `i` is the first row of `data` with its key value. */
  predicate IsFirst(data: Dataset, col: string, i: int) {
    0 <= i < |data| && forall j :: 0 <= j < i ==> Key(data[j], col) != Key(data[i], col)
  }

  /** The positions of the first occurrences, in increasing order. */
  function FirstOccurrences(data: Dataset, col: string): seq<nat> {
    FirstOccurrencesFrom(data, col, 0)
  }

  function FirstOccurrencesFrom(data: Dataset, col: string, j: nat): seq<nat>
    requires j <= |data|
    decreases |data| - j
  {
    if j == |data| then []
    else if IsFirst(data, col, j) then [j] + FirstOccurrencesFrom(data, col, j + 1)
    else FirstOccurrencesFrom(data, col, j + 1)
  }

  /** `idx` lists, in increasing order, positions of `data` inside [lo, |data|),
      exactly the first occurrences among them, and `r` holds those rows. */
  predicate Selects(data: Dataset, col: string, lo: nat, idx: seq<nat>, r: Dataset) {
    && |idx| == |r|
    && (forall k :: 0 <= k < |idx| ==> lo <= idx[k] < |data| && r[k] == data[idx[k]])
    && (forall a, b :: 0 <= a < b < |idx| ==> idx[a] < idx[b])
    && (forall i :: lo <= i < |data| ==> (i in idx <==> IsFirst(data, col, i)))
  }

  /** Resuming the filter at row `j`, with the key values of the rows before
      it as the seen set, keeps exactly the first occurrences from `j` on. */
  lemma {:induction false} ScanSelectsFirst(data: Dataset, col: string, j: nat)
    requires j <= |data|
    ensures Selects(data, col, j, FirstOccurrencesFrom(data, col, j),
                    Scan(data[j..], col, KeySet(data[..j], col)))
    decreases |data| - j
  {
    if j < |data| {
      var seen := KeySet(data[..j], col);
      var k := Key(data[j], col);
      var rest := FirstOccurrencesFrom(data, col, j + 1);
      var r' := Scan(data[j + 1..], col, KeySet(data[..j + 1], col));
      assert data[j..][0] == data[j];
      assert data[j..][1..] == data[j + 1..];
      assert data[..j + 1] == data[..j] + [data[j]];
      KeySetAppend(data[..j], data[j], col);
      FirstIffUnseen(data, col, j);
      ScanSelectsFirst(data, col, j + 1);
      if k in seen {
        assert seen + {k} == seen;
        SelectsSkip(data, col, j, rest, r');
      } else {
        SelectsKeep(data, col, j, rest, r');
      }
    }
  }

  /** A row that repeats an earlier key value adds nothing to the selection. */
  lemma SelectsSkip(data: Dataset, col: string, j: nat, idx: seq<nat>, r: Dataset)
    requires j < |data| && !IsFirst(data, col, j)
    requires Selects(data, col, j + 1, idx, r)
    ensures Selects(data, col, j, idx, r)
  {
  }

  /** A first occurrence goes in front of the selection of the rows after it. */
  lemma SelectsKeep(data: Dataset, col: string, j: nat, idx: seq<nat>, r: Dataset)
    requires j < |data| && IsFirst(data, col, j)
    requires Selects(data, col, j + 1, idx, r)
    ensures Selects(data, col, j, [j] + idx, [data[j]] + r)
  {
    var idx', r' := [j] + idx, [data[j]] + r;
    forall k | 0 <= k < |idx'|
      ensures j <= idx'[k] < |data| && r'[k] == data[idx'[k]]
    {
      if k > 0 {
        assert idx'[k] == idx[k - 1] && r'[k] == r[k - 1];
      }
    }
    forall a, b | 0 <= a < b < |idx'|
      ensures idx'[a] < idx'[b]
    {
      assert idx'[b] == idx[b - 1];
      if a > 0 {
        assert idx'[a] == idx[a - 1];
      }
    }
    forall i | j <= i < |data|
      ensures i in idx' <==> IsFirst(data, col, i)
    {
      if i > j {
        assert i in idx' <==> i in idx;
      }
    }
  }

  /** Row `j` is a first occurrence exactly when its key value is not among
      those of the rows before it. */
  lemma FirstIffUnseen(data: Dataset, col: string, j: nat)
    requires j < |data|
    ensures IsFirst(data, col, j) <==> Key(data[j], col) !in KeySet(data[..j], col)
  {
    var k := Key(data[j], col);
    if k in KeySet(data[..j], col) {
      var i :| 0 <= i < j && Key(data[..j][i], col) == k;
      assert data[..j][i] == data[i];
    } else {
      forall i | 0 <= i < j
        ensures Key(data[i], col) != k
      {
        assert data[..j][i] == data[i];
      }
    }
  }

  /** The filter keeps exactly the first occurrences, in order. */
  lemma SurvivorsAreFirstOccurrences(data: Dataset, col: string)
    ensures Selects(data, col, 0, FirstOccurrences(data, col), Scan(data, col, {}))
  {
    ScanSelectsFirst(data, col, 0);
    assert data[0..] == data;
    assert KeySet(data[..0], col) == {};
  }

  /** The output is the subsequence of first occurrences: `FirstOccurrences`
      gives, in increasing order, the input position each output row comes
      from, and a position is listed exactly when its row is the first with
      its key value. */
  lemma RemoveDuplicatesKeepsFirstOccurrences(data: Dataset, col: string)
    ensures Selects(data, col, 0, FirstOccurrences(data, col), RemoveDuplicates(data, col))
  {
    SurvivorsAreFirstOccurrences(data, col);
  }

  /** Every row has a first occurrence of its key at or before it. */
  lemma {:induction false} FirstOccurrenceExists(data: Dataset, col: string, i: nat) returns (j: nat)
    requires i < |data|
    ensures j <= i && IsFirst(data, col, j) && Key(data[j], col) == Key(data[i], col)
    decreases i
  {
    if IsFirst(data, col, i) {
      j := i;
    } else {
      var p :| 0 <= p < i && Key(data[p], col) == Key(data[i], col);
      j := FirstOccurrenceExists(data, col, p);
    }
  }

  /** A selection of first occurrences repeats no key and keeps every key. */
  lemma SurvivorsCoverKeys(data: Dataset, col: string, idx: seq<nat>)
    requires Selects(data, col, 0, idx, Scan(data, col, {}))
    ensures KeysDistinct(Scan(data, col, {}), col)
    ensures KeySet(Scan(data, col, {}), col) == KeySet(data, col)
  {
    var r := Scan(data, col, {});
    forall a, b | 0 <= a < b < |r|
      ensures Key(r[a], col) != Key(r[b], col)
    {
      assert idx[b] in idx;
      assert IsFirst(data, col, idx[b]);
    }
    forall v | v in KeySet(data, col)
      ensures v in KeySet(r, col)
    {
      var i :| 0 <= i < |data| && Key(data[i], col) == v;
      var j := FirstOccurrenceExists(data, col, i);
      assert j in idx;
      var k :| 0 <= k < |idx| && idx[k] == j;
      assert r[k] == data[j];
    }
  }

  /** A dataset whose keys are already distinct passes the filter whole. */
  lemma {:induction false} ScanKeepsDistinct(data: Dataset, col: string, seen: set<Value>)
    requires KeysDistinct(data, col)
    requires KeySet(data, col) !! seen
    ensures Scan(data, col, seen) == data
    decreases |data|
  {
    if |data| > 0 {
      var k := Key(data[0], col);
      assert k in KeySet(data, col);
      var tail := data[1..];
      assert KeysDistinct(tail, col) by {
        forall a, b | 0 <= a < b < |tail|
          ensures Key(tail[a], col) != Key(tail[b], col)
        {
          assert tail[a] == data[a + 1] && tail[b] == data[b + 1];
        }
      }
      assert KeySet(tail, col) !! seen + {k} by {
        forall v | v in KeySet(tail, col)
          ensures v !in seen + {k}
        {
          var i :| 0 <= i < |tail| && Key(tail[i], col) == v;
          assert tail[i] == data[i + 1];
        }
      }
      ScanKeepsDistinct(tail, col, seen + {k});
    }
  }

  /** Removing duplicates twice is removing them once. */
  lemma RemoveDuplicatesIdempotent(data: Dataset, col: string)
    ensures RemoveDuplicates(RemoveDuplicates(data, col), col) == RemoveDuplicates(data, col)
  {
    ScanKeepsDistinct(RemoveDuplicates(data, col), col, {});
  }

  /** Exactly the datasets with distinct keys are left unchanged. */
  lemma RemoveDuplicatesFixedPoints(data: Dataset, col: string)
    ensures RemoveDuplicates(data, col) == data <==> KeysDistinct(data, col)
  {
    if KeysDistinct(data, col) {
      ScanKeepsDistinct(data, col, {});
    }
  }

  /** Three rows whose keys are k1, k1, k2 lose the middle one. */
  lemma DropsMiddleDuplicate(current: Dataset, col: string)
    requires |current| == 3
    requires Key(current[0], col) == Key(current[1], col) != Key(current[2], col)
    ensures RemoveDuplicates(current, col) == [current[0], current[2]]
  {
    var k1 := Key(current[0], col);
    var empty: set<Value> := {};
    assert empty + {k1} == {k1};
    assert Scan(current, col, empty) == [current[0]] + Scan(current[1..], col, {k1});
    var tail := current[1..];
    assert tail[0] == current[1] && tail[1..] == current[2..];
    assert Scan(tail, col, {k1}) == Scan(current[2..], col, {k1});
    var last := current[2..];
    assert last[0] == current[2] && |last[1..]| == 0;
    assert Scan(last, col, {k1}) == [current[2]];
  }
}
