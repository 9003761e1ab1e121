/**
  Keyword classification (`assignResponsible`, src/App.jsx:208-232).

  The dictionary of responsible parties is `responsibleMap`, a module the
  program imports; it is a parameter here, its `for...in` iteration order
  being the order of the sequence. A row that already has a truthy
  `Responsável` is kept. Otherwise, when its `Texto L=100` cell is truthy,
  the cell is normalised and the parties are tried in order, each party's
  keywords in order; the first party with a keyword that, normalised,
  matches the text as a whole word becomes the row's `Responsável`.
 */
module Classify {

  import opened Values
  import opened Text
  import opened WordMatch

  /** Responsible party and its keywords, in iteration order. */
  type Dictionary = seq<(string, seq<string>)>

  /** Keyword `b` of party `a` matches the normalised text. */
  predicate Hits(dict: Dictionary, text: string, a: int, b: int) {
    0 <= a < |dict| && 0 <= b < |dict[a].1| && WholeWordTest(text, NormalizeString(dict[a].1[b]))
  }

  /** Keyword `b` of party `a` is the first hit in dictionary order, then
      keyword order. */
  ghost predicate IsFirstHit(dict: Dictionary, text: string, a: int, b: int) {
    && Hits(dict, text, a, b)
    && forall a', b' :: (a' < a || (a' == a && b' < b)) ==> !Hits(dict, text, a', b')
  }

  /** The inner loop: some keyword of the list matches the normalised text. */
  function AnyKeywordHits(keywords: seq<string>, text: string): (b: bool)
    ensures b <==> exists k :: 0 <= k < |keywords| && WholeWordTest(text, NormalizeString(keywords[k]))
  {
    if |keywords| == 0 then false
    else if WholeWordTest(text, NormalizeString(keywords[0])) then
      assert WholeWordTest(text, NormalizeString(keywords[0]));
      true
    else
      var b := AnyKeywordHits(keywords[1..], text);
      assert forall k :: 1 <= k < |keywords| ==> keywords[k] == keywords[1..][k - 1];
      b
  }

  /** The outer loop: the party of the first hit, if any keyword hits. */
  function FirstParty(dict: Dictionary, text: string): (r: Option<string>)
    ensures r.None? <==> forall a, b :: !Hits(dict, text, a, b)
    ensures forall a, b :: IsFirstHit(dict, text, a, b) ==> r == Some(dict[a].0)
    decreases |dict|
  {
    if |dict| == 0 then None
    else if AnyKeywordHits(dict[0].1, text) then
      FirstPartyHitsFirst(dict, text);
      Some(dict[0].0)
    else
      var r := FirstParty(dict[1..], text);
      ShiftHits(dict, text);
      r
  }

  /** When the first party has a matching keyword, every first hit is one of
      its keywords. */
  lemma FirstPartyHitsFirst(dict: Dictionary, text: string)
    requires |dict| > 0 && AnyKeywordHits(dict[0].1, text)
    ensures exists b :: Hits(dict, text, 0, b)
    ensures forall a, b :: IsFirstHit(dict, text, a, b) ==> a == 0
  {
    var k :| 0 <= k < |dict[0].1| && WholeWordTest(text, NormalizeString(dict[0].1[k]));
    assert Hits(dict, text, 0, k);
  }

  /** The hits of a dictionary past its first party are the hits of its tail. */
  lemma ShiftHits(dict: Dictionary, text: string)
    requires |dict| > 0
    ensures forall a, b :: 1 <= a ==> (Hits(dict, text, a, b) <==> Hits(dict[1..], text, a - 1, b))
    ensures !AnyKeywordHits(dict[0].1, text) ==>
      ((forall a, b :: !Hits(dict, text, a, b)) <==> (forall a, b :: !Hits(dict[1..], text, a, b)))
    ensures !AnyKeywordHits(dict[0].1, text) ==>
      forall a, b :: IsFirstHit(dict, text, a, b) ==> a >= 1 && IsFirstHit(dict[1..], text, a - 1, b)
  {
    forall a, b | 1 <= a
      ensures Hits(dict, text, a, b) <==> Hits(dict[1..], text, a - 1, b)
    {
      if 1 <= a < |dict| {
        assert dict[a] == dict[1..][a - 1];
      }
    }
    forall a, b | 0 <= a
      ensures Hits(dict[1..], text, a, b) <==> Hits(dict, text, a + 1, b)
    {
      if a < |dict| - 1 {
        assert dict[a + 1] == dict[1..][a];
      }
    }
    if !AnyKeywordHits(dict[0].1, text) {
      forall a, b | IsFirstHit(dict, text, a, b)
        ensures a >= 1 && IsFirstHit(dict[1..], text, a - 1, b)
      {
        forall a', b' | a' < a - 1 || (a' == a - 1 && b' < b)
          ensures !Hits(dict[1..], text, a', b')
        {
          if 0 <= a' {
            assert !Hits(dict, text, a' + 1, b');
          }
        }
      }
    }
  }

  /** One step of the `data.map` in `assignResponsible`. */
  function ClassifyRow(row: Row, dict: Dictionary): (r: Row)
    ensures Truthy(Get(row, ResponsibleColumn)) ==> r == row
    ensures !Truthy(Get(row, TextColumn)) ==> r == row
    ensures (forall a, b :: !Hits(dict, NormalizeText(Get(row, TextColumn)), a, b)) ==> r == row
    ensures !Truthy(Get(row, ResponsibleColumn)) && Truthy(Get(row, TextColumn)) ==>
      forall a, b :: IsFirstHit(dict, NormalizeText(Get(row, TextColumn)), a, b) ==>
        r == Set(row, ResponsibleColumn, Str(dict[a].0))
  {
    if Truthy(Get(row, ResponsibleColumn)) then row
    else
      var text := Get(row, TextColumn);
      if !Truthy(text) then row
      else match FirstParty(dict, NormalizeText(text))
        case None => row
        case Some(party) => Set(row, ResponsibleColumn, Str(party))
  }

  /** `assignResponsible`: the rows, in order, each classified on its own. */
  function AssignResponsible(data: Dataset, dict: Dictionary): (r: Dataset)
    ensures |r| == |data|
    ensures forall i :: 0 <= i < |r| ==> r[i] == ClassifyRow(data[i], dict)
  {
    seq(|data|, i requires 0 <= i < |data| => ClassifyRow(data[i], dict))
  }

  /** Classification touches no column but `Responsável`, and that one only
      when it was falsy. */
  lemma ClassifyRowKeepsOtherColumns(row: Row, dict: Dictionary)
    ensures forall c :: c != ResponsibleColumn ==> Get(ClassifyRow(row, dict), c) == Get(row, c)
    ensures Truthy(Get(row, ResponsibleColumn)) ==>
      Get(ClassifyRow(row, dict), ResponsibleColumn) == Get(row, ResponsibleColumn)
    ensures Columns(ClassifyRow(row, dict)) == Columns(row) ||
      Columns(ClassifyRow(row, dict)) == Columns(row) + [ResponsibleColumn]
  {
  }

  /** A party none of whose keywords matches can be inserted anywhere in the
      dictionary, or removed from it, without changing the outcome; so the
      order of such parties never matters. */
  lemma {:induction false} SilentPartyIsIrrelevant(
    before: Dictionary, silent: (string, seq<string>), after: Dictionary, text: string)
    requires !AnyKeywordHits(silent.1, text)
    ensures FirstParty(before + [silent] + after, text) == FirstParty(before + after, text)
    decreases |before|
  {
    var d, e := before + [silent] + after, before + after;
    if |before| == 0 {
      assert d == [silent] + after && d[1..] == after && e == after;
      FirstPartyStep(d, text);
    } else {
      ConsSplit(before, [silent], after);
      FirstPartyStep(d, text);
      FirstPartyStep(e, text);
      SilentPartyIsIrrelevant(before[1..], silent, after, text);
    }
  }

  /** Head and tail of a dictionary with `before` in front. */
  lemma ConsSplit(before: Dictionary, mid: Dictionary, after: Dictionary)
    requires |before| > 0
    ensures (before + mid + after)[0] == before[0] && (before + after)[0] == before[0]
    ensures (before + mid + after)[1..] == before[1..] + mid + after
    ensures (before + after)[1..] == before[1..] + after
  {
  }

  /** One turn of the outer loop. */
  lemma FirstPartyStep(dict: Dictionary, text: string)
    requires |dict| > 0
    ensures FirstParty(dict, text) ==
      if AnyKeywordHits(dict[0].1, text) then Some(dict[0].0) else FirstParty(dict[1..], text)
  {
  }

  /** A row whose text holds "sul" only inside "Resultado" is left
      unclassified by a dictionary whose one keyword is "sul". */
  lemma ResultadoIsNotSul(row: Row, dict: Dictionary)
    requires row == [(TextColumn, Str("Resultado Final")), (ResponsibleColumn, Str(""))]
    requires dict == [("Ana", ["sul"])]
    ensures ClassifyRow(row, dict) == row
    ensures Get(ClassifyRow(row, dict), ResponsibleColumn) == Str("")
  {
    var cell := Get(row, TextColumn);
    assert cell == row[0].1;
    var text := NormalizeText(cell);
    ExampleNormalizes(cell.s, "resultado final");
    var kw := dict[0].1[0];
    ExampleNormalizes(kw, "sul");
    SulNotInResultado(text);
    OnlyKeyword(dict, text);
    assert Get(row, ResponsibleColumn) == row[1].1;
  }

  /** With a single party holding a single keyword, the hits are that
      keyword's matches. */
  lemma OnlyKeyword(dict: Dictionary, text: string)
    requires |dict| == 1 && |dict[0].1| == 1
    ensures (forall a, b :: !Hits(dict, text, a, b)) <==>
      !WholeWordTest(text, NormalizeString(dict[0].1[0]))
  {
    if WholeWordTest(text, NormalizeString(dict[0].1[0])) {
      assert Hits(dict, text, 0, 0);
    } else {
      forall a, b ensures !Hits(dict, text, a, b) {
        if 0 <= a < |dict| && 0 <= b < |dict[a].1| {
          assert a == 0 && b == 0;
        }
      }
    }
  }
}
