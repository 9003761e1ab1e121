/**
  Whole-word matching: `new RegExp(`\\b${kw}\\b`, 'i').test(text)`
  (src/App.jsx:223-224).

  Both `kw` and `text` have been normalised before they get here, so `kw`
  holds only word characters and white space and carries no regular
  expression syntax: the pattern is `kw` itself between two word
  boundaries. Position `i` of `text` is a boundary when exactly one of the
  characters at `i - 1` and `i` is a word character, a position outside the
  text counting as a non-word character. Both sides are lowercase, so the
  `i` flag changes nothing and characters are compared as they are.
 */
module WordMatch {

  import opened Values
  import opened Text

  predicate IsWordAt(s: string, i: int) {
    0 <= i < |s| && IsWordChar(s[i])
  }

  /** `\b` holds at position `i`. Boundaries lie between the start and the
      end of the text, both included. */
  function IsBoundary(s: string, i: int): (b: bool)
    ensures b ==> 0 <= i <= |s|
  {
    IsWordAt(s, i - 1) != IsWordAt(s, i)
  }

  /** The pattern matches `text` starting at position `i`. The match lies
      inside the text, and a keyword that starts (ends) with a word character
      is not preceded (followed) by one, while one that starts (ends) with
      another character is. */
  function MatchesAt(text: string, kw: string, i: int): (b: bool)
    ensures b ==> 0 <= i <= |text| - |kw|
    ensures b && |kw| > 0 ==> (IsWordChar(kw[0]) <==> !IsWordAt(text, i - 1))
    ensures b && |kw| > 0 ==> (IsWordChar(kw[|kw| - 1]) <==> !IsWordAt(text, i + |kw|))
  {
    OccursAt(text, kw, i) && IsBoundary(text, i) && IsBoundary(text, i + |kw|)
  }

  /** The regular expression engine's scan: the leftmost match at or after
      position `from`. */
  function SearchFrom(text: string, kw: string, from: nat): (r: Option<nat>)
    ensures r.Some? ==> from <= r.value && MatchesAt(text, kw, r.value)
    ensures r.Some? ==> forall j :: from <= j < r.value ==> !MatchesAt(text, kw, j)
    ensures r.None? ==> forall j :: from <= j ==> !MatchesAt(text, kw, j)
    decreases |text| - from
  {
    if from + |kw| > |text| then None
    else if MatchesAt(text, kw, from) then Some(from)
    else SearchFrom(text, kw, from + 1)
  }

  /** `regex.test(text)`: some position starts a whole-word occurrence. */
  function WholeWordTest(text: string, kw: string): (b: bool)
    ensures b <==> exists i :: MatchesAt(text, kw, i)
  {
    SearchFrom(text, kw, 0).Some?
  }

  /** For a keyword that starts and ends with word characters, a match is an
      occurrence with no word character touching it on either side. */
  lemma WholeWordMeansDelimited(text: string, kw: string, i: int)
    requires |kw| > 0 && IsWordChar(kw[0]) && IsWordChar(kw[|kw| - 1])
    ensures MatchesAt(text, kw, i) <==>
      OccursAt(text, kw, i) && !IsWordAt(text, i - 1) && !IsWordAt(text, i + |kw|)
  {
    if OccursAt(text, kw, i) {
      assert text[i] == kw[0];
      assert text[i + |kw| - 1] == kw[|kw| - 1];
    }
  }

  /** Every word character of a text is preceded, within its word, by a
      boundary. */
  lemma {:induction false} WordStartsAtBoundary(text: string, j: int) returns (i: int)
    requires IsWordAt(text, j)
    ensures 0 <= i <= j && IsBoundary(text, i)
    decreases j
  {
    if IsWordAt(text, j - 1) {
      i := WordStartsAtBoundary(text, j - 1);
    } else {
      i := j;
    }
  }

  /** An empty keyword is the pattern `\b\b`: it matches exactly the texts
      that contain a word character. */
  lemma EmptyKeywordMatchesAnyWord(text: string)
    ensures WholeWordTest(text, "") <==> exists j :: 0 <= j < |text| && IsWordChar(text[j])
  {
    if exists j :: 0 <= j < |text| && IsWordChar(text[j]) {
      var j :| 0 <= j < |text| && IsWordChar(text[j]);
      var i := WordStartsAtBoundary(text, j);
      assert OccursAt(text, "", i);
      assert MatchesAt(text, "", i);
    }
    if WholeWordTest(text, "") {
      var i :| MatchesAt(text, "", i);
      if IsWordAt(text, i) {
        assert IsWordChar(text[i]);
      } else {
        assert IsWordChar(text[i - 1]);
      }
    }
  }

  /** A keyword inside a longer word is not matched: "sul" is not found in
      "resultado final". */
  lemma SulNotInResultado(text: string)
    requires text == "resultado final"
    ensures !WholeWordTest(text, "sul")
  {
    forall i | OccursAt(text, "sul", i)
      ensures !MatchesAt(text, "sul", i)
    {
      assert text[i..i + 3][0] == text[i];
      assert text[i] == 's';
      assert i == 2;
      assert IsWordAt(text, 1);
    }
  }

  /** "caso norte" holds "norte" as a whole word and not "sul". */
  lemma CasoNorteMatches(text: string)
    requires text == "caso norte"
    ensures !WholeWordTest(text, "sul")
    ensures WholeWordTest(text, "norte")
  {
    forall i | 0 <= i && i + 3 <= |text|
      ensures !OccursAt(text, "sul", i)
    {
      assert text[i..i + 3][0] == text[i];
      assert text[i..i + 3][1] == text[i + 1];
    }
    assert text[5..10] == "norte";
    assert MatchesAt(text, "norte", 5);
  }
}
