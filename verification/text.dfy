/**
  Character classes and text normalisation (`normalizeText`, src/App.jsx).

  `normalizeText` runs canonical decomposition (NFD), deletes every character
  outside the regular-expression classes `\w` and `\s`, then lowercases. Only
  the characters that survive the deletion matter, so decomposition is
  modelled by what it leaves behind: a precomposed Latin letter leaves its
  base letter (the combining accent it decomposes into is deleted), and a
  character whose decomposition is itself stays as it is or is deleted.
  Canonical reordering only moves combining marks, which are all deleted, so
  it has no visible effect and the model works one character at a time.
 */
module Text {

  import opened Values

  /** `\w` in a JavaScript regular expression without the `u` flag. Even with
      the `i` flag no character outside ASCII is a word character (only `u`
      together with `i` would add LATIN SMALL LETTER LONG S and KELVIN SIGN). */
  function IsWordChar(c: char): (b: bool)
    ensures b ==> c < '\U{0080}'
  {
    'a' <= c <= 'z' || 'A' <= c <= 'Z' || '0' <= c <= '9' || c == '_'
  }

  /** `\s` in a JavaScript regular expression: the ECMAScript white-space and
      line-terminator characters. No white space is a word character. */
  function IsSpace(c: char): (b: bool)
    ensures b ==> !IsWordChar(c)
  {
    || '\t' <= c <= '\r'
    || c == ' '
    || c == '\U{00A0}'
    || c == '\U{1680}'
    || '\U{2000}' <= c <= '\U{200A}'
    || c == '\U{2028}'
    || c == '\U{2029}'
    || c == '\U{202F}'
    || c == '\U{205F}'
    || c == '\U{3000}'
    || c == '\U{FEFF}'
  }

  /** The characters a normalised text is made of: lowercase letters, digits,
      `_` and white space. The quads U+2000 and U+2001 never appear, because
      their canonical decompositions are U+2002 and U+2003. */
  predicate IsNormalChar(c: char) {
    || 'a' <= c <= 'z'
    || '0' <= c <= '9'
    || c == '_'
    || (IsSpace(c) && c != '\U{2000}' && c != '\U{2001}')
  }

  /** The characters the deletion keeps, after decomposition has turned the
      quads U+2000 and U+2001 into U+2002 and U+2003. */
  predicate IsKeptChar(c: char) {
    IsWordChar(c) || (IsSpace(c) && c != '\U{2000}' && c != '\U{2001}')
  }

  /** `toLowerCase` on the characters that can reach it: only `A`-`Z` change. */
  function LowerChar(c: char): char {
    if 'A' <= c <= 'Z' then (c as int + 32) as char else c
  }

  function Lower(s: string): string {
    seq(|s|, i requires 0 <= i < |s| => LowerChar(s[i]))
  }

  /** What is left of `c` after canonical decomposition and the deletion of
      every character outside `\w` and `\s`. Precomposed letters of the
      Latin-1 Supplement and Latin Extended-A blocks keep their base letter;
      KELVIN SIGN and ANGSTROM SIGN decompose to `K` and `Å` (hence `A`). */
  function Surviving(c: char): (r: string)
    ensures |r| <= 1
    ensures forall i :: 0 <= i < |r| ==> IsKeptChar(r[i])
  {
    if c == '\U{2000}' then "\U{2002}"
    else if c == '\U{2001}' then "\U{2003}"
    else if IsWordChar(c) || IsSpace(c) then [c]
    else match BaseLetter(c)
      case Some(b) => [b]
      case None => ""
  }

  /** The base letter of a precomposed letter; none for every other
      character outside `\w` and `\s`, since its decomposition is deleted
      whole. No character below U+00C0 has a canonical decomposition. */
  function BaseLetter(c: char): (r: Option<char>)
    ensures r.Some? ==> 'A' <= r.value <= 'Z' || 'a' <= r.value <= 'z'
  {
    if c < '\U{00C0}' then None
    else match c
    case 'À' | 'Á' | 'Â' | 'Ã' | 'Ä' | 'Å' | 'Ā' | 'Ă' | 'Ą' | '\U{212B}' => Some('A')
    case 'à' | 'á' | 'â' | 'ã' | 'ä' | 'å' | 'ā' | 'ă' | 'ą' => Some('a')
    case 'Ç' | 'Ć' | 'Ĉ' | 'Ċ' | 'Č' => Some('C')
    case 'ç' | 'ć' | 'ĉ' | 'ċ' | 'č' => Some('c')
    case 'Ď' => Some('D')
    case 'ď' => Some('d')
    case 'È' | 'É' | 'Ê' | 'Ë' | 'Ē' | 'Ĕ' | 'Ė' | 'Ę' | 'Ě' => Some('E')
    case 'è' | 'é' | 'ê' | 'ë' | 'ē' | 'ĕ' | 'ė' | 'ę' | 'ě' => Some('e')
    case 'Ĝ' | 'Ğ' | 'Ġ' | 'Ģ' => Some('G')
    case 'ĝ' | 'ğ' | 'ġ' | 'ģ' => Some('g')
    case 'Ĥ' => Some('H')
    case 'ĥ' => Some('h')
    case 'Ì' | 'Í' | 'Î' | 'Ï' | 'Ĩ' | 'Ī' | 'Ĭ' | 'Į' | 'İ' => Some('I')
    case 'ì' | 'í' | 'î' | 'ï' | 'ĩ' | 'ī' | 'ĭ' | 'į' => Some('i')
    case 'Ĵ' => Some('J')
    case 'ĵ' => Some('j')
    case 'Ķ' | '\U{212A}' => Some('K')
    case 'ķ' => Some('k')
    case 'Ĺ' | 'Ļ' | 'Ľ' => Some('L')
    case 'ĺ' | 'ļ' | 'ľ' => Some('l')
    case 'Ñ' | 'Ń' | 'Ņ' | 'Ň' => Some('N')
    case 'ñ' | 'ń' | 'ņ' | 'ň' => Some('n')
    case 'Ò' | 'Ó' | 'Ô' | 'Õ' | 'Ö' | 'Ō' | 'Ŏ' | 'Ő' => Some('O')
    case 'ò' | 'ó' | 'ô' | 'õ' | 'ö' | 'ō' | 'ŏ' | 'ő' => Some('o')
    case 'Ŕ' | 'Ŗ' | 'Ř' => Some('R')
    case 'ŕ' | 'ŗ' | 'ř' => Some('r')
    case 'Ś' | 'Ŝ' | 'Ş' | 'Š' => Some('S')
    case 'ś' | 'ŝ' | 'ş' | 'š' => Some('s')
    case 'Ţ' | 'Ť' => Some('T')
    case 'ţ' | 'ť' => Some('t')
    case 'Ù' | 'Ú' | 'Û' | 'Ü' | 'Ũ' | 'Ū' | 'Ŭ' | 'Ů' | 'Ű' | 'Ų' => Some('U')
    case 'ù' | 'ú' | 'û' | 'ü' | 'ũ' | 'ū' | 'ŭ' | 'ů' | 'ű' | 'ų' => Some('u')
    case 'Ŵ' => Some('W')
    case 'ŵ' => Some('w')
    case 'Ý' | 'Ŷ' | 'Ÿ' => Some('Y')
    case 'ý' | 'ÿ' | 'ŷ' => Some('y')
    case 'Ź' | 'Ż' | 'Ž' => Some('Z')
    case 'ź' | 'ż' | 'ž' => Some('z')
    case _ => None
  }

  /** `s.normalize('NFD').replace(/[^\w\s]/gi, '')`. */
  function Strip(s: string): (r: string)
    ensures |r| <= |s|
    ensures forall i :: 0 <= i < |r| ==> IsKeptChar(r[i])
  {
    if |s| == 0 then "" else Surviving(s[0]) + Strip(s[1..])
  }

  /** `normalizeText` on a string argument. */
  function NormalizeString(s: string): (r: string)
    ensures forall i :: 0 <= i < |r| ==> IsNormalChar(r[i])
  {
    Lower(Strip(s))
  }

  /** `normalizeText`: anything that is not a string becomes the empty text. */
  function NormalizeText(v: Value): (r: string)
    ensures !v.Str? ==> r == ""
    ensures forall i :: 0 <= i < |r| ==> IsNormalChar(r[i])
  {
    match v
    case Str(s) => NormalizeString(s)
    case _ => ""
  }

  /** A normal character is left alone by decomposition and lowering. */
  lemma NormalCharIsFixed(c: char)
    requires IsNormalChar(c)
    ensures Surviving(c) == [c]
    ensures LowerChar(c) == c
  {
  }

  /** Text already in normal form is its own normalisation. */
  lemma {:induction false} NormalStringIsFixed(s: string)
    requires forall i :: 0 <= i < |s| ==> IsNormalChar(s[i])
    ensures NormalizeString(s) == s
  {
    StripNormalIsIdentity(s);
    assert Lower(s) == s;
  }

  lemma {:induction false} StripNormalIsIdentity(s: string)
    requires forall i :: 0 <= i < |s| ==> IsNormalChar(s[i])
    ensures Strip(s) == s
  {
    if |s| > 0 {
      NormalCharIsFixed(s[0]);
      StripNormalIsIdentity(s[1..]);
      assert s == [s[0]] + s[1..];
    }
  }

  /** Normalising twice is normalising once. */
  lemma NormalizeIdempotent(s: string)
    ensures NormalizeString(NormalizeString(s)) == NormalizeString(s)
  {
    NormalStringIsFixed(NormalizeString(s));
  }

  /** Case never makes two texts normalise differently: lowering the input
      first changes nothing. */
  lemma {:induction false} NormalizeIgnoresCase(s: string)
    ensures NormalizeString(Lower(s)) == NormalizeString(s)
  {
    if |s| > 0 {
      var c := s[0];
      assert Lower(s)[0] == LowerChar(c);
      assert Lower(s)[1..] == Lower(s[1..]);
      NormalizeIgnoresCase(s[1..]);
      LowerConcat(Surviving(LowerChar(c)), Strip(Lower(s[1..])));
      LowerConcat(Surviving(c), Strip(s[1..]));
      SurvivingIgnoresCase(c);
    }
  }

  lemma SurvivingIgnoresCase(c: char)
    ensures Lower(Surviving(LowerChar(c))) == Lower(Surviving(c))
  {
    if 'A' <= c <= 'Z' {
      AsciiSurvives(c);
      AsciiSurvives(LowerChar(c));
    } else {
      assert LowerChar(c) == c;
    }
  }

  /** An ASCII word character passes through decomposition and deletion. */
  lemma AsciiSurvives(c: char)
    requires IsWordChar(c)
    ensures Surviving(c) == [c]
  {
  }

  /** Normalisation works character by character. */
  lemma {:induction false} NormalizeConcat(a: string, b: string)
    ensures NormalizeString(a + b) == NormalizeString(a) + NormalizeString(b)
  {
    StripConcat(a, b);
    LowerConcat(Strip(a), Strip(b));
  }

  lemma {:induction false} StripConcat(a: string, b: string)
    ensures Strip(a + b) == Strip(a) + Strip(b)
  {
    if |a| == 0 {
      assert a + b == b;
    } else {
      assert (a + b)[0] == a[0];
      assert (a + b)[1..] == a[1..] + b;
      StripConcat(a[1..], b);
      assert Strip(a + b) == Surviving(a[0]) + (Strip(a[1..]) + Strip(b));
    }
  }

  /** A single character normalises to what survives of it, lowercased. */
  lemma NormalizeChar(c: char)
    ensures NormalizeString([c]) == Lower(Surviving(c))
  {
    assert Strip([c]) == Surviving(c) + Strip([]);
  }

  /** ASCII words and white space are only lowercased: such a text
      normalises to `t` when `t` is its lowercase form. */
  lemma {:induction false} NormalizePlainText(s: string, t: string)
    requires |s| == |t|
    requires forall i :: 0 <= i < |s| ==> IsKeptChar(s[i]) && LowerChar(s[i]) == t[i]
    ensures NormalizeString(s) == t
  {
    StripPlainIsIdentity(s);
  }

  lemma {:induction false} StripPlainIsIdentity(s: string)
    requires forall i :: 0 <= i < |s| ==> IsKeptChar(s[i])
    ensures Strip(s) == s
  {
    if |s| > 0 {
      StripPlainIsIdentity(s[1..]);
      assert s == [s[0]] + s[1..];
    }
  }

  lemma LowerConcat(a: string, b: string)
    ensures Lower(a + b) == Lower(a) + Lower(b)
  {
  }

  /** JavaScript's `s.includes(t)`: `t` occurs somewhere in `s`. */
  predicate Contains(s: string, t: string) {
    exists i | 0 <= i <= |s| - |t| :: OccursAt(s, t, i)
  }

  /** `t` occurs in `s` starting at position `i`. */
  predicate OccursAt(s: string, t: string, i: int) {
    0 <= i && i + |t| <= |s| && s[i..i + |t|] == t
  }

  /** Accents, case and punctuation are normalised away. */
  lemma NormalizesPortuguese(s: string)
    requires s == "São Paulo!"
    ensures NormalizeString(s) == "sao paulo"
  {
    PortugueseSplit(s);
    var a, b, c, d := s[..1], s[1..2], s[2..9], s[9..];
    PortuguesePieces(a, b, c, d);
    PortugueseJoin(s, a, b, c, d);
  }

  /** "São Paulo!" in four pieces: an ASCII letter, an accented letter, plain
      text and punctuation. */
  lemma PortugueseSplit(s: string)
    requires s == "São Paulo!"
    ensures s == s[..1] + (s[1..2] + (s[2..9] + s[9..]))
    ensures s[..1] == "S" && s[1..2] == "ã" && s[2..9] == "o Paulo" && s[9..] == "!"
  {
  }

  /** The normal forms of the four pieces join into that of the whole. */
  lemma PortugueseJoin(s: string, a: string, b: string, c: string, d: string)
    requires s == a + (b + (c + d))
    requires NormalizeString(a) == "s" && NormalizeString(b) == "a"
    requires NormalizeString(c) == "o paulo" && NormalizeString(d) == ""
    ensures NormalizeString(s) == "sao paulo"
  {
    NormalizeConcat(a, b + (c + d));
    NormalizeConcat(b, c + d);
    NormalizeConcat(c, d);
  }

  /** The four pieces of "São Paulo!", one at a time. */
  lemma PortuguesePieces(a: string, b: string, c: string, d: string)
    requires a == "S" && b == "ã" && c == "o Paulo" && d == "!"
    ensures NormalizeString(a) == "s" && NormalizeString(b) == "a"
    ensures NormalizeString(c) == "o paulo" && NormalizeString(d) == ""
  {
    ExampleNormalizes(a, "s");
    NormalizeChar(b[0]);
    assert [b[0]] == b && Surviving(b[0]) == "a" && Lower("a") == "a";
    ExampleNormalizes(c, "o paulo");
    NormalizeChar(d[0]);
    PunctuationVanishes(d[0]);
    assert [d[0]] == d;
  }

  /** ASCII and Latin-1 punctuation has no base letter, so nothing is left of
      it. */
  lemma PunctuationVanishes(c: char)
    requires c < '\U{00C0}' && !IsWordChar(c) && !IsSpace(c)
    ensures Surviving(c) == ""
  {
  }

  /** The plain texts of the worked examples, ASCII words and spaces only,
      normalise to their known lowercase forms `t`. */
  lemma ExampleNormalizes(s: string, t: string)
    requires
      || (s == "S" && t == "s")
      || (s == "o Paulo" && t == "o paulo")
      || (s == "Resultado Final" && t == "resultado final")
      || (s == t && (s == "sul" || s == "norte" || s == "caso norte"))
    ensures NormalizeString(s) == t
  {
    NormalizePlainText(s, t);
  }
}
