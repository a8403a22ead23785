/**
 * Text normalisation used by every name lookup of the movie query API:
 * lower-case the text, strip the acute accent from the five vowels and
 * turn every space into a hyphen.
 */
module Normalize {

  /** Python's `str.lower` on one character, over the Latin-1 range:
      A-Z and the accented capitals U+00C0..U+00DE (except the sign U+00D7). */
  function LowerChar(c: char): (r: char)
    ensures ('A' <= c <= 'Z' || IsUpperLatin1(c)) ==> r as int == c as int + 32
    ensures !('A' <= c <= 'Z' || IsUpperLatin1(c)) ==> r == c
    ensures 'A' <= c <= 'Z' ==> 'a' <= r <= 'z'
    ensures !('A' <= r <= 'Z')
    ensures !IsUpperLatin1(r)
  {
    if 'A' <= c <= 'Z' || IsUpperLatin1(c) then (c as int + 32) as char else c
  }

  predicate IsUpperLatin1(c: char) {
    '\U{00C0}' <= c <= '\U{00DE}' && c != '\U{00D7}'
  }

  /** `s.lower()`: every character lower-cased independently. */
  function Lower(s: string): (r: string)
    ensures |r| == |s|
    ensures forall i :: 0 <= i < |s| ==> r[i] == LowerChar(s[i])
  {
    if s == [] then [] else [LowerChar(s[0])] + Lower(s[1..])
  }

  /** `s.replace(from, to)` for single characters: every occurrence of `from` becomes `to`. */
  function Replace(s: string, from: char, to: char): (r: string)
    ensures |r| == |s|
    ensures forall i :: 0 <= i < |s| ==> r[i] == (if s[i] == from then to else s[i])
    ensures from != to ==> from !in r
  {
    if s == [] then [] else [if s[0] == from then to else s[0]] + Replace(s[1..], from, to)
  }

  /** `normalize_string` as it is written: lower-case the text, then six
      single-character replacements in turn. */
  function NormalizeChain(s: string): string {
    Replace(Replace(Replace(Replace(Replace(Replace(
      Lower(s), 'á', 'a'), 'é', 'e'), 'í', 'i'), 'ó', 'o'), 'ú', 'u'), ' ', '-')
  }

  /** `normalize_string` character by character: each character is replaced by
      its normal form, independently of its neighbours. */
  function NormalizeString(s: string): (r: string)
    ensures |r| == |s|
    ensures forall i :: 0 <= i < |s| ==> r[i] == NormalizeChar(s[i])
  {
    if s == [] then [] else [NormalizeChar(s[0])] + NormalizeString(s[1..])
  }

  /** The chain of replacements is the character-wise normal form: the order of the
      replacements does not matter, and none of them undoes another. */
  lemma ChainIsCharwise(s: string)
    ensures NormalizeChain(s) == NormalizeString(s)
  {
    var lowered := Lower(s);
    var a := Replace(lowered, 'á', 'a');
    var e := Replace(a, 'é', 'e');
    var i := Replace(e, 'í', 'i');
    var o := Replace(i, 'ó', 'o');
    var u := Replace(o, 'ú', 'u');
    var r := Replace(u, ' ', '-');
    forall k | 0 <= k < |s| ensures r[k] == NormalizeChar(s[k]) {
      assert lowered[k] == LowerChar(s[k]);
    }
  }

  /** A normalised string holds no space, no accented lower-case vowel and no
      capital letter of Latin-1; in particular the accented capitals are gone too,
      because lower-casing runs before the accents are stripped. */
  lemma NormalizedAlphabet(s: string)
    ensures var r := NormalizeString(s);
      && ' ' !in r
      && (forall c :: c in AccentedVowels ==> c !in r)
      && (forall c :: c in r ==> !('A' <= c <= 'Z') && !IsUpperLatin1(c))
  {
    var r := NormalizeString(s);
    forall c | c in r ensures c != ' ' && c !in AccentedVowels && !('A' <= c <= 'Z') && !IsUpperLatin1(c) {
      var k :| 0 <= k < |r| && r[k] == c;
      NormalizeCharRange(s[k]);
    }
  }

  /** The five lower-case vowels with an acute accent that normalisation removes. */
  const AccentedVowels: set<char> := {'á', 'é', 'í', 'ó', 'ú'}

  /** What normalisation does to one character, independently of how the chain is written. */
  function NormalizeChar(c: char): char {
    match LowerChar(c)
    case 'á' => 'a'
    case 'é' => 'e'
    case 'í' => 'i'
    case 'ó' => 'o'
    case 'ú' => 'u'
    case ' ' => '-'
    case l => l
  }

  /** A string in normal form: no space, no accented lower-case vowel and no
      capital letter of Latin-1. */
  predicate IsNormalized(s: string) {
    forall i :: 0 <= i < |s| ==> IsNormalChar(s[i])
  }

  predicate IsNormalChar(c: char) {
    c != ' ' && c !in AccentedVowels && !('A' <= c <= 'Z') && !IsUpperLatin1(c)
  }

  /** Normalising twice is normalising once. */
  lemma NormalizeIdempotent(s: string)
    ensures NormalizeString(NormalizeString(s)) == NormalizeString(s)
  {
    var n := NormalizeString(s);
    forall i | 0 <= i < |n| ensures IsNormalChar(n[i]) {
      NormalizeCharRange(s[i]);
    }
    NormalizedIsFixed(n);
  }

  lemma NormalizeCharRange(c: char)
    ensures var n := NormalizeChar(c);
      n != ' ' && n !in AccentedVowels && !('A' <= n <= 'Z') && !IsUpperLatin1(n)
  {
  }

  lemma NormalizeCharIdempotent(c: char)
    ensures NormalizeChar(NormalizeChar(c)) == NormalizeChar(c)
  {
  }

  /** A character is left as it is exactly when it is in normal form. */
  lemma NormalCharIsFixed(c: char)
    ensures NormalizeChar(c) == c <==> IsNormalChar(c)
  {
  }

  /** The strings normalisation leaves unchanged are exactly the strings in normal form. */
  lemma NormalizedIsFixed(s: string)
    ensures NormalizeString(s) == s <==> IsNormalized(s)
  {
    forall i | 0 <= i < |s| ensures NormalizeChar(s[i]) == s[i] <==> IsNormalChar(s[i]) {
      NormalCharIsFixed(s[i]);
    }
    if IsNormalized(s) {
      assert forall i :: 0 <= i < |s| ==> NormalizeString(s)[i] == s[i];
    }
  }

  /** Lower-case ASCII letters and hyphens are left as they are. */
  predicate IsLowerAsciiWord(s: string) {
    forall i :: 0 <= i < |s| ==> 'a' <= s[i] <= 'z' || s[i] == '-'
  }

  lemma LowerAsciiWordIsNormalized(s: string)
    requires IsLowerAsciiWord(s)
    ensures NormalizeString(s) == s
  {
    NormalizedIsFixed(s);
  }

  /** The letter under an acute accent, in the same case: á and Á become a and A,
      and so on for the five vowels; every other character is itself. */
  function StripAccent(c: char): char {
    match c
    case 'á' => 'a'
    case 'é' => 'e'
    case 'í' => 'i'
    case 'ó' => 'o'
    case 'ú' => 'u'
    case 'Á' => 'A'
    case 'É' => 'E'
    case 'Í' => 'I'
    case 'Ó' => 'O'
    case 'Ú' => 'U'
    case _ => c
  }

  /** The text with the acute accents of its vowels removed. */
  function StripAccents(s: string): (r: string)
    ensures |r| == |s|
    ensures forall i :: 0 <= i < |s| ==> r[i] == StripAccent(s[i])
  {
    if s == [] then [] else [StripAccent(s[0])] + StripAccents(s[1..])
  }

  /** Case does not matter: lower-casing first gives the same normal form. */
  lemma CaseDoesNotMatter(s: string)
    ensures NormalizeString(Lower(s)) == NormalizeString(s)
  {
    var l := Lower(s);
    forall i | 0 <= i < |s| ensures NormalizeChar(l[i]) == NormalizeChar(s[i]) {
      assert LowerChar(LowerChar(s[i])) == LowerChar(s[i]);
    }
  }

  /** Accents do not matter: removing the acute accents first gives the same normal form. */
  lemma AccentsDoNotMatter(s: string)
    ensures NormalizeString(StripAccents(s)) == NormalizeString(s)
  {
    var a := StripAccents(s);
    forall i | 0 <= i < |s| ensures NormalizeChar(a[i]) == NormalizeChar(s[i]) {
      AccentCharDoesNotMatter(s[i]);
    }
  }

  lemma AccentCharDoesNotMatter(c: char)
    ensures NormalizeChar(StripAccent(c)) == NormalizeChar(c)
  {
  }

  /** Two spellings of one word that differ only in case and in acute accents. */
  predicate SameUpToCaseAndAccents(a: string, b: string) {
    Lower(StripAccents(a)) == Lower(StripAccents(b))
  }

  /** Spellings that differ only in case and accents have the same normal form. */
  lemma CaseAndAccentsDoNotMatter(a: string, b: string)
    requires SameUpToCaseAndAccents(a, b)
    ensures NormalizeString(a) == NormalizeString(b)
  {
    CaseDoesNotMatter(StripAccents(a));
    CaseDoesNotMatter(StripAccents(b));
    AccentsDoNotMatter(a);
    AccentsDoNotMatter(b);
  }
}
