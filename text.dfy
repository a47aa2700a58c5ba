/**
 * The string operations the complaint pages rely on, as Python defines them:
 * `str.strip()` without arguments, `str.lower()` restricted to ASCII letters,
 * and the substring test `needle in hay`.
 */
module Text {

  /** The characters Python's `str.strip()` removes when called without arguments. */
  predicate IsSpace(c: char) {
    c == ' ' || ('\t' <= c <= '\r') || ('\U{1C}' <= c <= '\U{1F}')
    || c == '\U{85}' || c == '\U{A0}' || c == '\U{1680}'
    || ('\U{2000}' <= c <= '\U{200A}') || c == '\U{2028}' || c == '\U{2029}'
    || c == '\U{202F}' || c == '\U{205F}' || c == '\U{3000}'
  }

  /** Every character of `s` from index `i` up to (not including) `j` is white space. */
  predicate SpaceBetween(s: string, i: int, j: int) {
    forall k :: i <= k < j && 0 <= k < |s| ==> IsSpace(s[k])
  }

  /** How many white-space characters `s` starts with: what `str.lstrip()` drops. */
  function Lead(s: string): (n: nat)
    ensures n <= |s| && SpaceBetween(s, 0, n)
    ensures n < |s| ==> !IsSpace(s[n])
  {
    if |s| > 0 && IsSpace(s[0]) then 1 + Lead(s[1..]) else 0
  }

  /** How many white-space characters `s` ends with: what `str.rstrip()` drops. */
  function Trail(s: string): (n: nat)
    ensures n <= |s| && SpaceBetween(s, |s| - n, |s|)
    ensures n < |s| ==> !IsSpace(s[|s| - n - 1])
  {
    if |s| > 0 && IsSpace(s[|s| - 1]) then 1 + Trail(s[..|s| - 1]) else 0
  }

  /** Python's `s.strip()`: the slice of `s` between its leading and trailing white space. */
  function Strip(s: string): (r: string)
    ensures Lead(s) + |r| <= |s| && r == s[Lead(s)..Lead(s) + |r|]
    ensures SpaceBetween(s, 0, Lead(s)) && SpaceBetween(s, Lead(s) + |r|, |s|)
    ensures r == [] || (!IsSpace(r[0]) && !IsSpace(r[|r| - 1]))
  {
    if Lead(s) == |s| then [] else s[Lead(s)..|s| - Trail(s)]
  }

  /** A string is blank (`not s.strip()` in Python) exactly when it is all white space. */
  lemma {:induction false} StripBlankIff(s: string)
    ensures Strip(s) == [] <==> forall k :: 0 <= k < |s| ==> IsSpace(s[k])
  {
  }

  /** Python's `c.lower()` on the ASCII letters; every other character is left as it is. */
  function LowerChar(c: char): (r: char)
    ensures 'A' <= c <= 'Z' ==> 'a' <= r <= 'z' && r as int == c as int + 32
    ensures !('A' <= c <= 'Z') ==> r == c
  {
    if 'A' <= c <= 'Z' then (c as int - 'A' as int + 'a' as int) as char else c
  }

  /** `s.lower()` on ASCII letters, character by character. */
  function AsciiLower(s: string): (r: string)
    ensures |r| == |s| && forall k :: 0 <= k < |s| ==> r[k] == LowerChar(s[k])
  {
    if s == [] then [] else [LowerChar(s[0])] + AsciiLower(s[1..])
  }

  /** `needle` occurs in `hay` starting at index `k`. */
  predicate OccursAt(hay: string, needle: string, k: int) {
    0 <= k && k + |needle| <= |hay| && hay[k..k + |needle|] == needle
  }

  /** Python's substring test `needle in hay`. */
  predicate Contains(hay: string, needle: string) {
    exists k :: 0 <= k <= |hay| - |needle| && OccursAt(hay, needle, k)
  }

  /** An occurrence survives putting any text in front, shifted by that text's length. */
  lemma OccursAfterPrefix(prefix: string, hay: string, needle: string, k: int)
    requires OccursAt(hay, needle, k)
    ensures OccursAt(prefix + hay, needle, |prefix| + k)
  {
    var whole := prefix + hay;
    forall j | 0 <= j < |needle| ensures whole[|prefix| + k + j] == needle[j] {
      assert needle[j] == hay[k..k + |needle|][j];
    }
    assert whole[|prefix| + k..|prefix| + k + |needle|] == needle;
  }

  /** `s.strip()` occurs in `s`, right after the leading white space. */
  lemma StripOccurs(s: string)
    ensures OccursAt(s, Strip(s), Lead(s))
  {
  }

  /** Whatever precedes it, a string followed by `note` contains `note.strip()`. */
  lemma StrippedNoteFound(prefix: string, note: string)
    ensures Contains(prefix + note, Strip(note))
  {
    StripOccurs(note);
    OccursAfterPrefix(prefix, note, Strip(note), Lead(note));
    assert OccursAt(prefix + note, Strip(note), |prefix| + Lead(note));
  }
}
