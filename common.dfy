/** Values shared by every part of the model: nullable values and the
    ordinal, case-insensitive string comparison that .NET calls
    `StringComparer.OrdinalIgnoreCase`. */
module Common {

  /** A value that may be absent; `None` stands for a C# `null`. */
  datatype Option<+T> = None | Some(value: T)

  /** `String.IsNullOrEmpty`. */
  predicate IsNullOrEmpty(s: Option<string>) {
    s.None? || s.value == ""
  }

  /** The upper-case form a character takes under an ordinal, case-insensitive
      comparison. Only the ASCII letters are folded in this model. */
  function ToUpperOrdinal(c: char): (u: char)
    ensures 'a' <= c <= 'z' ==> 'A' <= u <= 'Z'
    ensures !('a' <= c <= 'z') ==> u == c
  {
    if 'a' <= c <= 'z' then (c as int - 32) as char else c
  }

  /** Two characters are the same letter in either ASCII case, or the same
      character. */
  predicate SameIgnoringAsciiCase(c: char, d: char) {
    c == d ||
    ('a' <= c <= 'z' && d as int == c as int - ('a' as int - 'A' as int)) ||
    ('a' <= d <= 'z' && c as int == d as int - ('a' as int - 'A' as int))
  }

  /** Folding identifies two characters exactly when they are the two cases
      of one ASCII letter, or the same character. */
  lemma ToUpperOrdinalSame(c: char, d: char)
    ensures 'a' <= c <= 'z' ==> ToUpperOrdinal(c) as int == c as int - ('a' as int - 'A' as int)
    ensures ToUpperOrdinal(c) == ToUpperOrdinal(d) <==> SameIgnoringAsciiCase(c, d)
  {
  }

  /** The key under which an ordinal, case-insensitive comparer files a string:
      two strings compare equal exactly when their keys are equal. */
  function UpperKey(s: string): string {
    seq(|s|, i requires 0 <= i < |s| => ToUpperOrdinal(s[i]))
  }

  /** `String.Equals(a, b, StringComparison.OrdinalIgnoreCase)`. */
  predicate EqualsIgnoreCase(a: string, b: string) {
    UpperKey(a) == UpperKey(b)
  }

  /** The key keeps the length of the string and folds it character by character. */
  lemma UpperKeyAt(s: string, i: nat)
    requires i < |s|
    ensures |UpperKey(s)| == |s| && UpperKey(s)[i] == ToUpperOrdinal(s[i])
  {
  }

  /** A key is already in upper case: filing it again gives the same key. */
  lemma UpperKeyIdempotent(s: string)
    ensures UpperKey(UpperKey(s)) == UpperKey(s)
  {
  }

  /** Two strings compare equal ignoring case exactly when they have the
      same length and agree, position by position, up to the case of an
      ASCII letter. */
  lemma EqualsIgnoreCaseCharwise(a: string, b: string)
    ensures EqualsIgnoreCase(a, b) <==>
            |a| == |b| && forall i :: 0 <= i < |a| ==> SameIgnoringAsciiCase(a[i], b[i])
  {
    if EqualsIgnoreCase(a, b) {
      assert |UpperKey(a)| == |a| && |UpperKey(b)| == |b|;
      forall i | 0 <= i < |a|
        ensures SameIgnoringAsciiCase(a[i], b[i])
      {
        assert UpperKey(a)[i] == UpperKey(b)[i];
        ToUpperOrdinalSame(a[i], b[i]);
      }
    }
    if |a| == |b| && forall i :: 0 <= i < |a| ==> SameIgnoringAsciiCase(a[i], b[i]) {
      forall i | 0 <= i < |a|
        ensures UpperKey(a)[i] == UpperKey(b)[i]
      {
        ToUpperOrdinalSame(a[i], b[i]);
      }
    }
  }
}
