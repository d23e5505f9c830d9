/** The `capitalize` template helper: the first character upper-cased, the
    rest of the string as it is. Upper-casing is that of the ASCII letters;
    every other character is left unchanged. */
module Handlebars {
  predicate IsLower(c: char) {
    'a' <= c <= 'z'
  }

  predicate IsUpper(c: char) {
    'A' <= c <= 'Z'
  }

  /** `toUpperCase` on one character. */
  function UpperChar(c: char): (u: char)
    ensures IsLower(c) ==> IsUpper(u) && (u as int) - (c as int) == ('A' as int) - ('a' as int)
    ensures !IsLower(c) ==> u == c
  {
    if IsLower(c) then (c as int - 'a' as int + 'A' as int) as char else c
  }

  /** `str.charAt(0).toUpperCase() + str.slice(1)`; `charAt(0)` of the empty
      string is the empty string. */
  function Capitalize(s: string): (r: string)
    ensures |r| == |s|
    ensures s == [] ==> r == []
    ensures s != [] ==> r[0] == UpperChar(s[0]) && r[1..] == s[1..]
  {
    if s == [] then [] else [UpperChar(s[0])] + s[1..]
  }

  /** A capitalized string starts with no lower-case letter, and capitalizing
      it again changes nothing. */
  lemma CapitalizeIsIdempotent(s: string)
    ensures Capitalize(s) == [] || !IsLower(Capitalize(s)[0])
    ensures Capitalize(Capitalize(s)) == Capitalize(s)
  {
    if s != [] {
      var r := Capitalize(s);
      assert r == [r[0]] + r[1..];
    }
  }

  /** Capitalizing changes at most the first character, and changes it
      exactly when that character is a lower-case letter. */
  lemma CapitalizeChangesOnlyALowerFirst(s: string)
    ensures Capitalize(s) == s <==> s == [] || !IsLower(s[0])
    ensures forall i :: 1 <= i < |s| ==> Capitalize(s)[i] == s[i]
  {
    if s != [] {
      assert s == [s[0]] + s[1..];
      if Capitalize(s) == s {
        assert UpperChar(s[0]) == s[0];
      }
    }
  }
}
