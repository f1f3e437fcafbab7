/** A culture-independent uppercase transform restricted to ASCII letters.
    It stands in for .NET's `ToUpperInvariant`, which the registry uses to
    build and probe its case-insensitive indexes. */
module AsciiCase {

  predicate IsLower(c: char) {
    'a' <= c <= 'z'
  }

  /** Maps 'a'..'z' onto 'A'..'Z' and leaves every other character alone. */
  function UpperChar(c: char): (u: char)
    ensures !IsLower(u)
    ensures IsLower(c) ==> 'A' <= u <= 'Z' && u as int + 32 == c as int
    ensures !IsLower(c) ==> u == c
  {
    if IsLower(c) then (c as int - 32) as char else c
  }

  /** Uppercases a string character by character. */
  function Upper(s: string): (r: string)
    ensures |r| == |s|
    ensures forall i :: 0 <= i < |s| ==> r[i] == UpperChar(s[i])
  {
    if s == [] then [] else [UpperChar(s[0])] + Upper(s[1..])
  }

  /** Uppercasing twice is uppercasing once. */
  lemma UpperIdempotent(s: string)
    ensures Upper(Upper(s)) == Upper(s)
  {
  }
}
