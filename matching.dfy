/** The lookup mode a parse runs under, and what it means for a member to
    match an input string under each mode. */
module Matching {
  import opened AsciiCase
  import opened EnumMember

  datatype MatchBy =
    | NameOrValue  // the member matches if its name or its value equals the input
    | ValueOnly    // the member matches only if its value equals the input

  /** Case-sensitive meaning of a match. */
  predicate Matches(matchBy: MatchBy, m: Member, key: string) {
    m.value == key || (matchBy == NameOrValue && m.name == key)
  }

  /** Case-insensitive meaning of a match: equality after uppercasing. */
  predicate MatchesIgnoringCase(matchBy: MatchBy, m: Member, key: string) {
    Upper(m.value) == Upper(key) || (matchBy == NameOrValue && Upper(m.name) == Upper(key))
  }
}
