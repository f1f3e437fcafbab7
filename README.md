# StrEnum member registry, modelled in Dafny

StrEnum lets a C# class declare a closed set of string-valued constants
("members"), each with a name and a value, via `Define` calls in static
field initialisers. Every enum type owns a registry (`MembersStore<TEnum>`)
that indexes its members four ways: by exact name, by exact value, by
uppercased name and by uppercased value. `Parse`/`TryParse` resolve an input
string to a member by name or value, with or without case, and `GetMembers`
lists the members in definition order. Members compare equal by value.

The model:

- `wrappers.dfy`: `Option` (the nullable references) and `Result` (the thrown exceptions).
- `ascii_case.dfy`: `Upper`, an ASCII-only, culture-independent stand-in for `ToUpperInvariant`.
- `enum_member.dfy`: `Member(typeTag, name, value)`. The type tag stands for the generic argument `TEnum`.
- `matching.dfy`: the `MatchBy` lookup mode, and what "a match" means under each mode, with and without case.
- `members_store.dfy`: class `Store`, one object per enum type. It holds the four index maps and `order`, the sequence of successful registrations. `TryAdd` updates them in place. `Find` and its two steps are reading functions. The invariant `Valid` says that each map equals `Index(order, key)`, the replay of insert-if-absent over definition order, and that names are unique. The lemma `IndexIsFirstWins` ties `Index` to `FirstWith`, an independent front-to-back definition of "the first-defined member carrying this key".
- `string_enum.dfy`: the facade. `Define` mutates the store. `GetMembers`, `Parse` and `TryParse` read it. `ToString`, `AsString` (the explicit conversion to `string`), `Equals`, `GetHashCode`, `Eq` and `NotEq` (the `==`/`!=` operators) are plain functions of members.

The static per-type store of the source is passed explicitly as `members`.
Each type has its own `Store` object, and `TryAdd` modifies only that object,
so registrations never reach another type's store. `Find`, `Parse`,
`TryParse` and `GetMembers` are functions that only read the store. Two calls
with the same arguments and no `TryAdd` between them therefore return the
same result.

Where repository tests or prose disagree with the code, the model follows
the code:

- Lookup checks the name index before the value index (src/StrEnum/MembersStore.cs:49-53). Some tests expect value first.
- `ToString` returns the name (src/StrEnum/StringEnum.cs:78). Some tests expect the value.
- `TryParse` takes `(value, out member, ignoreCase, matchBy)`. The member is returned as the second component of the result.
- `MembersStore.cs` has no `List` and no `matchBy` parameter on `Find`, but the facade calls both (src/StrEnum/StringEnum.cs:105, 131). The model adds `order` and `List`, appending to `order` on each successful `TryAdd`. It also adds `matchBy`, where `ValueOnly` runs only the value step of either lookup.

## Model

| member | source | states |
|---|---|---|
| `AsciiCase.UpperChar` | src/StrEnum/MembersStore.cs:21 | lower-case ASCII letters map to their upper-case letter; every other character is unchanged; no lower-case letter is left |
| `AsciiCase.Upper` | src/StrEnum/MembersStore.cs:21-24 | the result has the input's length and is uppercased at every position |
| `AsciiCase.UpperIdempotent` | src/StrEnum/MembersStore.cs:60 | uppercasing an uppercased key changes nothing |
| `MembersStore.TryGetValue` | src/StrEnum/MembersStore.cs:49 | a dictionary probe hits exactly when the key is present, and yields its entry |
| `MembersStore.InsertIfAbsentExtends` | src/StrEnum/MembersStore.cs:29-32 | insert-if-absent keeps every existing entry, and on a new key it is a plain map update |
| `MembersStore.InsertIfAbsent` | src/StrEnum/MembersStore.cs:29-32 | insert-if-absent adds the key, never overwrites an existing entry, and binds a new key to the member |
| `MembersStore.FirstWith` | src/StrEnum/MembersStore.cs:29-32 | the first-defined member carrying a key has that key; there is none exactly when no member carries the key |
| `MembersStore.FirstWithIsEarliest` | src/StrEnum/MembersStore.cs:29-32 | `FirstWith` returns the earliest member with the key |
| `MembersStore.FirstWithAppend` | src/StrEnum/MembersStore.cs:18-35 | a later registration never changes the first-defined member for a key that already had one |
| `MembersStore.IndexIsFirstWins` | src/StrEnum/MembersStore.cs:18-35 | each index built by repeated insert-if-absent binds every key to the first-defined member carrying it |
| `MembersStore.IndexAppend` | src/StrEnum/MembersStore.cs:29-32 | registering one more member extends each index by insert-if-absent of that member's key |
| `MembersStore.IndexIsKeyed` | src/StrEnum/MembersStore.cs:20-32 | a member stored under `k` has key `k` (value `k` in the value index, uppercased name `k` in the upper-name index, and so on) and is registered |
| `MembersStore.AppendKeepsNamesDistinct` | src/StrEnum/MembersStore.cs:26-27 | adding a member whose name is not taken keeps names unique |
| `MembersStore.NameIndexHoldsEach` | src/StrEnum/MembersStore.cs:26 | with unique names, the exact-name index maps every registered member's name back to that member |
| `MembersStore.Precedence` | src/StrEnum/MembersStore.cs:47-69 | a member is found iff a value hit exists or, under `NameOrValue`, a name hit; a name hit wins over a value hit; under `ValueOnly` only the value hit counts |
| `MembersStore.CaseSensitiveLookupIsExact` | src/StrEnum/MatchBy.cs:7-17 | name-then-value lookup over the exact keys finds a member iff some registered member matches under the mode, and what it finds matches |
| `MembersStore.CaseInsensitiveLookupIsExact` | src/StrEnum/MatchBy.cs:7-17 | name-then-value lookup over the uppercased keys finds a member iff some registered member matches ignoring case |
| `MembersStore.RegisterKeepsConsistent` | src/StrEnum/MembersStore.cs:18-35 | registering a member of the store's type under a new name keeps every index equal to the first-wins replay of the extended order, with names unique |
| `MembersStore.Store.constructor` | src/StrEnum/MembersStore.cs:12-16 | a new store has four empty indexes and no members, and satisfies the invariant |
| `MembersStore.Store.TryAdd` | src/StrEnum/MembersStore.cs:18-35 | returns false exactly when the name is already in the name index, and then nothing changes. On success: the name index gains name → member; value, upper-name and upper-value entries are added only where absent; the member is appended to `order`; every previous entry is kept; the invariant holds; and a case-sensitive lookup of the name yields the member |
| `MembersStore.Store.FindCaseSensitive` | src/StrEnum/MembersStore.cs:47-56 | result is the first-defined member with that exact name, else (or under `ValueOnly`, only) the first-defined member with that exact value |
| `MembersStore.Store.FindCaseInsensitive` | src/StrEnum/MembersStore.cs:58-69 | result is the first-defined member whose uppercased name equals the uppercased key, else the first-defined member whose ORIGINAL value equals the uppercased key; the uppercased-value index plays no part |
| `MembersStore.Store.FindCaseInsensitiveCorrected` | src/StrEnum/MembersStore.cs:58-69 | the intended lookup (value step through the uppercased-value index) finds a member iff one matches ignoring case |
| `MembersStore.Store.Find` | src/StrEnum/MembersStore.cs:37-45 | found members are registered; case-sensitively, a member is found iff one matches the key under the mode (`ValueOnly`: its value equals the key; `NameOrValue`: its name or value does); case-insensitively, whatever is found matches ignoring case |
| `MembersStore.Store.List` | src/StrEnum/StringEnum.cs:105 | returns exactly the definition-order sequence of registrations; it has unique names; each of its members is the name index's entry for its name; every name-index entry is in it |
| `MembersStore.MemberIsFoundByName` | src/StrEnum/MembersStore.cs:47-53 | in a consistent store, a case-sensitive name-or-value lookup of any registered member's name yields that member |
| `MembersStore.CaseInsensitiveMissesLowercaseValue` | src/StrEnum/MembersStore.cs:65 | with the single member (`Mail`, `email`), a case-insensitive lookup of `email` finds nothing in either mode, while the corrected lookup finds the member |
| `StringEnum.NewMember` | src/StrEnum/StringEnum.cs:54-66 | a missing value fails with `MissingValue` before the name is looked at; otherwise the explicit name, else the caller name, is used; if both are missing it fails with `MissingName`; it succeeds exactly when a value and at least one of the two names are given; the built member has the store's type, the chosen name and the given value |
| `StringEnum.Define` | src/StrEnum/StringEnum.cs:52-74 | argument errors pass through with the store unchanged. A taken name fails with `AlreadyDefined(name)` and the store unchanged. Otherwise it returns the new member, `GetMembers` becomes the previous list plus that member, and the member parses back from its name |
| `StringEnum.GetMembers` | src/StrEnum/StringEnum.cs:103-106 | returns the members in definition order (exactly the store's registrations); they have unique names and each parses back from `ToString` (its name) case-sensitively |
| `StringEnum.TryParse` | src/StrEnum/StringEnum.cs:129-134 | returns true iff a member is yielded, and the member is the store's lookup result |
| `StringEnum.Parse` | src/StrEnum/StringEnum.cs:114-120 | succeeds iff `TryParse` does, with the same member, otherwise fails with `NotFound(value)`; case-sensitively it succeeds iff some member matches; any result is registered |
| `StringEnum.ToString` | src/StrEnum/StringEnum.cs:78 | the name; its promise that every member parses back from `ToString` is stated by `StringEnum.GetMembers` and `StringEnum.Define` |
| `StringEnum.AsString` | src/StrEnum/StringEnum.cs:152-155 | the value; its promise that the string parses back to an equal member is stated by `StringEnum.ParseByValueYieldsEqualMember` |
| `StringEnum.Equals` | src/StrEnum/StringEnum.cs:81-92 | type and value comparison; that it is an equivalence is stated by `StringEnum.EqualsIsEquivalence` |
| `StringEnum.GetHashCode` | src/StrEnum/StringEnum.cs:94-97 | the value's hash; its agreement with `Equals` is stated by `StringEnum.EqualMembersHashEqually` |
| `StringEnum.Eq` | src/StrEnum/StringEnum.cs:136-145 | `operator ==`; its null cases, symmetry and agreement with `Equals` are stated by `StringEnum.EqualityOperators` |
| `StringEnum.NotEq` | src/StrEnum/StringEnum.cs:147-150 | `operator !=`; that it negates `==` is stated by `StringEnum.EqualityOperators` |
| `StringEnum.EqualsIsEquivalence` | src/StrEnum/StringEnum.cs:81-92 | `Equals` is reflexive, symmetric and transitive, and holds iff the types match and the explicit string conversions (the values) are equal |
| `StringEnum.EqualMembersHashEqually` | src/StrEnum/StringEnum.cs:94-97 | equal members have equal hash codes for any string hash |
| `StringEnum.EqualityOperators` | src/StrEnum/StringEnum.cs:136-150 | `==` is true for two nulls, false for exactly one null, otherwise `Equals`; it is symmetric; `!=` is its negation |
| `StringEnum.ParseByValueIsFirstDefined` | src/StrEnum/MembersStore.cs:29 | a case-sensitive value-only parse of a value returns the first member defined with it |
| `StringEnum.ParseByValueYieldsEqualMember` | src/StrEnum/StringEnum.cs:152-155 | parsing a registered member's string conversion (value only, case-sensitive) succeeds with a member equal to it |
| `StringEnum.ValueOnlyIgnoresNames` | src/StrEnum/MatchBy.cs:14-16 | under `ValueOnly`, a key that is no member's value is not found case-sensitively, even if it is a name |
| `StringEnum.ValueOnlyNarrowsNameOrValue` | src/StrEnum/MatchBy.cs:10-16 | whenever a value-only parse succeeds, the name-or-value parse with the same key and case flag succeeds |
| `StringEnum.NameMatchPrecedesValueMatch` | src/StrEnum/MembersStore.cs:49-53 | with `MTB = "MountainBike"` then `MountainBike = "MTB"`, parsing `MountainBike` by name or value yields the member named `MountainBike`, and by value only yields `MTB` |
| `StringEnum.WetDryParse` | src/StrEnum/MembersStore.cs:47-56 | with `Wet = "WET"` and `Dry = "DRY"`, case-sensitively: `WET` by value only and `Wet` by name after a value miss yield `Wet`; `Wet` by value only fails with `NotFound("Wet")` |
| `StringEnum.WetDryParseIgnoringCase` | src/StrEnum/MembersStore.cs:58-69 | with the same two members, `wet` ignoring case yields `Wet` under both modes: by uppercased name, and by the uppercased key `WET` hitting the value index |

## Left out

- Concurrency: `ConcurrentDictionary` atomicity and the races between concurrent registrations and lookups. The indexes are sequential maps.
- The static constructor that forces the enum type's field initialisers (src/StrEnum/StringEnum.cs:28-32), and `[CallerMemberName]`. The caller name is an explicit optional argument of `Define`.
- `TypeExtensions.IsStringEnum`: runtime reflection over `Type`, outside the registry.
- `StringEnum.GetHashCode`: the concrete `string.GetHashCode` is not modelled. The string hash is a parameter.
- `AsciiCase.Upper`: uppercases ASCII letters only, not the full Unicode mapping of `ToUpperInvariant`.
- Exception classes and message text. Each exception is an `Error` variant.
- Null lookup keys: `Parse`, `TryParse` and `Find` take a non-nullable `string`, so the exceptions that `TryGetValue(null)` (src/StrEnum/MembersStore.cs:49) and `ToUpperInvariant` on null (src/StrEnum/MembersStore.cs:60) would raise are not modelled.
- `StringEnum.Equals`: its argument is `object?` in the source. The model admits only a member or null, and an object of another type is a member with another type tag.
- `MembersStore.Store.TryAdd`: requires the member to carry the store's type tag, which the source's generic constraint guarantees.
- `ToString`, `AsString`, `Equals`, `GetHashCode`, `Eq` and `NotEq` carry no contract of their own. What they promise is stated by `GetMembers`, `ParseByValueYieldsEqualMember`, `EqualsIsEquivalence`, `EqualMembersHashEqually` and `EqualityOperators`.
- Tests that contradict the code are not encoded: test/StrEnum.UnitTests/ToStringTests.cs:16-19, test/StrEnum.UnitTests/DefineTests.cs:19, the argument order at test/StrEnum.UnitTests/Parsing/TryParseTests.cs:21, and value-first precedence at test/StrEnum.UnitTests/Parsing/ParseTests.cs:97-103.

## Findings

| source | as written | input that shows it | evidently intended | confidence | as-written member | corrected member |
|---|---|---|---|---|---|---|
| src/StrEnum/MembersStore.cs:65 | the case-insensitive value step probes the original-case value index with the uppercased key, and the uppercased-value index filled at line 32 is never read | one member named `Mail` with value `email`: `Parse("email", ignoreCase: true)` fails under both modes, although the key equals the value exactly | probe the uppercased-value index, so that a member is found whenever its value matches ignoring case | not executed; high, since line 32 fills an index no code reads | `MembersStore.CaseInsensitiveMissesLowercaseValue` (about `MembersStore.Store.FindCaseInsensitive`) | `MembersStore.Store.FindCaseInsensitiveCorrected` |

`Find`, and through it `Parse` and `TryParse`, keep the behaviour as written,
because that is what the library's callers observe. The corrected lookup is
defined and proved beside it.
