/** The string-enum facade: defining members of one enum type, listing and
    parsing them, and the value-based identity of members.  The per-type
    static store is passed explicitly as `members`. */
module StringEnum {
  import opened Wrappers
  import opened AsciiCase
  import opened EnumMember
  import opened Matching
  import opened MembersStore

  /** The exceptions the facade throws. */
  datatype Error =
    | MissingValue            // ArgumentNullException for `value`
    | MissingName             // ArgumentNullException for `name`
    | AlreadyDefined(name: string)
    | NotFound(key: string)

  /** The argument checks of `Define` and the member it builds: the value is
      checked first, then the explicit name falls back to the caller's
      member name. */
  function NewMember(tag: TypeTag, value: Option<string>, name: Option<string>,
                     callerMemberName: Option<string>): (r: Result<Member, Error>)
    ensures value.None? ==> r == Failure(MissingValue)
    ensures value.Some? && name.None? && callerMemberName.None? ==> r == Failure(MissingName)
    ensures r.Failure? ==> r.error == MissingValue || r.error == MissingName
    ensures r.Success? <==> value.Some? && (name.Some? || callerMemberName.Some?)
    ensures r.Success? ==> r.value.typeTag == tag && value == Some(r.value.value)
    ensures r.Success? && name.Some? ==> r.value.name == name.value
    ensures r.Success? && name.None? ==> callerMemberName == Some(r.value.name)
  {
    if value.None? then Failure(MissingValue)
    else
      var chosen := if name.Some? then name else callerMemberName;
      if chosen.None? then Failure(MissingName)
      else Success(Member(tag, chosen.value, value.value))
  }

  /** Defines a new member and registers it in its type's store. */
  method Define(members: Store, value: Option<string>, name: Option<string>,
                callerMemberName: Option<string>) returns (r: Result<Member, Error>)
    requires members.Valid()
    modifies members
    ensures members.Valid()
    ensures NewMember(members.tag, value, name, callerMemberName).Failure? ==>
      r == NewMember(members.tag, value, name, callerMemberName) && unchanged(members)
    ensures NewMember(members.tag, value, name, callerMemberName).Success? ==>
      var m := NewMember(members.tag, value, name, callerMemberName).value;
      && (r == Success(m) <==> m.name !in old(members.byName))
      && (m.name in old(members.byName) ==> r == Failure(AlreadyDefined(m.name)) && unchanged(members))
    ensures r.Success? ==> GetMembers(members) == old(GetMembers(members)) + [r.value]
    ensures r.Success? ==> Parse(members, ToString(r.value), false, NameOrValue) == Success(r.value)
  {
    var candidate := NewMember(members.tag, value, name, callerMemberName);
    if candidate.Failure? {
      return candidate;
    }
    var member := candidate.value;
    var added := members.TryAdd(member);
    if !added {
      return Failure(AlreadyDefined(member.name));
    }
    MemberIsFoundByName(members, |members.order| - 1);
    return Success(member);
  }

  /** The default textual form of a member is its name. */
  function ToString(m: Member): string {
    m.name
  }

  /** The explicit conversion to `string` yields the member's value. */
  function AsString(m: Member): string {
    m.value
  }

  /** The members of the type in definition order; each of them parses back
      from its name. */
  function GetMembers(members: Store): (r: seq<Member>)
    reads members
    requires members.Valid()
    ensures r == members.order
    ensures NamesDistinct(r)
    ensures forall i :: 0 <= i < |r| ==> Parse(members, ToString(r[i]), false, NameOrValue) == Success(r[i])
  {
    forall i | 0 <= i < |members.order| ensures Parse(members, ToString(members.order[i]), false, NameOrValue) == Success(members.order[i]) {
      NameIndexHoldsEach(members.order, i);
      IndexIsFirstWins(members.order, Name, members.order[i].name);
    }
    members.List()
  }

  /** Looks a member up; the flag says whether one was found. */
  function TryParse(members: Store, value: string, ignoreCase: bool, matchBy: MatchBy): (r: (bool, Option<Member>))
    reads members
    requires members.Valid()
    ensures r.0 <==> r.1.Some?
    ensures r.1 == members.Find(value, ignoreCase, matchBy)
  {
    var member := members.Find(value, ignoreCase, matchBy);
    (member != None, member)
  }

  /** Looks a member up, failing with `NotFound` when there is none. A
      case-sensitive parse succeeds exactly when some member matches. */
  function Parse(members: Store, value: string, ignoreCase: bool, matchBy: MatchBy): (r: Result<Member, Error>)
    reads members
    requires members.Valid()
    ensures r.Success? <==> TryParse(members, value, ignoreCase, matchBy).0
    ensures r.Success? ==> Some(r.value) == TryParse(members, value, ignoreCase, matchBy).1
    ensures r.Failure? ==> r.error == NotFound(value)
    ensures !ignoreCase ==> (r.Success? <==> exists i :: 0 <= i < |members.order| && Matches(matchBy, members.order[i], value))
    ensures r.Success? ==> r.value in members.order
  {
    var (found, member) := TryParse(members, value, ignoreCase, matchBy);
    if !found then Failure(NotFound(value)) else Success(member.value)
  }

  /** `Equals(object)`: false for null and for a member of another enum type,
      otherwise a comparison of values. */
  function Equals(self: Member, obj: Option<Member>): bool {
    obj.Some? && obj.value.typeTag == self.typeTag && self.value == obj.value.value
  }

  /** `GetHashCode`: the hash of the value; the string hash is a parameter. */
  function GetHashCode(m: Member, stringHash: string -> int): int {
    stringHash(m.value)
  }

  /** `operator ==`: two nulls are equal, a null and a member are not,
      otherwise `Equals`. */
  function Eq(a: Option<Member>, b: Option<Member>): bool {
    if a.None? && b.None? then true
    else if a.None? || b.None? then false
    else Equals(a.value, b)
  }

  /** `operator !=`. */
  function NotEq(a: Option<Member>, b: Option<Member>): bool {
    !Eq(a, b)
  }

  /** Value-based equality is an equivalence relation that ignores names. */
  lemma EqualsIsEquivalence(a: Member, b: Member, c: Member)
    ensures Equals(a, Some(a))
    ensures Equals(a, Some(b)) <==> Equals(b, Some(a))
    ensures Equals(a, Some(b)) && Equals(b, Some(c)) ==> Equals(a, Some(c))
    ensures Equals(a, Some(b)) <==> a.typeTag == b.typeTag && AsString(a) == AsString(b)
  {
  }

  /** Equal members have equal hash codes, whatever the string hash. */
  lemma EqualMembersHashEqually(a: Member, b: Member, stringHash: string -> int)
    requires Equals(a, Some(b))
    ensures GetHashCode(a, stringHash) == GetHashCode(b, stringHash)
  {
  }

  /** The operators agree with `Equals` on members, treat null as equal only
      to null, and `!=` is the negation of `==`. */
  lemma EqualityOperators(a: Option<Member>, b: Option<Member>)
    ensures Eq(a, b) <==> (a == None && b == None) || (a.Some? && Equals(a.value, b))
    ensures Eq(a, b) <==> Eq(b, a)
    ensures NotEq(a, b) <==> !Eq(a, b)
  {
  }

  /** A case-sensitive value-only parse of a member's value returns the first
      member defined with that value. */
  lemma {:induction false} ParseByValueIsFirstDefined(members: Store, i: nat)
    requires members.Valid() && i < |members.order|
    requires forall j :: 0 <= j < i ==> members.order[j].value != members.order[i].value
    ensures Parse(members, AsString(members.order[i]), false, ValueOnly) == Success(members.order[i])
  {
    FirstWithIsEarliest(members.order, Value, members.order[i].value, i);
  }

  /** Parsing a registered member's value (value only, case-sensitive) always
      yields a member equal to it, though possibly an earlier alias. */
  lemma ParseByValueYieldsEqualMember(members: Store, m: Member)
    requires members.Valid() && m in members.order
    ensures Parse(members, AsString(m), false, ValueOnly).Success?
    ensures Equals(Parse(members, AsString(m), false, ValueOnly).value, Some(m))
  {
  }

  /** Under `ValueOnly` a key that is no member's value is not found by a
      case-sensitive parse, even when it is some member's name. */
  lemma ValueOnlyIgnoresNames(members: Store, key: string)
    requires members.Valid()
    requires forall i :: 0 <= i < |members.order| ==> members.order[i].value != key
    ensures Parse(members, key, false, ValueOnly) == Failure(NotFound(key))
  {
  }

  /** Whenever a value-only parse succeeds, a name-or-value parse with the same
      key and case flag succeeds too. */
  lemma ValueOnlyNarrowsNameOrValue(members: Store, key: string, ignoreCase: bool)
    requires members.Valid()
    ensures Parse(members, key, ignoreCase, ValueOnly).Success? ==> Parse(members, key, ignoreCase, NameOrValue).Success?
  {
  }

  /** Two members where one's value is the other's name: a case-sensitive
      name-or-value parse prefers the name match, a value-only parse the value
      match. */
  lemma NameMatchPrecedesValueMatch(members: Store)
    requires members.Valid()
    requires members.order == [Member(members.tag, "MTB", "MountainBike"), Member(members.tag, "MountainBike", "MTB")]
    ensures Parse(members, "MountainBike", false, NameOrValue) == Success(members.order[1])
    ensures Parse(members, "MountainBike", false, ValueOnly) == Success(members.order[0])
  {
  }

  /** Two members with uppercase values, looked up case-sensitively: by
      value, by name after a value miss, and by a name under `ValueOnly`. */
  lemma WetDryParse(members: Store)
    requires members.Valid()
    requires members.order == [Member(members.tag, "Wet", "WET"), Member(members.tag, "Dry", "DRY")]
    ensures Parse(members, "WET", false, ValueOnly) == Success(members.order[0])
    ensures Parse(members, "Wet", false, NameOrValue) == Success(members.order[0])
    ensures Parse(members, "Wet", false, ValueOnly) == Failure(NotFound("Wet"))
  {
  }

  /** The same two members looked up ignoring case, by name and by value. */
  lemma WetDryParseIgnoringCase(members: Store)
    requires members.Valid()
    requires members.order == [Member(members.tag, "Wet", "WET"), Member(members.tag, "Dry", "DRY")]
    ensures Parse(members, "wet", true, NameOrValue) == Success(members.order[0])
    ensures Parse(members, "wet", true, ValueOnly) == Success(members.order[0])
  {
    assert Upper("wet") == "WET" == Upper("Wet");
  }
}
