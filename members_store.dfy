/** The per-enum-type member registry: four string-keyed indexes over the
    members (exact name, exact value, uppercased name, uppercased value) and
    the sequence of members in definition order. */
module MembersStore {
  import opened Wrappers
  import opened AsciiCase
  import opened EnumMember
  import opened Matching

  /** The four keys a member is indexed under. */
  datatype IndexKey = Name | Value | UpperName | UpperValue

  function KeyOf(key: IndexKey, m: Member): string {
    match key
    case Name => m.name
    case Value => m.value
    case UpperName => Upper(m.name)
    case UpperValue => Upper(m.value)
  }

  /** Dictionary lookup (`TryGetValue`). */
  function TryGetValue(index: map<string, Member>, k: string): (r: Option<Member>)
    ensures r.Some? <==> k in index
    ensures r.Some? ==> r.value == index[k]
  {
    if k in index then Some(index[k]) else None
  }

  /** Insert-if-absent (`ConcurrentDictionary.TryAdd` with its result
      ignored): an existing entry is never overwritten. */
  function InsertIfAbsent(index: map<string, Member>, k: string, m: Member): (r: map<string, Member>)
    ensures r.Keys == index.Keys + {k}
    ensures forall k' :: k' in index ==> r[k'] == index[k']
    ensures k !in index ==> r[k] == m
  {
    if k in index then index else index[k := m]
  }

  /** The index a store holds after registering `members` one by one with
      insert-if-absent. */
  function Index(members: seq<Member>, key: IndexKey): map<string, Member>
  {
    if members == [] then map[]
    else
      var last := members[|members| - 1];
      InsertIfAbsent(Index(members[..|members| - 1], key), KeyOf(key, last), last)
  }

  /** The first member of `members`, in definition order, whose `key` is `k`. */
  function FirstWith(members: seq<Member>, key: IndexKey, k: string): (r: Option<Member>)
    ensures r.Some? ==> r.value in members && KeyOf(key, r.value) == k
    ensures r.None? <==> forall i :: 0 <= i < |members| ==> KeyOf(key, members[i]) != k
  {
    if members == [] then None
    else if KeyOf(key, members[0]) == k then Some(members[0])
    else FirstWith(members[1..], key, k)
  }

  /** `FirstWith` picks the earliest member carrying the key. */
  lemma {:induction false} FirstWithIsEarliest(members: seq<Member>, key: IndexKey, k: string, i: nat)
    requires i < |members| && KeyOf(key, members[i]) == k
    requires forall j :: 0 <= j < i ==> KeyOf(key, members[j]) != k
    ensures FirstWith(members, key, k) == Some(members[i])
  {
    if i > 0 {
      assert KeyOf(key, members[0]) != k;
      FirstWithIsEarliest(members[1..], key, k, i - 1);
    }
  }

  /** Registering one more member never changes which member is first for a
      key that already had one. */
  lemma {:induction false} FirstWithAppend(members: seq<Member>, m: Member, key: IndexKey, k: string)
    ensures FirstWith(members + [m], key, k) ==
      if FirstWith(members, key, k).Some? then FirstWith(members, key, k)
      else if KeyOf(key, m) == k then Some(m)
      else None
  {
    if members != [] {
      assert (members + [m])[1..] == members[1..] + [m];
      FirstWithAppend(members[1..], m, key, k);
    }
  }

  /** First-defined-wins: every index built by insert-if-absent binds each key
      to the earliest member in definition order that carries it. */
  lemma {:induction false} IndexIsFirstWins(members: seq<Member>, key: IndexKey, k: string)
    ensures TryGetValue(Index(members, key), k) == FirstWith(members, key, k)
  {
    if members != [] {
      var prefix, last := members[..|members| - 1], members[|members| - 1];
      assert prefix + [last] == members;
      IndexIsFirstWins(prefix, key, k);
      FirstWithAppend(prefix, last, key, k);
    }
  }

  /** Every entry of `before` is still in `after`, bound to the same member. */
  predicate Extends(before: map<string, Member>, after: map<string, Member>) {
    forall k :: k in before ==> k in after && after[k] == before[k]
  }

  /** Insert-if-absent only ever extends an index. */
  lemma InsertIfAbsentExtends(index: map<string, Member>, k: string, m: Member)
    ensures Extends(index, InsertIfAbsent(index, k, m))
    ensures k !in index ==> InsertIfAbsent(index, k, m) == index[k := m]
  {
  }

  /** Registering one more member extends each index by insert-if-absent. */
  lemma IndexAppend(members: seq<Member>, m: Member, key: IndexKey)
    ensures Index(members + [m], key) == InsertIfAbsent(Index(members, key), KeyOf(key, m), m)
  {
  }

  /** Every index entry is keyed by its member's own key, and holds a
      registered member. */
  lemma IndexIsKeyed(members: seq<Member>, key: IndexKey, k: string)
    requires k in Index(members, key)
    ensures Index(members, key)[k] in members && KeyOf(key, Index(members, key)[k]) == k
  {
  }

  /** No two members in `members` share a name. */
  predicate NamesDistinct(members: seq<Member>) {
    forall i, j :: 0 <= i < j < |members| ==> members[i].name != members[j].name
  }

  /** Appending a member whose name is new keeps names unique. */
  lemma AppendKeepsNamesDistinct(members: seq<Member>, m: Member)
    requires NamesDistinct(members) && FirstWith(members, Name, m.name).None?
    ensures NamesDistinct(members + [m])
  {
  }

  /** With unique names, the exact-name index maps every member's name back
      to that member. */
  lemma NameIndexHoldsEach(members: seq<Member>, i: nat)
    requires NamesDistinct(members) && i < |members|
    ensures members[i].name in Index(members, Name) && Index(members, Name)[members[i].name] == members[i]
  {
    IndexIsFirstWins(members, Name, members[i].name);
    FirstWithIsEarliest(members, Name, members[i].name, i);
  }

  /** The lookup precedence, in one place: a name hit is eligible only under
      `NameOrValue` and is preferred over a value hit. */
  function Precedence(nameHit: Option<Member>, valueHit: Option<Member>, matchBy: MatchBy): (r: Option<Member>)
    ensures r.Some? <==> valueHit.Some? || (matchBy == NameOrValue && nameHit.Some?)
    ensures matchBy == NameOrValue && nameHit.Some? ==> r == nameHit
    ensures (matchBy == ValueOnly || nameHit.None?) ==> r == valueHit
  {
    if matchBy == NameOrValue && nameHit.Some? then nameHit else valueHit
  }

  /** Name-then-value lookup over the exact keys finds a member exactly when
      some registered member matches the key case-sensitively, and the one it
      finds matches. */
  lemma CaseSensitiveLookupIsExact(members: seq<Member>, key: string, matchBy: MatchBy)
    ensures var r := Precedence(FirstWith(members, Name, key), FirstWith(members, Value, key), matchBy);
      && (r.Some? <==> exists i :: 0 <= i < |members| && Matches(matchBy, members[i], key))
      && (r.Some? ==> r.value in members && Matches(matchBy, r.value, key))
  {
  }

  /** Name-then-value lookup over the uppercased keys finds a member exactly
      when some registered member matches the key ignoring case. */
  lemma CaseInsensitiveLookupIsExact(members: seq<Member>, key: string, matchBy: MatchBy)
    ensures var r := Precedence(FirstWith(members, UpperName, Upper(key)), FirstWith(members, UpperValue, Upper(key)), matchBy);
      && (r.Some? <==> exists i :: 0 <= i < |members| && MatchesIgnoringCase(matchBy, members[i], key))
      && (r.Some? ==> r.value in members && MatchesIgnoringCase(matchBy, r.value, key))
  {
  }

  /** The registry invariant, on the registry's state as values. */
  ghost predicate Consistent(tag: TypeTag, order: seq<Member>, byName: map<string, Member>, byValue: map<string, Member>,
                             byUpperName: map<string, Member>, byUpperValue: map<string, Member>)
  {
    && (forall i :: 0 <= i < |order| ==> order[i].typeTag == tag)
    && NamesDistinct(order)
    && byName == Index(order, Name)
    && byValue == Index(order, Value)
    && byUpperName == Index(order, UpperName)
    && byUpperValue == Index(order, UpperValue)
  }

  /** Registering a member of the right type under a new name keeps the
      registry invariant: the state after registration (primed) is the old
      state with `m` appended to the order, bound to its name, and inserted
      where absent into the other three indexes. */
  lemma RegisterKeepsConsistent(tag: TypeTag, order: seq<Member>, byName: map<string, Member>, byValue: map<string, Member>,
                                byUpperName: map<string, Member>, byUpperValue: map<string, Member>, m: Member,
                                order': seq<Member>, byName': map<string, Member>, byValue': map<string, Member>,
                                byUpperName': map<string, Member>, byUpperValue': map<string, Member>)
    requires Consistent(tag, order, byName, byValue, byUpperName, byUpperValue)
    requires m.typeTag == tag && m.name !in byName
    requires order' == order + [m] && byName' == byName[m.name := m]
    requires byValue' == InsertIfAbsent(byValue, m.value, m)
    requires byUpperName' == InsertIfAbsent(byUpperName, Upper(m.name), m)
    requires byUpperValue' == InsertIfAbsent(byUpperValue, Upper(m.value), m)
    ensures Consistent(tag, order', byName', byValue', byUpperName', byUpperValue')
  {
    IndexIsFirstWins(order, Name, m.name);
    AppendKeepsNamesDistinct(order, m);
    IndexAppend(order, m, Name);
    IndexAppend(order, m, Value);
    IndexAppend(order, m, UpperName);
    IndexAppend(order, m, UpperValue);
  }

  /** The registry of one enum type. */
  class Store {
    const tag: TypeTag
    var byName: map<string, Member>        // exact name
    var byValue: map<string, Member>       // exact value
    var byUpperName: map<string, Member>   // uppercased name
    var byUpperValue: map<string, Member>  // uppercased value
    var order: seq<Member>                 // successful registrations, in order

    /** Every index is the first-wins replay of the definition order, names
        are unique, and every member belongs to this store's enum type. */
    ghost predicate Valid()
      reads this
    {
      Consistent(tag, order, byName, byValue, byUpperName, byUpperValue)
    }

    constructor (tag: TypeTag)
      ensures Valid() && this.tag == tag
      ensures order == [] && byName == map[] && byValue == map[]
      ensures byUpperName == map[] && byUpperValue == map[]
    {
      this.tag := tag;
      byName, byValue, byUpperName, byUpperValue := map[], map[], map[], map[];
      order := [];
    }

    /** Registers `member` unless its exact name is already taken. */
    method TryAdd(member: Member) returns (added: bool)
      requires Valid() && member.typeTag == tag
      modifies this
      ensures Valid()
      ensures added <==> member.name !in old(byName)
      ensures !added ==> unchanged(this)
      ensures added ==> (order == old(order) + [member]
                         && byName == old(byName)[member.name := member]
                         && byValue == InsertIfAbsent(old(byValue), member.value, member)
                         && byUpperName == InsertIfAbsent(old(byUpperName), Upper(member.name), member)
                         && byUpperValue == InsertIfAbsent(old(byUpperValue), Upper(member.value), member))
      ensures old(order) <= order
      ensures Extends(old(byName), byName) && Extends(old(byValue), byValue)
      ensures Extends(old(byUpperName), byUpperName) && Extends(old(byUpperValue), byUpperValue)
      ensures added ==> FindCaseSensitive(member.name, NameOrValue) == Some(member)
    {
      if member.name in byName {
        return false;
      }
      ghost var order0, byName0, byValue0, byUpperName0, byUpperValue0 := order, byName, byValue, byUpperName, byUpperValue;
      InsertIfAbsentExtends(byName, member.name, member);
      InsertIfAbsentExtends(byValue, member.value, member);
      InsertIfAbsentExtends(byUpperName, Upper(member.name), member);
      InsertIfAbsentExtends(byUpperValue, Upper(member.value), member);
      byName := byName[member.name := member];
      byValue := InsertIfAbsent(byValue, member.value, member);
      byUpperName := InsertIfAbsent(byUpperName, Upper(member.name), member);
      byUpperValue := InsertIfAbsent(byUpperValue, Upper(member.value), member);
      order := order + [member];
      RegisterKeepsConsistent(tag, order0, byName0, byValue0, byUpperName0, byUpperValue0, member,
                              order, byName, byValue, byUpperName, byUpperValue);
      MemberIsFoundByName(this, |order| - 1);
      return true;
    }

    /** Case-sensitive lookup: the exact-name index, then the exact-value
        index. */
    function FindCaseSensitive(key: string, matchBy: MatchBy): (r: Option<Member>)
      reads this
      requires Valid()
      ensures r == Precedence(FirstWith(order, Name, key), FirstWith(order, Value, key), matchBy)
    {
      IndexIsFirstWins(order, Name, key);
      IndexIsFirstWins(order, Value, key);
      Precedence(TryGetValue(byName, key), TryGetValue(byValue, key), matchBy)
    }

    /** Case-insensitive lookup as the source writes it: the uppercased key is
        probed in the uppercased-name index and then in the ORIGINAL-case value
        index; the uppercased-value index is never read. */
    function FindCaseInsensitive(key: string, matchBy: MatchBy): (r: Option<Member>)
      reads this
      requires Valid()
      ensures r == Precedence(FirstWith(order, UpperName, Upper(key)), FirstWith(order, Value, Upper(key)), matchBy)
    {
      var probe := Upper(key);
      IndexIsFirstWins(order, UpperName, probe);
      IndexIsFirstWins(order, Value, probe);
      Precedence(TryGetValue(byUpperName, probe), TryGetValue(byValue, probe), matchBy)
    }

    /** Case-insensitive lookup as evidently intended: the value step probes
        the uppercased-value index.  It finds a member exactly when some
        registered member matches the key ignoring case. */
    function FindCaseInsensitiveCorrected(key: string, matchBy: MatchBy): (r: Option<Member>)
      reads this
      requires Valid()
      ensures r == Precedence(FirstWith(order, UpperName, Upper(key)), FirstWith(order, UpperValue, Upper(key)), matchBy)
      ensures r.Some? <==> exists i :: 0 <= i < |order| && MatchesIgnoringCase(matchBy, order[i], key)
      ensures r.Some? ==> r.value in order && MatchesIgnoringCase(matchBy, r.value, key)
    {
      var probe := Upper(key);
      IndexIsFirstWins(order, UpperName, probe);
      IndexIsFirstWins(order, UpperValue, probe);
      CaseInsensitiveLookupIsExact(order, key, matchBy);
      Precedence(TryGetValue(byUpperName, probe), TryGetValue(byUpperValue, probe), matchBy)
    }

    /** Resolves `key` to a registered member. Case-sensitive lookups find a
        member exactly when one matches; case-insensitive ones only ever find
        members that match ignoring case. */
    function Find(key: string, ignoreCase: bool, matchBy: MatchBy): (r: Option<Member>)
      reads this
      requires Valid()
      ensures r.Some? ==> r.value in order
      ensures !ignoreCase ==> (r.Some? <==> exists i :: 0 <= i < |order| && Matches(matchBy, order[i], key))
      ensures !ignoreCase && r.Some? ==> Matches(matchBy, r.value, key)
      ensures ignoreCase && r.Some? ==> MatchesIgnoringCase(matchBy, r.value, key)
    {
      CaseSensitiveLookupIsExact(order, key, matchBy);
      UpperIdempotent(key);
      if ignoreCase then FindCaseInsensitive(key, matchBy) else FindCaseSensitive(key, matchBy)
    }

    /** The members in definition order (`List`). */
    function List(): (r: seq<Member>)
      reads this
      requires Valid()
      ensures r == order
      ensures NamesDistinct(r)
      ensures forall i :: 0 <= i < |r| ==> r[i].name in byName && byName[r[i].name] == r[i]
      ensures forall k :: k in byName ==> byName[k] in r
    {
      forall i | 0 <= i < |order| ensures order[i].name in byName && byName[order[i].name] == order[i] {
        NameIndexHoldsEach(order, i);
      }
      forall k | k in byName ensures byName[k] in order {
        IndexIsKeyed(order, Name, k);
      }
      order
    }
  }

  /** Every registered member is found by a case-sensitive lookup of its
      name. */
  lemma MemberIsFoundByName(s: Store, i: nat)
    requires s.Valid() && i < |s.order|
    ensures s.FindCaseSensitive(s.order[i].name, NameOrValue) == Some(s.order[i])
  {
    NameIndexHoldsEach(s.order, i);
    IndexIsFirstWins(s.order, Name, s.order[i].name);
  }

  /** The case-insensitive lookup as written misses a member whose value is
      not already uppercase, even when the key equals that value exactly; the
      corrected lookup finds it. */
  lemma CaseInsensitiveMissesLowercaseValue(s: Store)
    requires s.Valid() && s.order == [Member(s.tag, "Mail", "email")]
    ensures s.FindCaseInsensitive("email", NameOrValue) == None
    ensures s.FindCaseInsensitive("email", ValueOnly) == None
    ensures s.FindCaseInsensitiveCorrected("email", NameOrValue) == Some(s.order[0])
  {
  }
}
