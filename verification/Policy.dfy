/** IAM members and who a grant admits. */
module Members {
  import opened Wrappers
  import opened Text

  datatype Member =
    | AllUsers
    | AllAuthenticatedUsers
    | User(email: string)
    | ServiceAccount(email: string)
    | Group(email: string)
    | Domain(domain: string)
  {
    /** The type prefix; the wildcards have none. */
    function Kind(): string {
      match this
      case User(_) => "user"
      case ServiceAccount(_) => "serviceAccount"
      case Group(_) => "group"
      case Domain(_) => "domain"
      case _ => ""
    }

    function Value(): string {
      match this
      case User(email) => email
      case ServiceAccount(email) => email
      case Group(email) => email
      case Domain(domain) => domain
      case _ => ""
    }

    predicate Wildcard() {
      AllUsers? || AllAuthenticatedUsers?
    }

    function Show(): string {
      if AllUsers? then "allUsers" else if AllAuthenticatedUsers? then "allAuthenticatedUsers"
      else Kind() + ":" + Value()
    }

    predicate MatchesGrant(granted: string) {
      granted == "allUsers" || granted == "allAuthenticatedUsers" || Show() == granted
    }
  }

  datatype Error = Empty | UnknownType(prefix: string) | EmptyValue(kind: string)

  function Parse(s: string): Result<Member, Error> {
    if s == "" then Err(Empty)
    else if s == "allUsers" then Ok(AllUsers)
    else if s == "allAuthenticatedUsers" then Ok(AllAuthenticatedUsers)
    else
      var colon := IndexOf(s, ':');
      if colon == |s| then Err(UnknownType(s)) else
        Typed(s[..colon], s[colon + 1..])
  }

  function Typed(kind: string, value: string): Result<Member, Error> {
    if value == "" then Err(EmptyValue(kind))
    else if kind == "user" then Ok(User(value))
    else if kind == "serviceAccount" then Ok(ServiceAccount(value))
    else if kind == "group" then Ok(Group(value))
    else if kind == "domain" then Ok(Domain(value))
    else Err(UnknownType(kind))
  }

  lemma ParseTyped(kind: string, value: string)
    requires ':' !in kind
    ensures Parse(kind + ":" + value) == Typed(kind, value)
  {
    var s := kind + ":" + value;
    assert s == kind + [':'] + value && s[|kind|] == ':';
    IndexOfConcat(kind, ':', value);
    assert s[..|kind|] == kind && s[|kind| + 1..] == value;
    assert ':' !in "allUsers" && ':' !in "allAuthenticatedUsers";
    assert ':' in s;
  }

  /** A rendered member parses back, exactly when its value is not empty. */
  lemma ParseOfShow(m: Member)
    ensures Parse(m.Show()) == Ok(m) <==> m.Wildcard() || m.Value() != ""
  {
    if !m.Wildcard() {
      ParseTyped(m.Kind(), m.Value());
    }
  }

  lemma TypedShows(kind: string, value: string)
    requires Typed(kind, value).Ok?
    ensures var m := Typed(kind, value).value; !m.Wildcard() && m.Kind() == kind && m.Value() == value
  {}

  /** Whatever parses renders to the text it was parsed from. */
  lemma ShowOfParse(s: string)
    requires Parse(s).Ok?
    ensures Parse(s).value.Show() == s
  {
    if !Parse(s).value.Wildcard() {
      var colon := IndexOf(s, ':');
      var kind, value := s[..colon], s[colon + 1..];
      assert Parse(s) == Typed(kind, value);
      TypedShows(kind, value);
      assert s == kind + ":" + value;
    }
  }

  /** `grant_admits`: `allUsers` admits even an absent caller. */
  predicate GrantAdmits(granted: string, caller: Option<Member>) {
    granted == "allUsers" || (caller.Some? && caller.value.MatchesGrant(granted))
  }
}

/** The structural operations on an IAM policy. */
module Policies {
  import opened Wrappers
  import opened Text
  import opened Members

  datatype Condition = Condition(expression: string, title: string, description: string, location: string)

  datatype Binding = Binding(role: string, members: seq<string>, condition: Option<Condition>)

  // ----- what a policy grants -----

  ghost predicate Granted(bindings: seq<Binding>, role: string, condition: Option<Condition>, member: string) {
    exists i :: 0 <= i < |bindings| && GrantedAt(bindings[i], role, condition, member)
  }

  predicate GrantedAt(b: Binding, role: string, condition: Option<Condition>, member: string) {
    b.role == role && b.condition == condition && member in b.members
  }

  /** The same members are granted the same roles under the same conditions. */
  ghost predicate SameGrants(a: seq<Binding>, b: seq<Binding>) {
    forall role, condition, member :: Granted(a, role, condition, member) <==> Granted(b, role, condition, member)
  }

  /** `grants`: coarse membership. */
  ghost predicate Grants(bindings: seq<Binding>, caller: Option<Member>) {
    exists i, granted :: 0 <= i < |bindings| && granted in bindings[i].members && GrantAdmits(granted, caller)
  }

  /** It depends on nothing but what is granted. */
  lemma GrantsOnlyOnGrants(a: seq<Binding>, b: seq<Binding>, caller: Option<Member>)
    requires SameGrants(a, b)
    ensures Grants(a, caller) <==> Grants(b, caller)
  {
    if Grants(a, caller) {
      GrantsCarries(a, b, caller);
    }
    if Grants(b, caller) {
      GrantsCarries(b, a, caller);
    }
  }

  lemma GrantsCarries(a: seq<Binding>, b: seq<Binding>, caller: Option<Member>)
    requires SameGrants(a, b) && Grants(a, caller)
    ensures Grants(b, caller)
  {
    var i, granted :| 0 <= i < |a| && granted in a[i].members && GrantAdmits(granted, caller);
    assert GrantedAt(a[i], a[i].role, a[i].condition, granted);
    assert Granted(a, a[i].role, a[i].condition, granted);
  }

  // ----- order and sorting -----

  ghost predicate StrictlySorted(members: seq<string>) {
    forall i, j :: 0 <= i < j < |members| ==> Less(members[i], members[j])
  }

  /** The library's sort and dedup: insert each member where it belongs, once. */
  function Insert(member: string, sorted: seq<string>): (r: seq<string>)
    ensures forall m :: m in r <==> m == member || m in sorted
  {
    if sorted == [] || Less(member, sorted[0]) then [member] + sorted
    else if member == sorted[0] then sorted
    else [sorted[0]] + Insert(member, sorted[1..])
  }

  function SortDedup(members: seq<string>): (r: seq<string>)
    ensures forall m :: m in r <==> m in members
  {
    if members == [] then [] else Insert(members[0], SortDedup(members[1..]))
  }

  lemma {:induction false} InsertKeepsSorted(member: string, sorted: seq<string>)
    requires StrictlySorted(sorted)
    ensures StrictlySorted(Insert(member, sorted))
  {
    if sorted != [] {
      LessTotal(member, sorted[0]);
      if Less(member, sorted[0]) {
        forall j | 1 <= j < |sorted| ensures Less(member, sorted[j]) {
          LessTransitive(member, sorted[0], sorted[j]);
        }
      } else if member != sorted[0] {
        InsertKeepsSorted(member, sorted[1..]);
        var rest := Insert(member, sorted[1..]);
        forall j | 0 <= j < |rest| ensures Less(sorted[0], rest[j]) {
          assert rest[j] == member || rest[j] in sorted[1..];
        }
      }
    }
  }

  lemma {:induction false} SortDedupSorts(members: seq<string>)
    ensures StrictlySorted(SortDedup(members))
  {
    if members != [] {
      SortDedupSorts(members[1..]);
      InsertKeepsSorted(members[0], SortDedup(members[1..]));
    }
  }

  /** A binding's identity as a list of texts: the role, then the whole condition. */
  function Key(b: Binding): seq<string> {
    [b.role] + if b.condition.None? then []
               else
                 [b.condition.value.expression, b.condition.value.title, b.condition.value.description,
                  b.condition.value.location]
  }

  /** The key determines role and condition, so no two merged bindings share one. */
  lemma KeyIsIdentity(a: Binding, b: Binding)
    ensures Key(a) == Key(b) <==> a.role == b.role && a.condition == b.condition
  {
    if Key(a) == Key(b) {
      assert Key(a)[0] == Key(b)[0];
      if a.condition.Some? && b.condition.Some? {
        assert Key(a)[1] == Key(b)[1] && Key(a)[2] == Key(b)[2] && Key(a)[3] == Key(b)[3] && Key(a)[4] == Key(b)[4];
      }
    }
  }

  /** Lexicographic, a prefix first: no condition sorts before any. */
  predicate KeyLess(a: seq<string>, b: seq<string>) {
    b != [] && (a == [] || Less(a[0], b[0]) || (a[0] == b[0] && KeyLess(a[1..], b[1..])))
  }

  lemma {:induction false} KeyLessTotal(a: seq<string>, b: seq<string>)
    ensures KeyLess(a, b) || a == b || KeyLess(b, a)
    ensures !(KeyLess(a, b) && KeyLess(b, a)) && !KeyLess(a, a)
  {
    if a != [] {
      KeyLessTotal(a[1..], a[1..]);
      LessTotal(a[0], a[0]);
      if b != [] {
        LessTotal(a[0], b[0]);
        KeyLessTotal(a[1..], b[1..]);
        assert a == [a[0]] + a[1..] && b == [b[0]] + b[1..];
      }
    }
  }

  lemma {:induction false} KeyLessTransitive(a: seq<string>, b: seq<string>, c: seq<string>)
    requires KeyLess(a, b) && KeyLess(b, c)
    ensures KeyLess(a, c)
  {
    if a != [] {
      if Less(a[0], b[0]) && Less(b[0], c[0]) {
        LessTransitive(a[0], b[0], c[0]);
      } else if a[0] == b[0] && b[0] == c[0] {
        KeyLessTransitive(a[1..], b[1..], c[1..]);
      }
    }
  }

  ghost predicate StrictlyOrdered(bindings: seq<Binding>) {
    forall i, j :: 0 <= i < j < |bindings| ==> KeyLess(Key(bindings[i]), Key(bindings[j]))
  }

  function InsertBinding(b: Binding, sorted: seq<Binding>): (r: seq<Binding>)
    ensures multiset(r) == multiset(sorted) + multiset{b}
  {
    if sorted == [] || !KeyLess(Key(sorted[0]), Key(b)) then
      assert [b] + sorted == [b] + sorted;
      [b] + sorted
    else
      assert sorted == [sorted[0]] + sorted[1..];
      [sorted[0]] + InsertBinding(b, sorted[1..])
  }

  function SortBindings(bindings: seq<Binding>): (r: seq<Binding>)
    ensures multiset(r) == multiset(bindings)
  {
    if bindings == [] then [] else
      assert bindings == [bindings[0]] + bindings[1..];
      InsertBinding(bindings[0], SortBindings(bindings[1..]))
  }

  lemma SameMembers(a: seq<Binding>, b: seq<Binding>)
    requires multiset(a) == multiset(b)
    ensures forall x :: x in a <==> x in b
  {
    assert forall x :: x in a <==> x in multiset(a);
    assert forall x :: x in b <==> x in multiset(b);
  }

  /** No two bindings share role and condition. */
  ghost predicate DistinctKeys(bindings: seq<Binding>) {
    forall i, j :: 0 <= i < j < |bindings| ==> Key(bindings[i]) != Key(bindings[j])
  }

  lemma {:induction false} InsertKeepsOrdered(b: Binding, sorted: seq<Binding>)
    requires StrictlyOrdered(sorted) && forall x :: x in sorted ==> Key(x) != Key(b)
    ensures StrictlyOrdered(InsertBinding(b, sorted))
  {
    if sorted != [] {
      KeyLessTotal(Key(b), Key(sorted[0]));
      if KeyLess(Key(sorted[0]), Key(b)) {
        InsertKeepsOrdered(b, sorted[1..]);
        var rest := InsertBinding(b, sorted[1..]);
        forall j | 0 <= j < |rest| ensures KeyLess(Key(sorted[0]), Key(rest[j])) {
          assert rest[j] in multiset(rest);
          assert rest[j] == b || rest[j] in sorted[1..];
        }
      } else {
        forall j | 1 <= j < |sorted| ensures KeyLess(Key(b), Key(sorted[j])) {
          KeyLessTransitive(Key(b), Key(sorted[0]), Key(sorted[j]));
        }
      }
    }
  }

  lemma {:induction false} SortBindingsSorts(bindings: seq<Binding>)
    requires DistinctKeys(bindings)
    ensures StrictlyOrdered(SortBindings(bindings))
  {
    if bindings != [] {
      SortBindingsSorts(bindings[1..]);
      SameMembers(SortBindings(bindings[1..]), bindings[1..]);
      InsertKeepsOrdered(bindings[0], SortBindings(bindings[1..]));
    }
  }

  // ----- the canonical form -----

  /** Bindings strictly sorted by key, members strictly sorted, none empty. */
  ghost predicate Canonical(bindings: seq<Binding>) {
    StrictlyOrdered(bindings)
    && forall i :: 0 <= i < |bindings| ==> bindings[i].members != [] && StrictlySorted(bindings[i].members)
  }

  lemma {:induction false} SortedUnique(a: seq<string>, b: seq<string>)
    requires StrictlySorted(a) && StrictlySorted(b) && forall m :: m in a <==> m in b
    ensures a == b
  {
    if a == [] {
      assert forall i :: 0 <= i < |b| ==> b[i] in b;
    } else {
      assert a[0] in b && b[0] in a;
      FirstMember(a, b[0]);
      FirstMember(b, a[0]);
      LessTotal(a[0], b[0]);
      RestOfMembers(a);
      RestOfMembers(b);
      SortedUnique(a[1..], b[1..]);
      assert a == [a[0]] + a[1..] && b == [b[0]] + b[1..];
    }
  }

  lemma FirstMember(a: seq<string>, m: string)
    requires StrictlySorted(a) && m in a
    ensures m == a[0] || Less(a[0], m)
  {}

  lemma RestOfMembers(a: seq<string>)
    requires a != [] && StrictlySorted(a)
    ensures forall m :: m in a[1..] <==> m in a && m != a[0]
  {
    LessTotal(a[0], a[0]);
    assert forall m :: m in a ==> m == a[0] || m in a[1..];
  }

  /** In a canonical list the binding of a key holds exactly the members granted under it. */
  lemma MembersAreGrants(a: seq<Binding>, i: nat, member: string)
    requires Canonical(a) && i < |a|
    ensures member in a[i].members <==> Granted(a, a[i].role, a[i].condition, member)
  {
    if Granted(a, a[i].role, a[i].condition, member) {
      var j :| 0 <= j < |a| && GrantedAt(a[j], a[i].role, a[i].condition, member);
      KeyIsIdentity(a[i], a[j]);
      KeyLessTotal(Key(a[i]), Key(a[i]));
      assert i == j;
    }
    assert member in a[i].members ==> GrantedAt(a[i], a[i].role, a[i].condition, member);
  }

  /** Each binding of one canonical list stands, unchanged, in another with the same grants. */
  lemma BindingCarries(a: seq<Binding>, b: seq<Binding>, i: nat)
    requires Canonical(a) && Canonical(b) && SameGrants(a, b) && i < |a|
    ensures a[i] in b
  {
    var member := a[i].members[0];
    MembersAreGrants(a, i, member);
    assert Granted(b, a[i].role, a[i].condition, member);
    var j :| 0 <= j < |b| && GrantedAt(b[j], a[i].role, a[i].condition, member);
    forall m ensures m in a[i].members <==> m in b[j].members {
      MembersAreGrants(a, i, m);
      MembersAreGrants(b, j, m);
    }
    SortedUnique(a[i].members, b[j].members);
    assert a[i] == b[j];
  }

  lemma {:induction false} OrderedUnique(a: seq<Binding>, b: seq<Binding>)
    requires StrictlyOrdered(a) && StrictlyOrdered(b) && forall x :: x in a <==> x in b
    ensures a == b
  {
    if a == [] {
      assert forall i :: 0 <= i < |b| ==> b[i] in b;
    } else {
      assert a[0] in b && b[0] in a;
      FirstBinding(a, b[0]);
      FirstBinding(b, a[0]);
      KeyLessTotal(Key(a[0]), Key(b[0]));
      RestOfBindings(a);
      RestOfBindings(b);
      OrderedUnique(a[1..], b[1..]);
      assert a == [a[0]] + a[1..] && b == [b[0]] + b[1..];
    }
  }

  lemma FirstBinding(a: seq<Binding>, x: Binding)
    requires StrictlyOrdered(a) && x in a
    ensures x == a[0] || KeyLess(Key(a[0]), Key(x))
  {}

  lemma RestOfBindings(a: seq<Binding>)
    requires a != [] && StrictlyOrdered(a)
    ensures forall x :: x in a[1..] <==> x in a && x != a[0]
  {
    KeyLessTotal(Key(a[0]), Key(a[0]));
    assert forall x :: x in a ==> x == a[0] || x in a[1..];
  }

  /** Canonical form: two canonical lists that grant the same are identical. */
  lemma CanonicalUnique(a: seq<Binding>, b: seq<Binding>)
    requires Canonical(a) && Canonical(b) && SameGrants(a, b)
    ensures a == b
  {
    forall x | x in a ensures x in b {
      var i :| 0 <= i < |a| && a[i] == x;
      BindingCarries(a, b, i);
    }
    forall x | x in b ensures x in a {
      var i :| 0 <= i < |b| && b[i] == x;
      BindingCarries(b, a, i);
    }
    OrderedUnique(a, b);
  }

  // ----- the operations -----

  /** The first binding with this role and condition, or the number of bindings. */
  function Position(bindings: seq<Binding>, role: string, condition: Option<Condition>): (i: nat)
    ensures i <= |bindings|
    ensures i < |bindings| ==> bindings[i].role == role && bindings[i].condition == condition
    ensures forall j :: 0 <= j < i ==> !(bindings[j].role == role && bindings[j].condition == condition)
  {
    if bindings == [] || (bindings[0].role == role && bindings[0].condition == condition) then 0
    else 1 + Position(bindings[1..], role, condition)
  }

  /** Folding one more binding into the merged ones. */
  function Merge(merged: seq<Binding>, b: Binding): seq<Binding> {
    var members := SortDedup(b.members);
    if members == [] then merged
    else
      var i := Position(merged, b.role, b.condition);
      if i < |merged| then merged[i := merged[i].(members := SortDedup(merged[i].members + members))]
      else merged + [b.(members := members)]
  }

  /** The first `n` bindings merged one by one. */
  function MergeFirst(bindings: seq<Binding>, n: nat): seq<Binding>
    requires n <= |bindings|
  {
    if n == 0 then [] else Merge(MergeFirst(bindings, n - 1), bindings[n - 1])
  }

  ghost predicate Merged(merged: seq<Binding>) {
    DistinctKeys(merged)
    && forall i :: 0 <= i < |merged| ==> merged[i].members != [] && StrictlySorted(merged[i].members)
  }

  /** A list grants what its bindings do, one by one. */
  lemma GrantedAppend(a: seq<Binding>, b: Binding, role: string, condition: Option<Condition>, member: string)
    ensures Granted(a + [b], role, condition, member) <==>
            Granted(a, role, condition, member) || GrantedAt(b, role, condition, member)
  {
    if Granted(a, role, condition, member) {
      var i :| 0 <= i < |a| && GrantedAt(a[i], role, condition, member);
      assert GrantedAt((a + [b])[i], role, condition, member);
    }
    if GrantedAt(b, role, condition, member) {
      assert (a + [b])[|a|] == b;
    }
  }

  lemma GrantedUpdate(a: seq<Binding>, i: nat, b: Binding, role: string, condition: Option<Condition>, member: string)
    requires i < |a|
    ensures Granted(a[i := b], role, condition, member) <==>
            GrantedAt(b, role, condition, member)
            || exists j :: 0 <= j < |a| && j != i && GrantedAt(a[j], role, condition, member)
  {
    var c := a[i := b];
    assert c[i] == b;
    forall j | 0 <= j < |a| && j != i ensures c[j] == a[j] {}
  }

  lemma MergeGrants(merged: seq<Binding>, b: Binding, role: string, condition: Option<Condition>, member: string)
    ensures Granted(Merge(merged, b), role, condition, member) <==>
            Granted(merged, role, condition, member) || GrantedAt(b, role, condition, member)
  {
    var members := SortDedup(b.members);
    if members == [] {
      assert forall m :: m in b.members ==> m in members;
    } else {
      var i := Position(merged, b.role, b.condition);
      if i < |merged| {
        GrantedUpdate(merged, i, merged[i].(members := SortDedup(merged[i].members + members)), role, condition, member);
      } else {
        GrantedAppend(merged, b.(members := members), role, condition, member);
      }
    }
  }

  lemma MergeKeepsMerged(merged: seq<Binding>, b: Binding)
    requires Merged(merged)
    ensures Merged(Merge(merged, b))
  {
    var members := SortDedup(b.members);
    SortDedupSorts(b.members);
    if members != [] {
      var i := Position(merged, b.role, b.condition);
      if i < |merged| {
        SortDedupSorts(merged[i].members + members);
        assert members[0] in SortDedup(merged[i].members + members);
        KeyIsIdentity(merged[i], merged[i].(members := SortDedup(merged[i].members + members)));
      } else {
        var added := b.(members := members);
        forall j | 0 <= j < |merged| ensures Key(merged[j]) != Key(added) {
          KeyIsIdentity(merged[j], added);
        }
      }
    }
  }

  lemma SortKeepsGrants(merged: seq<Binding>)
    ensures SameGrants(merged, SortBindings(merged))
  {
    var sorted := SortBindings(merged);
    SameMembers(merged, sorted);
    forall role, condition, member
      ensures Granted(merged, role, condition, member) <==> Granted(sorted, role, condition, member)
    {
      if Granted(merged, role, condition, member) {
        var i :| 0 <= i < |merged| && GrantedAt(merged[i], role, condition, member);
        assert merged[i] in sorted;
      }
      if Granted(sorted, role, condition, member) {
        var i :| 0 <= i < |sorted| && GrantedAt(sorted[i], role, condition, member);
        assert sorted[i] in merged;
      }
    }
  }

  lemma SortMakesCanonical(merged: seq<Binding>)
    requires Merged(merged)
    ensures Canonical(SortBindings(merged))
  {
    SortBindingsSorts(merged);
    SameMembers(merged, SortBindings(merged));
    forall i | 0 <= i < |SortBindings(merged)|
      ensures SortBindings(merged)[i].members != [] && StrictlySorted(SortBindings(merged)[i].members)
    {
      assert SortBindings(merged)[i] in merged;
    }
  }

  lemma MergeStep(merged: seq<Binding>, bindings: seq<Binding>, n: nat)
    requires n < |bindings| && SameGrants(merged, bindings[..n])
    ensures SameGrants(Merge(merged, bindings[n]), bindings[..n + 1])
  {
    assert bindings[..n + 1] == bindings[..n] + [bindings[n]];
    forall role, condition, member
      ensures Granted(Merge(merged, bindings[n]), role, condition, member) <==>
              Granted(bindings[..n + 1], role, condition, member)
    {
      MergeGrants(merged, bindings[n], role, condition, member);
      GrantedAppend(bindings[..n], bindings[n], role, condition, member);
    }
  }

  lemma MergeOneKeeps(merged: seq<Binding>, bindings: seq<Binding>, n: nat)
    requires n < |bindings| && Merged(merged) && SameGrants(merged, bindings[..n])
    ensures Merged(Merge(merged, bindings[n])) && SameGrants(Merge(merged, bindings[n]), bindings[..n + 1])
  {
    MergeKeepsMerged(merged, bindings[n]);
    MergeStep(merged, bindings, n);
  }

  lemma {:induction false} MergeFirstKeeps(bindings: seq<Binding>, n: nat)
    requires n <= |bindings|
    ensures Merged(MergeFirst(bindings, n)) && SameGrants(MergeFirst(bindings, n), bindings[..n])
  {
    if n > 0 {
      var merged := MergeFirst(bindings, n - 1);
      MergeFirstKeeps(bindings, n - 1);
      MergeOneKeeps(merged, bindings, n - 1);
      assert MergeFirst(bindings, n) == Merge(merged, bindings[n - 1]);
    }
  }

  lemma GrantsChain(a: seq<Binding>, b: seq<Binding>, c: seq<Binding>)
    requires SameGrants(a, b) && SameGrants(a, c)
    ensures SameGrants(b, c)
  {}

  /** All bindings merged and sorted: a canonical list with the same grants. */
  lemma MergedIsNormal(bindings: seq<Binding>)
    ensures var merged := MergeFirst(bindings, |bindings|);
            Canonical(SortBindings(merged)) && SameGrants(SortBindings(merged), bindings)
  {
    var merged := MergeFirst(bindings, |bindings|);
    MergeFirstKeeps(bindings, |bindings|);
    assert bindings[..|bindings|] == bindings;
    SortKeepsGrants(merged);
    SortMakesCanonical(merged);
    GrantsChain(merged, SortBindings(merged), bindings);
  }

  predicate AnyConditional(bindings: seq<Binding>) {
    exists i :: 0 <= i < |bindings| && bindings[i].condition.Some?
  }

  /** The schema version a set of bindings implies. */
  function CanonicalVersion(bindings: seq<Binding>): int {
    if AnyConditional(bindings) then 3 else 1
  }

  /** Conditions require version 3. */
  predicate ValidVersion(bindings: seq<Binding>, version: int) {
    AnyConditional(bindings) ==> version == 3
  }

  function Without(members: seq<string>, member: string): (r: seq<string>)
    ensures forall m :: m in r <==> m in members && m != member
  {
    if members == [] then []
    else if members[0] == member then Without(members[1..], member)
    else [members[0]] + Without(members[1..], member)
  }

  function Added(bindings: seq<Binding>, role: string, member: string): seq<Binding> {
    var i := Position(bindings, role, None);
    if i == |bindings| then bindings + [Binding(role, [member], None)]
    else if member in bindings[i].members then bindings
    else bindings[i := bindings[i].(members := bindings[i].members + [member])]
  }

  function Removed(bindings: seq<Binding>, role: string, member: string): seq<Binding> {
    var i := Position(bindings, role, None);
    if i == |bindings| then bindings
    else
      var members := Without(bindings[i].members, member);
      if members == [] then bindings[..i] + bindings[i + 1..] else bindings[i := bindings[i].(members := members)]
  }

  class Policy {
    var version: int
    var etag: string
    var bindings: seq<Binding>

    constructor (version: int, etag: string, bindings: seq<Binding>)
      ensures this.version == version && this.etag == etag && this.bindings == bindings
    {
      this.version, this.etag, this.bindings := version, etag, bindings;
    }

    /** Fold into canonical form; by `CanonicalUnique` this contract has one solution. */
    method Normalize()
      modifies this`bindings
      ensures Canonical(bindings) && SameGrants(bindings, old(bindings))
    {
      var merged: seq<Binding> := [];
      for n := 0 to |bindings|
        invariant bindings == old(bindings) && merged == MergeFirst(bindings, n)
      {
        var binding := bindings[n];
        var members := SortDedup(binding.members);
        if members == [] {
          continue;
        }
        var i := Position(merged, binding.role, binding.condition);
        if i < |merged| {
          merged := merged[i := merged[i].(members := SortDedup(merged[i].members + members))];
        } else {
          merged := merged + [binding.(members := members)];
        }
      }
      MergedIsNormal(bindings);
      bindings := SortBindings(merged);
    }

    method AddMember(role: string, member: Member)
      modifies this`bindings
      ensures bindings == Added(old(bindings), role, member.Show())
    {
      var text := member.Show();
      var i := Position(bindings, role, None);
      if i < |bindings| {
        if text !in bindings[i].members {
          bindings := bindings[i := bindings[i].(members := bindings[i].members + [text])];
        }
      } else {
        bindings := bindings + [Binding(role, [text], None)];
      }
    }

    method RemoveMember(role: string, member: Member)
      modifies this`bindings
      ensures bindings == Removed(old(bindings), role, member.Show())
    {
      var i := Position(bindings, role, None);
      if i == |bindings| {
        return;
      }
      var binding := bindings[i];
      bindings := bindings[i := binding.(members := Without(binding.members, member.Show()))];
      if bindings[i].members == [] {
        bindings := bindings[..i] + bindings[i + 1..];
      }
    }
  }

  // ----- what the operations mean -----

  /** Two policies with the same grants normalise to the same bindings; a canonical one to
      itself, so normalising twice is normalising once. */
  lemma NormalFormsAgree(a: seq<Binding>, b: seq<Binding>, normalA: seq<Binding>, normalB: seq<Binding>)
    requires Canonical(normalA) && SameGrants(normalA, a)
    requires Canonical(normalB) && SameGrants(normalB, b)
    ensures normalA == normalB <==> SameGrants(a, b)
    ensures Canonical(a) <==> normalA == a
  {
    if SameGrants(a, b) {
      CanonicalUnique(normalA, normalB);
    }
    if Canonical(a) {
      CanonicalUnique(normalA, a);
    }
  }

  lemma {:induction false} NormalizedStaysValid(a: seq<Binding>, b: seq<Binding>, version: int)
    requires Canonical(b) && SameGrants(b, a) && ValidVersion(a, version)
    ensures ValidVersion(b, version)
  {
    if AnyConditional(b) {
      var i :| 0 <= i < |b| && b[i].condition.Some?;
      assert GrantedAt(b[i], b[i].role, b[i].condition, b[i].members[0]);
      assert Granted(a, b[i].role, b[i].condition, b[i].members[0]);
    }
  }

  /** The write check and the read recovery agree. */
  lemma CanonicalVersionIsValid(bindings: seq<Binding>, version: int)
    ensures ValidVersion(bindings, CanonicalVersion(bindings))
    ensures ValidVersion(bindings, version) <==> version == 3 || CanonicalVersion(bindings) == 1
  {}

  predicate Is(role: string, condition: Option<Condition>, member: string, otherRole: string, otherMember: string) {
    role == otherRole && condition.None? && member == otherMember
  }

  /** Adding grants exactly one thing more. */
  lemma AddGrantsOne(bindings: seq<Binding>, role: string, member: string)
    ensures forall r, c, m :: Granted(Added(bindings, role, member), r, c, m) <==>
                              Granted(bindings, r, c, m) || Is(r, c, m, role, member)
  {
    var i := Position(bindings, role, None);
    forall r, c, m
      ensures Granted(Added(bindings, role, member), r, c, m) <==> Granted(bindings, r, c, m) || Is(r, c, m, role, member)
    {
      if i == |bindings| {
        GrantedAppend(bindings, Binding(role, [member], None), r, c, m);
      } else if member in bindings[i].members {
        assert GrantedAt(bindings[i], role, None, member);
      } else {
        var grown := bindings[i].(members := bindings[i].members + [member]);
        GrantedUpdate(bindings, i, grown, r, c, m);
        assert GrantedAt(grown, r, c, m) <==> GrantedAt(bindings[i], r, c, m) || Is(r, c, m, role, member);
      }
    }
  }

  /** Another unconditional binding of the role, behind the first, grants the member too. */
  ghost predicate GrantedAgain(bindings: seq<Binding>, role: string, member: string) {
    exists j :: Position(bindings, role, None) < j < |bindings| && GrantedAt(bindings[j], role, None, member)
  }

  lemma GrantedDrop(a: seq<Binding>, i: nat, role: string, condition: Option<Condition>, member: string)
    requires i < |a|
    ensures Granted(a[..i] + a[i + 1..], role, condition, member) <==>
            exists j :: 0 <= j < |a| && j != i && GrantedAt(a[j], role, condition, member)
  {
    var c := a[..i] + a[i + 1..];
    assert forall j :: 0 <= j < |c| ==> c[j] == a[if j < i then j else j + 1];
    if j :| 0 <= j < |a| && j != i && GrantedAt(a[j], role, condition, member) {
      assert GrantedAt(c[if j < i then j else j - 1], role, condition, member);
    }
  }

  /** What is left after removing: everything else, and the grant itself exactly when another
      unconditional binding of the role repeats it. */
  lemma RemoveRevokesExactly(bindings: seq<Binding>, role: string, member: string)
    ensures forall r, c, m :: !Is(r, c, m, role, member) ==>
                              (Granted(Removed(bindings, role, member), r, c, m) <==> Granted(bindings, r, c, m))
    ensures Granted(Removed(bindings, role, member), role, None, member) <==> GrantedAgain(bindings, role, member)
  {
    var i := Position(bindings, role, None);
    if i < |bindings| {
      var shrunk := bindings[i].(members := Without(bindings[i].members, member));
      forall r, c, m
        ensures Granted(Removed(bindings, role, member), r, c, m) <==>
                GrantedAt(shrunk, r, c, m) || exists j :: 0 <= j < |bindings| && j != i && GrantedAt(bindings[j], r, c, m)
      {
        GrantedUpdate(bindings, i, shrunk, r, c, m);
        GrantedDrop(bindings, i, r, c, m);
      }
    }
  }

  /** A policy that binds the role to the member twice, as one written by hand may. */
  function Doubled(role: string, member: string): seq<Binding> {
    [Binding(role, [member], None), Binding(role, [member], None)]
  }

  /** Removing the member from it revokes nothing at all. */
  lemma DoubledStaysGranted(role: string, member: string)
    ensures SameGrants(Removed(Doubled(role, member), role, member), Doubled(role, member))
    ensures Granted(Removed(Doubled(role, member), role, member), role, None, member)
  {
    var bindings := Doubled(role, member);
    RemoveRevokesExactly(bindings, role, member);
    assert Position(bindings, role, None) == 0;
    assert GrantedAt(bindings[1], role, None, member);
    assert GrantedAgain(bindings, role, member);
    assert Granted(bindings, role, None, member);
    forall r, c, m
      ensures Granted(Removed(bindings, role, member), r, c, m) <==> Granted(bindings, r, c, m)
    {
      if Is(r, c, m, role, member) {
        assert r == role && c == None && m == member;
      }
    }
  }

  lemma {:induction false} WithoutKeepsSorted(members: seq<string>, member: string)
    requires StrictlySorted(members)
    ensures StrictlySorted(Without(members, member))
  {
    if members != [] {
      WithoutKeepsSorted(members[1..], member);
      var rest := Without(members[1..], member);
      forall j | 0 <= j < |rest| ensures Less(members[0], rest[j]) {
        assert rest[j] in members[1..];
      }
    }
  }

  /** A canonical policy binds a role and condition once. */
  lemma GrantedOnce(bindings: seq<Binding>, role: string, member: string)
    requires Canonical(bindings)
    ensures !GrantedAgain(bindings, role, member)
  {
    var i := Position(bindings, role, None);
    if GrantedAgain(bindings, role, member) {
      var j :| i < j < |bindings| && GrantedAt(bindings[j], role, None, member);
      KeyIsIdentity(bindings[i], bindings[j]);
      KeyLessTotal(Key(bindings[i]), Key(bindings[i]));
    }
  }

  lemma DroppedIsCanonical(bindings: seq<Binding>, i: nat)
    requires Canonical(bindings) && i < |bindings|
    ensures Canonical(bindings[..i] + bindings[i + 1..])
  {
    var rest := bindings[..i] + bindings[i + 1..];
    assert forall j :: 0 <= j < |rest| ==> rest[j] == bindings[if j < i then j else j + 1];
  }

  lemma ShrunkIsCanonical(bindings: seq<Binding>, i: nat, members: seq<string>)
    requires Canonical(bindings) && i < |bindings| && members != [] && StrictlySorted(members)
    ensures Canonical(bindings[i := bindings[i].(members := members)])
  {
    KeyIsIdentity(bindings[i], bindings[i].(members := members));
  }

  /** On a canonical policy removing always revokes, and the policy stays canonical. */
  lemma RemoveFromCanonical(bindings: seq<Binding>, role: string, member: string)
    requires Canonical(bindings)
    ensures !Granted(Removed(bindings, role, member), role, None, member)
    ensures Canonical(Removed(bindings, role, member))
  {
    RemoveRevokesExactly(bindings, role, member);
    GrantedOnce(bindings, role, member);
    var i := Position(bindings, role, None);
    if i < |bindings| {
      var members := Without(bindings[i].members, member);
      WithoutKeepsSorted(bindings[i].members, member);
      if members == [] {
        DroppedIsCanonical(bindings, i);
      } else {
        ShrunkIsCanonical(bindings, i, members);
      }
    }
  }

  /** Adding is idempotent. */
  lemma AddTwice(bindings: seq<Binding>, role: string, member: string)
    ensures Added(Added(bindings, role, member), role, member) == Added(bindings, role, member)
  {
    var once := Added(bindings, role, member);
    var i := Position(bindings, role, None);
    PositionAt(once, role, i);
  }

  lemma PositionAt(bindings: seq<Binding>, role: string, i: nat)
    requires i < |bindings| && bindings[i].role == role && bindings[i].condition.None?
    requires forall j :: 0 <= j < i ==> !(bindings[j].role == role && bindings[j].condition.None?)
    ensures Position(bindings, role, None) == i
  {}

  lemma {:induction false} WithoutNew(members: seq<string>, member: string)
    requires member !in members
    ensures Without(members + [member], member) == members
  {
    if members == [] {
      assert members + [member] == [member];
    } else {
      assert (members + [member])[1..] == members[1..] + [member];
      WithoutNew(members[1..], member);
    }
  }

  lemma {:induction false} WithoutIsShorter(members: seq<string>, member: string)
    ensures |Without(members, member)| <= |members|
    ensures member in members ==> |Without(members, member)| < |members|
  {
    if members != [] {
      WithoutIsShorter(members[1..], member);
    }
  }

  lemma RemoveUndoesNew(bindings: seq<Binding>, role: string, member: string)
    requires Position(bindings, role, None) == |bindings|
    ensures Removed(Added(bindings, role, member), role, member) == bindings
  {
    var i := |bindings|;
    var added := Added(bindings, role, member);
    PositionAt(added, role, i);
    assert [] + [member] == [member];
    WithoutNew([], member);
    assert added[..i] + added[i + 1..] == bindings;
  }

  lemma RemoveUndoesGrown(bindings: seq<Binding>, role: string, member: string, i: nat)
    requires i == Position(bindings, role, None) < |bindings| && member !in bindings[i].members
    ensures Removed(Added(bindings, role, member), role, member) == bindings <==> bindings[i].members != []
  {
    var added := Added(bindings, role, member);
    PositionAt(added, role, i);
    WithoutNew(bindings[i].members, member);
    assert added[i := bindings[i]] == bindings;
  }

  /** Removing undoes adding exactly when the member was not in the role's first unconditional
      binding and that binding, if there is one, was not empty. */
  lemma RemoveUndoesAddExactly(bindings: seq<Binding>, role: string, member: string)
    ensures var i := Position(bindings, role, None);
            Removed(Added(bindings, role, member), role, member) == bindings <==>
            i == |bindings| || (member !in bindings[i].members && bindings[i].members != [])
  {
    var i := Position(bindings, role, None);
    if i == |bindings| {
      RemoveUndoesNew(bindings, role, member);
    } else if member in bindings[i].members {
      WithoutIsShorter(bindings[i].members, member);
    } else {
      RemoveUndoesGrown(bindings, role, member, i);
    }
  }
}
