/** RoleUpdater (Orchard.Roles): when a feature is installed, the default
    stereotypes of the permission providers of that feature are turned into
    roles, and the stereotype's permission names are merged into each role as
    `Permission` claims. The merge only appends, and never appends a name the
    role already holds. */
module RoleUpdating {
  import opened Common
  import opened Security

  /** A permission stereotype: a role name and the names of its permissions
      (`Permissions` may be null). */
  datatype Stereotype = Stereotype(Name: string, Permissions: Option<seq<string>>)

  /** A permission provider and the id of the feature that declares it (null
      when the type feature provider knows no feature for it). */
  datatype PermissionProvider = PermissionProvider(FeatureId: Option<string>, DefaultStereotypes: seq<Stereotype>)

  /** The events of `IFeatureEventHandler`. */
  datatype FeatureEvent = Installing | Installed | Enabling | Enabled | Disabling | Disabled | Uninstalling | Uninstalled

  /** A feature, reduced to its descriptor id. */
  datatype Feature = Feature(Id: string)

  predicate NoDuplicates(s: seq<string>) {
    forall i, j :: 0 <= i < j < |s| ==> s[i] != s[j]
  }

  /** The elements of `s` that are not in `excluded`, each once, in the order
      of their first occurrence: LINQ's set operators (`Distinct`, `Union`,
      `Except`) all reduce to this under the default, ordinal comparer. */
  function DistinctExcept(s: seq<string>, excluded: set<string>): seq<string>
    decreases |s|
  {
    if s == [] then []
    else if s[0] in excluded then DistinctExcept(s[1..], excluded)
    else [s[0]] + DistinctExcept(s[1..], excluded + {s[0]})
  }

  /** The filtered sequence holds exactly the elements of `s` outside
      `excluded`, and none twice. */
  lemma {:induction false} DistinctExceptMembers(s: seq<string>, excluded: set<string>)
    ensures forall x :: x in DistinctExcept(s, excluded) <==> x in s && x !in excluded
    ensures NoDuplicates(DistinctExcept(s, excluded))
    decreases |s|
  {
    if s != [] {
      if s[0] in excluded {
        DistinctExceptMembers(s[1..], excluded);
      } else {
        DistinctExceptMembers(s[1..], excluded + {s[0]});
        var rest := DistinctExcept(s[1..], excluded + {s[0]});
        assert s[0] !in rest;
        var r := [s[0]] + rest;
        forall i, j | 0 <= i < j < |r| ensures r[i] != r[j] {
          assert r[j] == rest[j - 1] && rest[j - 1] in rest;
          if i > 0 {
            assert r[i] == rest[i - 1];
          }
        }
      }
    }
  }

  /** `a.Union(b)`. */
  function Union(a: seq<string>, b: seq<string>): seq<string> {
    DistinctExcept(a + b, {})
  }

  /** `s.Distinct()`. */
  function Distinct(s: seq<string>): seq<string> {
    DistinctExcept(s, {})
  }

  /** `a.Except(b)`. */
  function Except(a: seq<string>, b: seq<string>): seq<string> {
    DistinctExcept(a, set x | x in b)
  }

  /** `stereotype.Permissions ?? Enumerable.Empty<Permission>()`, by name. */
  function StereotypeNames(stereotype: Stereotype): seq<string> {
    match stereotype.Permissions
    case None => []
    case Some(names) => names
  }

  /** Lines 106-115: the stereotype's permission names the role does not hold
      yet, computed as the source does: the union of the current and the
      stereotype's names, made distinct, minus the current names. */
  function AdditionalPermissionNames(current: seq<string>, stereotypeNames: seq<string>): seq<string> {
    Except(Distinct(Union(current, stereotypeNames)), current)
  }

  /** The additional names are the stereotype's names that are new, in the
      order of their first occurrence in the stereotype, each once. */
  lemma AdditionalPermissionNamesSpec(current: seq<string>, stereotypeNames: seq<string>)
    ensures AdditionalPermissionNames(current, stereotypeNames) == DistinctExcept(stereotypeNames, set x | x in current)
    ensures forall x :: x in AdditionalPermissionNames(current, stereotypeNames) <==> x in stereotypeNames && x !in current
    ensures NoDuplicates(AdditionalPermissionNames(current, stereotypeNames))
  {
    var e := set x | x in current;
    calc {
      AdditionalPermissionNames(current, stereotypeNames);
      DistinctExcept(Distinct(DistinctExcept(current + stereotypeNames, {})), e);
      { DistinctExceptIdempotent(current + stereotypeNames, {}); }
      DistinctExcept(DistinctExcept(current + stereotypeNames, {}), e);
      { DistinctExceptTwice(current + stereotypeNames, {}, e); }
      DistinctExcept(current + stereotypeNames, e);
      { DistinctExceptAppend(current, stereotypeNames, e);
        assert e + e == e;
        DistinctExceptNone(current, e); }
      DistinctExcept(stereotypeNames, e);
    }
    DistinctExceptMembers(stereotypeNames, e);
  }

  /** Filtering `a + b` is filtering `a`, then filtering `b` with `a`'s elements excluded too. */
  lemma {:induction false} DistinctExceptAppend(a: seq<string>, b: seq<string>, e: set<string>)
    ensures DistinctExcept(a + b, e) == DistinctExcept(a, e) + DistinctExcept(b, e + set x | x in a)
    decreases |a|
  {
    if a == [] {
      assert a + b == b;
      assert e + (set x | x in a) == e;
    } else {
      assert (a + b)[0] == a[0] && (a + b)[1..] == a[1..] + b;
      if a[0] in e {
        DistinctExceptAppend(a[1..], b, e);
        assert e + (set x | x in a[1..]) == e + (set x | x in a);
      } else {
        DistinctExceptAppend(a[1..], b, e + {a[0]});
        assert e + {a[0]} + (set x | x in a[1..]) == e + (set x | x in a);
      }
    }
  }

  /** Filtering with every element excluded leaves nothing. */
  lemma {:induction false} DistinctExceptNone(a: seq<string>, e: set<string>)
    requires forall x :: x in a ==> x in e
    ensures DistinctExcept(a, e) == []
    decreases |a|
  {
    if a != [] {
      assert a[0] in a;
      DistinctExceptNone(a[1..], e);
    }
  }

  /** Filtering again with a larger exclusion set is filtering once with it. */
  lemma {:induction false} DistinctExceptTwice(s: seq<string>, e: set<string>, f: set<string>)
    requires e <= f
    ensures DistinctExcept(DistinctExcept(s, e), f) == DistinctExcept(s, f)
    decreases |s|
  {
    if s != [] {
      if s[0] in e {
        DistinctExceptTwice(s[1..], e, f);
      } else {
        var inner := DistinctExcept(s[1..], e + {s[0]});
        assert DistinctExcept(s, e) == [s[0]] + inner;
        assert ([s[0]] + inner)[0] == s[0] && ([s[0]] + inner)[1..] == inner;
        if s[0] in f {
          DistinctExceptTwice(s[1..], e + {s[0]}, f);
          assert f + {s[0]} == f;
        } else {
          DistinctExceptTwice(s[1..], e + {s[0]}, f + {s[0]});
          DistinctExceptMembers(s[1..], e + {s[0]});
          DistinctExceptDrop(inner, f, s[0]);
        }
      }
    }
  }

  /** Excluding an element a sequence does not hold changes nothing. */
  lemma {:induction false} DistinctExceptDrop(s: seq<string>, f: set<string>, x: string)
    requires x !in s
    ensures DistinctExcept(s, f + {x}) == DistinctExcept(s, f)
    decreases |s|
  {
    if s != [] {
      assert s[0] != x && x !in s[1..];
      if s[0] in f {
        DistinctExceptDrop(s[1..], f, x);
      } else {
        assert f + {x} + {s[0]} == f + {s[0]} + {x};
        DistinctExceptDrop(s[1..], f + {s[0]}, x);
      }
    }
  }

  /** Filtering an already filtered sequence again changes nothing. */
  lemma DistinctExceptIdempotent(s: seq<string>, e: set<string>)
    ensures Distinct(DistinctExcept(s, e)) == DistinctExcept(s, e)
  {
    DistinctExceptMembers(s, e);
    DistinctExceptNoDuplicates(DistinctExcept(s, e), {});
  }

  /** Filtering a sequence without duplicates and with no excluded element returns it. */
  lemma {:induction false} DistinctExceptNoDuplicates(s: seq<string>, e: set<string>)
    requires NoDuplicates(s) && forall x :: x in s ==> x !in e
    ensures DistinctExcept(s, e) == s
    decreases |s|
  {
    if s != [] {
      forall x | x in s[1..] ensures x !in e + {s[0]} {
        var k :| 0 <= k < |s[1..]| && s[1..][k] == x;
        assert s[k + 1] == x;
      }
      DistinctExceptNoDuplicates(s[1..], e + {s[0]});
    }
  }

  /** The claims of a role after a stereotype is merged into it (lines 106-127). */
  function Merged(claims: seq<RoleClaim>, stereotype: Stereotype): seq<RoleClaim> {
    claims + PermissionClaims(AdditionalPermissionNames(PermissionValues(claims), StereotypeNames(stereotype)))
  }

  /** After the merge the role holds every permission of the stereotype and
      no other new permission, and keeps its claims as a prefix. */
  lemma MergedGrants(claims: seq<RoleClaim>, stereotype: Stereotype, name: string)
    ensures claims <= Merged(claims, stereotype)
    ensures name in PermissionValues(Merged(claims, stereotype)) <==>
              name in PermissionValues(claims) || name in StereotypeNames(stereotype)
  {
    var additional := AdditionalPermissionNames(PermissionValues(claims), StereotypeNames(stereotype));
    AdditionalPermissionNamesSpec(PermissionValues(claims), StereotypeNames(stereotype));
    PermissionValuesAppend(claims, PermissionClaims(additional));
    PermissionValuesOfPermissionClaims(additional);
  }

  /** A role whose permission names have no duplicates keeps that property:
      a name already present is not added again, a new name is added once. */
  lemma MergedNoDuplicates(claims: seq<RoleClaim>, stereotype: Stereotype)
    requires NoDuplicates(PermissionValues(claims))
    ensures NoDuplicates(PermissionValues(Merged(claims, stereotype)))
  {
    var current := PermissionValues(claims);
    var additional := AdditionalPermissionNames(current, StereotypeNames(stereotype));
    AdditionalPermissionNamesSpec(current, StereotypeNames(stereotype));
    PermissionValuesAppend(claims, PermissionClaims(additional));
    PermissionValuesOfPermissionClaims(additional);
    var all := current + additional;
    forall i, j | 0 <= i < j < |all| ensures all[i] != all[j] {
      if i < |current| && j >= |current| {
        assert all[j] == additional[j - |current|] && all[j] in additional;
        assert all[i] in current;
      } else if i >= |current| {
        assert all[i] == additional[i - |current|] && all[j] == additional[j - |current|];
      }
    }
  }

  /** Merging the same stereotype twice is merging it once. */
  lemma MergedIdempotent(claims: seq<RoleClaim>, stereotype: Stereotype)
    ensures Merged(Merged(claims, stereotype), stereotype) == Merged(claims, stereotype)
  {
    var once := Merged(claims, stereotype);
    var names := StereotypeNames(stereotype);
    forall x | x in names ensures x in (set y | y in PermissionValues(once)) {
      MergedGrants(claims, stereotype, x);
    }
    AdditionalPermissionNamesSpec(PermissionValues(once), names);
    DistinctExceptNone(names, set y | y in PermissionValues(once));
    assert once + PermissionClaims([]) == once;
  }

  /** The claims of every role, by name. */
  ghost function Claims(roles: map<string, Role>): map<string, seq<RoleClaim>>
    reads roles.Values
  {
    map n | n in roles :: roles[n].RoleClaims
  }

  /** A way of merging a stereotype into a role's claims. */
  type Merge = (seq<RoleClaim>, Stereotype) -> seq<RoleClaim>

  /** The claim lists after one stereotype is turned into a role (with no
      claims, when missing) and merged into it with `merge`. */
  function Step(claims: map<string, seq<RoleClaim>>, stereotype: Stereotype, merge: Merge): map<string, seq<RoleClaim>> {
    claims[stereotype.Name := merge(if stereotype.Name in claims then claims[stereotype.Name] else [], stereotype)]
  }

  /** The claim lists after a sequence of stereotypes, merged in order. */
  function Fold(claims: map<string, seq<RoleClaim>>, stereotypes: seq<Stereotype>, merge: Merge): map<string, seq<RoleClaim>>
    decreases |stereotypes|
  {
    if stereotypes == [] then claims
    else Step(Fold(claims, stereotypes[..|stereotypes| - 1], merge), stereotypes[|stereotypes| - 1], merge)
  }

  /** The merge only appends to a claim list. */
  ghost predicate Appends(merge: Merge) {
    forall c, s :: c <= merge(c, s)
  }

  /** After the merge the role holds every permission of the stereotype. */
  ghost predicate Grants(merge: Merge) {
    forall c, s, x :: x in StereotypeNames(s) ==> x in PermissionValues(merge(c, s))
  }

  /** The claim lists after one stereotype is merged, as RoleUpdater does it. */
  function ApplyStereotype(claims: map<string, seq<RoleClaim>>, stereotype: Stereotype): map<string, seq<RoleClaim>> {
    Step(claims, stereotype, Merged)
  }

  /** The claim lists after a sequence of stereotypes, merged as RoleUpdater does it. */
  function ApplyAll(claims: map<string, seq<RoleClaim>>, stereotypes: seq<Stereotype>): map<string, seq<RoleClaim>> {
    Fold(claims, stereotypes, Merged)
  }

  lemma MergedAppendsAndGrants()
    ensures Appends(Merged) && Grants(Merged)
  {
    forall c, s ensures c <= Merged(c, s) {
      MergedGrants(c, s, "");
    }
    forall c, s, x | x in StereotypeNames(s) ensures x in PermissionValues(Merged(c, s)) {
      MergedGrants(c, s, x);
    }
  }

  /** Line 72: the providers declared by the feature with that id. */
  function ProvidersForFeature(providers: seq<PermissionProvider>, featureId: string): (r: seq<PermissionProvider>)
    ensures forall p :: p in r <==> p in providers && p.FeatureId == Some(featureId)
  {
    if providers == [] then []
    else (if providers[0].FeatureId == Some(featureId) then [providers[0]] else []) + ProvidersForFeature(providers[1..], featureId)
  }

  /** The stereotypes of a list of providers, provider by provider. */
  function StereotypesOf(providers: seq<PermissionProvider>): seq<Stereotype> {
    if providers == [] then [] else providers[0].DefaultStereotypes + StereotypesOf(providers[1..])
  }

  lemma {:induction false} StereotypesOfAppend(a: seq<PermissionProvider>, b: seq<PermissionProvider>)
    ensures StereotypesOf(a + b) == StereotypesOf(a) + StereotypesOf(b)
  {
    if a == [] {
      assert a + b == b;
    } else {
      assert (a + b)[1..] == a[1..] + b;
      StereotypesOfAppend(a[1..], b);
    }
  }

  lemma {:induction false} FoldAppend(claims: map<string, seq<RoleClaim>>, a: seq<Stereotype>, b: seq<Stereotype>, merge: Merge)
    ensures Fold(claims, a + b, merge) == Fold(Fold(claims, a, merge), b, merge)
    decreases |b|
  {
    if b == [] {
      assert a + b == a;
    } else {
      assert (a + b)[..|a + b| - 1] == a + b[..|b| - 1];
      FoldAppend(claims, a, b[..|b| - 1], merge);
    }
  }

  /** One more stereotype merged. */
  lemma ApplyAllStep(claims: map<string, seq<RoleClaim>>, stereotypes: seq<Stereotype>, j: nat)
    requires j < |stereotypes|
    ensures ApplyAll(claims, stereotypes[..j + 1]) == ApplyStereotype(ApplyAll(claims, stereotypes[..j]), stereotypes[j])
  {
    assert stereotypes[..j + 1][..j] == stereotypes[..j];
  }

  /** The stereotypes of one more provider merged. */
  lemma ApplyAllProviderStep(claims: map<string, seq<RoleClaim>>, providers: seq<PermissionProvider>, i: nat)
    requires i < |providers|
    ensures ApplyAll(claims, StereotypesOf(providers[..i + 1])) ==
            ApplyAll(ApplyAll(claims, StereotypesOf(providers[..i])), providers[i].DefaultStereotypes)
  {
    StereotypesOfAppend(providers[..i], [providers[i]]);
    assert providers[..i + 1] == providers[..i] + [providers[i]];
    assert [providers[i]][1..] == [];
    assert StereotypesOf([providers[i]]) == providers[i].DefaultStereotypes + [];
    assert providers[i].DefaultStereotypes + [] == providers[i].DefaultStereotypes;
    FoldAppend(claims, StereotypesOf(providers[..i]), providers[i].DefaultStereotypes, Merged);
  }

  /** The role names of a sequence of stereotypes. */
  function RoleNames(stereotypes: seq<Stereotype>): set<string> {
    set k | 0 <= k < |stereotypes| :: stereotypes[k].Name
  }

  lemma RoleNamesLast(stereotypes: seq<Stereotype>)
    requires stereotypes != []
    ensures RoleNames(stereotypes) == RoleNames(stereotypes[..|stereotypes| - 1]) + {stereotypes[|stereotypes| - 1].Name}
  {
    var last := |stereotypes| - 1;
    var prefix := stereotypes[..last];
    forall n | n in RoleNames(stereotypes) ensures n in RoleNames(prefix) + {stereotypes[last].Name} {
      var k :| 0 <= k < |stereotypes| && stereotypes[k].Name == n;
      if k < last {
        assert prefix[k].Name == n;
      }
    }
    forall n | n in RoleNames(prefix) ensures n in RoleNames(stereotypes) {
      var k :| 0 <= k < |prefix| && prefix[k].Name == n;
      assert stereotypes[k].Name == n;
    }
  }

  lemma {:induction false} FoldKeys(claims: map<string, seq<RoleClaim>>, stereotypes: seq<Stereotype>, merge: Merge)
    ensures Fold(claims, stereotypes, merge).Keys == claims.Keys + RoleNames(stereotypes)
    decreases |stereotypes|
  {
    if stereotypes != [] {
      FoldKeys(claims, stereotypes[..|stereotypes| - 1], merge);
      RoleNamesLast(stereotypes);
    }
  }

  /** The roles after a sequence of stereotypes are the roles before and one
      role per stereotype name: a missing role is created. */
  lemma ApplyAllKeys(claims: map<string, seq<RoleClaim>>, stereotypes: seq<Stereotype>)
    ensures ApplyAll(claims, stereotypes).Keys == claims.Keys + RoleNames(stereotypes)
  {
    FoldKeys(claims, stereotypes, Merged);
  }

  lemma {:induction false} FoldAppendsOnly(claims: map<string, seq<RoleClaim>>, stereotypes: seq<Stereotype>, merge: Merge, n: string)
    requires Appends(merge) && n in claims
    ensures n in Fold(claims, stereotypes, merge) && claims[n] <= Fold(claims, stereotypes, merge)[n]
    ensures n !in RoleNames(stereotypes) ==> Fold(claims, stereotypes, merge)[n] == claims[n]
    decreases |stereotypes|
  {
    if stereotypes != [] {
      var last := |stereotypes| - 1;
      var before := Fold(claims, stereotypes[..last], merge);
      FoldAppendsOnly(claims, stereotypes[..last], merge, n);
      RoleNamesLast(stereotypes);
      if n == stereotypes[last].Name {
        assert before[n] <= merge(before[n], stereotypes[last]);
      }
    }
  }

  /** Every claim list keeps its old claims as a prefix (claims are never
      removed or altered), and a role no stereotype names is left as it was. */
  lemma ApplyAllAppendsOnly(claims: map<string, seq<RoleClaim>>, stereotypes: seq<Stereotype>, n: string)
    requires n in claims
    ensures n in ApplyAll(claims, stereotypes) && claims[n] <= ApplyAll(claims, stereotypes)[n]
    ensures n !in RoleNames(stereotypes) ==> ApplyAll(claims, stereotypes)[n] == claims[n]
  {
    MergedAppendsAndGrants();
    FoldAppendsOnly(claims, stereotypes, Merged, n);
  }

  lemma {:induction false} FoldGrants(claims: map<string, seq<RoleClaim>>, stereotypes: seq<Stereotype>, merge: Merge, k: nat, x: string)
    requires Appends(merge) && Grants(merge)
    requires k < |stereotypes| && x in StereotypeNames(stereotypes[k])
    ensures stereotypes[k].Name in Fold(claims, stereotypes, merge)
    ensures x in PermissionValues(Fold(claims, stereotypes, merge)[stereotypes[k].Name])
    decreases |stereotypes|
  {
    var last := |stereotypes| - 1;
    var prefix := stereotypes[..last];
    var before := Fold(claims, prefix, merge);
    var name := stereotypes[k].Name;
    if k < last {
      assert prefix[k] == stereotypes[k];
      FoldGrants(claims, prefix, merge, k, x);
      var after := Fold(claims, stereotypes, merge);
      if name == stereotypes[last].Name {
        assert before[name] <= after[name];
      }
      PrefixKeepsPermission(before[name], after[name], x);
    }
  }

  /** Every stereotype's role ends up holding every one of the stereotype's
      permission names, whatever is merged after it. */
  lemma ApplyAllGrants(claims: map<string, seq<RoleClaim>>, stereotypes: seq<Stereotype>, k: nat, x: string)
    requires k < |stereotypes| && x in StereotypeNames(stereotypes[k])
    ensures stereotypes[k].Name in ApplyAll(claims, stereotypes)
    ensures x in PermissionValues(ApplyAll(claims, stereotypes)[stereotypes[k].Name])
  {
    MergedAppendsAndGrants();
    FoldGrants(claims, stereotypes, Merged, k, x);
  }

  /** A permission value of a prefix is a permission value of the whole. */
  lemma PrefixKeepsPermission(a: seq<RoleClaim>, b: seq<RoleClaim>, x: string)
    requires a <= b && x in PermissionValues(a)
    ensures x in PermissionValues(b)
  {
    assert b == a + b[|a|..];
    PermissionValuesAppend(a, b[|a|..]);
  }

  /** Only the claims of the role filed under `name` differ from `before`. */
  lemma ClaimsUpdated(before: map<string, seq<RoleClaim>>, roles: map<string, Role>, name: string)
    requires name in roles && before.Keys == roles.Keys
    requires forall n :: n in roles && n != name ==> before[n] == roles[n].RoleClaims
    ensures Claims(roles) == before[name := roles[name].RoleClaims]
  {
  }

  lemma UpdateOverwrites(m: map<string, seq<RoleClaim>>, k: string, v: seq<RoleClaim>, w: seq<RoleClaim>)
    ensures m[k := v][k := w] == m[k := w]
  {
  }

  /** The role store's roles filed under the names in `old` keep their objects. */
  ghost predicate KeepsRoles(before: map<string, Role>, after: map<string, Role>) {
    forall n :: n in before ==> n in after && after[n] == before[n]
  }

  /** `RoleUpdater` bound to its collaborators: the role manager and the
      permission providers, each with the id of the feature that declares it. */
  class RoleUpdater {
    const roleManager: RoleManager
    const permissionProviders: seq<PermissionProvider>

    constructor (roleManager: RoleManager, permissionProviders: seq<PermissionProvider>)
      ensures this.roleManager == roleManager && this.permissionProviders == permissionProviders
    {
      this.roleManager := roleManager;
      this.permissionProviders := permissionProviders;
    }

    /** Lines 94-103: the role named after the stereotype, created with no
        claims when there is none. */
    method GetOrCreateRole(name: string) returns (role: Role)
      requires roleManager.Valid()
      modifies roleManager
      ensures roleManager.Valid() && roleManager.updates == old(roleManager.updates)
      ensures KeepsRoles(old(roleManager.roles), roleManager.roles)
      ensures roleManager.roles.Keys == old(roleManager.roles.Keys) + {name}
      ensures role == roleManager.roles[name]
      ensures name !in old(roleManager.roles) ==> fresh(role) && role.RoleClaims == []
      ensures Claims(roleManager.roles) == old(Claims(roleManager.roles))[name := role.RoleClaims]
    {
      var existing := roleManager.GetRoleByNameAsync(name);
      if existing == null {
        role := roleManager.CreateRoleAsync(name);
      } else {
        role := existing;
      }
    }

    /** Lines 94-127: the role named after the stereotype is fetched or
        created, then the stereotype's new permission names are appended to
        its claims, one `Permission` claim per name. */
    method MergeStereotype(stereotype: Stereotype)
      requires roleManager.Valid()
      modifies roleManager, roleManager.roles.Values
      ensures roleManager.Valid() && roleManager.updates == old(roleManager.updates)
      ensures KeepsRoles(old(roleManager.roles), roleManager.roles)
      ensures roleManager.roles.Keys == old(roleManager.roles.Keys) + {stereotype.Name}
      ensures forall r :: r in roleManager.roles.Values ==> r in old(roleManager.roles.Values) || fresh(r)
      ensures Claims(roleManager.roles) == ApplyStereotype(old(Claims(roleManager.roles)), stereotype)
    {
      ghost var before := Claims(roleManager.roles);
      var role := GetOrCreateRole(stereotype.Name);
      ghost var found := Claims(roleManager.roles);
      ghost var start := role.RoleClaims;
      assert start == if stereotype.Name in before then before[stereotype.Name] else [];

      // The stereotype's names are merged into the role's claims.
      var stereotypePermissionNames := StereotypeNames(stereotype);
      var currentPermissionNames := PermissionValues(role.RoleClaims);
      var additionalPermissionNames := AdditionalPermissionNames(currentPermissionNames, stereotypePermissionNames);

      if |additionalPermissionNames| > 0 {
        GrantPermissions(role, additionalPermissionNames);
      }
      assert role.RoleClaims == Merged(start, stereotype);
      forall n | n in roleManager.roles && n != stereotype.Name
        ensures found[n] == roleManager.roles[n].RoleClaims
      {
        assert roleManager.roles[n].RoleName == n;
      }
      ClaimsUpdated(found, roleManager.roles, stereotype.Name);
      UpdateOverwrites(before, stereotype.Name, start, role.RoleClaims);
    }

    /** Lines 119-127: one `Permission` claim is appended per name, in order. */
    static method GrantPermissions(role: Role, names: seq<string>)
      modifies role
      ensures role.RoleClaims == old(role.RoleClaims) + PermissionClaims(names)
    {
      var k := 0;
      while k < |names|
        invariant 0 <= k <= |names|
        invariant role.RoleClaims == old(role.RoleClaims) + PermissionClaims(names[..k])
      {
        role.RoleClaims := role.RoleClaims + [RoleClaim(PermissionClaimType, names[k])];
        assert PermissionClaims(names[..k + 1]) == PermissionClaims(names[..k]) + [RoleClaim(PermissionClaimType, names[k])];
        k := k + 1;
      }
      assert names[..k] == names;
    }

    /** Lines 89-129: the stereotypes of one provider, merged in order. */
    method MergeStereotypes(stereotypes: seq<Stereotype>)
      requires roleManager.Valid()
      modifies roleManager, roleManager.roles.Values
      ensures roleManager.Valid() && roleManager.updates == old(roleManager.updates)
      ensures KeepsRoles(old(roleManager.roles), roleManager.roles)
      ensures forall r :: r in roleManager.roles.Values ==> r in old(roleManager.roles.Values) || fresh(r)
      ensures Claims(roleManager.roles) == ApplyAll(old(Claims(roleManager.roles)), stereotypes)
    {
      ghost var initial := Claims(roleManager.roles);
      var j := 0;
      while j < |stereotypes|
        invariant 0 <= j <= |stereotypes|
        invariant roleManager.Valid() && roleManager.updates == old(roleManager.updates)
        invariant KeepsRoles(old(roleManager.roles), roleManager.roles)
        invariant forall r :: r in roleManager.roles.Values ==> r in old(roleManager.roles.Values) || fresh(r)
        invariant Claims(roleManager.roles) == ApplyAll(initial, stereotypes[..j])
      {
        MergeStereotype(stereotypes[j]);
        ApplyAllStep(initial, stereotypes, j);
        j := j + 1;
      }
      assert stereotypes[..j] == stereotypes;
    }

    /** `AddDefaultRolesForFeatureAsync`: every stereotype of every provider of
        the feature is merged, in order, and the roles are persisted exactly once. */
    method AddDefaultRolesForFeatureAsync(feature: Feature)
      requires roleManager.Valid()
      modifies roleManager, roleManager.roles.Values
      ensures roleManager.Valid() && roleManager.updates == old(roleManager.updates) + 1
      ensures KeepsRoles(old(roleManager.roles), roleManager.roles)
      ensures forall r :: r in roleManager.roles.Values ==> r in old(roleManager.roles.Values) || fresh(r)
      ensures Claims(roleManager.roles) ==
              ApplyAll(old(Claims(roleManager.roles)), StereotypesOf(ProvidersForFeature(permissionProviders, feature.Id)))
    {
      var featureName := feature.Id;
      // Only the providers declared by the installed feature take part.
      var providersForEnabledModule := ProvidersForFeature(permissionProviders, featureName);
      ghost var initial := Claims(roleManager.roles);

      var i := 0;
      while i < |providersForEnabledModule|
        invariant 0 <= i <= |providersForEnabledModule|
        invariant roleManager.Valid() && roleManager.updates == old(roleManager.updates)
        invariant KeepsRoles(old(roleManager.roles), roleManager.roles)
        invariant forall r :: r in roleManager.roles.Values ==> r in old(roleManager.roles.Values) || fresh(r)
        invariant Claims(roleManager.roles) == ApplyAll(initial, StereotypesOf(providersForEnabledModule[..i]))
      {
        // Each provider's stereotypes are merged in order.
        var stereotypes := providersForEnabledModule[i].DefaultStereotypes;
        MergeStereotypes(stereotypes);
        ApplyAllProviderStep(initial, providersForEnabledModule, i);
        i := i + 1;
      }
      assert providersForEnabledModule[..i] == providersForEnabledModule;

      roleManager.UpdateRoles();
    }

    /** `IFeatureEventHandler`: only `Installed` adds the default roles; the
        other events do nothing. */
    method OnFeatureEvent(event: FeatureEvent, feature: Feature)
      requires roleManager.Valid()
      modifies roleManager, roleManager.roles.Values
      ensures event != Installed ==>
                roleManager.roles == old(roleManager.roles) && roleManager.updates == old(roleManager.updates) &&
                Claims(roleManager.roles) == old(Claims(roleManager.roles))
      ensures event == Installed ==>
                roleManager.Valid() && roleManager.updates == old(roleManager.updates) + 1 &&
                KeepsRoles(old(roleManager.roles), roleManager.roles) &&
                Claims(roleManager.roles) ==
                ApplyAll(old(Claims(roleManager.roles)), StereotypesOf(ProvidersForFeature(permissionProviders, feature.Id)))
    {
      if event == Installed {
        AddDefaultRolesForFeatureAsync(feature);
      }
    }
  }
}
