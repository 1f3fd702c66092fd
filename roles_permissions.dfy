/** The authorization handler of Orchard.Roles (RolesPermissionsHandler.cs):
    a permission requirement is met when one of the roles examined for the
    user holds a `Permission` claim naming the required permission, a
    permission that implies it (transitively, through `ImpliedBy`), or
    `SiteOwner`. */
module RolesPermissions {
  import opened Common
  import opened Security

  /** `Permissions.SiteOwner.Name`. */
  const SiteOwnerName: string := "SiteOwner"
  const AnonymousRoleName: string := "Anonymous"
  const AuthenticatedRoleName: string := "Authenticated"
  /** `ClaimTypes.Role`. */
  const RoleClaimType: string := "http://schemas.microsoft.com/ws/2008/06/identity/claims/role"

  /** A permission and the permissions that imply it. The graph may contain
      cycles; a null `ImpliedBy` is the empty sequence. */
  class Permission {
    const Name: string
    var ImpliedBy: seq<Permission>

    constructor (name: string, impliedBy: seq<Permission>)
      ensures Name == name && ImpliedBy == impliedBy
    {
      Name := name;
      ImpliedBy := impliedBy;
    }
  }

  /** `new HashSet<string>(StringComparer.OrdinalIgnoreCase)`: the set holds
      the case-folded key of every name added to it. */
  class NameSet {
    var keys: set<string>

    constructor ()
      ensures keys == {}
    {
      keys := {};
    }

    method Add(name: string)
      modifies this
      ensures keys == old(keys) + {UpperKey(name)}
    {
      keys := keys + {UpperKey(name)};
    }

    predicate Contains(name: string)
      reads this
    {
      UpperKey(name) in keys
    }
  }

  /** `g` is closed under `ImpliedBy`: every permission reachable from a member is a member. */
  ghost predicate Closed(g: set<Permission>)
    reads g
  {
    forall p, q :: p in g && q in p.ImpliedBy ==> q in g
  }

  /** The case-folded names of a set of permissions. */
  ghost function KeysOf(ps: set<Permission>): set<string> {
    set p | p in ps :: UpperKey(p.Name)
  }

  lemma KeysOfUnion(a: set<Permission>, b: set<Permission>)
    ensures KeysOf(a + b) == KeysOf(a) + KeysOf(b)
  {
  }

  lemma {:induction false} SubsetCardinality<T>(a: set<T>, b: set<T>)
    requires a <= b
    ensures |a| <= |b|
    decreases b
  {
    if a != {} {
      var x :| x in a;
      SubsetCardinality(a - {x}, b - {x});
    }
  }

  /** Growing the set of names already collected, by at least one name of the
      graph, shrinks the set of names still to collect. */
  lemma StrictProgress(universe: set<string>, before: set<string>, after: set<string>, k: string)
    requires before <= after && k in universe && k !in before && k in after
    ensures |universe - after| < |universe - before|
  {
    SubsetCardinality(universe - after, universe - before - {k});
  }

  /** `PermissionNames`: adds to `stack` the name of `permission`, recursively
      the names of the permissions that imply it, and `SiteOwner`. A permission
      whose name is already in the set is not explored again, which is what
      makes the recursion terminate on cyclic graphs: every call adds a name of
      the (finite) graph that was not yet there. The ghost result `visited` is
      the set of permissions whose implying permissions were explored. */
  method PermissionNames(permission: Permission, stack: NameSet, ghost g: set<Permission>, ghost universe: set<string>)
    returns (ghost visited: set<Permission>)
    requires Closed(g) && permission in g && KeysOf(g) <= universe
    modifies stack
    ensures Collected(permission, g, old(stack.keys), visited, stack.keys)
    decreases |universe - stack.keys|, if UpperKey(permission.Name) in stack.keys then 1 else 0
  {
    ghost var entryKeys := stack.keys;
    stack.Add(permission.Name);
    visited := {permission};
    var i := 0;
    while i < |permission.ImpliedBy|
      invariant 0 <= i <= |permission.ImpliedBy|
      invariant Explored(permission, g, entryKeys, visited, stack.keys)
      invariant forall k :: 0 <= k < i ==> UpperKey(permission.ImpliedBy[k].Name) in stack.keys
    {
      var impliedBy := permission.ImpliedBy[i];
      // A name already collected is not explored again.
      if !stack.Contains(impliedBy.Name) {
        ghost var keysBefore := stack.keys;
        Progress(permission, g, universe, entryKeys, visited, keysBefore, impliedBy);
        var more := PermissionNames(impliedBy, stack, g, universe);
        ExploredStep(permission, g, entryKeys, visited, keysBefore, impliedBy, more, stack.keys);
        visited := visited + more;
      }
      i := i + 1;
    }
    ghost var keysAtEnd := stack.keys;
    stack.Add(SiteOwnerName);
    ExploredDone(permission, g, entryKeys, visited, keysAtEnd, stack.keys);
  }

  /** What `PermissionNames` collects, starting from the names `entryKeys`:
      `visited` is a part of the graph holding `permission`; the names are the
      entry names, those of `visited` and `SiteOwner`; and every permission
      implying a visited one is named. */
  ghost predicate Collected(permission: Permission, g: set<Permission>, entryKeys: set<string>,
                            visited: set<Permission>, keys: set<string>)
    reads visited
  {
    && permission in visited && visited <= g
    && keys == entryKeys + KeysOf(visited) + {UpperKey(SiteOwnerName)}
    && forall v, q :: v in visited && q in v.ImpliedBy ==> UpperKey(q.Name) in keys
  }

  /** The loop invariant of `PermissionNames`: `visited` lies in the graph and
      starts with `permission`; the set holds the names it held on entry and
      those of `visited`, and possibly `SiteOwner`; the permissions implying any
      visited permission other than `permission` are all named in the set. */
  ghost predicate Explored(permission: Permission, g: set<Permission>, entryKeys: set<string>,
                           visited: set<Permission>, keys: set<string>)
    reads visited
  {
    && permission in visited && visited <= g
    && entryKeys + KeysOf(visited) <= keys <= entryKeys + KeysOf(visited) + {UpperKey(SiteOwnerName)}
    && forall v, q :: v in visited - {permission} && q in v.ImpliedBy ==> UpperKey(q.Name) in keys
  }

  /** Once every permission implying `permission` is named, adding `SiteOwner`
      establishes what `PermissionNames` promises. */
  lemma ExploredDone(permission: Permission, g: set<Permission>, entryKeys: set<string>,
                     visited: set<Permission>, keys: set<string>, keys': set<string>)
    requires Explored(permission, g, entryKeys, visited, keys)
    requires forall k :: 0 <= k < |permission.ImpliedBy| ==> UpperKey(permission.ImpliedBy[k].Name) in keys
    requires keys' == keys + {UpperKey(SiteOwnerName)}
    ensures Collected(permission, g, entryKeys, visited, keys')
  {
    forall v, q | v in visited && q in v.ImpliedBy
      ensures UpperKey(q.Name) in keys'
    {
      if v == permission {
        var k :| 0 <= k < |permission.ImpliedBy| && permission.ImpliedBy[k] == q;
      }
    }
  }

  /** The termination measure of `PermissionNames` decreases at the recursive call. */
  lemma Progress(permission: Permission, g: set<Permission>, universe: set<string>, entryKeys: set<string>,
                 visited: set<Permission>, keys: set<string>, next: Permission)
    requires Explored(permission, g, entryKeys, visited, keys) && next in g && KeysOf(g) <= universe
    requires UpperKey(next.Name) !in keys
    ensures |universe - keys| < |universe - entryKeys| ||
            (|universe - keys| <= |universe - entryKeys| && UpperKey(permission.Name) in entryKeys)
  {
    var kp := UpperKey(permission.Name);
    assert kp in KeysOf(visited);
    assert kp in universe;
    if kp !in entryKeys {
      StrictProgress(universe, entryKeys, keys, kp);
    } else {
      SubsetCardinality(universe - keys, universe - entryKeys);
    }
  }

  /** The loop invariant of `PermissionNames` survives a recursive call. */
  lemma ExploredStep(permission: Permission, g: set<Permission>, entryKeys: set<string>,
                     visited: set<Permission>, keys: set<string>, next: Permission, more: set<Permission>, keys': set<string>)
    requires Explored(permission, g, entryKeys, visited, keys)
    requires next in more && Collected(next, g, keys, more, keys')
    ensures Explored(permission, g, entryKeys, visited + more, keys')
  {
    KeysOfUnion(visited, more);
  }

  /** A user: whether it is authenticated, and its claims. */
  datatype Claim = Claim(Type: string, Value: string)
  datatype User = User(IsAuthenticated: bool, Claims: seq<Claim>)

  /** The values of the user's role claims, in order. */
  function RoleClaimValues(claims: seq<Claim>): seq<string> {
    if claims == [] then []
    else (if claims[0].Type == RoleClaimType then [claims[0].Value] else []) + RoleClaimValues(claims[1..])
  }

  lemma {:induction false} RoleClaimValuesAppend(claims: seq<Claim>, c: Claim)
    ensures RoleClaimValues(claims + [c]) ==
            RoleClaimValues(claims) + (if c.Type == RoleClaimType then [c.Value] else [])
  {
    if claims != [] {
      assert (claims + [c])[1..] == claims[1..] + [c];
      RoleClaimValuesAppend(claims[1..], c);
    } else {
      assert RoleClaimValues([c][1..]) == [];
    }
  }

  /** A role name comes from the user's claims exactly when a claim of type
      `ClaimTypes.Role` carries it. */
  lemma {:induction false} RoleClaimValuesMember(claims: seq<Claim>, name: string)
    ensures name in RoleClaimValues(claims) <==>
            exists j :: 0 <= j < |claims| && claims[j].Type == RoleClaimType && claims[j].Value == name
  {
    if claims != [] {
      RoleClaimValuesMember(claims[1..], name);
      if name in RoleClaimValues(claims[1..]) {
        var j :| 0 <= j < |claims[1..]| && claims[1..][j].Type == RoleClaimType && claims[1..][j].Value == name;
        assert claims[j + 1] == claims[1..][j];
      }
      forall j | 1 <= j < |claims| && claims[j].Type == RoleClaimType && claims[j].Value == name
        ensures name in RoleClaimValues(claims[1..])
      {
        assert claims[1..][j - 1] == claims[j];
      }
    }
  }

  /** The roles the handler examines for a user, in order: always `Anonymous`;
      `Authenticated` and the user's role claims only for an authenticated user. */
  function ExaminedRoles(user: User): seq<string> {
    [AnonymousRoleName] + (if user.IsAuthenticated then [AuthenticatedRoleName] + RoleClaimValues(user.Claims) else [])
  }

  /** Lines 41-54: the list of roles to examine, built by appending. */
  method RolesToExamine(user: User) returns (rolesToExamine: seq<string>)
    ensures rolesToExamine == ExaminedRoles(user)
  {
    rolesToExamine := [AnonymousRoleName];
    if user.IsAuthenticated {
      rolesToExamine := rolesToExamine + [AuthenticatedRoleName];
      var i := 0;
      while i < |user.Claims|
        invariant 0 <= i <= |user.Claims|
        invariant rolesToExamine == [AnonymousRoleName, AuthenticatedRoleName] + RoleClaimValues(user.Claims[..i])
      {
        var claim := user.Claims[i];
        RoleClaimValuesAppend(user.Claims[..i], claim);
        assert user.Claims[..i + 1] == user.Claims[..i] + [claim];
        if claim.Type == RoleClaimType {
          rolesToExamine := rolesToExamine + [claim.Value];
        }
        i := i + 1;
      }
      assert user.Claims[..i] == user.Claims;
    }
  }

  /** The examined roles always include `Anonymous`, include `Authenticated`
      exactly for authenticated users, and any other role only when an
      authenticated user carries a role claim naming it. */
  lemma ExaminedRolesShape(user: User, name: string)
    ensures AnonymousRoleName in ExaminedRoles(user)
    ensures AuthenticatedRoleName in ExaminedRoles(user) <==> user.IsAuthenticated
    ensures name in ExaminedRoles(user) && name != AnonymousRoleName && name != AuthenticatedRoleName ==>
              user.IsAuthenticated && exists j :: 0 <= j < |user.Claims| && user.Claims[j].Type == RoleClaimType && user.Claims[j].Value == name
  {
    RoleClaimValuesMember(user.Claims, name);
  }

  /** The role holds a `Permission` claim whose value is, ignoring case, one of the granting names. */
  ghost predicate RoleGrants(role: Role, granting: set<string>)
    reads role
  {
    exists j :: 0 <= j < |role.RoleClaims| &&
      role.RoleClaims[j].ClaimType == PermissionClaimType && UpperKey(role.RoleClaims[j].ClaimValue) in granting
  }

  /** Some examined role exists and grants one of the granting names. */
  ghost predicate SomeRoleGrants(examined: seq<string>, roles: map<string, Role>, granting: set<string>)
    reads roles.Values
  {
    exists i :: 0 <= i < |examined| && examined[i] in roles && RoleGrants(roles[examined[i]], granting)
  }

  /** The authorization context: the user and whether the requirement has succeeded. */
  class AuthorizationHandlerContext {
    const User: User
    var HasSucceeded: bool

    constructor (user: User, hasSucceeded: bool)
      ensures User == user && HasSucceeded == hasSucceeded
    {
      User := user;
      HasSucceeded := hasSucceeded;
    }

    method Succeed()
      modifies this
      ensures HasSucceeded
    {
      HasSucceeded := true;
    }
  }

  /** `HandleRequirementAsync`. A context that has already succeeded is left
      alone. Otherwise the granting names are collected from the required
      permission, and the requirement succeeds exactly when some examined role
      that exists holds a `Permission` claim naming one of them. The ghost
      results are the granting names (case-folded) and the permissions whose
      implying permissions were explored. `g` is any finite set of permissions
      closed under `ImpliedBy` that contains the required one. */
  method HandleRequirementAsync(context: AuthorizationHandlerContext, permission: Permission,
                                roleManager: RoleManager, ghost g: set<Permission>)
    returns (ghost granting: set<string>, ghost visited: set<Permission>)
    requires Closed(g) && permission in g
    modifies context
    ensures old(context.HasSucceeded) ==> context.HasSucceeded
    ensures !old(context.HasSucceeded) ==>
              && Collected(permission, g, {}, visited, granting)
              && (context.HasSucceeded <==> SomeRoleGrants(ExaminedRoles(context.User), roleManager.roles, granting))
  {
    granting, visited := {}, {};
    if context.HasSucceeded {
      // An earlier success stands: nothing here takes it back.
      return;
    }

    var grantingNames := new NameSet();
    visited := PermissionNames(permission, grantingNames, g, KeysOf(g));
    granting := grantingNames.keys;

    var rolesToExamine := RolesToExamine(context.User);

    var i := 0;
    while i < |rolesToExamine|
      modifies context
      invariant 0 <= i <= |rolesToExamine|
      invariant !context.HasSucceeded
      invariant NoneGrants(rolesToExamine[..i], roleManager.roles, granting)
    {
      var role := roleManager.GetRoleByNameAsync(rolesToExamine[i]);
      if role != null {
        var found := HasGrantingClaim(role, grantingNames);
        if found {
          assert SomeRoleGrants(rolesToExamine, roleManager.roles, granting) by {
            assert rolesToExamine[i] in roleManager.roles && RoleGrants(roleManager.roles[rolesToExamine[i]], granting);
          }
          context.Succeed();
          return;
        }
      }
      NoneGrantsStep(rolesToExamine, i, roleManager.roles, granting);
      i := i + 1;
    }
    assert rolesToExamine[..i] == rolesToExamine;
  }

  /** No role of `examined` that exists grants one of the granting names. */
  ghost predicate NoneGrants(examined: seq<string>, roles: map<string, Role>, granting: set<string>)
    reads roles.Values
  {
    forall k :: 0 <= k < |examined| && examined[k] in roles ==> !RoleGrants(roles[examined[k]], granting)
  }

  lemma NoneGrantsStep(examined: seq<string>, i: nat, roles: map<string, Role>, granting: set<string>)
    requires i < |examined| && NoneGrants(examined[..i], roles, granting)
    requires examined[i] in roles ==> !RoleGrants(roles[examined[i]], granting)
    ensures NoneGrants(examined[..i + 1], roles, granting)
  {
    var next := examined[..i + 1];
    forall k | 0 <= k < |next| && next[k] in roles
      ensures !RoleGrants(roles[next[k]], granting)
    {
      if k < i {
        assert next[k] == examined[..i][k];
      }
    }
  }

  /** Lines 68-80: the scan of one role's claims for a `Permission` claim
      whose value is in the granting set. */
  method HasGrantingClaim(role: Role, grantingNames: NameSet) returns (found: bool)
    ensures found <==> RoleGrants(role, grantingNames.keys)
  {
    var j := 0;
    while j < |role.RoleClaims|
      invariant 0 <= j <= |role.RoleClaims|
      invariant forall m :: 0 <= m < j ==>
                  !(role.RoleClaims[m].ClaimType == PermissionClaimType && UpperKey(role.RoleClaims[m].ClaimValue) in grantingNames.keys)
    {
      var claim := role.RoleClaims[j];
      if claim.ClaimType == PermissionClaimType {
        var permissionName := claim.ClaimValue;
        if grantingNames.Contains(permissionName) {
          return true;
        }
      }
      j := j + 1;
    }
    return false;
  }

  /** An implication path: each permission implies the one before it
      (`path[i + 1]` is in `path[i].ImpliedBy`). */
  ghost predicate ImpliedByPath(path: seq<Permission>)
    reads set p | p in path
  {
    forall i :: 0 <= i < |path| - 1 ==> path[i + 1] in path[i].ImpliedBy
  }

  /** No two permissions of `g` have the same name, ignoring case. */
  ghost predicate NamesIdentify(g: set<Permission>) {
    forall p, q :: p in g && q in g && UpperKey(p.Name) == UpperKey(q.Name) ==> p == q
  }

  /** Nothing implies `SiteOwner`: it is the strongest permission. */
  ghost predicate SiteOwnerIsTop(g: set<Permission>)
    reads g
  {
    forall p :: p in g && UpperKey(p.Name) == UpperKey(SiteOwnerName) ==> p.ImpliedBy == []
  }

  /** Completeness of the granting names. When names identify permissions and
      `SiteOwner` is the top permission, the names collected by
      `PermissionNames` (described by `visited` and its ensures) include every
      permission from which the required one can be reached through
      `ImpliedBy`, however long the path and whatever the cycles. */
  lemma {:induction false} GrantingNamesComplete(g: set<Permission>, visited: set<Permission>,
                                                 granting: set<string>, path: seq<Permission>)
    requires Closed(g) && NamesIdentify(g) && SiteOwnerIsTop(g)
    requires |path| > 0 && ImpliedByPath(path) && Collected(path[0], g, {}, visited, granting)
    ensures UpperKey(path[|path| - 1].Name) in granting
    ensures path[|path| - 1] in g
    ensures path[|path| - 1] in visited || path[|path| - 1].ImpliedBy == []
  {
    if |path| > 1 {
      var prefix := path[..|path| - 1];
      assert ImpliedByPath(prefix) by {
        forall i | 0 <= i < |prefix| - 1 ensures prefix[i + 1] in prefix[i].ImpliedBy {
          assert prefix[i] == path[i] && prefix[i + 1] == path[i + 1];
        }
      }
      GrantingNamesComplete(g, visited, granting, prefix);
      var x, y := path[|path| - 2], path[|path| - 1];
      assert x == prefix[|prefix| - 1];
      assert y in x.ImpliedBy;
      assert x in visited;
      assert y in g;
      var k := UpperKey(y.Name);
      if k in KeysOf(visited) {
        var v :| v in visited && UpperKey(v.Name) == k;
        assert v == y;
      }
    }
  }
}
