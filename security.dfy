/** Roles and their claims, as the role manager of Orchard.Roles hands them out.
    The role manager itself is not part of this model; it is reduced to a map
    from role name to role object, a creation operation and a persistence
    counter, which is all that RolesPermissionsHandler and RoleUpdater use. */
module Security {

  /** `Permission.ClaimType`: the claim type under which a role lists a granted permission. */
  const PermissionClaimType: string := "Permission"

  datatype RoleClaim = RoleClaim(ClaimType: string, ClaimValue: string)

  /** A role; its claim list is mutated in place by RoleUpdater. */
  class Role {
    const RoleName: string
    var RoleClaims: seq<RoleClaim>

    constructor (name: string)
      ensures RoleName == name && RoleClaims == []
    {
      RoleName := name;
      RoleClaims := [];
    }
  }

  /** The values of the claims of type `Permission`, in order
      (`RoleClaims.Where(x => x.ClaimType == Permission.ClaimType).Select(x => x.ClaimValue)`). */
  function PermissionValues(claims: seq<RoleClaim>): seq<string> {
    if claims == [] then []
    else (if claims[0].ClaimType == PermissionClaimType then [claims[0].ClaimValue] else [])
         + PermissionValues(claims[1..])
  }

  /** A name is a permission value of a claim list exactly when some claim of
      type `Permission` carries it. */
  lemma {:induction false} PermissionValuesMember(claims: seq<RoleClaim>, name: string)
    ensures name in PermissionValues(claims) <==>
            exists j :: 0 <= j < |claims| && claims[j].ClaimType == PermissionClaimType && claims[j].ClaimValue == name
  {
    if claims != [] {
      PermissionValuesMember(claims[1..], name);
      if name in PermissionValues(claims[1..]) {
        var j :| 0 <= j < |claims[1..]| && claims[1..][j].ClaimType == PermissionClaimType && claims[1..][j].ClaimValue == name;
        assert claims[j + 1] == claims[1..][j];
      }
      forall j | 1 <= j < |claims| && claims[j].ClaimType == PermissionClaimType && claims[j].ClaimValue == name
        ensures name in PermissionValues(claims[1..])
      {
        assert claims[1..][j - 1] == claims[j];
      }
    }
  }

  /** Appending claims appends their permission values. */
  lemma {:induction false} PermissionValuesAppend(a: seq<RoleClaim>, b: seq<RoleClaim>)
    ensures PermissionValues(a + b) == PermissionValues(a) + PermissionValues(b)
  {
    if a != [] {
      assert (a + b)[1..] == a[1..] + b;
      PermissionValuesAppend(a[1..], b);
    } else {
      assert a + b == b;
    }
  }

  /** The claims RoleUpdater appends for a list of permission names, one per name. */
  function PermissionClaims(names: seq<string>): (claims: seq<RoleClaim>)
    ensures |claims| == |names|
    ensures forall k :: 0 <= k < |names| ==> claims[k] == RoleClaim(PermissionClaimType, names[k])
  {
    if names == [] then [] else [RoleClaim(PermissionClaimType, names[0])] + PermissionClaims(names[1..])
  }

  /** The permission values of the appended claims are the names themselves. */
  lemma {:induction false} PermissionValuesOfPermissionClaims(names: seq<string>)
    ensures PermissionValues(PermissionClaims(names)) == names
  {
    if names != [] {
      var claims := PermissionClaims(names);
      assert claims[1..] == PermissionClaims(names[1..]);
      PermissionValuesOfPermissionClaims(names[1..]);
    }
  }

  /** The role store: roles by name, creation of empty roles, and a count of the
      times the roles were persisted (`UpdateRoles`). Role names are looked up
      exactly. */
  class RoleManager {
    var roles: map<string, Role>
    var updates: nat

    /** Every role is filed under its own name, so distinct names hold distinct roles. */
    ghost predicate Valid()
      reads this, roles.Values
    {
      forall n :: n in roles ==> roles[n].RoleName == n
    }

    constructor (initial: map<string, Role>)
      ensures roles == initial && updates == 0
    {
      roles := initial;
      updates := 0;
    }

    /** `GetRoleByNameAsync`: the role with that name, or null. */
    method GetRoleByNameAsync(name: string) returns (role: Role?)
      ensures role == (if name in roles then roles[name] else null)
    {
      role := if name in roles then roles[name] else null;
    }

    /** `CreateRoleAsync`: a new role with no claims, filed under its name. */
    method CreateRoleAsync(name: string) returns (role: Role)
      requires Valid()
      modifies this
      ensures Valid()
      ensures fresh(role) && role.RoleName == name && role.RoleClaims == []
      ensures roles == old(roles)[name := role] && updates == old(updates)
    {
      role := new Role(name);
      roles := roles[name := role];
    }

    /** `UpdateRoles`: persists the roles as they now are. */
    method UpdateRoles()
      modifies this
      ensures roles == old(roles) && updates == old(updates) + 1
    {
      updates := updates + 1;
    }
  }
}
