/** Role-based access control with a permission cache (pkg/auth/rbac.go, lines 508-628, 736-842,
    884-914, 944-1010 and 1160-1178). Each locked section is one atomic operation. */
module Rbac {
  import opened StringOrder

  /** `cleared` is a history variable: users whose roles `AssignRolesFromClaims` has emptied since
      their cache entry was last dropped or recomputed. */
  datatype Sys = Sys(
    roles: map<string, seq<string>>,
    permissions: set<string>,
    userRoles: map<string, seq<string>>,
    cache: map<string, seq<string>>,
    lastUpdated: int,
    cleared: set<string>)

  datatype Op =
    | Grant(user: string, role: string)
    | Revoke(user: string, role: string)
    | GetPermissions(user: string, now: int)
    | CreateRole(role: string, perms: seq<string>)
    | UpdateRole(role: string, perms: seq<string>)
    | DeleteRole(role: string)
    | CreatePermission(perm: string)
    | ClearRoles(user: string)

  function RolesOf(s: Sys, user: string): seq<string> {
    if user in s.userRoles then s.userRoles[user] else []
  }

  // --- calculateUserPermissions -------------------------------------------------------------

  function AddAll(acc: seq<string>, perms: seq<string>): (r: seq<string>)
    requires NoDuplicates(acc)
    ensures NoDuplicates(r)
    decreases |perms|
  {
    if perms == [] then acc
    else AddAll(if perms[0] in acc then acc else acc + [perms[0]], perms[1..])
  }

  function Collect(acc: seq<string>, userRoles: seq<string>, roles: map<string, seq<string>>): (r: seq<string>)
    requires NoDuplicates(acc)
    ensures NoDuplicates(r)
    decreases |userRoles|
  {
    if userRoles == [] then acc
    else Collect(if userRoles[0] in roles then AddAll(acc, roles[userRoles[0]]) else acc, userRoles[1..], roles)
  }

  function Calculate(userRoles: seq<string>, roles: map<string, seq<string>>): seq<string> {
    SortStrings(Collect([], userRoles, roles))
  }

  function Fresh(s: Sys, user: string): seq<string> {
    Calculate(RolesOf(s, user), s.roles)
  }

  /** Some role of the list grants the permission. */
  ghost predicate Granted(userRoles: seq<string>, roles: map<string, seq<string>>, perm: string) {
    exists r :: r in userRoles && r in roles && perm in roles[r]
  }

  lemma {:induction false} AddAllMembers(acc: seq<string>, perms: seq<string>, p: string)
    requires NoDuplicates(acc)
    ensures p in AddAll(acc, perms) <==> p in acc || p in perms
    decreases |perms|
  {
    if perms != [] {
      AddAllMembers(if perms[0] in acc then acc else acc + [perms[0]], perms[1..], p);
      assert p in perms <==> p == perms[0] || p in perms[1..];
    }
  }

  lemma {:induction false} CollectMembers(acc: seq<string>, userRoles: seq<string>, roles: map<string, seq<string>>, p: string)
    requires NoDuplicates(acc)
    ensures p in Collect(acc, userRoles, roles) <==> p in acc || Granted(userRoles, roles, p)
    decreases |userRoles|
  {
    if userRoles != [] {
      var r := userRoles[0];
      var acc' := if r in roles then AddAll(acc, roles[r]) else acc;
      CollectMembers(acc', userRoles[1..], roles, p);
      if r in roles {
        AddAllMembers(acc, roles[r], p);
      }
      assert Granted(userRoles, roles, p) <==> (r in roles && p in roles[r]) || Granted(userRoles[1..], roles, p) by {
        assert forall x :: x in userRoles <==> x == r || x in userRoles[1..];
      }
    }
  }

  /** `calculateUserPermissions` is the sorted duplicate-free union of the permissions of the user's
      roles, and that fixes its result completely. */
  lemma CalculateIsSortedUnion(userRoles: seq<string>, roles: map<string, seq<string>>, r: seq<string>)
    ensures r == Calculate(userRoles, roles)
       <==> StrictlySorted(r) && forall p :: p in r <==> Granted(userRoles, roles, p)
  {
    var c := Calculate(userRoles, roles);
    SortSorted(Collect([], userRoles, roles));
    forall p ensures p in c <==> Granted(userRoles, roles, p) {
      CollectMembers([], userRoles, roles, p);
    }
    if StrictlySorted(r) && forall p :: p in r <==> Granted(userRoles, roles, p) {
      SortedListingUnique(r, c);
    }
  }

  // --- Operations ---------------------------------------------------------------------------

  function RemoveFirst(s: seq<string>, x: string): seq<string> {
    if s == [] then [] else if s[0] == x then s[1..] else [s[0]] + RemoveFirst(s[1..], x)
  }

  function DropUser(s: Sys, user: string): Sys {
    s.(cache := s.cache - {user}, cleared := s.cleared - {user})
  }

  function DropAll(s: Sys): Sys {
    s.(cache := map[], lastUpdated := 0, cleared := {})
  }

  predicate CacheHit(s: Sys, user: string, now: int, ttl: int) {
    user in s.cache && now - s.lastUpdated < ttl
  }

  function Next(s: Sys, op: Op, ttl: int): Sys {
    match op
    case Grant(user, role) =>
      if role !in s.roles || role in RolesOf(s, user) then s
      else DropUser(s.(userRoles := s.userRoles[user := RolesOf(s, user) + [role]]), user)
    case Revoke(user, role) =>
      if role !in RolesOf(s, user) then s
      else DropUser(s.(userRoles := s.userRoles[user := RemoveFirst(RolesOf(s, user), role)]), user)
    case GetPermissions(user, now) =>
      if CacheHit(s, user, now, ttl) then s
      else s.(cache := s.cache[user := Fresh(s, user)], lastUpdated := now, cleared := s.cleared - {user})
    case CreateRole(role, perms) =>
      if role == "" || role in s.roles || exists p :: p in perms && p !in s.permissions then s
      else DropAll(s.(roles := s.roles[role := perms]))
    case UpdateRole(role, perms) =>
      if role !in s.roles || exists p :: p in perms && p !in s.permissions then s
      else DropAll(s.(roles := s.roles[role := perms]))
    case DeleteRole(role) =>
      if role !in s.roles then s
      else DropAll(s.(roles := s.roles - {role},
                      userRoles := map u | u in s.userRoles :: RemoveFirst(s.userRoles[u], role)))
    case CreatePermission(perm) =>
      if perm == "" || perm in s.permissions then s else DropAll(s.(permissions := s.permissions + {perm}))
    case ClearRoles(user) => s.(userRoles := s.userRoles[user := []], cleared := s.cleared + {user})
  }

  /** The answer of `GetUserPermissions`. */
  function Answer(s: Sys, user: string, now: int, ttl: int): seq<string> {
    if CacheHit(s, user, now, ttl) then s.cache[user] else Fresh(s, user)
  }

  ghost predicate RolesInv(s: Sys) {
    forall u :: u in s.userRoles ==>
      NoDuplicates(s.userRoles[u]) && forall r :: r in s.userRoles[u] ==> r in s.roles
  }

  ghost predicate CacheInv(s: Sys) {
    && (forall u :: u in s.cache && u !in s.cleared ==> s.cache[u] == Fresh(s, u))
    && (forall u :: u in s.cleared ==> u in s.userRoles && s.userRoles[u] == [])
  }

  ghost predicate Inv(s: Sys) {
    RolesInv(s) && CacheInv(s)
  }

  lemma {:induction false} RemoveFirstMembers(s: seq<string>, x: string)
    requires NoDuplicates(s)
    ensures NoDuplicates(RemoveFirst(s, x))
    ensures forall y :: y in RemoveFirst(s, x) <==> y in s && y != x
    decreases |s|
  {
    if s != [] {
      RemoveFirstMembers(s[1..], x);
      assert forall y :: y in s <==> y == s[0] || y in s[1..];
      assert s[0] !in s[1..];
    }
  }

  lemma RolesStep(s: Sys, op: Op, ttl: int)
    requires RolesInv(s)
    ensures RolesInv(Next(s, op, ttl))
  {
    var t := Next(s, op, ttl);
    forall u | u in t.userRoles
      ensures NoDuplicates(t.userRoles[u]) && forall r :: r in t.userRoles[u] ==> r in t.roles
    {
      if u in s.userRoles && (op.Revoke? || op.DeleteRole?) {
        RemoveFirstMembers(s.userRoles[u], op.role);
      }
    }
  }

  lemma CacheStep(s: Sys, op: Op, ttl: int)
    requires CacheInv(s)
    ensures CacheInv(Next(s, op, ttl))
  {
  }

  lemma StepKeepsInv(s: Sys, op: Op, ttl: int)
    requires Inv(s)
    ensures Inv(Next(s, op, ttl))
  {
    RolesStep(s, op, ttl);
    CacheStep(s, op, ttl);
  }

  function Run(s: Sys, ops: seq<Op>, ttl: int): Sys
    decreases |ops|
  {
    if ops == [] then s else Run(Next(s, ops[0], ttl), ops[1..], ttl)
  }

  lemma {:induction false} RunKeepsInv(s: Sys, ops: seq<Op>, ttl: int)
    requires Inv(s)
    ensures Inv(Run(s, ops, ttl))
    decreases |ops|
  {
    if ops != [] {
      StepKeepsInv(s, ops[0], ttl);
      RunKeepsInv(Next(s, ops[0], ttl), ops[1..], ttl);
    }
  }

  /** After any sequence of operations by any number of callers, at any time and with any TTL, the
      answer is the sorted duplicate-free union of the user's current role permissions, unless the
      user is in the clearing gap; inside the gap it is so exactly when nothing non-empty is still
      cached and fresh. */
  lemma AnswersAgreeWithRecomputation(s: Sys, ops: seq<Op>, ttl: int, user: string, now: int)
    requires Inv(s)
    ensures var t := Run(s, ops, ttl);
            Answer(t, user, now, ttl) == Fresh(t, user)
            <==> user !in t.cleared || !CacheHit(t, user, now, ttl) || t.cache[user] == []
    ensures RolesInv(Run(s, ops, ttl))
  {
    RunKeepsInv(s, ops, ttl);
  }

  /** Deleting a role leaves no user holding it, although only one occurrence per user is removed. */
  lemma DeleteRoleRemovesEverywhere(s: Sys, role: string, ttl: int)
    requires Inv(s)
    ensures var t := Next(s, DeleteRole(role), ttl);
            role !in t.roles && forall u :: role !in RolesOf(t, u)
  {
    var t := Next(s, DeleteRole(role), ttl);
    forall u ensures role !in RolesOf(t, u) {
      if u in s.userRoles {
        RemoveFirstMembers(s.userRoles[u], role);
      }
    }
  }

  // --- AssignRolesFromClaims ----------------------------------------------------------------

  function GrantAll(s: Sys, user: string, mapped: seq<string>, ttl: int): Sys
    decreases |mapped|
  {
    if mapped == [] then s else GrantAll(Next(s, Grant(user, mapped[0]), ttl), user, mapped[1..], ttl)
  }

  function AssignRoles(s: Sys, user: string, mapped: seq<string>, ttl: int): Sys {
    GrantAll(Next(s, ClearRoles(user), ttl), user, mapped, ttl)
  }

  lemma {:induction false} GrantAllClears(s: Sys, user: string, mapped: seq<string>, ttl: int)
    requires CacheInv(s)
    ensures var t := GrantAll(s, user, mapped, ttl);
            && CacheInv(t) && t.roles == s.roles
            && (user in t.cleared <==> user in s.cleared && forall r :: r in mapped ==> r !in s.roles)
            && (user in t.cleared ==> (user in s.cache <==> user in t.cache))
            && (user in t.cleared && user in t.cache ==> user in s.cache && t.cache[user] == s.cache[user])
    decreases |mapped|
  {
    if mapped != [] {
      var s1 := Next(s, Grant(user, mapped[0]), ttl);
      CacheStep(s, Grant(user, mapped[0]), ttl);
      GrantAllClears(s1, user, mapped[1..], ttl);
      assert forall r :: r in mapped <==> r == mapped[0] || r in mapped[1..];
    }
  }

  /** Once `AssignRolesFromClaims` has returned, the cache agrees with recomputation for the user if
      and only if one of the mapped roles exists or no non-empty entry was cached before the call. */
  lemma AssignLeavesCacheCoherentIff(s: Sys, user: string, mapped: seq<string>, ttl: int)
    requires CacheInv(s)
    ensures var t := AssignRoles(s, user, mapped, ttl);
            (user in t.cache ==> t.cache[user] == Fresh(t, user))
            <==> (exists r :: r in mapped && r in s.roles) || user !in s.cache || s.cache[user] == []
  {
    var s1 := Next(s, ClearRoles(user), ttl);
    CacheStep(s, ClearRoles(user), ttl);
    GrantAllClears(s1, user, mapped, ttl);
    var t := GrantAll(s1, user, mapped, ttl);
    if user in t.cleared {
      assert Fresh(t, user) == [];
    }
  }

  /** A role that grants one permission to one user, who has been asked about. */
  const STALE_START: Sys := Sys(map["viewer" := ["read"]], {"read"}, map[], map[], 0, {})

  /** From a manager without users: the user is granted a role and asked about at time 0; then the claims
      map to a role that does not exist. At time 1 the answer is still the permission of the role that
      is gone, for every TTL above one. */
  lemma AssignLeavesStaleAnswer(ttl: int)
    requires ttl > 1
    ensures Inv(STALE_START)
    ensures var s := Run(STALE_START, [Grant("u", "viewer"), GetPermissions("u", 0)], ttl);
            var t := AssignRoles(s, "u", ["ghost"], ttl);
            Answer(t, "u", 1, ttl) == ["read"] && Fresh(t, "u") == []
  {
    var s1 := Next(STALE_START, Grant("u", "viewer"), ttl);
    var s2 := Next(s1, GetPermissions("u", 0), ttl);
    assert [Grant("u", "viewer"), GetPermissions("u", 0)][1..] == [GetPermissions("u", 0)];
    assert [GetPermissions("u", 0)][1..] == [];
    assert Run(STALE_START, [Grant("u", "viewer"), GetPermissions("u", 0)], ttl) == s2;
    assert RolesOf(s1, "u") == ["viewer"];
    OnePermission(s1.roles);
    CalculateIsSortedUnion(RolesOf(s1, "u"), s1.roles, ["read"]);
    var t := Next(s2, ClearRoles("u"), ttl);
    assert Next(t, Grant("u", "ghost"), ttl) == t;
    assert ["ghost"][1..] == [];
  }

  lemma OnePermission(roles: map<string, seq<string>>)
    requires roles == map["viewer" := ["read"]]
    ensures StrictlySorted(["read"]) && forall p :: p in ["read"] <==> Granted(["viewer"], roles, p)
  {
    forall p ensures p in ["read"] <==> Granted(["viewer"], roles, p) {
      if p == "read" {
        assert "viewer" in ["viewer"] && p in roles["viewer"];
      }
    }
  }
}
