/** `RBACManager` itself: its methods with their loops and map updates, each proved to take exactly
    the corresponding atomic operation (pkg/auth/rbac.go, lines 508-628, 736-842, 944-1010 and
    1160-1178). */
module RbacObject {
  import opened StringOrder
  import opened Rbac

  lemma {:induction false} SpliceIsRemoveFirst(s: seq<string>, x: string, i: nat)
    requires i < |s| && s[i] == x && x !in s[..i]
    ensures s[..i] + s[i + 1..] == RemoveFirst(s, x)
    decreases |s|
  {
    if i > 0 {
      assert s[1..][..i - 1] == s[..i][1..];
      SpliceIsRemoveFirst(s[1..], x, i - 1);
      assert s[..i] + s[i + 1..] == [s[0]] + (s[1..][..i - 1] + s[1..][i..]);
    }
  }

  lemma {:induction false} RemoveFirstAbsent(s: seq<string>, x: string)
    requires x !in s
    ensures RemoveFirst(s, x) == s
    decreases |s|
  {
    if s != [] {
      RemoveFirstAbsent(s[1..], x);
    }
  }

  /** Position of the first occurrence, or the length. */
  method FindFirst(s: seq<string>, x: string) returns (i: nat)
    ensures i <= |s| && x !in s[..i] && (i < |s| ==> s[i] == x)
    ensures i == |s| <==> x !in s
  {
    i := 0;
    while i < |s| && s[i] != x
      invariant i <= |s| && x !in s[..i]
    {
      i := i + 1;
    }
    assert i == |s| ==> s[..i] == s;
  }

  /** The list without its first occurrence of `x`, if it has one. */
  ghost predicate Spliced(before: seq<string>, after: seq<string>, x: string) {
    if x in before then
      exists i :: 0 <= i < |before| && before[i] == x && x !in before[..i] && after == before[..i] + before[i + 1..]
    else after == before
  }

  lemma {:induction false} RemoveFirstSplices(s: seq<string>, x: string)
    ensures Spliced(s, RemoveFirst(s, x), x)
    decreases |s|
  {
    if x in s {
      var i := FirstAt(s, x);
      SpliceIsRemoveFirst(s, x, i);
    } else {
      RemoveFirstAbsent(s, x);
    }
  }

  ghost function FirstAt(s: seq<string>, x: string): (i: nat)
    requires x in s
    ensures i < |s| && s[i] == x && x !in s[..i]
  {
    if s[0] == x then 0
    else
      var i := FirstAt(s[1..], x);
      assert s[..i + 1] == [s[0]] + s[1..][..i];
      i + 1
  }

  /** The mapped roles that exist, each at its first place. */
  function Assigned(mapped: seq<string>, known: set<string>): (r: seq<string>)
    ensures forall x :: x in r <==> x in mapped && x in known
    ensures NoDuplicates(r)
  {
    if mapped == [] then []
    else
      var k := |mapped| - 1;
      var before := Assigned(mapped[..k], known);
      assert mapped == mapped[..k] + [mapped[k]];
      if mapped[k] in known && mapped[k] !in before then before + [mapped[k]] else before
  }

  class RbacManager {
    var roles: map<string, seq<string>>
    var permissions: set<string>
    var userRoles: map<string, seq<string>>
    var cache: map<string, seq<string>>
    var lastUpdated: int
    const ttl: int
    ghost var cleared: set<string>

    ghost function View(): Sys
      reads this
    {
      Sys(roles, permissions, userRoles, cache, lastUpdated, cleared)
    }

    constructor (roles: map<string, seq<string>>, permissions: set<string>, ttl: int)
      ensures View() == Sys(roles, permissions, map[], map[], 0, {}) && Inv(View()) && this.ttl == ttl
    {
      this.roles, this.permissions, this.ttl := roles, permissions, ttl;
      userRoles, cache, lastUpdated, cleared := map[], map[], 0, {};
    }

    method InvalidateUserCache(user: string)
      modifies this`cache, this`cleared
      ensures View() == DropUser(old(View()), user)
    {
      cache := cache - {user};
      cleared := cleared - {user};
    }

    method InvalidateAllCache()
      modifies this`cache, this`lastUpdated, this`cleared
      ensures View() == DropAll(old(View()))
    {
      cache, lastUpdated, cleared := map[], 0, {};
    }

    method GrantRoleToUser(user: string, role: string) returns (ok: bool)
      modifies this
      ensures View() == Next(old(View()), Grant(user, role), ttl)
      ensures roles == old(roles) && permissions == old(permissions) && lastUpdated == old(lastUpdated)
      ensures var held := if user in old(userRoles) then old(userRoles)[user] else [];
              if role in old(roles) && role !in held
              then userRoles == old(userRoles)[user := held + [role]] && cache == old(cache) - {user}
              else userRoles == old(userRoles) && cache == old(cache)
      ensures ok <==> role in old(roles)
    {
      if role !in roles {
        return false;
      }
      var mine := if user in userRoles then userRoles[user] else [];
      var at := FindFirst(mine, role);
      if at < |mine| {
        return true;
      }
      userRoles := userRoles[user := mine + [role]];
      InvalidateUserCache(user);
      ok := true;
    }

    method RevokeRoleFromUser(user: string, role: string) returns (ok: bool)
      modifies this
      ensures View() == Next(old(View()), Revoke(user, role), ttl)
      ensures roles == old(roles) && permissions == old(permissions) && lastUpdated == old(lastUpdated)
      ensures !ok ==> userRoles == old(userRoles) && cache == old(cache)
      ensures ok ==>
                && user in old(userRoles) && user in userRoles && role in old(userRoles)[user]
                && userRoles == old(userRoles)[user := userRoles[user]]
                && Spliced(old(userRoles)[user], userRoles[user], role)
                && cache == old(cache) - {user}
      ensures ok <==> role in RolesOf(old(View()), user)
    {
      var mine := if user in userRoles then userRoles[user] else [];
      var at := FindFirst(mine, role);
      if at == |mine| {
        return false;
      }
      SpliceIsRemoveFirst(mine, role, at);
      userRoles := userRoles[user := mine[..at] + mine[at + 1..]];
      InvalidateUserCache(user);
      ok := true;
    }

    /** `calculateUserPermissions`: collect without repetition, then sort. */
    method CalculateUserPermissions(user: string) returns (perms: seq<string>)
      ensures perms == Fresh(View(), user)
    {
      var mine := if user in userRoles then userRoles[user] else [];
      var all: seq<string> := [];
      var i := 0;
      while i < |mine|
        invariant 0 <= i <= |mine| && NoDuplicates(all)
        invariant Collect(all, mine[i..], roles) == Collect([], mine, roles)
      {
        assert mine[i..][1..] == mine[i + 1..];
        if mine[i] in roles {
          var granted := roles[mine[i]];
          ghost var before := all;
          var j := 0;
          while j < |granted|
            invariant 0 <= j <= |granted| && NoDuplicates(all)
            invariant AddAll(all, granted[j..]) == AddAll(before, granted)
          {
            assert granted[j..][1..] == granted[j + 1..];
            if granted[j] !in all {
              all := all + [granted[j]];
            }
            j := j + 1;
          }
        }
        i := i + 1;
      }
      perms := SortStrings(all);
    }

    method GetUserPermissions(user: string, now: int) returns (perms: seq<string>)
      modifies this`cache, this`lastUpdated, this`cleared
      ensures View() == Next(old(View()), GetPermissions(user, now), ttl)
      ensures perms == Answer(old(View()), user, now, ttl)
      ensures user in old(cache) && now - old(lastUpdated) < ttl ==>
                perms == old(cache)[user] && cache == old(cache) && lastUpdated == old(lastUpdated)
      ensures !(user in old(cache) && now - old(lastUpdated) < ttl) ==>
                cache == old(cache)[user := perms] && lastUpdated == now
      ensures old(Inv(View())) && user !in old(cleared) ==>
                StrictlySorted(perms) && forall p :: p in perms <==> Granted(RolesOf(View(), user), roles, p)
    {
      if user in cache && now - lastUpdated < ttl {
        perms := cache[user];
      } else {
        perms := CalculateUserPermissions(user);
        cache := cache[user := perms];
        lastUpdated := now;
        cleared := cleared - {user};
      }
      CalculateIsSortedUnion(RolesOf(View(), user), roles, perms);
    }

    /** Validation of the permission list in `CreateRole` and `UpdateRole`. */
    method AllExist(perms: seq<string>) returns (ok: bool)
      ensures ok <==> forall p :: p in perms ==> p in permissions
    {
      var i := 0;
      while i < |perms|
        invariant 0 <= i <= |perms|
        invariant forall j :: 0 <= j < i ==> perms[j] in permissions
      {
        if perms[i] !in permissions {
          return false;
        }
        i := i + 1;
      }
      ok := true;
    }

    method CreateRoleNamed(role: string, perms: seq<string>) returns (ok: bool)
      modifies this
      ensures View() == Next(old(View()), CreateRole(role, perms), ttl)
      ensures userRoles == old(userRoles) && permissions == old(permissions)
      ensures roles == if ok then old(roles)[role := perms] else old(roles)
      ensures cache == if ok then map[] else old(cache)
      ensures ok <==> role != "" && role !in old(roles) && forall p :: p in perms ==> p in permissions
    {
      ok := AllExist(perms);
      ok := role != "" && role !in roles && ok;
      if ok {
        roles := roles[role := perms];
        InvalidateAllCache();
      }
    }

    method UpdateRoleNamed(role: string, perms: seq<string>) returns (ok: bool)
      modifies this
      ensures View() == Next(old(View()), UpdateRole(role, perms), ttl)
      ensures userRoles == old(userRoles) && permissions == old(permissions)
      ensures roles == if ok then old(roles)[role := perms] else old(roles)
      ensures cache == if ok then map[] else old(cache)
      ensures ok <==> role in old(roles) && forall p :: p in perms ==> p in permissions
    {
      ok := AllExist(perms);
      ok := role in roles && ok;
      if ok {
        roles := roles[role := perms];
        InvalidateAllCache();
      }
    }

    /** `DeleteRole`: splice one occurrence out of every user's list, in any map order. */
    method DeleteRoleNamed(role: string) returns (ok: bool)
      modifies this
      ensures View() == Next(old(View()), DeleteRole(role), ttl)
      ensures permissions == old(permissions) && userRoles.Keys == old(userRoles.Keys)
      ensures roles == old(roles) - {role} && cache == if ok then map[] else old(cache)
      ensures forall u :: u in userRoles ==>
                if ok then Spliced(old(userRoles)[u], userRoles[u], role) else userRoles[u] == old(userRoles)[u]
      ensures ok <==> role in old(roles)
    {
      if role !in roles {
        return false;
      }
      RemoveFromAllUsers(role);
      roles := roles - {role};
      InvalidateAllCache();
      ok := true;
      forall u | u in userRoles ensures Spliced(old(userRoles)[u], userRoles[u], role) {
        RemoveFirstSplices(old(userRoles)[u], role);
      }
    }

    method RemoveFromAllUsers(role: string)
      modifies this`userRoles
      ensures userRoles == map u | u in old(userRoles) :: RemoveFirst(old(userRoles)[u], role)
    {
      ghost var before := userRoles;
      var todo := userRoles.Keys;
      while todo != {}
        invariant todo <= userRoles.Keys == before.Keys
        invariant forall u :: u in before ==>
                    userRoles[u] == if u in todo then before[u] else RemoveFirst(before[u], role)
        decreases |todo|
      {
        var u :| u in todo;
        var mine := userRoles[u];
        var at := FindFirst(mine, role);
        if at < |mine| {
          SpliceIsRemoveFirst(mine, role, at);
          userRoles := userRoles[u := mine[..at] + mine[at + 1..]];
        } else {
          RemoveFirstAbsent(mine, role);
        }
        todo := todo - {u};
      }
    }

    /** The state after granting the first `i` mapped roles to a user whose roles were cleared. */
    ghost predicate AssignedSoFar(start: Sys, user: string, mapped: seq<string>, i: nat)
      requires i <= |mapped|
      reads this
    {
      var r := Assigned(mapped[..i], start.roles.Keys);
      && roles == start.roles && permissions == start.permissions && lastUpdated == start.lastUpdated
      && userRoles == start.userRoles[user := r]
      && cache == (if r != [] then start.cache - {user} else start.cache)
    }

    method GrantMapped(ghost start: Sys, user: string, mapped: seq<string>, i: nat)
      requires i < |mapped| && AssignedSoFar(start, user, mapped, i)
      modifies this
      ensures AssignedSoFar(start, user, mapped, i + 1)
      ensures View() == Next(old(View()), Grant(user, mapped[i]), ttl)
    {
      assert mapped[..i + 1][..i] == mapped[..i];
      var _ := GrantRoleToUser(user, mapped[i]);
    }

    /** `AssignRolesFromClaims` run without interference; grants of unknown roles are only logged. */
    method AssignRolesFromClaims(user: string, mapped: seq<string>)
      modifies this
      ensures View() == AssignRoles(old(View()), user, mapped, ttl)
      ensures roles == old(roles) && permissions == old(permissions) && lastUpdated == old(lastUpdated)
      ensures userRoles == old(userRoles)[user := Assigned(mapped, roles.Keys)]
      ensures cache == if Assigned(mapped, roles.Keys) != [] then old(cache) - {user} else old(cache)
    {
      userRoles := userRoles[user := []];
      cleared := cleared + {user};
      ghost var start := View();
      var i := 0;
      assert mapped[..0] == [];
      while i < |mapped|
        invariant 0 <= i <= |mapped| && AssignedSoFar(old(View()), user, mapped, i)
        invariant GrantAll(View(), user, mapped[i..], ttl) == GrantAll(start, user, mapped, ttl)
      {
        assert mapped[i..][1..] == mapped[i + 1..];
        GrantMapped(old(View()), user, mapped, i);
        i := i + 1;
      }
      assert mapped[..i] == mapped;
    }

    method CreatePermissionNamed(perm: string) returns (ok: bool)
      modifies this
      ensures View() == Next(old(View()), CreatePermission(perm), ttl)
      ensures ok <==> perm != "" && perm !in old(permissions)
      ensures roles == old(roles) && userRoles == old(userRoles)
      ensures permissions == old(permissions) + (if ok then {perm} else {}) && cache == if ok then map[] else old(cache)
    {
      ok := perm != "" && perm !in permissions;
      if ok {
        permissions := permissions + {perm};
        InvalidateAllCache();
      }
    }
  }
}
