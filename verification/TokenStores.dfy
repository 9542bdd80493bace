/** The in-memory token store and blacklist with their loops, and the manager's revocation and
    validation on top of them (pkg/auth/memory_stores.go, lines 10-149; pkg/auth/jwt_manager.go,
    lines 541-624 and 675-735). */
module TokenStores {
  import opened Wrappers
  import opened Tokens

  class MemoryTokenStore {
    var tokens: map<string, TokenInfo>

    constructor ()
      ensures tokens == map[]
    {
      tokens := map[];
    }

    method StoreToken(id: string, token: TokenInfo)
      modifies this
      ensures tokens == old(tokens)[id := token]
    {
      tokens := tokens[id := token];
    }

    /** Does nothing for a token that is no longer stored, so a late usage update cannot bring a
        deleted token back. */
    method UpdateToken(id: string, token: TokenInfo)
      modifies this
      ensures tokens.Keys == old(tokens.Keys)
      ensures id in old(tokens) ==> tokens == old(tokens)[id := token]
      ensures id !in old(tokens) ==> tokens == old(tokens)
    {
      if id !in tokens {
        return;
      }
      tokens := tokens[id := token];
    }

    method DeleteToken(id: string)
      modifies this
      ensures tokens == old(tokens) - {id}
    {
      tokens := tokens - {id};
    }

    /** Every entry of the user, once, in some order. */
    method ListUserTokens(user: string) returns (listing: seq<TokenInfo>)
      requires forall id :: id in tokens ==> tokens[id].id == id
      ensures IsListing(tokens, user, listing)
      ensures forall i, j :: 0 <= i < j < |listing| ==> listing[i].id != listing[j].id
    {
      listing := [];
      var todo := tokens.Keys;
      while todo != {}
        invariant todo <= tokens.Keys
        invariant forall i :: 0 <= i < |listing| ==>
                    && listing[i].id in tokens && listing[i].id !in todo
                    && tokens[listing[i].id] == listing[i] && listing[i].user == user
        invariant forall id :: id in tokens && id !in todo && tokens[id].user == user ==> tokens[id] in listing
        invariant forall i, j :: 0 <= i < j < |listing| ==> listing[i].id != listing[j].id
      {
        var id :| id in todo;
        if tokens[id].user == user {
          listing := listing + [tokens[id]];
        }
        todo := todo - {id};
      }
    }

    /** Removes exactly the entries whose expiry lies strictly in the past. */
    method CleanupExpired(now: int)
      modifies this
      ensures tokens == map id | id in old(tokens) && !(now > old(tokens)[id].expiresAt) :: old(tokens)[id]
    {
      ghost var before := tokens;
      var todo := tokens.Keys;
      while todo != {}
        invariant todo <= before.Keys
        invariant forall id :: id in tokens <==> id in before && (id in todo || !(now > before[id].expiresAt))
        invariant forall id :: id in tokens ==> tokens[id] == before[id]
      {
        var id :| id in todo;
        assert id in tokens;
        if now > tokens[id].expiresAt {
          tokens := tokens - {id};
        }
        todo := todo - {id};
      }
    }
  }

  class MemoryTokenBlacklist {
    var blacklisted: map<string, int>

    constructor ()
      ensures blacklisted == map[]
    {
      blacklisted := map[];
    }

    method BlacklistToken(id: string, expiresAt: int)
      modifies this
      ensures blacklisted == old(blacklisted)[id := expiresAt]
    {
      blacklisted := blacklisted[id := expiresAt];
    }

    method CleanupExpired(now: int)
      modifies this
      ensures blacklisted == map id | id in old(blacklisted) && !(now > old(blacklisted)[id]) :: old(blacklisted)[id]
    {
      ghost var before := blacklisted;
      var todo := blacklisted.Keys;
      while todo != {}
        invariant todo <= before.Keys
        invariant forall id :: id in blacklisted <==> id in before && (id in todo || !(now > before[id]))
        invariant forall id :: id in blacklisted ==> blacklisted[id] == before[id]
      {
        var id :| id in todo;
        assert id in blacklisted;
        if now > blacklisted[id] {
          blacklisted := blacklisted - {id};
        }
        todo := todo - {id};
      }
    }
  }

  // --- Listings -----------------------------------------------------------------------------

  ghost function IdsOf(listing: seq<TokenInfo>): set<string> {
    set t | t in listing :: t.id
  }

  /** The blacklist after these tokens have been put on it in turn. */
  ghost function BlacklistedWith(m: map<string, int>, listing: seq<TokenInfo>): map<string, int> {
    if listing == [] then m
    else
      var k := |listing| - 1;
      BlacklistedWith(m, listing[..k])[listing[k].id := listing[k].expiresAt]
  }

  /** The identifiers in a listing are those of the user's entries. */
  lemma ListedIds(tokens: map<string, TokenInfo>, user: string, listing: seq<TokenInfo>)
    requires (forall id :: id in tokens ==> tokens[id].id == id) && IsListing(tokens, user, listing)
    ensures IdsOf(listing) == set id | id in tokens && tokens[id].user == user
  {
    forall id | id in tokens && tokens[id].user == user ensures id in IdsOf(listing) {
      assert tokens[id] in listing;
    }
  }

  lemma {:induction false} BlacklistedAre(m: map<string, int>, listing: seq<TokenInfo>, tokens: map<string, TokenInfo>)
    requires forall i :: 0 <= i < |listing| ==> listing[i].id in tokens && tokens[listing[i].id] == listing[i]
    ensures BlacklistedWith(m, listing).Keys == m.Keys + IdsOf(listing)
    ensures forall id :: id in BlacklistedWith(m, listing) ==>
              BlacklistedWith(m, listing)[id] == if id in IdsOf(listing) then tokens[id].expiresAt else m[id]
    decreases |listing|
  {
    if listing != [] {
      var k := |listing| - 1;
      BlacklistedAre(m, listing[..k], tokens);
      assert listing == listing[..k] + [listing[k]];
      assert IdsOf(listing) == IdsOf(listing[..k]) + {listing[k].id};
    }
  }

  /** Every listed token is on the blacklist with its own expiry, and nothing else has changed there. */
  lemma ListedExpiries(tokens: map<string, TokenInfo>, m: map<string, int>, user: string, listing: seq<TokenInfo>)
    requires (forall id :: id in tokens ==> tokens[id].id == id) && IsListing(tokens, user, listing)
    ensures var mine := (set id | id in tokens && tokens[id].user == user);
            var b := BlacklistedWith(m, listing);
            b.Keys == m.Keys + mine && forall id :: id in b ==> b[id] == if id in mine then tokens[id].expiresAt else m[id]
  {
    ListedIds(tokens, user, listing);
    BlacklistedAre(m, listing, tokens);
  }

  // --- Whole calls as runs of protocol steps ------------------------------------------------

  /** A revocation is about to process its next token. */
  ghost predicate CanRevoke(s: Sys, job: nat) {
    job in s.jobs && s.jobs[job].pending != [] && !s.jobs[job].listed
  }

  /** Its two steps. */
  ghost function AfterOne(s: Sys, job: nat): Sys
    requires CanRevoke(s, job)
  {
    Next(Next(s, BlacklistNext(job)), DeleteNext(job))
  }

  ghost function AfterMany(s: Sys, job: nat, n: nat): Sys {
    if n == 0 then s
    else
      var t := AfterMany(s, job, n - 1);
      if CanRevoke(t, job) then AfterOne(t, job) else t
  }

  /** The revocation still has the tokens from place `i` on to process. */
  ghost predicate Left(s: Sys, job: nat, listing: seq<TokenInfo>, i: nat)
    requires i <= |listing|
  {
    job in s.jobs && !s.jobs[job].listed && s.jobs[job].pending == listing[i..]
  }

  lemma LeftStep(s: Sys, job: nat, listing: seq<TokenInfo>, i: nat)
    requires i < |listing| && Left(s, job, listing, i)
    ensures CanRevoke(s, job) && s.jobs[job].pending[0] == listing[i]
    ensures Left(AfterOne(s, job), job, listing, i + 1)
  {
    assert listing[i..][1..] == listing[i + 1..];
  }

  lemma ListingStep(tokens: map<string, TokenInfo>, m: map<string, int>, listing: seq<TokenInfo>, i: nat)
    requires i < |listing|
    ensures tokens - IdsOf(listing[..i]) - {listing[i].id} == tokens - IdsOf(listing[..i + 1])
    ensures BlacklistedWith(m, listing[..i])[listing[i].id := listing[i].expiresAt] == BlacklistedWith(m, listing[..i + 1])
  {
    assert listing[..i + 1] == listing[..i] + [listing[i]];
    assert listing[..i + 1][..i] == listing[..i];
    assert IdsOf(listing[..i + 1]) == IdsOf(listing[..i]) + {listing[i].id};
  }

  /** An uninterrupted validation of a genuine token. */
  ghost function AfterValidation(s: Sys, v: nat, id: string): Sys {
    if !Enabled(s, BeginValidate(v, id)) then s else
      var s2 := Next(Next(s, BeginValidate(v, id)), EndValidate(v));
      if s2.sessions[v].stage == Refused then s2 else
        var s3 := Next(s2, ReadInfo(v));
        if s3.sessions[v].stage == Finished then s3 else Next(s3, WriteBack(v))
  }

  class JwtManager {
    const store: MemoryTokenStore
    const blacklist: MemoryTokenBlacklist

    constructor ()
      ensures fresh(store) && fresh(blacklist) && store.tokens == map[] && blacklist.blacklisted == map[]
    {
      store := new MemoryTokenStore();
      blacklist := new MemoryTokenBlacklist();
    }

    /** A protocol state whose store and blacklist are these. */
    ghost predicate Matches(s: Sys)
      reads store, blacklist
    {
      s.store == store.tokens && s.blacklist == blacklist.blacklisted
    }

    // --- Issue and cleanup --------------------------------------------------------------------

    /** `GenerateAccessToken` and `GenerateRefreshToken`, for a new identifier: the store keeps the token
        under it with its own user and expiry. */
    method GenerateToken(ghost s: Sys, id: string, user: string, exp: int)
      requires Matches(s) && id !in s.issued
      modifies store
      ensures Matches(Next(s, Generate(id, user, exp)))
      ensures store.tokens == old(store.tokens)[id := TokenInfo(id, user, exp, 0)]
    {
      store.StoreToken(id, TokenInfo(id, user, exp, 0));
    }

    /** One round of `cleanupLoop`: the store first, then, at a later reading of the clock, the blacklist. */
    method CleanupOnce(ghost s: Sys, now: int, later: int)
      requires Matches(s) && s.now == now <= later
      modifies store, blacklist
      ensures Matches(Next(Next(Next(s, CleanupStore), Tick(later)), CleanupBlacklist))
      ensures store.tokens == map id | id in old(store.tokens) && !(now > old(store.tokens)[id].expiresAt) :: old(store.tokens)[id]
      ensures blacklist.blacklisted
           == map id | id in old(blacklist.blacklisted) && !(later > old(blacklist.blacklisted)[id]) :: old(blacklist.blacklisted)[id]
    {
      store.CleanupExpired(now);
      blacklist.CleanupExpired(later);
    }

    // --- Revocation ---------------------------------------------------------------------------

    /** One token: first on the blacklist, then out of the store. */
    method RevokeOne(ghost s: Sys, ghost job: nat, id: string, exp: int)
      requires Matches(s) && CanRevoke(s, job)
      requires s.jobs[job].pending[0].id == id && s.jobs[job].pending[0].expiresAt == exp
      modifies store, blacklist
      ensures Matches(AfterOne(s, job))
      ensures blacklist.blacklisted == old(blacklist.blacklisted)[id := exp]
      ensures store.tokens == old(store.tokens) - {id}
    {
      blacklist.BlacklistToken(id, exp);
      assert Matches(Next(s, BlacklistNext(job)));
      store.DeleteToken(id);
    }

    /** `RevokeToken` of a text whose claims, genuine or not, name `id` and `exp`: the protocol's start,
        blacklist and delete steps. */
    method RevokeToken(ghost s: Sys, ghost job: nat, id: string, exp: int)
      requires Matches(s) && job !in s.jobs
      modifies store, blacklist
      ensures CanRevoke(Next(s, StartRevokeToken(job, id, exp)), job)
      ensures Matches(AfterOne(Next(s, StartRevokeToken(job, id, exp)), job))
      ensures blacklist.blacklisted == old(blacklist.blacklisted)[id := exp]
      ensures store.tokens == old(store.tokens) - {id}
    {
      RevokeOne(Next(s, StartRevokeToken(job, id, exp)), job, id, exp);
    }

    /** The loop of `RevokeUserTokens`: two protocol steps per listed token, until none is left. */
    method RevokeListed(ghost s: Sys, ghost job: nat, listing: seq<TokenInfo>)
      requires Matches(s) && job in s.jobs && s.jobs[job].pending == listing && !s.jobs[job].listed
      modifies store, blacklist
      ensures Matches(AfterMany(s, job, |listing|))
      ensures job in AfterMany(s, job, |listing|).jobs && AfterMany(s, job, |listing|).jobs[job].pending == []
      ensures store.tokens == old(store.tokens) - IdsOf(listing)
      ensures blacklist.blacklisted == BlacklistedWith(old(blacklist.blacklisted), listing)
    {
      var i := 0;
      ghost var cur := s;
      while i < |listing|
        invariant 0 <= i <= |listing| && cur == AfterMany(s, job, i)
        invariant Matches(cur) && Left(cur, job, listing, i)
        invariant store.tokens == old(store.tokens) - IdsOf(listing[..i])
        invariant blacklist.blacklisted == BlacklistedWith(old(blacklist.blacklisted), listing[..i])
      {
        LeftStep(cur, job, listing, i);
        RevokeOne(cur, job, listing[i].id, listing[i].expiresAt);
        ListingStep(old(store.tokens), old(blacklist.blacklisted), listing, i);
        cur := AfterOne(cur, job);
        i := i + 1;
      }
      assert listing[..i] == listing;
    }

    /** `RevokeUserTokens` run without interference: the protocol's steps for some listing of the user's
        tokens, after which exactly those have moved from the store to the blacklist, each with its own
        expiry. */
    method RevokeUserTokens(ghost s: Sys, ghost job: nat, user: string) returns (ghost listing: seq<TokenInfo>)
      requires Matches(s) && job !in s.jobs && forall id :: id in store.tokens ==> store.tokens[id].id == id
      modifies store, blacklist
      ensures Enabled(s, StartRevokeUser(job, user, listing))
      ensures var f := AfterMany(Next(s, StartRevokeUser(job, user, listing)), job, |listing|);
              Matches(f) && job in f.jobs && f.jobs[job].pending == []
      ensures store.tokens == map id | id in old(store.tokens) && old(store.tokens)[id].user != user :: old(store.tokens)[id]
      ensures blacklist.blacklisted.Keys
           == old(blacklist.blacklisted.Keys) + set id | id in old(store.tokens) && old(store.tokens)[id].user == user
      ensures forall id :: id in blacklist.blacklisted ==>
                blacklist.blacklisted[id] == if id in old(store.tokens) && old(store.tokens)[id].user == user
                                             then old(store.tokens)[id].expiresAt else old(blacklist.blacklisted)[id]
    {
      ghost var tokens, listed := store.tokens, blacklist.blacklisted;
      var found := store.ListUserTokens(user);
      listing := found;
      RevokeListed(Next(s, StartRevokeUser(job, user, found)), job, found);
      ListedIds(tokens, user, found);
      ListedExpiries(tokens, listed, user, found);
    }

    // --- Validation: the atomic parts, each between two points where other calls can interfere --

    /** Parsing, which checks the expiry; signature and claims are genuine. */
    method Parse(ghost s: Sys, ghost v: nat, id: string, exp: int, now: int) returns (ok: bool)
      requires Matches(s) && v !in s.sessions && id in s.issued && s.issued[id].exp == exp && s.now == now
      ensures ok <==> now < exp
      ensures ok <==> Enabled(s, BeginValidate(v, id))
      ensures ok ==> Matches(Next(s, BeginValidate(v, id)))
    {
      ok := now < exp;
    }

    /** The blacklist lookup, which reads no clock. */
    method LookUp(ghost s: Sys, ghost v: nat, id: string) returns (accepted: bool)
      requires Matches(s) && Enabled(s, EndValidate(v)) && s.sessions[v].id == id
      ensures accepted <==> id !in blacklist.blacklisted
      ensures accepted <==> Next(s, EndValidate(v)).sessions[v].stage == Granted
      ensures Matches(Next(s, EndValidate(v)))
    {
      accepted := id !in blacklist.blacklisted;
    }

    /** A copy of the store entry, if there still is one. */
    method ReadUse(ghost s: Sys, ghost v: nat, id: string) returns (info: Option<TokenInfo>)
      requires Matches(s) && Enabled(s, ReadInfo(v)) && s.sessions[v].id == id
      ensures Matches(Next(s, ReadInfo(v)))
      ensures Next(s, ReadInfo(v)).sessions[v].stage == if info.Some? then Updating(info.value) else Finished
      ensures info == if id in store.tokens then Some(store.tokens[id]) else None
    {
      info := if id in store.tokens then Some(store.tokens[id]) else None;
    }

    /** The use count goes back into the store unless the entry has gone meanwhile. */
    method WriteUse(ghost s: Sys, ghost v: nat, id: string, info: TokenInfo)
      requires Matches(s) && Enabled(s, WriteBack(v)) && s.sessions[v].id == id && s.sessions[v].stage.info == info
      modifies store
      ensures Matches(Next(s, WriteBack(v)))
      ensures store.tokens.Keys == old(store.tokens.Keys)
      ensures id in old(store.tokens) ==> store.tokens == old(store.tokens)[id := info.(useCount := info.useCount + 1)]
    {
      store.UpdateToken(id, info.(useCount := info.useCount + 1));
    }

    /** `ValidateToken` of a genuine token, run without interference: its four parts in turn. */
    method ValidateToken(ghost s: Sys, ghost v: nat, id: string, exp: int, now: int) returns (accepted: bool)
      requires Matches(s) && v !in s.sessions && id in s.issued && s.issued[id].exp == exp && s.now == now
      modifies store
      ensures Matches(AfterValidation(s, v, id))
      ensures accepted <==> now < exp && id !in blacklist.blacklisted
      ensures store.tokens.Keys == old(store.tokens.Keys)
      ensures forall k :: k in old(store.tokens) ==>
                store.tokens[k] == if accepted && k == id
                                   then old(store.tokens)[k].(useCount := old(store.tokens)[k].useCount + 1)
                                   else old(store.tokens)[k]
    {
      accepted := Parse(s, v, id, exp, now);
      if !accepted {
        return;
      }
      ghost var s1 := Next(s, BeginValidate(v, id));
      accepted := LookUp(s1, v, id);
      if !accepted {
        return;
      }
      ghost var s2 := Next(s1, EndValidate(v));
      var info := ReadUse(s2, v, id);
      if info.Some? {
        WriteUse(Next(s2, ReadInfo(v)), v, id, info.value);
      }
    }
  }
}
