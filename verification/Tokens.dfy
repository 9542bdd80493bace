/** Token issue, validation, revocation and garbage collection as interleaved atomic steps
    (pkg/auth/jwt_manager.go, lines 308-429, 438-537, 541-624, 675-735, 825-827 and 1046-1071;
    pkg/auth/memory_stores.go, lines 23-149). The clock is monotone; a token is past its "exp" claim,
    section 4.1.4 of RFC 7519, once the time is not before it. Neither revocation nor cleanup takes
    the manager's lock, so both can fall between the steps of a validation. */
module Tokens {
  import opened Wrappers

  /** What the claims of a genuine token say. */
  datatype Claims = Claims(user: string, exp: int)

  /** What the token store keeps about it. */
  datatype TokenInfo = TokenInfo(id: string, user: string, expiresAt: int, useCount: nat)

  /** A running `RevokeToken` or `RevokeUserTokens` call: the tokens it still has to process, whether
      the first of them is already on the blacklist, and, as a history variable, the tokens it covers. */
  datatype Job = Job(pending: seq<TokenInfo>, listed: bool, covered: set<string>)

  /** Where a `ValidateToken` call is: signature and expiry checked, blacklist looked up, a copy of the
      store entry taken to update its use count, or over. */
  datatype Stage = Parsed | Refused | Granted | Updating(info: TokenInfo) | Finished

  /** A `ValidateToken` call. `swept` is a history variable: the time of the last blacklist cleanup
      during the call, forgotten when the token is blacklisted anew. */
  datatype Session = Session(id: string, startedAt: int, stage: Stage, swept: Option<int>)

  /** History variables: `written`, the expiry last written to the blacklist for a token, and `swept`,
      the time of the last blacklist cleanup since then. */
  datatype Sys = Sys(
    now: int,
    issued: map<string, Claims>,
    store: map<string, TokenInfo>,
    blacklist: map<string, int>,
    jobs: map<nat, Job>,
    sessions: map<nat, Session>,
    written: map<string, int>,
    swept: map<string, int>)

  /** `StartRevokeToken` carries whatever the presented text claims: no signature is checked. */
  datatype Event =
    | Tick(to: int)
    | Generate(id: string, user: string, exp: int)
    | BeginValidate(session: nat, id: string)
    | EndValidate(session: nat)
    | ReadInfo(session: nat)
    | WriteBack(session: nat)
    | StartRevokeToken(job: nat, id: string, exp: int)
    | StartRevokeUser(job: nat, user: string, listing: seq<TokenInfo>)
    | BlacklistNext(job: nat)
    | DeleteNext(job: nat)
    | CleanupStore
    | CleanupBlacklist

  /** Any listing order of the user's entries, as a map iteration may produce. */
  ghost predicate IsListing(store: map<string, TokenInfo>, user: string, listing: seq<TokenInfo>) {
    && (forall i :: 0 <= i < |listing| ==> listing[i].id in store && store[listing[i].id] == listing[i] && listing[i].user == user)
    && (forall id :: id in store && store[id].user == user ==> store[id] in listing)
  }

  predicate InStage(s: Sys, v: nat, stage: Stage) {
    v in s.sessions && s.sessions[v].stage == stage
  }

  ghost predicate Enabled(s: Sys, e: Event) {
    match e
    case Tick(to) => s.now <= to
    case Generate(id, _, _) => id !in s.issued
    case BeginValidate(v, id) => v !in s.sessions && id in s.issued && s.now < s.issued[id].exp
    case EndValidate(v) => InStage(s, v, Parsed)
    case ReadInfo(v) => InStage(s, v, Granted)
    case WriteBack(v) => v in s.sessions && s.sessions[v].stage.Updating?
    case StartRevokeToken(job, _, _) => job !in s.jobs
    case StartRevokeUser(job, user, listing) => job !in s.jobs && IsListing(s.store, user, listing)
    case BlacklistNext(job) => job in s.jobs && s.jobs[job].pending != [] && !s.jobs[job].listed
    case DeleteNext(job) => job in s.jobs && s.jobs[job].pending != [] && s.jobs[job].listed
    case CleanupStore => true
    case CleanupBlacklist => true
  }

  /** Whether the blacklist lookup of an open validation lets the token through. */
  predicate Accepts(s: Sys, v: nat)
    requires v in s.sessions
  {
    s.sessions[v].id !in s.blacklist
  }

  function SetStage(s: Sys, v: nat, stage: Stage): map<nat, Session>
    requires v in s.sessions
  {
    s.sessions[v := s.sessions[v].(stage := stage)]
  }

  function Next(s: Sys, e: Event): Sys
    requires Enabled(s, e)
  {
    match e
    case Tick(to) => s.(now := to)
    case Generate(id, user, exp) =>
      s.(issued := s.issued[id := Claims(user, exp)], store := s.store[id := TokenInfo(id, user, exp, 0)])
    case BeginValidate(v, id) => s.(sessions := s.sessions[v := Session(id, s.now, Parsed, None)])
    case EndValidate(v) => s.(sessions := SetStage(s, v, if Accepts(s, v) then Granted else Refused))
    case ReadInfo(v) =>
      var id := s.sessions[v].id;
      s.(sessions := SetStage(s, v, if id in s.store then Updating(s.store[id]) else Finished))
    case WriteBack(v) =>
      var id, info := s.sessions[v].id, s.sessions[v].stage.info;
      s.(sessions := SetStage(s, v, Finished),
         store := if id in s.store then s.store[id := info.(useCount := info.useCount + 1)] else s.store)
    case StartRevokeToken(job, id, exp) =>
      s.(jobs := s.jobs[job := Job([TokenInfo(id, "", exp, 0)], false, if id in s.issued then {id} else {})])
    case StartRevokeUser(job, user, listing) =>
      s.(jobs := s.jobs[job := Job(listing, false, set id | id in s.issued && s.issued[id].user == user)])
    case BlacklistNext(job) =>
      var j := s.jobs[job];
      var id, exp := j.pending[0].id, j.pending[0].expiresAt;
      s.(blacklist := s.blacklist[id := exp], jobs := s.jobs[job := j.(listed := true)],
         written := s.written[id := exp], swept := s.swept - {id},
         sessions := map v | v in s.sessions ::
                       if s.sessions[v].id == id then s.sessions[v].(swept := None) else s.sessions[v])
    case DeleteNext(job) =>
      var j := s.jobs[job];
      s.(store := s.store - {j.pending[0].id}, jobs := s.jobs[job := Job(j.pending[1..], false, j.covered)])
    case CleanupStore => s.(store := map id | id in s.store && !(s.now > s.store[id].expiresAt) :: s.store[id])
    case CleanupBlacklist =>
      s.(blacklist := map id | id in s.blacklist && !(s.now > s.blacklist[id]) :: s.blacklist[id],
         swept := map id | id in s.written :: s.now,
         sessions := map v | v in s.sessions :: s.sessions[v].(swept := Some(s.now)))
  }

  const INIT: Sys := Sys(0, map[], map[], map[], map[], map[], map[], map[])

  // --- What every step keeps ----------------------------------------------------------------

  /** A cleanup has run since the last entry for the token was written, after that entry's expiry. */
  predicate SweptAway(s: Sys, id: string) {
    id in s.written && id in s.swept && s.swept[id] > s.written[id]
  }

  /** The blacklist holds the last entry written for a token, unless that was swept away. */
  ghost predicate BlacklistInv(s: Sys) {
    && (forall id :: id in s.blacklist <==> id in s.written && !SweptAway(s, id))
    && (forall id :: id in s.blacklist ==> s.blacklist[id] == s.written[id])
    && (forall id :: id in s.swept ==> id in s.written && s.swept[id] <= s.now)
  }

  predicate Genuine(s: Sys, t: TokenInfo) {
    t.id in s.issued && s.issued[t.id] == Claims(t.user, t.expiresAt)
  }

  /** Written to the blacklist at some time, or past its expiry. */
  predicate Dealt(s: Sys, id: string) {
    id in s.issued && (id in s.written || s.now > s.issued[id].exp)
  }

  ghost predicate StoresInv(s: Sys) {
    && (forall id :: id in s.store ==> s.store[id].id == id && Genuine(s, s.store[id]))
    && (forall id :: id in s.issued ==> Dealt(s, id) || id in s.store)
  }

  /** A sweep that an open validation has not seen was over before the token expired. */
  ghost predicate SessionInv(s: Sys, x: Session) {
    && x.id in s.issued && x.startedAt < s.issued[x.id].exp && x.startedAt <= s.now
    && (x.id in s.swept ==> if x.swept.Some? then x.swept.value == s.swept[x.id] else s.swept[x.id] < s.issued[x.id].exp)
    && (x.swept.Some? && x.id in s.written ==> x.id in s.swept)
    && (x.stage.Updating? ==> x.stage.info.id == x.id && Genuine(s, x.stage.info))
  }

  ghost predicate JobInv(s: Sys, j: Job) {
    && (j.listed ==> j.pending != [] && j.pending[0].id in s.written)
    && (forall id :: id in j.covered ==> id in s.issued && (Dealt(s, id) || exists i :: 0 <= i < |j.pending| && j.pending[i].id == id))
  }

  ghost predicate Inv(s: Sys) {
    && BlacklistInv(s) && StoresInv(s)
    && (forall v :: v in s.sessions ==> SessionInv(s, s.sessions[v]))
    && (forall k :: k in s.jobs ==> JobInv(s, s.jobs[k]))
  }

  /** What no step undoes; validations that are new started no earlier than before the step. */
  ghost predicate Progress(s: Sys, t: Sys) {
    && s.now <= t.now
    && (forall id :: id in s.issued ==> id in t.issued && t.issued[id] == s.issued[id])
    && (forall id :: id in s.written ==> id in t.written)
    && (forall v :: v in s.sessions ==>
          v in t.sessions && t.sessions[v].id == s.sessions[v].id && t.sessions[v].startedAt == s.sessions[v].startedAt)
    && (forall v :: v in t.sessions && v !in s.sessions ==> t.sessions[v].startedAt >= s.now)
  }

  lemma StepProgress(s: Sys, e: Event)
    requires Enabled(s, e)
    ensures Progress(s, Next(s, e))
  {
  }

  lemma BlacklistStep(s: Sys, e: Event)
    requires BlacklistInv(s) && Enabled(s, e)
    ensures BlacklistInv(Next(s, e))
  {
  }

  lemma StoredStep(s: Sys, e: Event, id: string)
    requires StoresInv(s) && Enabled(s, e) && id in Next(s, e).store
    requires e.WriteBack? ==> SessionInv(s, s.sessions[e.session])
    ensures Next(s, e).store[id].id == id && Genuine(Next(s, e), Next(s, e).store[id])
  {
    if id in s.store {
      assert Genuine(s, s.store[id]);
    }
  }

  lemma DealtStep(s: Sys, e: Event, id: string)
    requires StoresInv(s) && Enabled(s, e) && id in Next(s, e).issued
    requires e.DeleteNext? ==> JobInv(s, s.jobs[e.job])
    ensures Dealt(Next(s, e), id) || id in Next(s, e).store
  {
    if id in s.issued {
      assert Dealt(s, id) || id in s.store;
    }
  }

  lemma StoresStep(s: Sys, e: Event)
    requires Inv(s) && Enabled(s, e)
    ensures StoresInv(Next(s, e))
  {
    var t := Next(s, e);
    forall id | id in t.store ensures t.store[id].id == id && Genuine(t, t.store[id]) {
      StoredStep(s, e, id);
    }
    forall id | id in t.issued ensures Dealt(t, id) || id in t.store {
      DealtStep(s, e, id);
    }
  }

  lemma SessionStep(s: Sys, e: Event, v: nat)
    requires StoresInv(s) && BlacklistInv(s) && Enabled(s, e) && v in Next(s, e).sessions
    requires v in s.sessions ==> SessionInv(s, s.sessions[v])
    ensures SessionInv(Next(s, e), Next(s, e).sessions[v])
  {
    if e.ReadInfo? && e.session == v {
      assert s.sessions[v].id in s.store ==> Genuine(s, s.store[s.sessions[v].id]);
    }
  }

  lemma JobFrame(s: Sys, t: Sys, j: Job)
    requires Progress(s, t) && JobInv(s, j)
    ensures JobInv(t, j)
  {
  }

  lemma JobStep(s: Sys, e: Event)
    requires Inv(s) && Enabled(s, e) && (e.BlacklistNext? || e.DeleteNext?)
    ensures JobInv(Next(s, e), Next(s, e).jobs[e.job])
  {
    var t := Next(s, e);
    var j, j' := s.jobs[e.job], t.jobs[e.job];
    StepProgress(s, e);
    assert JobInv(s, j);
    JobFrame(s, t, j);
    if e.DeleteNext? {
      forall id | id in j'.covered && !Dealt(t, id) ensures exists i :: 0 <= i < |j'.pending| && j'.pending[i].id == id {
        var i :| 0 <= i < |j.pending| && j.pending[i].id == id;
        assert j'.pending[i - 1].id == id;
      }
    }
  }

  lemma StartStep(s: Sys, e: Event)
    requires Inv(s) && Enabled(s, e) && (e.StartRevokeToken? || e.StartRevokeUser?)
    ensures JobInv(Next(s, e), Next(s, e).jobs[e.job])
  {
    var t := Next(s, e);
    var j := t.jobs[e.job];
    match e
    case StartRevokeToken(job, id, _) => assert j.pending[0].id == id;
    case StartRevokeUser(job, user, listing) =>
      forall id | id in j.covered && !Dealt(t, id) ensures exists i :: 0 <= i < |listing| && listing[i].id == id {
        assert id in s.store && s.store[id] in listing;
      }
  }

  lemma JobsStep(s: Sys, e: Event, k: nat)
    requires Inv(s) && Enabled(s, e) && k in Next(s, e).jobs
    ensures JobInv(Next(s, e), Next(s, e).jobs[k])
  {
    StepProgress(s, e);
    if k in s.jobs && Next(s, e).jobs[k] == s.jobs[k] {
      JobFrame(s, Next(s, e), s.jobs[k]);
    } else if e.StartRevokeToken? || e.StartRevokeUser? {
      StartStep(s, e);
    } else {
      JobStep(s, e);
    }
  }

  lemma StepKeepsInv(s: Sys, e: Event)
    requires Inv(s) && Enabled(s, e)
    ensures Inv(Next(s, e))
  {
    BlacklistStep(s, e);
    StoresStep(s, e);
    var t := Next(s, e);
    forall v | v in t.sessions ensures SessionInv(t, t.sessions[v]) {
      SessionStep(s, e, v);
    }
    forall k | k in t.jobs ensures JobInv(t, t.jobs[k]) {
      JobsStep(s, e, k);
    }
  }

  ghost predicate IsRun(s: Sys, run: seq<Event>)
    decreases |run|
  {
    run == [] || (Enabled(s, run[0]) && IsRun(Next(s, run[0]), run[1..]))
  }

  ghost function Final(s: Sys, run: seq<Event>): Sys
    requires IsRun(s, run)
    decreases |run|
  {
    if run == [] then s else Final(Next(s, run[0]), run[1..])
  }

  lemma {:induction false} RunProgress(s: Sys, run: seq<Event>)
    requires Inv(s) && IsRun(s, run)
    ensures Inv(Final(s, run)) && Progress(s, Final(s, run))
    decreases |run|
  {
    if run != [] {
      StepKeepsInv(s, run[0]);
      StepProgress(s, run[0]);
      RunProgress(Next(s, run[0]), run[1..]);
    }
  }

  // --- When a revoked token is accepted -----------------------------------------------------

  /** The last entry written for the token expires before the token, and a cleanup ran past that. */
  predicate ShortEntryExpired(s: Sys, id: string)
    requires id in s.issued
  {
    SweptAway(s, id) && s.written[id] < s.issued[id].exp
  }

  /** A cleanup ran during this validation, past the expiry of the token and of its entry. */
  predicate SweptDuring(s: Sys, v: nat)
    requires v in s.sessions && s.sessions[v].id in s.issued
  {
    var x := s.sessions[v];
    && x.id in s.written && x.swept.Some?
    && x.swept.value > s.written[x.id] >= s.issued[x.id].exp
  }

  /** Exactly when an open validation of a token with a written entry accepts it, in every state that
      satisfies the invariant. */
  lemma AcceptsIff(s: Sys, v: nat)
    requires Inv(s) && v in s.sessions && s.sessions[v].id in s.written
    ensures s.sessions[v].id in s.issued
    ensures Accepts(s, v) <==> ShortEntryExpired(s, s.sessions[v].id) || SweptDuring(s, v)
    ensures SweptDuring(s, v) ==> s.now > s.issued[s.sessions[v].id].exp
  {
    assert SessionInv(s, s.sessions[v]);
  }

  /** In every interleaving: take a `RevokeToken` or `RevokeUserTokens` call that has returned and a
      token it covers (for a user: every token issued to that user before the call listed them), and a
      validation that starts later. Its lookup accepts the token if and only if a cleanup fell between
      the two checks of this very validation, after the token had expired, or the last entry written
      for the token claims an earlier expiry than the token has and a cleanup ran past it. */
  lemma RevokedAcceptedIff(before: seq<Event>, job: nat, after: seq<Event>, v: nat)
    requires IsRun(INIT, before)
    requires var s := Final(INIT, before);
             && job in s.jobs && s.jobs[job].pending == [] && v !in s.sessions && IsRun(s, after)
             && var f := Final(s, after);
             v in f.sessions && f.sessions[v].id in s.jobs[job].covered
    ensures var f := Final(Final(INIT, before), after);
            && f.sessions[v].id in f.issued
            && (Accepts(f, v) <==> ShortEntryExpired(f, f.sessions[v].id) || SweptDuring(f, v))
            && (SweptDuring(f, v) ==> f.now > f.issued[f.sessions[v].id].exp)
  {
    RunProgress(INIT, before);
    var s := Final(INIT, before);
    RunProgress(s, after);
    var f := Final(s, after);
    assert JobInv(s, s.jobs[job]);
    assert SessionInv(f, f.sessions[v]);
    AcceptsIff(f, v);
  }

  // --- Honest claims ------------------------------------------------------------------------

  /** Every revocation request for this token claims an expiry no earlier than the token's own. */
  ghost predicate HonestClaims(run: seq<Event>, id: string, exp: int) {
    forall i :: 0 <= i < |run| ==>
      && (run[i].StartRevokeToken? && run[i].id == id ==> run[i].exp >= exp)
      && (run[i].Generate? && run[i].id == id ==> run[i].exp == exp)
  }

  ghost predicate NoShortEntry(s: Sys, id: string, exp: int) {
    && (id in s.written ==> s.written[id] >= exp)
    && (id in s.issued ==> s.issued[id].exp == exp)
    && (forall k, i :: k in s.jobs && 0 <= i < |s.jobs[k].pending| && s.jobs[k].pending[i].id == id ==>
          s.jobs[k].pending[i].expiresAt >= exp)
  }

  lemma HonestStep(s: Sys, e: Event, id: string, exp: int)
    requires StoresInv(s) && Enabled(s, e) && NoShortEntry(s, id, exp)
    requires e.StartRevokeToken? && e.id == id ==> e.exp >= exp
    requires e.Generate? && e.id == id ==> e.exp == exp
    ensures NoShortEntry(Next(s, e), id, exp)
  {
    var t := Next(s, e);
    forall k, i | k in t.jobs && 0 <= i < |t.jobs[k].pending| && t.jobs[k].pending[i].id == id
      ensures t.jobs[k].pending[i].expiresAt >= exp
    {
      if e.StartRevokeUser? && e.job == k {
        assert Genuine(s, s.store[id]);
      } else if e.DeleteNext? && e.job == k {
        assert t.jobs[k].pending[i] == s.jobs[k].pending[i + 1];
      }
    }
  }

  lemma {:induction false} HonestRun(s: Sys, run: seq<Event>, id: string, exp: int)
    requires Inv(s) && IsRun(s, run) && NoShortEntry(s, id, exp) && HonestClaims(run, id, exp)
    ensures NoShortEntry(Final(s, run), id, exp)
    decreases |run|
  {
    if run != [] {
      StepKeepsInv(s, run[0]);
      HonestStep(s, run[0], id, exp);
      HonestRun(Next(s, run[0]), run[1..], id, exp);
    }
  }

  /** Revocation is permanent, across garbage collection, as far as the code makes it so: when every
      revocation request for the token carries an expiry no earlier than its own, a later validation
      accepts it only if a cleanup falls between its own two checks after the token has expired; so
      every validation whose lookup happens at or before the expiry rejects it, and every validation
      during which no cleanup runs rejects it, however many cleanups ran before. */
  lemma RevocationIsPermanent(before: seq<Event>, job: nat, after: seq<Event>, v: nat, exp: int)
    requires IsRun(INIT, before)
    requires var s := Final(INIT, before);
             && job in s.jobs && s.jobs[job].pending == [] && v !in s.sessions && IsRun(s, after)
             && var f := Final(s, after);
             && v in f.sessions && f.sessions[v].id in s.jobs[job].covered
             && HonestClaims(before, f.sessions[v].id, exp) && HonestClaims(after, f.sessions[v].id, exp)
    ensures var f := Final(Final(INIT, before), after);
            && f.sessions[v].id in f.issued && f.issued[f.sessions[v].id].exp == exp
            && (Accepts(f, v) <==> SweptDuring(f, v))
            && (f.now <= exp || f.sessions[v].swept.None? ==> !Accepts(f, v))
  {
    RunProgress(INIT, before);
    var s := Final(INIT, before);
    RunProgress(s, after);
    var f := Final(s, after);
    var id := f.sessions[v].id;
    HonestRun(INIT, before, id, exp);
    HonestRun(s, after, id, exp);
    assert SessionInv(f, f.sessions[v]);
    RevokedAcceptedIff(before, job, after, v);
  }

  /** What a revocation covers, and that its two steps per token are always possible, so it returns
      after twice as many steps as tokens listed. */
  lemma RevocationCoversAndReturns(s: Sys, e: Event)
    requires Enabled(s, e)
    ensures e.StartRevokeToken? && e.id in s.issued ==> e.id in Next(s, e).jobs[e.job].covered
    ensures e.StartRevokeUser? ==> forall id :: id in s.issued && s.issued[id].user == e.user ==> id in Next(s, e).jobs[e.job].covered
    ensures forall k :: k in s.jobs ==> k in Next(s, e).jobs && Next(s, e).jobs[k].covered == s.jobs[k].covered
    ensures forall k :: k in s.jobs && s.jobs[k].pending != [] ==> Enabled(s, BlacklistNext(k)) || Enabled(s, DeleteNext(k))
    ensures e.DeleteNext? ==> |Next(s, e).jobs[e.job].pending| == |s.jobs[e.job].pending| - 1
  {
  }

  /** A token that a validation would accept now. */
  predicate Usable(s: Sys, id: string) {
    id in s.issued && s.now < s.issued[id].exp && id !in s.blacklist
  }

  /** Until it is revoked or expires, an issued token stays usable: cleanup and other users' revocations
      do not touch it. */
  lemma UnrevokedStaysValid(s: Sys, e: Event, id: string)
    requires Inv(s) && Enabled(s, e) && Usable(s, id)
    requires e.Tick? ==> e.to < s.issued[id].exp
    requires e.BlacklistNext? ==> s.jobs[e.job].pending[0].id != id
    ensures Usable(Next(s, e), id)
  {
  }

  // --- The two ways out, from the initial state ---------------------------------------------

  /** The states along a run, one per prefix, so that a concrete run can be followed step by step. */
  lemma {:induction false} Follow(s: Sys, run: seq<Event>, states: seq<Sys>)
    requires |states| == |run| + 1 && states[0] == s
    requires forall i :: 0 <= i < |run| ==> Enabled(states[i], run[i]) && states[i + 1] == Next(states[i], run[i])
    ensures IsRun(s, run) && Final(s, run) == states[|run|]
    decreases |run|
  {
    if run != [] {
      Follow(Next(s, run[0]), run[1..], states[1..]);
    }
  }

  /** A token `t` that expires at 10 is revoked and the call returns. */
  function Revoke(t: string): seq<Event> {
    [Generate(t, "u", 10), StartRevokeToken(0, t, 10), BlacklistNext(0), DeleteNext(0)]
  }

  const CLAIMS: Claims := Claims("u", 10)

  /** The state in which that call has returned. */
  function Revoked(t: string): Sys {
    Sys(0, map[t := CLAIMS], map[], map[t := 10], map[0 := Job([], false, {t})], map[], map[t := 10], map[])
  }

  lemma RevokeReturns(t: string)
    ensures IsRun(INIT, Revoke(t)) && Final(INIT, Revoke(t)) == Revoked(t)
  {
    var info := TokenInfo(t, "", 10, 0);
    var s1 := Sys(0, map[t := CLAIMS], map[t := TokenInfo(t, "u", 10, 0)], map[], map[], map[], map[], map[]);
    var s2 := s1.(jobs := map[0 := Job([info], false, {t})]);
    var s3 := s2.(blacklist := map[t := 10], written := map[t := 10], jobs := map[0 := Job([info], true, {t})]);
    assert Next(INIT, Generate(t, "u", 10)) == s1;
    assert Next(s1, StartRevokeToken(0, t, 10)) == s2;
    assert Next(s2, BlacklistNext(0)) == s3;
    assert [info][1..] == [];
    assert Next(s3, DeleteNext(0)) == Revoked(t);
    Follow(INIT, Revoke(t), [INIT, s1, s2, s3, Revoked(t)]);
  }

  /** A run after which validation 0 of token `t`, started after the revocation, passes its lookup. */
  ghost predicate Readmits(t: string, after: seq<Event>) {
    && IsRun(INIT, Revoke(t)) && Final(INIT, Revoke(t)) == Revoked(t) && IsRun(Revoked(t), after)
    && var f := Final(Revoked(t), after);
    Enabled(f, EndValidate(0)) && f.sessions[0].id == t && Accepts(f, 0)
  }

  /** The race: a validation checks the expiry at 9, a cleanup at 11 drops the entry, and the lookup
      accepts the revoked token. */
  lemma RaceReadmits(t: string)
    ensures Readmits(t, [Tick(9), BeginValidate(0, t), Tick(11), CleanupBlacklist])
  {
    RevokeReturns(t);
    var s := Revoked(t);
    var s1 := s.(now := 9);
    var s2 := s1.(sessions := map[0 := Session(t, 9, Parsed, None)]);
    var s3 := s2.(now := 11);
    var s4 := s3.(blacklist := map[], swept := map[t := 11], sessions := map[0 := Session(t, 9, Parsed, Some(11))]);
    assert Next(s1, BeginValidate(0, t)) == s2;
    assert Next(s3, CleanupBlacklist) == s4;
    Follow(s, [Tick(9), BeginValidate(0, t), Tick(11), CleanupBlacklist], [s, s1, s2, s3, s4]);
  }

  /** The forged claim: after the revocation has returned, someone presents an unsigned text with the
      same identifier and expiry 1; its entry replaces the right one, a cleanup at 2 drops it, and a
      validation at 2 accepts the revoked token long before its expiry. */
  lemma EarlierEntryReadmits(t: string)
    ensures Readmits(t, [StartRevokeToken(1, t, 1), BlacklistNext(1), Tick(2), CleanupBlacklist, BeginValidate(0, t)])
  {
    RevokeReturns(t);
    var s := Revoked(t);
    var done, forged := Job([], false, {t}), TokenInfo(t, "", 1, 0);
    var s1 := s.(jobs := map[0 := done, 1 := Job([forged], false, {t})]);
    var s2 := s1.(blacklist := map[t := 1], written := map[t := 1], jobs := map[0 := done, 1 := Job([forged], true, {t})]);
    var s3 := s2.(now := 2);
    var s4 := s3.(blacklist := map[], swept := map[t := 2]);
    var s5 := s4.(sessions := map[0 := Session(t, 2, Parsed, None)]);
    assert Next(s, StartRevokeToken(1, t, 1)) == s1;
    assert Next(s1, BlacklistNext(1)) == s2;
    assert Next(s3, CleanupBlacklist) == s4;
    assert Next(s4, BeginValidate(0, t)) == s5;
    Follow(s, [StartRevokeToken(1, t, 1), BlacklistNext(1), Tick(2), CleanupBlacklist, BeginValidate(0, t)],
           [s, s1, s2, s3, s4, s5]);
  }
}
