/** Refresh-token sessions: rotation, revocation and the response to reuse. */
module Sessions {
  import opened Options

  const SESSION_TTL_MS: int := 7 * 24 * 60 * 60 * 1000

  datatype Session = Session(userId: string, refreshTokenHash: string, expiresAt: int, revokedAt: Option<int>)

  /** The session table by id. */
  type Table = map<string, Session>

  datatype Outcome = Invalid | CreateFailed | Rotated

  predicate Unrevoked(t: Table, id: string) {
    id in t && t[id].revokedAt == None
  }

  predicate HasUnrevoked(t: Table, userId: string) {
    exists id | id in t :: t[id].userId == userId && Unrevoked(t, id)
  }

  predicate HashTaken(t: Table, hash: string) {
    exists id | id in t :: t[id].refreshTokenHash == hash
  }

  predicate HashesUnique(t: Table) {
    forall a, b | a in t && b in t && t[a].refreshTokenHash == t[b].refreshTokenHash :: a == b
  }

  /** The unique-index lookup on the token hash. */
  predicate Finds(t: Table, hash: string, found: Option<string>) {
    match found
    case Some(id) => id in t && t[id].refreshTokenHash == hash
    case None => !HashTaken(t, hash)
  }

  predicate Usable(s: Session, now: int) {
    s.revokedAt == None && s.expiresAt >= now
  }

  predicate CanCreate(t: Table, id: string, hash: string) {
    id !in t && !HashTaken(t, hash)
  }

  /** A taken id or hash breaks a unique constraint and leaves the table alone. */
  function Created(t: Table, id: string, userId: string, hash: string, now: int): Table {
    if CanCreate(t, id, hash) then t[id := Session(userId, hash, now + SESSION_TTL_MS, None)] else t
  }

  function Revoked(t: Table, id: string, now: int): Table {
    if id in t then t[id := t[id].(revokedAt := Some(now))] else t
  }

  function AllRevoked(t: Table, userId: string, except: Option<string>, now: int): Table {
    map id | id in t ::
      if t[id].userId == userId && t[id].revokedAt == None && except != Some(id)
      then t[id].(revokedAt := Some(now)) else t[id]
  }

  function Unexpired(t: Table, cutoff: int): Table {
    map id | id in t && t[id].expiresAt >= cutoff :: t[id]
  }

  function WithoutUser(t: Table, userId: string): Table {
    map id | id in t && t[id].userId != userId :: t[id]
  }

  /** What a refresh does, given the session its token hash led to. */
  function Refreshed(t: Table, found: Option<string>, newId: string, newHash: string, now: int): (Table, Outcome)
    requires found.Some? ==> found.value in t
  {
    if found.None? then (t, Invalid)
    else if !Usable(t[found.value], now) then (AllRevoked(t, t[found.value].userId, None, now), Invalid)
    else
      var revoked := Revoked(t, found.value, now);
      (Created(revoked, newId, t[found.value].userId, newHash, now),
       if CanCreate(revoked, newId, newHash) then Rotated else CreateFailed)
  }

  /** What a refresh means for the session whose token was presented and for every other one: a live session is
      revoked and replaced by a fresh one of seven days, a dead one takes all its user's live sessions down. */
  predicate RefreshMeans(t: Table, id: string, newId: string, newHash: string, now: int, t': Table, outcome: Outcome)
    requires id in t
  {
    var live := t[id].revokedAt == None && t[id].expiresAt >= now;
    && (outcome == Invalid <==> !live)
    && (outcome == Rotated <==>
          live && newId !in t && forall other | other in t :: t[other].refreshTokenHash != newHash)
    && t'.Keys == (if outcome == Rotated then t.Keys + {newId} else t.Keys)
    && (outcome == Rotated ==> t'[newId] == Session(t[id].userId, newHash, now + 604800000, None))
    && forall other | other in t ::
         var hit := if live then other == id else t[other].userId == t[id].userId && t[other].revokedAt == None;
         t'[other] == if hit then t[other].(revokedAt := Some(now)) else t[other]
  }

  lemma RevokedKeepsHashes(t: Table, id: string, hash: string, now: int)
    ensures HashTaken(Revoked(t, id, now), hash) <==> HashTaken(t, hash)
  {
    var revoked := Revoked(t, id, now);
    assert revoked.Keys == t.Keys && forall i | i in t :: revoked[i].refreshTokenHash == t[i].refreshTokenHash;
  }

  /** Refreshing again in terms of the table alone; an unknown token changes nothing. */
  lemma RefreshedMeans(t: Table, found: Option<string>, newId: string, newHash: string, now: int)
    requires found.Some? ==> found.value in t
    ensures var (t', outcome) := Refreshed(t, found, newId, newHash, now);
            if found.None? then t' == t && outcome == Invalid
            else RefreshMeans(t, found.value, newId, newHash, now, t', outcome)
  {
    if found.Some? {
      RevokedKeepsHashes(t, found.value, newHash, now);
    }
  }

  class SessionsRepository {
    var sessions: Table

    constructor (sessions: Table)
      ensures this.sessions == sessions
    {
      this.sessions := sessions;
    }

    method FindByTokenHash(hash: string) returns (found: Option<string>)
      ensures Finds(sessions, hash, found)
    {
      var ids := sessions.Keys;
      while ids != {}
        invariant ids <= sessions.Keys
        invariant forall id | id in sessions && id !in ids :: sessions[id].refreshTokenHash != hash
        decreases ids
      {
        var id :| id in ids;
        if sessions[id].refreshTokenHash == hash {
          return Some(id);
        }
        ids := ids - {id};
      }
      found := None;
    }

    method Create(id: string, userId: string, hash: string, now: int) returns (ok: bool)
      modifies this
      ensures ok == CanCreate(old(sessions), id, hash)
      ensures sessions == Created(old(sessions), id, userId, hash, now)
      ensures ok <==> id !in old(sessions) && forall i | i in old(sessions) :: old(sessions)[i].refreshTokenHash != hash
      ensures !ok ==> sessions == old(sessions)
      ensures ok ==> sessions - {id} == old(sessions) && id in sessions && sessions[id].userId == userId
                     && sessions[id].refreshTokenHash == hash && sessions[id].expiresAt == now + 604800000
                     && sessions[id].revokedAt == None
    {
      var clash := FindByTokenHash(hash);
      ok := id !in sessions && clash.None?;
      if ok {
        sessions := sessions[id := Session(userId, hash, now + SESSION_TTL_MS, None)];
      }
    }

    /** An unknown id is an error of the store and changes nothing. */
    method Revoke(id: string, now: int) returns (ok: bool)
      modifies this
      ensures ok <==> id in old(sessions)
      ensures sessions == Revoked(old(sessions), id, now)
      ensures sessions.Keys == old(sessions).Keys && sessions - {id} == old(sessions) - {id}
      ensures ok ==> sessions[id] == old(sessions)[id].(revokedAt := Some(now))
    {
      ok := id in sessions;
      if ok {
        sessions := sessions[id := sessions[id].(revokedAt := Some(now))];
      }
    }

    method RevokeAllForUser(userId: string, except: Option<string>, now: int)
      modifies this
      ensures sessions == AllRevoked(old(sessions), userId, except, now)
      ensures sessions.Keys == old(sessions).Keys
      ensures forall id | id in sessions ::
                var was := old(sessions)[id];
                var hit := was.userId == userId && was.revokedAt == None && except != Some(id);
                sessions[id] == if hit then was.(revokedAt := Some(now)) else was
    {
      var todo := sessions.Keys;
      while todo != {}
        invariant sessions.Keys == old(sessions).Keys && todo <= sessions.Keys
        invariant forall id | id in sessions ::
                    sessions[id] ==
                      if id in todo then old(sessions)[id] else AllRevoked(old(sessions), userId, except, now)[id]
        decreases todo
      {
        var id :| id in todo;
        if sessions[id].userId == userId && sessions[id].revokedAt == None && except != Some(id) {
          sessions := sessions[id := sessions[id].(revokedAt := Some(now))];
        }
        todo := todo - {id};
      }
    }

    method DeleteExpired(cutoff: int) returns (count: nat)
      modifies this
      ensures sessions == Unexpired(old(sessions), cutoff)
      ensures forall id :: id in sessions <==> id in old(sessions) && old(sessions)[id].expiresAt >= cutoff
      ensures forall id | id in sessions :: sessions[id] == old(sessions)[id]
      ensures count == |old(sessions)| - |sessions|
    {
      var expired := set id | id in sessions && sessions[id].expiresAt < cutoff;
      assert |sessions.Keys - expired| == |sessions.Keys| - |expired|;
      sessions := sessions - expired;
      assert sessions.Keys == old(sessions).Keys - expired;
      count := |expired|;
    }

    /** The refresh use case: look up, reject and revoke everything, or rotate. */
    method Refresh(hash: string, newId: string, newHash: string, now: int) returns (outcome: Outcome)
      modifies this
      ensures exists found | Finds(old(sessions), hash, found) ::
                (sessions, outcome) == Refreshed(old(sessions), found, newId, newHash, now)
      ensures (forall id | id in old(sessions) :: old(sessions)[id].refreshTokenHash != hash) ==>
                outcome == Invalid && sessions == old(sessions)
      ensures (exists id :: id in old(sessions) && old(sessions)[id].refreshTokenHash == hash) ==>
                exists id | id in old(sessions) && old(sessions)[id].refreshTokenHash == hash ::
                  RefreshMeans(old(sessions), id, newId, newHash, now, sessions, outcome)
    {
      var found := FindByTokenHash(hash);
      if found.None? || sessions[found.value].revokedAt.Some? || sessions[found.value].expiresAt < now {
        if found.Some? {
          RevokeAllForUser(sessions[found.value].userId, None, now);
        }
        RefreshedMeans(old(sessions), found, newId, newHash, now);
        return Invalid;
      }
      var userId := sessions[found.value].userId;
      var _ := Revoke(found.value, now);
      var ok := Create(newId, userId, newHash, now);
      outcome := if ok then Rotated else CreateFailed;
      RefreshedMeans(old(sessions), found, newId, newHash, now);
    }
  }

  /** The lookup has one answer, so a refresh is a function of the presented hash. */
  lemma LookupIsUnique(t: Table, hash: string, a: Option<string>, b: Option<string>)
    requires HashesUnique(t) && Finds(t, hash, a) && Finds(t, hash, b)
    ensures a == b
  {
  }

  // ---------- Whole runs ----------

  datatype Action =
    | Login(id: string, userId: string, hash: string, now: int)
    | Refresh(found: Option<string>, newId: string, newHash: string, now: int)
    | Revoke(id: string, now: int)
    | RevokeAll(userId: string, except: Option<string>, now: int)
    | DeleteExpired(cutoff: int)
    | Anonymize(userId: string)

  /** `lineage` is a history variable: for every id ever inserted, the login it descends from. */
  datatype State = State(sessions: Table, lineage: map<string, nat>, logins: nat)

  const INIT: State := State(map[], map[], 0)

  /** Session ids are fresh; the presented token is any token, found or not. */
  predicate Enabled(s: State, a: Action) {
    match a
    case Login(id, _, _, _) => id !in s.lineage
    case Refresh(found, newId, _, _) => newId !in s.lineage && (found.Some? ==> found.value in s.sessions)
    case _ => true
  }

  function Apply(s: State, a: Action): State
    requires Enabled(s, a)
  {
    match a
    case Login(id, userId, hash, now) =>
      State(Created(s.sessions, id, userId, hash, now), s.lineage[id := s.logins], s.logins + 1)
    case Refresh(found, newId, newHash, now) =>
      var (t, outcome) := Refreshed(s.sessions, found, newId, newHash, now);
      s.(sessions := t,
         lineage :=
           if outcome == Rotated && found.value in s.lineage then s.lineage[newId := s.lineage[found.value]]
           else s.lineage)
    case Revoke(id, now) => s.(sessions := Revoked(s.sessions, id, now))
    case RevokeAll(userId, except, now) => s.(sessions := AllRevoked(s.sessions, userId, except, now))
    case DeleteExpired(cutoff) => s.(sessions := Unexpired(s.sessions, cutoff))
    case Anonymize(userId) => s.(sessions := WithoutUser(s.sessions, userId))
  }

  ghost predicate IsRun(run: seq<State>, acts: seq<Action>) {
    && |run| == |acts| + 1
    && forall i {:trigger acts[i]} | 0 <= i < |acts| :: Enabled(run[i], acts[i]) && run[i + 1] == Apply(run[i], acts[i])
  }

  predicate OnePerLineage(s: State) {
    forall a, b | Unrevoked(s.sessions, a) && Unrevoked(s.sessions, b)
                  && a in s.lineage && b in s.lineage && s.lineage[a] == s.lineage[b] :: a == b
  }

  predicate OneUserPerLineage(s: State) {
    forall a, b | a in s.sessions && b in s.sessions
                  && a in s.lineage && b in s.lineage && s.lineage[a] == s.lineage[b] ::
      s.sessions[a].userId == s.sessions[b].userId
  }

  predicate Inv(s: State) {
    && s.sessions.Keys <= s.lineage.Keys
    && (forall id | id in s.lineage :: s.lineage[id] < s.logins)
    && HashesUnique(s.sessions)
    && OnePerLineage(s)
    && OneUserPerLineage(s)
  }

  /** `after` has no session that `before` lacks, and none un-revoked that was not. */
  predicate Shrunk(before: Table, after: Table) {
    forall id | id in after ::
      && id in before
      && after[id].userId == before[id].userId && after[id].refreshTokenHash == before[id].refreshTokenHash
      && (after[id].revokedAt == None ==> before[id].revokedAt == None)
  }

  /** Neither a login nor a successful rotation. */
  predicate OnlyShrinks(s: State, a: Action) {
    match a
    case Login(_, _, _, _) => false
    case Refresh(found, _, _, now) => found.Some? && found.value in s.sessions ==> !Usable(s.sessions[found.value], now)
    case _ => true
  }

  lemma StepShrinks(s: State, a: Action)
    requires Enabled(s, a) && OnlyShrinks(s, a)
    ensures Shrunk(s.sessions, Apply(s, a).sessions) && Apply(s, a) == s.(sessions := Apply(s, a).sessions)
  {
  }

  lemma ShrinkKeepsInv(s: State, t: Table)
    requires Inv(s) && Shrunk(s.sessions, t)
    ensures Inv(s.(sessions := t))
  {
    forall a, b | Unrevoked(t, a) && Unrevoked(t, b) && a in s.lineage && b in s.lineage && s.lineage[a] == s.lineage[b]
      ensures a == b
    {
      assert Unrevoked(s.sessions, a) && Unrevoked(s.sessions, b);
    }
  }

  /** The lineage a session joins has no un-revoked session and no session of another user. */
  predicate Joins(s: State, lineage: nat, userId: string) {
    forall id | id in s.sessions && id in s.lineage && s.lineage[id] == lineage ::
      s.sessions[id].userId == userId && !Unrevoked(s.sessions, id)
  }

  lemma CreateKeepsInv(s: State, id: string, lineage: nat, logins: nat, userId: string, hash: string, now: int)
    requires Inv(s) && id !in s.lineage && Joins(s, lineage, userId)
    requires s.logins <= logins && lineage < logins
    ensures Inv(State(Created(s.sessions, id, userId, hash, now), s.lineage[id := lineage], logins))
  {
    var t := Created(s.sessions, id, userId, hash, now);
    var l := s.lineage[id := lineage];
    forall a, b | Unrevoked(t, a) && Unrevoked(t, b) && l[a] == l[b]
      ensures a == b
    {
      assert a != id ==> Unrevoked(s.sessions, a);
      assert b != id ==> Unrevoked(s.sessions, b);
    }
  }

  lemma RotationKeepsInv(s: State, id: string, newId: string, newHash: string, now: int)
    requires Inv(s) && Enabled(s, Refresh(Some(id), newId, newHash, now)) && Usable(s.sessions[id], now)
    ensures Inv(Apply(s, Refresh(Some(id), newId, newHash, now)))
  {
    var revoked := Revoked(s.sessions, id, now);
    var mid := s.(sessions := revoked);
    ShrinkKeepsInv(s, revoked);
    forall other | other in revoked && other in s.lineage && s.lineage[other] == s.lineage[id]
      ensures revoked[other].userId == s.sessions[id].userId && !Unrevoked(revoked, other)
    {
      assert Unrevoked(s.sessions, id) && (Unrevoked(s.sessions, other) ==> other == id);
    }
    if CanCreate(revoked, newId, newHash) {
      CreateKeepsInv(mid, newId, s.lineage[id], s.logins, s.sessions[id].userId, newHash, now);
    }
  }

  lemma StepKeepsInv(s: State, a: Action)
    requires Inv(s) && Enabled(s, a)
    ensures Inv(Apply(s, a))
  {
    if OnlyShrinks(s, a) {
      StepShrinks(s, a);
      ShrinkKeepsInv(s, Apply(s, a).sessions);
    } else if a.Login? {
      CreateKeepsInv(s, a.id, s.logins, s.logins + 1, a.userId, a.hash, a.now);
    } else {
      RotationKeepsInv(s, a.found.value, a.newId, a.newHash, a.now);
    }
  }

  /** An id once used and not un-revoked stays so: no step brings a session back. */
  lemma StepRevivesNothing(s: State, a: Action, id: string)
    requires Inv(s) && Enabled(s, a) && id in s.lineage && !Unrevoked(s.sessions, id)
    ensures id in Apply(s, a).lineage && !Unrevoked(Apply(s, a).sessions, id)
  {
  }

  lemma ShrunkStaysOut(before: Table, after: Table, userId: string)
    requires Shrunk(before, after) && !HasUnrevoked(before, userId)
    ensures !HasUnrevoked(after, userId)
  {
    forall id | id in after && after[id].userId == userId ensures !Unrevoked(after, id) {
      assert before[id].userId == userId && !Unrevoked(before, id);
    }
  }

  lemma CreatedStaysOut(t: Table, id: string, userId: string, hash: string, now: int, other: string)
    requires !HasUnrevoked(t, other) && userId != other
    ensures !HasUnrevoked(Created(t, id, userId, hash, now), other)
  {
    var t' := Created(t, id, userId, hash, now);
    forall i | i in t' && t'[i].userId == other ensures !Unrevoked(t', i) {
      assert i in t && t[i].userId == other && !Unrevoked(t, i);
    }
  }

  /** Only a login of the user gives a user without un-revoked sessions one. */
  lemma StepStaysOut(s: State, a: Action, userId: string)
    requires Inv(s) && Enabled(s, a) && !HasUnrevoked(s.sessions, userId)
    requires a.Login? ==> a.userId != userId
    ensures !HasUnrevoked(Apply(s, a).sessions, userId)
  {
    if OnlyShrinks(s, a) {
      StepShrinks(s, a);
      ShrunkStaysOut(s.sessions, Apply(s, a).sessions, userId);
    } else if a.Login? {
      CreatedStaysOut(s.sessions, a.id, a.userId, a.hash, a.now, userId);
    } else {
      var id := a.found.value;
      assert Unrevoked(s.sessions, id);
      ShrunkStaysOut(s.sessions, Revoked(s.sessions, id, a.now), userId);
      CreatedStaysOut(Revoked(s.sessions, id, a.now), a.newId, s.sessions[id].userId, a.newHash, a.now, userId);
    }
  }

  lemma {:induction false} RunKeepsInv(run: seq<State>, acts: seq<Action>, i: nat)
    requires IsRun(run, acts) && i < |run| && Inv(run[0])
    ensures Inv(run[i])
  {
    if i > 0 {
      RunKeepsInv(run, acts, i - 1);
      assert run[i - 1 + 1] == Apply(run[i - 1], acts[i - 1]);
      StepKeepsInv(run[i - 1], acts[i - 1]);
    }
  }

  /** A session found revoked or deleted at one moment is never active at a later one. */
  lemma {:induction false} RevokedStaysRevoked(run: seq<State>, acts: seq<Action>, id: string, i: nat, j: nat)
    requires IsRun(run, acts) && run[0] == INIT && i <= j < |run|
    requires id in run[i].lineage && !Unrevoked(run[i].sessions, id)
    ensures id in run[j].lineage && !Unrevoked(run[j].sessions, id)
  {
    if i < j {
      RevokedStaysRevoked(run, acts, id, i, j - 1);
      RunKeepsInv(run, acts, j - 1);
      assert run[j - 1 + 1] == Apply(run[j - 1], acts[j - 1]);
      StepRevivesNothing(run[j - 1], acts[j - 1], id);
    }
  }

  /** However its tokens are rotated, revoked or replayed, one login has at most one un-revoked session. */
  lemma AtMostOneUnrevoked(run: seq<State>, acts: seq<Action>, i: nat, a: string, b: string)
    requires IsRun(run, acts) && run[0] == INIT && i < |run|
    requires Unrevoked(run[i].sessions, a) && Unrevoked(run[i].sessions, b)
    requires a in run[i].lineage && b in run[i].lineage && run[i].lineage[a] == run[i].lineage[b]
    ensures a == b
  {
    RunKeepsInv(run, acts, i);
  }

  /** A refresh with a fresh id succeeds exactly on a usable session and a hash not taken. */
  lemma RotatesIff(t: Table, found: Option<string>, newId: string, newHash: string, now: int)
    requires newId !in t && (found.Some? ==> found.value in t)
    ensures Refreshed(t, found, newId, newHash, now).1 == Rotated <==>
            found.Some? && Usable(t[found.value], now) && !HashTaken(t, newHash)
  {
    if found.Some? {
      RevokedKeepsHashes(t, found.value, newHash, now);
    }
  }

  /** It moves the session's lineage to the new session and leaves every other session alone. */
  lemma RotationMovesLineage(s: State, id: string, newId: string, newHash: string, now: int)
    requires Inv(s) && Enabled(s, Refresh(Some(id), newId, newHash, now))
    requires Refreshed(s.sessions, Some(id), newId, newHash, now).1 == Rotated
    ensures var s' := Apply(s, Refresh(Some(id), newId, newHash, now));
            && Unrevoked(s'.sessions, newId) && !Unrevoked(s'.sessions, id)
            && s'.sessions[newId].userId == s.sessions[id].userId
            && s'.lineage[newId] == s.lineage[id]
            && forall other | other in s.sessions && other != id ::
                 other in s'.sessions && s'.sessions[other] == s.sessions[other]
  {
  }

  /** Presenting a dead token that is still stored revokes all its user's sessions and nobody else's. */
  lemma ReuseRevokesAll(t: Table, id: string, newId: string, newHash: string, now: int)
    requires id in t && !Usable(t[id], now)
    ensures !HasUnrevoked(Refreshed(t, Some(id), newId, newHash, now).0, t[id].userId)
    ensures Refreshed(t, Some(id), newId, newHash, now).0.Keys == t.Keys
    ensures forall other | other in t && (t[other].userId != t[id].userId || !Unrevoked(t, other)) ::
              Refreshed(t, Some(id), newId, newHash, now).0[other] == t[other]
  {
  }

  /** A token rotates at most once in a run, however often it is presented. */
  lemma RotatesAtMostOnce(run: seq<State>, acts: seq<Action>, id: string, i: nat, j: nat)
    requires IsRun(run, acts) && run[0] == INIT && i < j < |acts|
    requires acts[i].Refresh? && acts[i].found == Some(id) && acts[j].Refresh? && acts[j].found == Some(id)
    requires Refreshed(run[i].sessions, Some(id), acts[i].newId, acts[i].newHash, acts[i].now).1 == Rotated
    ensures Refreshed(run[j].sessions, Some(id), acts[j].newId, acts[j].newHash, acts[j].now).1 == Invalid
  {
    RunKeepsInv(run, acts, i);
    assert run[i + 1] == Apply(run[i], acts[i]);
    RotationMovesLineage(run[i], id, acts[i].newId, acts[i].newHash, acts[i].now);
    RevokedStaysRevoked(run, acts, id, i + 1, j);
  }

  /** Presenting the token of a revoked or expired session still stored logs its user out until the next login. */
  lemma {:induction false} ReuseLogsOut(run: seq<State>, acts: seq<Action>, id: string, j: nat, k: nat)
    requires IsRun(run, acts) && run[0] == INIT && j < k < |run|
    requires id in run[j].sessions && acts[j].Refresh? && acts[j].found == Some(id)
             && !Usable(run[j].sessions[id], acts[j].now)
    requires forall m | j < m < k :: acts[m].Login? ==> acts[m].userId != run[j].sessions[id].userId
    ensures !HasUnrevoked(run[k].sessions, run[j].sessions[id].userId)
    decreases k
  {
    assert run[k - 1 + 1] == Apply(run[k - 1], acts[k - 1]);
    if k == j + 1 {
      ReuseRevokesAll(run[j].sessions, id, acts[j].newId, acts[j].newHash, acts[j].now);
    } else {
      ReuseLogsOut(run, acts, id, j, k - 1);
      RunKeepsInv(run, acts, k - 1);
      StepStaysOut(run[k - 1], acts[k - 1], run[j].sessions[id].userId);
    }
  }

  /** In particular for a token that was rotated away at any earlier moment. */
  lemma ReplayLogsOut(run: seq<State>, acts: seq<Action>, id: string, i: nat, j: nat, k: nat)
    requires IsRun(run, acts) && run[0] == INIT && i < j < k < |run|
    requires acts[i].Refresh? && acts[i].found == Some(id)
             && Refreshed(run[i].sessions, Some(id), acts[i].newId, acts[i].newHash, acts[i].now).1 == Rotated
    requires id in run[j].sessions && acts[j].Refresh? && acts[j].found == Some(id)
    requires forall m | j < m < k :: acts[m].Login? ==> acts[m].userId != run[j].sessions[id].userId
    ensures !HasUnrevoked(run[k].sessions, run[j].sessions[id].userId)
  {
    RunKeepsInv(run, acts, i);
    assert run[i + 1] == Apply(run[i], acts[i]);
    RotationMovesLineage(run[i], id, acts[i].newId, acts[i].newHash, acts[i].now);
    RevokedStaysRevoked(run, acts, id, i + 1, j);
    ReuseLogsOut(run, acts, id, j, k);
  }

  // ---------- Nobody else's doing ----------

  /** The action is about this session: it is revoked or presented itself, or all its user's are, by a request,
      by a dead token of the same user, by an anonymization, or by the expiry clean-up. */
  predicate Concerns(t: Table, a: Action, id: string)
    requires id in t
  {
    match a
    case Login(_, _, _, _) => false
    case Refresh(found, _, _, now) =>
      && found.Some? && found.value in t && t[found.value].userId == t[id].userId
      && (found.value == id || t[found.value].revokedAt.Some? || t[found.value].expiresAt < now)
    case Revoke(x, _) => x == id
    case RevokeAll(userId, except, _) => userId == t[id].userId && except != Some(id)
    case DeleteExpired(cutoff) => t[id].expiresAt < cutoff
    case Anonymize(userId) => userId == t[id].userId
  }

  /** A step touches a live session exactly when it is about it. */
  lemma TouchedIff(s: State, a: Action, id: string)
    requires Inv(s) && Enabled(s, a) && id in s.sessions
    ensures var t' := Apply(s, a).sessions;
            && (!Concerns(s.sessions, a, id) ==> id in t' && t'[id] == s.sessions[id])
            && (Concerns(s.sessions, a, id) ==> !Unrevoked(t', id))
  {
    if a.Refresh? {
      RefreshedMeans(s.sessions, a.found, a.newId, a.newHash, a.now);
    }
  }

  lemma StepEndsIff(s: State, a: Action, id: string)
    requires Inv(s) && Enabled(s, a) && id in s.lineage
    ensures Unrevoked(Apply(s, a).sessions, id) <==> Unrevoked(s.sessions, id) && !Concerns(s.sessions, a, id)
    ensures Unrevoked(Apply(s, a).sessions, id) ==> Apply(s, a).sessions[id] == s.sessions[id]
    ensures id in Apply(s, a).lineage
  {
    if Unrevoked(s.sessions, id) {
      TouchedIff(s, a, id);
    } else {
      StepRevivesNothing(s, a, id);
    }
  }

  lemma RunStepEndsIff(run: seq<State>, acts: seq<Action>, id: string, k: nat)
    requires IsRun(run, acts) && run[0] == INIT && k < |acts| && id in run[k].lineage
    ensures Unrevoked(run[k + 1].sessions, id) <==>
              Unrevoked(run[k].sessions, id) && !Concerns(run[k].sessions, acts[k], id)
    ensures Unrevoked(run[k + 1].sessions, id) ==> run[k + 1].sessions[id] == run[k].sessions[id]
    ensures id in run[k + 1].lineage
  {
    RunKeepsInv(run, acts, k);
    assert run[k + 1] == Apply(run[k], acts[k]);
    StepEndsIff(run[k], acts[k], id);
  }

  /** No action in the stretch was about the session, which was stored throughout. */
  ghost predicate LeftAlone(run: seq<State>, acts: seq<Action>, id: string, i: nat, j: nat)
    requires |run| == |acts| + 1 && i <= j < |run|
  {
    forall k | i <= k < j :: id in run[k].sessions && !Concerns(run[k].sessions, acts[k], id)
  }

  lemma LeftAloneSnoc(run: seq<State>, acts: seq<Action>, id: string, i: nat, j: nat)
    requires |run| == |acts| + 1 && i < j < |run|
    ensures LeftAlone(run, acts, id, i, j) <==>
              LeftAlone(run, acts, id, i, j - 1)
              && id in run[j - 1].sessions && !Concerns(run[j - 1].sessions, acts[j - 1], id)
  {
  }

  /** The inductive step, for one live session and the outcome so far. */
  lemma EndsIffSnoc(run: seq<State>, acts: seq<Action>, id: string, i: nat, j: nat)
    requires IsRun(run, acts) && run[0] == INIT && i < j < |run|
    requires id in run[j - 1].lineage
    requires Unrevoked(run[j - 1].sessions, id) <==> LeftAlone(run, acts, id, i, j - 1)
    ensures Unrevoked(run[j].sessions, id) <==> LeftAlone(run, acts, id, i, j)
  {
    var k := j - 1;
    RunStepEndsIff(run, acts, id, k);
    LeftAloneSnoc(run, acts, id, i, j);
  }

  lemma {:induction false} HasLineage(run: seq<State>, acts: seq<Action>, id: string, i: nat, j: nat)
    requires IsRun(run, acts) && run[0] == INIT && i <= j < |run| && id in run[i].sessions
    ensures id in run[j].lineage
    decreases j
  {
    if i == j {
      RunKeepsInv(run, acts, i);
    } else {
      HasLineage(run, acts, id, i, j - 1);
      RunStepEndsIff(run, acts, id, j - 1);
    }
  }

  /** In every run: a live session ends exactly when some action is about it, whatever tokens, known or unknown,
      anybody else presents. */
  lemma {:induction false} SessionEndsIff(run: seq<State>, acts: seq<Action>, id: string, i: nat, j: nat)
    requires IsRun(run, acts) && run[0] == INIT && i <= j < |run| && Unrevoked(run[i].sessions, id)
    ensures Unrevoked(run[j].sessions, id) <==> LeftAlone(run, acts, id, i, j)
    decreases j
  {
    if i < j {
      SessionEndsIff(run, acts, id, i, j - 1);
      HasLineage(run, acts, id, i, j - 1);
      EndsIffSnoc(run, acts, id, i, j);
    }
  }

  /** ... and until then it is stored exactly as it was. */
  lemma {:induction false} LiveSessionStays(run: seq<State>, acts: seq<Action>, id: string, i: nat, j: nat)
    requires IsRun(run, acts) && run[0] == INIT && i <= j < |run|
    requires Unrevoked(run[i].sessions, id) && Unrevoked(run[j].sessions, id)
    ensures run[j].sessions[id] == run[i].sessions[id]
    decreases j
  {
    if i < j {
      HasLineage(run, acts, id, i, j - 1);
      RunStepEndsIff(run, acts, id, j - 1);
      LiveSessionStays(run, acts, id, i, j - 1);
    }
  }
}
