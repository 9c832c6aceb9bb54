/** Password reset with its bounded history of superseded hashes. */
module PasswordReset {
  import opened Options
  import Sessions

  /** A salted hash; it verifies against exactly the password it was made from. */
  datatype Hash = Hash(password: string, salt: nat)

  predicate VerifyPassword(hash: Hash, plain: string) {
    hash.password == plain
  }

  datatype ResetToken = ResetToken(userId: string, used: bool, expiresAt: int)

  datatype User = User(hash: Option<Hash>, deleted: bool, tokensInvalidatedAt: Option<int>)

  /** The users, each user's history newest first, the reset tokens and the refresh-token sessions. */
  datatype Store = Store(
    users: map<string, User>,
    history: map<string, seq<Hash>>,
    tokens: map<string, ResetToken>,
    sessions: Sessions.Table)

  datatype Outcome = Changed | InvalidToken | Reused

  function Rows(s: Store, user: string): seq<Hash> {
    if user in s.history then s.history[user] else []
  }

  function Take(rows: seq<Hash>, limit: int): seq<Hash> {
    if limit <= 0 then [] else if limit < |rows| then rows[..limit] else rows
  }

  predicate TokenOk(s: Store, token: string, now: int) {
    token in s.tokens && !s.tokens[token].used && s.tokens[token].expiresAt >= now
    && s.tokens[token].userId in s.users && !s.users[s.tokens[token].userId].deleted
  }

  function Previous(s: Store, user: string, historySize: nat): seq<Hash>
    requires user in s.users
  {
    if historySize == 0 then []
    else (if s.users[user].hash.Some? then [s.users[user].hash.value] else []) + Take(Rows(s, user), historySize - 1)
  }

  predicate IsReused(s: Store, user: string, newPassword: string, historySize: nat)
    requires user in s.users
  {
    exists i | 0 <= i < |Previous(s, user, historySize)| ::
      VerifyPassword(Previous(s, user, historySize)[i], newPassword)
  }

  function Reset(s: Store, token: string, newPassword: string, salt: nat, historySize: nat, now: int): (Store, Outcome)
  {
    if !TokenOk(s, token, now) then (s, InvalidToken)
    else
      var user := s.tokens[token].userId;
      if IsReused(s, user, newPassword, historySize) then (s, Reused)
      else
        var old_ := s.users[user].hash;
        var history := if historySize > 0 && old_.Some?
                       then s.history[user := Take([old_.value] + Rows(s, user), historySize - 1)]
                       else s.history;
        (Store(s.users[user := User(Some(Hash(newPassword, salt)), false, Some(now))], history,
               s.tokens[token := s.tokens[token].(used := true)],
               Sessions.AllRevoked(s.sessions, user, None, now)),
         Changed)
  }

  /** The new password is one of the last `historySize` the store remembers: the current one, or one of the
      newest historySize - 1 rows of the history. */
  predicate Remembered(s: Store, user: string, newPassword: string, historySize: nat)
    requires user in s.users
  {
    || (historySize > 0 && s.users[user].hash.Some? && s.users[user].hash.value.password == newPassword)
    || (exists i | 0 <= i < |Rows(s, user)| && i < historySize - 1 :: Rows(s, user)[i].password == newPassword)
  }

  predicate OneMatches(rows: seq<Hash>, plain: string) {
    exists i | 0 <= i < |rows| :: VerifyPassword(rows[i], plain)
  }

  lemma MatchInConcat(a: seq<Hash>, b: seq<Hash>, plain: string)
    ensures OneMatches(a + b, plain) <==> OneMatches(a, plain) || OneMatches(b, plain)
  {
    if i :| 0 <= i < |a| && VerifyPassword(a[i], plain) {
      assert VerifyPassword((a + b)[i], plain);
    } else if i :| 0 <= i < |b| && VerifyPassword(b[i], plain) {
      assert VerifyPassword((a + b)[|a| + i], plain);
    }
  }

  lemma MatchInTake(rows: seq<Hash>, limit: int, plain: string)
    ensures OneMatches(Take(rows, limit), plain) <==>
              exists i | 0 <= i < |rows| && i < limit :: rows[i].password == plain
  {
    if i :| 0 <= i < |rows| && i < limit && rows[i].password == plain {
      assert VerifyPassword(Take(rows, limit)[i], plain);
    }
  }

  lemma ReusedMeans(s: Store, user: string, newPassword: string, historySize: nat)
    requires user in s.users
    ensures IsReused(s, user, newPassword, historySize) <==> Remembered(s, user, newPassword, historySize)
  {
    var hash := s.users[user].hash;
    var current := if hash.Some? then [hash.value] else [];
    MatchInConcat(current, Take(Rows(s, user), historySize - 1), newPassword);
    MatchInTake(Rows(s, user), historySize - 1, newPassword);
    assert OneMatches(current, newPassword) <==> hash.Some? && hash.value.password == newPassword by {
      assert hash.Some? ==> current[0] == hash.value;
    }
    assert IsReused(s, user, newPassword, historySize) <==> OneMatches(Previous(s, user, historySize), newPassword);
  }

  /** What a reset means for its caller and for every table: it needs an unspent, unexpired token of an account
      that is not deleted and a password not remembered; then that account alone gets the new password, loses
      its old tokens and live sessions, and remembers the old password; refused, it leaves everything alone,
      the token included. */
  predicate ResetMeans(s: Store, token: string, newPassword: string, historySize: nat, now: int, s': Store,
                       outcome: Outcome)
  {
    var good := && token in s.tokens && !s.tokens[token].used && now <= s.tokens[token].expiresAt
                && s.tokens[token].userId in s.users && !s.users[s.tokens[token].userId].deleted;
    && (outcome == InvalidToken <==> !good)
    && (good ==> (outcome == Reused <==> Remembered(s, s.tokens[token].userId, newPassword, historySize)))
    && (outcome != Changed ==> s' == s)
    && (outcome == Changed ==>
          var user := s.tokens[token].userId;
          && s'.users - {user} == s.users - {user} && user in s'.users
          && s'.users[user].hash.Some? && s'.users[user].hash.value.password == newPassword
          && !s'.users[user].deleted && s'.users[user].tokensInvalidatedAt == Some(now)
          && s'.tokens == s.tokens[token := ResetToken(user, true, s.tokens[token].expiresAt)]
          && s'.history - {user} == s.history - {user}
          && (s.users[user].hash.Some? && historySize > 1 ==>
                Rows(s', user) != [] && Rows(s', user)[0] == s.users[user].hash.value)
          && s'.sessions.Keys == s.sessions.Keys
          && forall id | id in s.sessions ::
               var hit := s.sessions[id].userId == user && s.sessions[id].revokedAt == None;
               s'.sessions[id] == if hit then s.sessions[id].(revokedAt := Some(now)) else s.sessions[id])
  }

  lemma ResetByTables(s: Store, token: string, newPassword: string, salt: nat, historySize: nat, now: int)
    ensures var (s', outcome) := Reset(s, token, newPassword, salt, historySize, now);
            ResetMeans(s, token, newPassword, historySize, now, s', outcome)
  {
    if TokenOk(s, token, now) {
      ReusedMeans(s, s.tokens[token].userId, newPassword, historySize);
    }
  }

  class AuthStore {
    var users: map<string, User>
    var history: map<string, seq<Hash>>
    var tokens: map<string, ResetToken>
    var sessions: Sessions.SessionsRepository

    constructor (s: Store)
      ensures Snapshot() == s && fresh(sessions)
    {
      users, history, tokens := s.users, s.history, s.tokens;
      sessions := new Sessions.SessionsRepository(s.sessions);
    }

    function Snapshot(): Store
      reads this, sessions
    {
      Store(users, history, tokens, sessions.sessions)
    }

    method FindRecentHashes(user: string, limit: int) returns (hashes: seq<Hash>)
      ensures hashes == Take(Rows(Snapshot(), user), limit)
    {
      if limit <= 0 {
        return [];
      }
      var rows := if user in history then history[user] else [];
      hashes := if limit < |rows| then rows[..limit] else rows;
    }

    /** Insert, then delete all but the newest `retain` rows. */
    method Record(user: string, hash: Hash, retain: int)
      modifies this`history
      ensures history == old(history)[user := Take([hash] + Rows(old(Snapshot()), user), retain)]
    {
      var rows := [hash] + (if user in history then history[user] else []);
      history := history[user := rows];
      if retain <= 0 {
        history := history[user := []];
        return;
      }
      var kept := if retain < |rows| then rows[..retain] else rows;
      history := history[user := kept];
    }

    /** The loop over the current hash and the stored ones. */
    method MatchesPrevious(user: string, newPassword: string, historySize: nat) returns (reused: bool)
      requires user in users
      ensures reused == IsReused(Snapshot(), user, newPassword, historySize)
    {
      var current := users[user].hash;
      if historySize > 0 {
        var previousHashes: seq<Hash> := if current.Some? then [current.value] else [];
        if historySize > 1 {
          var stored := FindRecentHashes(user, historySize - 1);
          previousHashes := previousHashes + stored;
        }
        assert previousHashes == Previous(Snapshot(), user, historySize);
        for i := 0 to |previousHashes|
          invariant forall k | 0 <= k < i :: !VerifyPassword(previousHashes[k], newPassword)
        {
          if VerifyPassword(previousHashes[i], newPassword) {
            return true;
          }
        }
      }
      reused := false;
    }

    /** The clock is read once for the token test and once for everything after. */
    method Execute(token: string, newPassword: string, salt: nat, historySize: nat, now: int) returns (outcome: Outcome)
      modifies this, sessions
      ensures sessions == old(sessions)
      ensures (Snapshot(), outcome) == Reset(old(Snapshot()), token, newPassword, salt, historySize, now)
      ensures ResetMeans(old(Snapshot()), token, newPassword, historySize, now, Snapshot(), outcome)
    {
      ResetByTables(Snapshot(), token, newPassword, salt, historySize, now);
      if token !in tokens || tokens[token].used || tokens[token].expiresAt < now {
        return InvalidToken;
      }
      var user := tokens[token].userId;
      if user !in users || users[user].deleted {
        return InvalidToken;
      }
      var current := users[user].hash;
      var reused := MatchesPrevious(user, newPassword, historySize);
      if reused {
        return Reused;
      }
      users := users[user := users[user].(hash := Some(Hash(newPassword, salt)))];
      if historySize > 0 && current.Some? {
        Record(user, current.value, historySize - 1);
      }
      users := users[user := users[user].(tokensInvalidatedAt := Some(now))];
      tokens := tokens[token := tokens[token].(used := true)];
      sessions.RevokeAllForUser(user, None, now);
      assert users == old(users)[user := User(Some(Hash(newPassword, salt)), false, Some(now))];
      outcome := Changed;
    }
  }

  // ---------- Whole runs ----------

  datatype Event =
    | Issue(token: string, record: ResetToken)
    | Attempt(token: string, newPassword: string, salt: nat, now: int)
    | SoftDelete(user: string)
    | Restore(user: string)
    | ChangeSessions(sessions: Sessions.Table)

  function Step(s: Store, historySize: nat, e: Event): Store {
    match e
    case Issue(token, record) => s.(tokens := s.tokens[token := record])
    case Attempt(token, newPassword, salt, now) => Reset(s, token, newPassword, salt, historySize, now).0
    case SoftDelete(user) =>
      if user in s.users then s.(users := s.users[user := s.users[user].(deleted := true)]) else s
    case Restore(user) => if user in s.users then s.(users := s.users[user := s.users[user].(deleted := false)]) else s
    case ChangeSessions(sessions) => s.(sessions := sessions)
  }

  function Run(s: Store, historySize: nat, es: seq<Event>): Store {
    if es == [] then s else Step(Run(s, historySize, es[..|es| - 1]), historySize, es[|es| - 1])
  }

  // ---------- After a change ----------

  predicate Spent(s: Store, token: string) {
    token in s.tokens && s.tokens[token].used
  }

  /** Access tokens from before the moment are refused. */
  predicate CutOff(s: Store, user: string, since: int) {
    user in s.users && s.users[user].tokensInvalidatedAt.Some? && s.users[user].tokensInvalidatedAt.value >= since
  }

  lemma AttemptKeepsLoggedOut(s: Store, historySize: nat, e: Event, user: string)
    requires e.Attempt? && !Sessions.HasUnrevoked(s.sessions, user)
    ensures !Sessions.HasUnrevoked(Step(s, historySize, e).sessions, user)
  {
    var t' := Step(s, historySize, e).sessions;
    forall id | id in t' && t'[id].userId == user ensures !Sessions.Unrevoked(t', id) {
      assert !Sessions.Unrevoked(s.sessions, id) && s.sessions[id].userId == user;
    }
  }

  lemma StepKeepsLoggedOut(s: Store, historySize: nat, e: Event, user: string)
    requires !Sessions.HasUnrevoked(s.sessions, user)
    requires e.ChangeSessions? ==> !Sessions.HasUnrevoked(e.sessions, user)
    ensures !Sessions.HasUnrevoked(Step(s, historySize, e).sessions, user)
  {
    if e.Attempt? {
      AttemptKeepsLoggedOut(s, historySize, e, user);
    }
  }

  lemma {:induction false} StaysSpent(s: Store, historySize: nat, es: seq<Event>, token: string)
    requires Spent(s, token)
    requires forall i | 0 <= i < |es| :: es[i].Issue? ==> es[i].token != token
    ensures Spent(Run(s, historySize, es), token)
  {
    if es != [] {
      StaysSpent(s, historySize, es[..|es| - 1], token);
    }
  }

  lemma {:induction false} StaysLoggedOut(s: Store, historySize: nat, es: seq<Event>, user: string)
    requires !Sessions.HasUnrevoked(s.sessions, user)
    requires forall i | 0 <= i < |es| :: es[i].ChangeSessions? ==> !Sessions.HasUnrevoked(es[i].sessions, user)
    ensures !Sessions.HasUnrevoked(Run(s, historySize, es).sessions, user)
  {
    if es != [] {
      StaysLoggedOut(s, historySize, es[..|es| - 1], user);
      StepKeepsLoggedOut(Run(s, historySize, es[..|es| - 1]), historySize, es[|es| - 1], user);
    }
  }

  lemma StepKeepsCutOff(s: Store, historySize: nat, e: Event, user: string, since: int)
    requires CutOff(s, user, since) && (e.Attempt? ==> e.now >= since)
    ensures CutOff(Step(s, historySize, e), user, since)
  {
  }

  lemma {:induction false} StaysCutOff(s: Store, historySize: nat, es: seq<Event>, user: string, since: int)
    requires CutOff(s, user, since)
    requires forall i | 0 <= i < |es| :: es[i].Attempt? ==> es[i].now >= since
    ensures CutOff(Run(s, historySize, es), user, since)
  {
    if es != [] {
      StaysCutOff(s, historySize, es[..|es| - 1], user, since);
      StepKeepsCutOff(Run(s, historySize, es[..|es| - 1]), historySize, es[|es| - 1], user, since);
    }
  }

  /** After a change, in every continuation on a clock that does not go back: the token is refused until it
      is issued anew, access tokens from before stay refused, and the user has no un-revoked session until
      one is opened. */
  lemma ChangeLogsOut(s: Store, historySize: nat, e: Event, es: seq<Event>)
    requires e.Attempt? && Reset(s, e.token, e.newPassword, e.salt, historySize, e.now).1 == Changed
    requires forall i | 0 <= i < |es| :: es[i].Attempt? ==> es[i].now >= e.now
    ensures var user, s' := s.tokens[e.token].userId, Run(Step(s, historySize, e), historySize, es);
            && ((forall i | 0 <= i < |es| :: es[i].Issue? ==> es[i].token != e.token) ==>
                  forall again, salt, now :: Reset(s', e.token, again, salt, historySize, now).1 == InvalidToken)
            && CutOff(s', user, e.now)
            && ((forall i | 0 <= i < |es| :: es[i].ChangeSessions? ==> !Sessions.HasUnrevoked(es[i].sessions, user)) ==>
                  !Sessions.HasUnrevoked(s'.sessions, user))
    ensures var user, changed := s.tokens[e.token].userId, Step(s, historySize, e);
            && (forall id | id in s.sessions && s.sessions[id].userId != user ::
                  changed.sessions[id] == s.sessions[id])
            && (forall other | other in s.users && other != user ::
                  changed.users[other] == s.users[other] && Rows(changed, other) == Rows(s, other))
  {
    var user, changed := s.tokens[e.token].userId, Step(s, historySize, e);
    assert Spent(changed, e.token) && CutOff(changed, user, e.now) && !Sessions.HasUnrevoked(changed.sessions, user);
    StaysCutOff(changed, historySize, es, user, e.now);
    if forall i | 0 <= i < |es| :: es[i].Issue? ==> es[i].token != e.token {
      StaysSpent(changed, historySize, es, e.token);
    }
    if forall i | 0 <= i < |es| :: es[i].ChangeSessions? ==> !Sessions.HasUnrevoked(es[i].sessions, user) {
      StaysLoggedOut(changed, historySize, es, user);
    }
  }

  // ---------- The history ----------

  predicate ChangesPasswordOf(s: Store, historySize: nat, e: Event, user: string) {
    e.Attempt? && TokenOk(s, e.token, e.now) && s.tokens[e.token].userId == user
    && !IsReused(s, user, e.newPassword, historySize)
  }

  /** Every password the user has had, oldest first. */
  function Passwords(s: Store, historySize: nat, es: seq<Event>, user: string): seq<string>
    requires user in s.users
  {
    if es == [] then (if s.users[user].hash.Some? then [s.users[user].hash.value.password] else [])
    else
      var before := es[..|es| - 1];
      var e := es[|es| - 1];
      Passwords(s, historySize, before, user)
      + (if ChangesPasswordOf(Run(s, historySize, before), historySize, e, user) then [e.newPassword] else [])
  }

  /** The table holds exactly the most recent superseded passwords, at most historySize - 1 of them. */
  ghost predicate HistoryIs(s: Store, historySize: nat, user: string, pws: seq<string>) {
    && user in s.users
    && (s.users[user].hash.None? <==> pws == [])
    && (pws != [] ==> s.users[user].hash.value.password == pws[|pws| - 1])
    && |Rows(s, user)| == (if pws == [] then 0 else if |pws| - 1 < historySize - 1 then |pws| - 1 else historySize - 1)
    && forall k | 0 <= k < |Rows(s, user)| :: Rows(s, user)[k].password == pws[|pws| - 2 - k]
  }

  lemma ChangeKeepsHistory(s: Store, historySize: nat, user: string, pws: seq<string>, e: Event)
    requires historySize >= 1 && HistoryIs(s, historySize, user, pws) && ChangesPasswordOf(s, historySize, e, user)
    ensures HistoryIs(Step(s, historySize, e), historySize, user, pws + [e.newPassword])
  {
    var s' := Step(s, historySize, e);
    if pws != [] {
      var rows := [s.users[user].hash.value] + Rows(s, user);
      assert forall k | 0 <= k < |rows| :: rows[k].password == pws[|pws| - 1 - k];
      assert Rows(s', user) == Take(rows, historySize - 1);
    }
  }

  lemma OtherStepsKeepHistory(s: Store, historySize: nat, user: string, pws: seq<string>, e: Event)
    requires HistoryIs(s, historySize, user, pws) && !ChangesPasswordOf(s, historySize, e, user)
    ensures HistoryIs(Step(s, historySize, e), historySize, user, pws)
  {
    var s' := Step(s, historySize, e);
    assert Rows(s', user) == Rows(s, user) && user in s'.users && s'.users[user].hash == s.users[user].hash;
  }

  lemma {:induction false} RunKeepsHistory(s: Store, historySize: nat, es: seq<Event>, user: string)
    requires historySize >= 1 && user in s.users && Rows(s, user) == []
    ensures HistoryIs(Run(s, historySize, es), historySize, user, Passwords(s, historySize, es, user))
  {
    if es != [] {
      var before, e := es[..|es| - 1], es[|es| - 1];
      RunKeepsHistory(s, historySize, before, user);
      if ChangesPasswordOf(Run(s, historySize, before), historySize, e, user) {
        ChangeKeepsHistory(Run(s, historySize, before), historySize, user, Passwords(s, historySize, before, user), e);
      } else {
        OtherStepsKeepHistory(Run(s, historySize, before), historySize, user,
                              Passwords(s, historySize, before, user), e);
      }
    }
  }

  /** With a good token, a reset is refused exactly when the new password is among the last historySize. */
  lemma ReusedIff(s: Store, historySize: nat, user: string, pws: seq<string>, newPassword: string)
    requires historySize >= 1 && HistoryIs(s, historySize, user, pws)
    ensures IsReused(s, user, newPassword, historySize) <==>
            exists i | 0 <= i < |pws| && |pws| - historySize <= i :: pws[i] == newPassword
  {
    var previous := Previous(s, user, historySize);
    if pws != [] {
      assert Take(Rows(s, user), historySize - 1) == Rows(s, user);
      assert previous == [s.users[user].hash.value] + Rows(s, user);
      assert forall k | 0 <= k < |previous| :: previous[k].password == pws[|pws| - 1 - k];
      forall i | 0 <= i < |pws| && |pws| - historySize <= i ensures previous[|pws| - 1 - i].password == pws[i] {
      }
    }
  }

  /** Any historySize + 1 consecutive passwords of one user are pairwise distinct. */
  lemma {:induction false} RecentPasswordsDiffer(s: Store, historySize: nat, es: seq<Event>, user: string, i: nat,
                                                 j: nat)
    requires historySize >= 1 && user in s.users && Rows(s, user) == []
    requires i < j < |Passwords(s, historySize, es, user)| && j - i <= historySize
    ensures Passwords(s, historySize, es, user)[i] != Passwords(s, historySize, es, user)[j]
  {
    if es != [] {
      var before, e := es[..|es| - 1], es[|es| - 1];
      var pws := Passwords(s, historySize, before, user);
      if j < |pws| {
        RecentPasswordsDiffer(s, historySize, before, user, i, j);
      } else {
        RunKeepsHistory(s, historySize, before, user);
        ReusedIff(Run(s, historySize, before), historySize, user, pws, e.newPassword);
      }
    }
  }
}
