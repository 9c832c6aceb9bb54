/** Password login with its failed-attempt counter and lock window. */
module Lockout {
  import opened Options

  const MAX_FAILED_LOGIN_ATTEMPTS: int := 5
  const LOCKOUT_DURATION_MS: int := 15 * 60 * 1000

  /** The stored fields of one user that login reads or writes. `password` stands for the hash. */
  datatype Account = Account(
    password: Option<string>,
    failedLoginAttempts: int,
    lockedUntil: Option<int>,
    deletedAt: Option<int>,
    emailVerified: bool,
    twoFactorEnabled: bool)

  datatype Outcome = InvalidCredentials | AccountLocked | EmailNotVerified | Challenge | Tokens

  /** One call: the clock read for the lock test, and the clock read when a lock is set. */
  datatype Attempt = Attempt(password: string, checkedAt: int, lockedAt: int)

  predicate IsLocked(a: Account, now: int) {
    a.lockedUntil.Some? && a.lockedUntil.value > now
  }

  /** The attempt gets as far as comparing the password, and the comparison fails. */
  predicate WrongPassword(a: Account, t: Attempt) {
    a.password.Some? && !IsLocked(a, t.checkedAt) && a.password.value != t.password
  }

  function Step(a: Account, t: Attempt): Account {
    if a.password.None? || IsLocked(a, t.checkedAt) then a
    else if a.password.value != t.password then
      var attempts := a.failedLoginAttempts + 1;
      a.(failedLoginAttempts := attempts,
         lockedUntil :=
           if attempts >= MAX_FAILED_LOGIN_ATTEMPTS then Some(t.lockedAt + LOCKOUT_DURATION_MS)
           else a.lockedUntil)
    else
      var restored := a.(deletedAt := None);
      if !a.emailVerified then restored
      else restored.(failedLoginAttempts := 0, lockedUntil := None)
  }

  /** The attempt succeeds and clears the counter. */
  predicate Resets(a: Account, t: Attempt) {
    a.password.Some? && !IsLocked(a, t.checkedAt) && a.password.value == t.password && a.emailVerified
  }

  /** How an attempt on this row ends. */
  function Answer(a: Account, t: Attempt): Outcome {
    if a.password.None? then InvalidCredentials
    else if IsLocked(a, t.checkedAt) then AccountLocked
    else if a.password.value != t.password then InvalidCredentials
    else if !a.emailVerified then EmailNotVerified
    else if a.twoFactorEnabled then Challenge
    else Tokens
  }

  /** What one login means for its caller and for the row, read off the stored fields: the password counts only
      when no lock is in force, and only the right one tells whether the e-mail is verified or a second
      factor is asked for. */
  predicate LoginMeans(a: Account, t: Attempt, a': Account, outcome: Outcome) {
    var locked := a.lockedUntil.Some? && t.checkedAt < a.lockedUntil.value;
    var right := !locked && a.password == Some(t.password);
    var wrong := !locked && a.password.Some? && a.password != Some(t.password);
    && (outcome == Tokens <==> right && a.emailVerified && !a.twoFactorEnabled)
    && (outcome == Challenge <==> right && a.emailVerified && a.twoFactorEnabled)
    && (outcome == EmailNotVerified <==> right && !a.emailVerified)
    && (outcome == AccountLocked <==> a.password.Some? && locked)
    && (outcome == InvalidCredentials <==> a.password.None? || wrong)
    && a'.deletedAt == (if right then None else a.deletedAt)
    && a'.failedLoginAttempts ==
       (if right && a.emailVerified then 0 else a.failedLoginAttempts + if wrong then 1 else 0)
    && a'.lockedUntil == (if right && a.emailVerified then None
                          else if wrong && a.failedLoginAttempts >= 4 then Some(t.lockedAt + 900000)
                          else a.lockedUntil)
    && a' == a.(deletedAt := a'.deletedAt, failedLoginAttempts := a'.failedLoginAttempts, lockedUntil := a'.lockedUntil)
  }

  class UserRow {
    var account: Account

    constructor (account: Account)
      ensures this.account == account
    {
      this.account := account;
    }

    method IncrementFailedLoginAttempts() returns (attempts: int)
      modifies this
      ensures attempts == old(account.failedLoginAttempts) + 1
      ensures account == old(account).(failedLoginAttempts := attempts)
    {
      attempts := account.failedLoginAttempts + 1;
      account := account.(failedLoginAttempts := attempts);
    }

    method LockAccount(until: int)
      modifies this
      ensures account == old(account).(lockedUntil := Some(until))
    {
      account := account.(lockedUntil := Some(until));
    }

    method Restore()
      modifies this
      ensures account == old(account).(deletedAt := None)
    {
      account := account.(deletedAt := None);
    }

    method ResetFailedLoginAttempts()
      modifies this
      ensures account == old(account).(failedLoginAttempts := 0, lockedUntil := None)
    {
      account := account.(failedLoginAttempts := 0, lockedUntil := None);
    }

    /** The counter's new value is what the store returns, the other branches look at the row as first read. */
    method Login(t: Attempt) returns (outcome: Outcome)
      requires account.failedLoginAttempts >= 0
      modifies this
      ensures account == Step(old(account), t)
      ensures outcome == Answer(old(account), t)
      ensures LoginMeans(old(account), t, account, outcome)
    {
      var user := account;
      if user.password == None {
        return InvalidCredentials;
      }
      if user.lockedUntil.Some? && user.lockedUntil.value > t.checkedAt {
        return AccountLocked;
      }
      if user.password.value != t.password {
        var attempts := IncrementFailedLoginAttempts();
        if attempts >= MAX_FAILED_LOGIN_ATTEMPTS {
          LockAccount(t.lockedAt + LOCKOUT_DURATION_MS);
        }
        return InvalidCredentials;
      }
      if user.deletedAt.Some? {
        Restore();
      }
      if !user.emailVerified {
        return EmailNotVerified;
      }
      if user.failedLoginAttempts > 0 || user.lockedUntil.Some? {
        ResetFailedLoginAttempts();
      }
      outcome := if user.twoFactorEnabled then Challenge else Tokens;
    }
  }

  /** A login by e-mail; no row is found for an unknown one. */
  method LoginByEmail(found: UserRow?, t: Attempt) returns (outcome: Outcome)
    requires found != null ==> found.account.failedLoginAttempts >= 0
    modifies found
    ensures found == null ==> outcome == InvalidCredentials
    ensures found != null ==> found.account == Step(old(found.account), t) && outcome == Answer(old(found.account), t)
    ensures found != null ==> LoginMeans(old(found.account), t, found.account, outcome)
  {
    if found == null {
      return InvalidCredentials;
    }
    outcome := found.Login(t);
  }

  // ---------- Whole runs ----------

  /** A login attempt, or any other use case rewriting the row: a password reset, an e-mail verification, a
      change of two-factor settings, a deletion, a restoration or an anonymization. None of those touches
      the counter or the lock. */
  datatype Event =
    | Try(attempt: Attempt)
    | Rewrite(at: int, password: Option<string>, deletedAt: Option<int>, emailVerified: bool, twoFactorEnabled: bool)

  function Begins(e: Event): int {
    if e.Try? then e.attempt.checkedAt else e.at
  }

  function Ends(e: Event): int {
    if e.Try? then e.attempt.lockedAt else e.at
  }

  /** Requests one after another, on a clock that never goes back. */
  ghost predicate Serial(es: seq<Event>) {
    && (forall i | 0 <= i < |es| :: Begins(es[i]) <= Ends(es[i]))
    && (forall i, j | 0 <= i < j < |es| :: Ends(es[i]) <= Begins(es[j]))
  }

  function After(a: Account, e: Event): Account {
    match e
    case Try(attempt) => Step(a, attempt)
    case Rewrite(_, password, deletedAt, emailVerified, twoFactorEnabled) =>
      a.(password := password, deletedAt := deletedAt, emailVerified := emailVerified,
         twoFactorEnabled := twoFactorEnabled)
  }

  predicate Fails(a: Account, e: Event) {
    e.Try? && WrongPassword(a, e.attempt)
  }

  /** The row, and when its wrong-password checks happened. */
  datatype Progress = Progress(account: Account, failures: seq<int>)

  function Advance(p: Progress, e: Event): Progress {
    Progress(After(p.account, e), if Fails(p.account, e) then p.failures + [Begins(e)] else p.failures)
  }

  function Trace(a: Account, es: seq<Event>): Progress {
    if es == [] then Progress(a, []) else Advance(Trace(a, es[..|es| - 1]), es[|es| - 1])
  }

  function Failures(a: Account, es: seq<Event>): seq<int> {
    Trace(a, es).failures
  }

  ghost predicate NoReset(a: Account, es: seq<Event>) {
    forall i {:trigger es[i]} | 0 <= i < |es| :: es[i].Try? ==> !Resets(Trace(a, es[..i]).account, es[i].attempt)
  }

  /** n lock durations. */
  function Locks(n: int): (ms: int)
    ensures ms == 900000 * n
  {
    LOCKOUT_DURATION_MS * n
  }

  /** The counter is the number of failures, and from the fifth on each failure has locked the account
      for a quarter of an hour. */
  ghost predicate Counted(p: Progress, last: int) {
    && p.account.failedLoginAttempts == |p.failures|
    && (|p.failures| >= 5 ==> p.account.lockedUntil.Some?
                              && p.account.lockedUntil.value >= p.failures[|p.failures| - 1] + Locks(1))
    && (forall k | 0 <= k < |p.failures| :: p.failures[k] <= last)
  }

  lemma EventKeepsCounted(p: Progress, last: int, e: Event)
    requires Counted(p, last) && last <= Begins(e) <= Ends(e) && (e.Try? ==> !Resets(p.account, e.attempt))
    ensures Counted(Advance(p, e), Begins(e))
  {
  }

  lemma InOrder(es: seq<Event>)
    requires es != [] && Serial(es)
    ensures Begins(es[|es| - 1]) <= Ends(es[|es| - 1])
    ensures |es| > 1 ==> es[..|es| - 1][|es| - 2] == es[|es| - 2] && Begins(es[|es| - 2]) <= Begins(es[|es| - 1])
  {
  }

  lemma SerialPrefix(a: Account, es: seq<Event>)
    requires es != [] && Serial(es) && NoReset(a, es)
    ensures Serial(es[..|es| - 1]) && NoReset(a, es[..|es| - 1])
  {
    var before := es[..|es| - 1];
    forall i | 0 <= i < |before| ensures before[i].Try? ==> !Resets(Trace(a, before[..i]).account, before[i].attempt) {
      assert before[..i] == es[..i] && before[i] == es[i];
    }
  }

  lemma {:induction false} CounterInvariant(a: Account, es: seq<Event>)
    requires a.failedLoginAttempts == 0 && Serial(es) && NoReset(a, es)
    ensures Counted(Trace(a, es), if es == [] then 0 else Begins(es[|es| - 1]))
  {
    if es != [] {
      var n := |es| - 1;
      SerialPrefix(a, es);
      CounterInvariant(a, es[..n]);
      InOrder(es);
      EventKeepsCounted(Trace(a, es[..n]), if n == 0 then Begins(es[0]) else Begins(es[n - 1]), es[n]);
    }
  }

  /** Failures never go back in time, and from the fifth on they are a quarter of an hour apart. */
  ghost predicate Spaced(f: seq<int>) {
    forall k | 0 <= k < |f| - 1 :: f[k + 1] >= f[k] + (if k >= 4 then Locks(1) else 0)
  }

  lemma EventKeepsSpaced(p: Progress, last: int, e: Event)
    requires Spaced(p.failures) && Counted(p, last) && last <= Begins(e)
    ensures Spaced(Advance(p, e).failures)
  {
  }

  lemma {:induction false} FailuresAreSpaced(a: Account, es: seq<Event>)
    requires a.failedLoginAttempts == 0 && Serial(es) && NoReset(a, es)
    ensures Spaced(Failures(a, es))
  {
    if es != [] {
      var n := |es| - 1;
      SerialPrefix(a, es);
      FailuresAreSpaced(a, es[..n]);
      CounterInvariant(a, es[..n]);
      InOrder(es);
      EventKeepsSpaced(Trace(a, es[..n]), if n == 0 then Begins(es[0]) else Begins(es[n - 1]), es[n]);
    }
  }

  /** Of two failures, the later one comes at least one lock per failure beyond the fourth later. */
  lemma {:induction false} SpacedGap(f: seq<int>, i: nat, j: nat)
    requires Spaced(f) && i <= j < |f|
    ensures f[j] - f[i] >= Locks(j - i - 4) && f[j] >= f[i]
    ensures i >= 4 ==> f[j] - f[i] >= Locks(j - i)
    ensures i < 4 <= j ==> f[j] - f[i] >= Locks(j - 4)
    decreases j - i
  {
    if i < j {
      SpacedGap(f, i, j - 1);
    }
  }

  lemma AtMost(n: int, T: int)
    requires Locks(n) <= T
    ensures n <= T / LOCKOUT_DURATION_MS
  {
  }

  /** From a cleared counter, with no reset on the way, any window of T milliseconds holds at most
      5 + floor(T / 900000) wrong-password checks, whatever else happens to the account. */
  lemma GuessesAreBounded(a: Account, es: seq<Event>, i: nat, j: nat, T: int)
    requires a.failedLoginAttempts == 0 && Serial(es) && NoReset(a, es)
    requires i <= j < |Failures(a, es)|
    requires Failures(a, es)[j] - Failures(a, es)[i] <= T
    ensures j - i + 1 <= 5 + T / LOCKOUT_DURATION_MS
  {
    FailuresAreSpaced(a, es);
    SpacedGap(Failures(a, es), i, j);
    AtMost(j - i - 4, T);
  }

  // ---------- The bound is reached ----------

  function GuessAt(k: nat, start: int): int {
    if k < 5 then start else start + Locks(k - 4)
  }

  function Guess(k: nat, start: int): Event {
    Try(Attempt("wrong", GuessAt(k, start), GuessAt(k, start)))
  }

  /** Five wrong passwords at once, then one at the end of every lock. */
  function Persistent(n: nat, start: int): (es: seq<Event>)
    ensures |es| == n
  {
    if n == 0 then [] else Persistent(n - 1, start) + [Guess(n - 1, start)]
  }

  /** The account after n of these attempts. */
  function Guessed(a: Account, n: nat, start: int): Account {
    a.(failedLoginAttempts := n, lockedUntil := if n >= 5 then Some(GuessAt(n - 1, start) + Locks(1)) else None)
  }

  predicate Guessable(a: Account) {
    a.password.Some? && a.password.value != "wrong" && a.failedLoginAttempts == 0 && a.lockedUntil == None
  }

  function GuessTimes(n: nat, start: int): (f: seq<int>)
    ensures |f| == n
  {
    if n == 0 then [] else GuessTimes(n - 1, start) + [GuessAt(n - 1, start)]
  }

  lemma {:induction false} GuessTime(n: nat, k: nat, start: int)
    requires k < n
    ensures GuessTimes(n, start)[k] == GuessAt(k, start)
  {
    if k < n - 1 {
      GuessTime(n - 1, k, start);
    }
  }

  lemma GuessOnce(a: Account, n: nat, start: int, f: seq<int>)
    requires Guessable(a)
    ensures Advance(Progress(Guessed(a, n, start), f), Guess(n, start)) ==
              Progress(Guessed(a, n + 1, start), f + [GuessAt(n, start)])
  {
  }

  lemma TraceSnoc(a: Account, before: seq<Event>, e: Event)
    ensures Trace(a, before + [e]) == Advance(Trace(a, before), e)
  {
    assert (before + [e])[..|before|] == before;
  }

  lemma {:induction false} PersistentTrace(a: Account, n: nat, start: int)
    requires Guessable(a)
    ensures Trace(a, Persistent(n, start)) == Progress(Guessed(a, n, start), GuessTimes(n, start))
  {
    if n > 0 {
      PersistentTrace(a, n - 1, start);
      GuessOnce(a, n - 1, start, GuessTimes(n - 1, start));
      TraceSnoc(a, Persistent(n - 1, start), Guess(n - 1, start));
    }
  }

  lemma {:induction false} PersistentPrefix(n: nat, k: nat, start: int)
    requires k < n
    ensures Persistent(n, start)[..k] == Persistent(k, start) && Persistent(n, start)[k] == Guess(k, start)
  {
    if k < n - 1 {
      PersistentPrefix(n - 1, k, start);
      assert Persistent(n, start)[..k] == Persistent(n - 1, start)[..k];
    }
  }

  lemma GuessTimesGrow(i: nat, j: nat, start: int)
    requires i <= j
    ensures GuessAt(i, start) <= GuessAt(j, start)
  {
  }

  lemma GuessSpan(q: nat, start: int)
    ensures GuessTimes(5 + q, start)[4 + q] - GuessTimes(5 + q, start)[0] == Locks(q)
  {
    GuessTime(5 + q, 0, start);
    GuessTime(5 + q, 4 + q, start);
  }

  lemma PersistentIsSerial(n: nat, start: int)
    ensures Serial(Persistent(n, start))
  {
    var es := Persistent(n, start);
    forall i | 0 <= i < n ensures es[i] == Guess(i, start) {
      PersistentPrefix(n, i, start);
    }
    forall i, j | 0 <= i < j < n ensures Ends(es[i]) <= Begins(es[j]) {
      GuessTimesGrow(i, j, start);
    }
  }

  lemma PersistentNeverResets(a: Account, n: nat, start: int)
    requires Guessable(a)
    ensures NoReset(a, Persistent(n, start))
  {
    var es := Persistent(n, start);
    forall i | 0 <= i < n ensures es[i].Try? ==> !Resets(Trace(a, es[..i]).account, es[i].attempt) {
      PersistentPrefix(n, i, start);
      PersistentTrace(a, i, start);
    }
  }

  /** No smaller bound holds: 5 + q wrong-password checks fit into q locks. */
  lemma BoundIsReached(a: Account, q: nat, start: int)
    requires Guessable(a)
    ensures var es := Persistent(5 + q, start);
            var f := Failures(a, es);
            Serial(es) && NoReset(a, es) && |f| == 5 + q && f[4 + q] - f[0] == Locks(q)
  {
    var n := 5 + q;
    PersistentTrace(a, n, start);
    GuessSpan(q, start);
    PersistentIsSerial(n, start);
    PersistentNeverResets(a, n, start);
  }
}
