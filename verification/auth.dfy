/** The admin login of admin/admin-auth.js: the bounded security log, the
    attempt counter with its lockout, the input validators, the session
    with its lifetime and idle limit, and `authenticate`. Browser storage is
    the record `AuthState`; a missing counter reads as 0, as the source
    reads `getItem(..) || '0'`. The credential table is the parameter
    `verify`. */
module AdminAuth {
  import opened Js

  const MaxLogEntries := 100
  const MaxLoginAttempts := 5
  const Minute := 60 * 1000
  const LockoutDuration := 30 * Minute
  const AttemptWindow := 15 * Minute
  const SessionDuration := 2 * 60 * Minute
  const IdleLimit := 15 * Minute

  datatype Event =
    | AccountBlocked(until: int)
    | SessionCreated(user: string)
    | SessionCleared(user: string)
    | InvalidInput(name: Option<string>)
    | LoginSuccess(user: string)
    | LoginFailed(user: string)

  datatype LogEntry = LogEntry(time: int, event: Event)

  datatype Session = Session(username: string, expires: int, createdAt: int, lastActivity: int)

  datatype AuthState = AuthState(
    attempts: int,
    lastAttempt: int,
    blockUntil: int,
    session: Option<Session>,
    logs: seq<LogEntry>)

  // ---------------------------------------------------------------------
  // Security log

  /** `SecurityLogger.logEvent`: the new entry goes first and, when the log
      then holds more than 100 entries, the oldest one is dropped. */
  function LogEvent(logs: seq<LogEntry>, e: LogEntry): (r: seq<LogEntry>)
    ensures |r| > 0 && r[0] == e
    ensures r[1..] <= logs
    ensures |r| == if |logs| + 1 > MaxLogEntries then |logs| else |logs| + 1
    ensures |logs| <= MaxLogEntries ==> |r| <= MaxLogEntries
  {
    var all := [e] + logs;
    if |all| > MaxLogEntries then all[..|all| - 1] else all
  }

  /** A log that starts within the bound stays within it over any run of
      events, and the newest event comes first. */
  lemma {:induction false} LogStaysBounded(logs: seq<LogEntry>, es: seq<LogEntry>)
    requires |logs| <= MaxLogEntries
    ensures |LogAll(logs, es)| <= MaxLogEntries
    ensures |es| > 0 ==> LogAll(logs, es)[0] == es[|es| - 1]
  {
    if |es| > 0 {
      LogStaysBounded(logs, es[..|es| - 1]);
    }
  }

  /** Logging a run of events in order. */
  function LogAll(logs: seq<LogEntry>, es: seq<LogEntry>): (r: seq<LogEntry>)
    ensures |r| >= |logs|
  {
    if |es| == 0 then logs else LogEvent(LogAll(logs, es[..|es| - 1]), es[|es| - 1])
  }

  // ---------------------------------------------------------------------
  // Login security

  datatype Check = Blocked(minutesLeft: int) | Checked(allowed: bool, attemptsLeft: int)

  /** `Math.ceil(d / Minute)` for a positive difference. */
  function MinutesLeft(d: int): (r: int)
    requires d > 0
    ensures r >= 1
    ensures (r - 1) * Minute < d <= r * Minute
  {
    (d + Minute - 1) / Minute
  }

  /** `checkLoginSecurity` as written: the counter is reset in storage when
      the last attempt is more than 15 minutes old, but the answer uses the
      count read before that reset. */
  function CheckLoginSecurity(st: AuthState, now: int): (r: (AuthState, Check))
    ensures r.0.attempts == if now - st.lastAttempt > AttemptWindow then 0 else st.attempts
    ensures r.0 == st.(attempts := r.0.attempts)
    ensures r.1.Blocked? <==> now < st.blockUntil
    ensures r.1.Blocked? ==> (r.1.minutesLeft - 1) * Minute < st.blockUntil - now <= r.1.minutesLeft * Minute
    ensures r.1.Checked? ==> (r.1.allowed <==> st.attempts < MaxLoginAttempts)
    ensures r.1.Checked? ==> r.1.attemptsLeft == MaxLoginAttempts - st.attempts
  {
    var st' := if now - st.lastAttempt > AttemptWindow then st.(attempts := 0) else st;
    if now < st.blockUntil then (st', Blocked(MinutesLeft(st.blockUntil - now)))
    else (st', Checked(st.attempts < MaxLoginAttempts, MaxLoginAttempts - st.attempts))
  }

  /** The check as its comment intends: the answer uses the count after the
      15-minute reset. */
  function CheckLoginSecurityFixed(st: AuthState, now: int): (r: (AuthState, Check))
    ensures r.0 == CheckLoginSecurity(st, now).0
    ensures r.1.Blocked? <==> now < st.blockUntil
    ensures r.1.Checked? ==> (r.1.allowed <==> r.0.attempts < MaxLoginAttempts)
    ensures r.1.Checked? ==> r.1.attemptsLeft == MaxLoginAttempts - r.0.attempts
  {
    var (st', check) := CheckLoginSecurity(st, now);
    if check.Blocked? then (st', check)
    else (st', Checked(st'.attempts < MaxLoginAttempts, MaxLoginAttempts - st'.attempts))
  }

  /** `recordFailedAttempt`: one more attempt at `now`; reaching 5 blocks
      logins for 30 minutes and logs the block. */
  function RecordFailedAttempt(st: AuthState, now: int): (r: AuthState)
    ensures r.attempts == st.attempts + 1 && r.lastAttempt == now
    ensures r.session == st.session
    ensures r.attempts >= MaxLoginAttempts ==>
              r.blockUntil == now + LockoutDuration && r.logs == LogEvent(st.logs, LogEntry(now, AccountBlocked(now + LockoutDuration)))
    ensures r.attempts < MaxLoginAttempts ==> r.blockUntil == st.blockUntil && r.logs == st.logs
  {
    var attempts := st.attempts + 1;
    var st' := st.(attempts := attempts, lastAttempt := now);
    if attempts >= MaxLoginAttempts then
      var until := now + LockoutDuration;
      st'.(blockUntil := until, logs := LogEvent(st.logs, LogEntry(now, AccountBlocked(until))))
    else st'
  }

  /** `clearSecurityData`: all three counters removed (they read as 0). */
  function ClearSecurityData(st: AuthState): (r: AuthState)
    ensures r.attempts == 0 && r.lastAttempt == 0 && r.blockUntil == 0
    ensures r.session == st.session && r.logs == st.logs
  {
    st.(attempts := 0, lastAttempt := 0, blockUntil := 0)
  }

  /** The fifth failure locks logins out for the next 30 minutes, whatever
      the counter does meanwhile. */
  lemma FifthFailureBlocks(st: AuthState, t: int, now: int)
    requires st.attempts + 1 >= MaxLoginAttempts
    requires t <= now < t + LockoutDuration
    ensures CheckLoginSecurity(RecordFailedAttempt(st, t), now).1.Blocked?
    ensures CheckLoginSecurityFixed(RecordFailedAttempt(st, t), now).1.Blocked?
  {
  }

  /** With fewer than five stored attempts and no block in force, the check
      allows a login, as written and as intended. */
  lemma FewAttemptsAllowed(st: AuthState, now: int)
    requires 0 <= st.attempts < MaxLoginAttempts && now >= st.blockUntil
    ensures CheckLoginSecurity(st, now).1 == Checked(true, MaxLoginAttempts - st.attempts)
    ensures CheckLoginSecurityFixed(st, now).1.allowed
  {
  }

  /** As written, the first check after a lockout has expired is refused:
      the reset is stored but the stale count of 5 is compared. */
  lemma FirstCheckAfterLockoutRefused()
    ensures var st := AuthState(5, 0, LockoutDuration, None, []);
      var (st', check) := CheckLoginSecurity(st, LockoutDuration + 1);
      check == Checked(false, 0) && st'.attempts == 0
      && CheckLoginSecurity(st', LockoutDuration + 2).1 == Checked(true, MaxLoginAttempts)
  {
  }

  /** As intended, once the lockout and the attempt window have both passed,
      the check allows a login. */
  lemma LockoutExpiryAllowsLogin(st: AuthState, now: int)
    requires now >= st.blockUntil && now - st.lastAttempt > AttemptWindow
    ensures CheckLoginSecurityFixed(st, now).1 == Checked(true, MaxLoginAttempts)
  {
  }

  // ---------------------------------------------------------------------
  // Input validation

  /** `validateUsername`: a string of at most 100 characters with none of
      `<>{}`. None stands for a value that is not a string. */
  function ValidateUsername(u: Option<string>): (r: bool)
    ensures r <==> u.Some? && |u.value| <= 100
                   && forall i :: 0 <= i < |u.value| ==> u.value[i] !in {'<', '>', '{', '}'}
  {
    u.Some? && |u.value| <= 100 && !HasMarkup(u.value)
  }

  /** Whether the text contains one of `<>{}`. */
  function HasMarkup(s: string): (r: bool)
    ensures r <==> exists i :: 0 <= i < |s| && s[i] in {'<', '>', '{', '}'}
  {
    if |s| == 0 then false
    else s[0] in {'<', '>', '{', '}'} || (assert forall i :: 0 < i < |s| ==> s[1..][i - 1] == s[i]; HasMarkup(s[1..]))
  }

  /** `validatePassword`: a string of 1 to 100 characters. */
  function ValidatePassword(p: Option<string>): (r: bool)
    ensures r <==> p.Some? && 1 <= |p.value| <= 100
  {
    match p
    case Some(s) => |s| > 0 && |s| <= 100
    case None => false
  }

  // ---------------------------------------------------------------------
  // Session

  /** `SessionManager.create`: a session for two hours from now, logged. */
  function CreateSession(st: AuthState, username: string, now: int): (r: AuthState)
    ensures r.session.Some? && r.session.value.username == username
    ensures r.session.value.expires == now + SessionDuration && r.session.value.lastActivity == now
    ensures r.logs == LogEvent(st.logs, LogEntry(now, SessionCreated(username)))
    ensures r.attempts == st.attempts && r.lastAttempt == st.lastAttempt && r.blockUntil == st.blockUntil
  {
    st.(session := Some(Session(username, now + SessionDuration, now, now)),
        logs := LogEvent(st.logs, LogEntry(now, SessionCreated(username))))
  }

  /** `SessionManager.clear`: the session is removed, logged when there was one. */
  function ClearSession(st: AuthState, now: int): (r: AuthState)
    ensures r.session.None?
    ensures st.session.None? ==> r == st
    ensures st.session.Some? ==> r.logs == LogEvent(st.logs, LogEntry(now, SessionCleared(st.session.value.username)))
    ensures r.attempts == st.attempts && r.lastAttempt == st.lastAttempt && r.blockUntil == st.blockUntil
  {
    match st.session
    case None => st
    case Some(s) => st.(session := None, logs := LogEvent(st.logs, LogEntry(now, SessionCleared(s.username))))
  }

  /** `SessionManager.validate`: no session is invalid; an expired one or one
      idle for more than 15 minutes is cleared and invalid; otherwise its
      last activity moves to now and it is valid. */
  function ValidateSession(st: AuthState, now: int): (r: (AuthState, bool))
    ensures r.1 <==> st.session.Some? && now <= st.session.value.expires
                     && now - st.session.value.lastActivity <= IdleLimit
    ensures r.1 ==> r.0 == st.(session := Some(st.session.value.(lastActivity := now)))
    ensures !r.1 ==> r.0 == ClearSession(st, now)
  {
    match st.session
    case None => (st, false)
    case Some(s) =>
      if now > s.expires || now - s.lastActivity > IdleLimit then (ClearSession(st, now), false)
      else (st.(session := Some(s.(lastActivity := now))), true)
  }

  /** A fresh session stays valid as long as each check comes within 15
      minutes of the previous one and before the two hours are up. */
  lemma ActiveSessionStaysValid(st: AuthState, username: string, t0: int, t1: int, t2: int)
    requires t0 <= t1 <= t2 && t1 - t0 <= IdleLimit && t2 - t1 <= IdleLimit
    requires t2 <= t0 + SessionDuration
    ensures var s1 := ValidateSession(CreateSession(st, username, t0), t1);
      s1.1 && ValidateSession(s1.0, t2).1
  {
  }

  /** No check succeeds after the two hours, however active the session. */
  lemma NoValidationPastExpiry(st: AuthState, now: int)
    requires st.session.Some? && now > st.session.value.expires
    ensures !ValidateSession(st, now).1 && ValidateSession(st, now).0.session.None?
  {
  }

  // ---------------------------------------------------------------------
  // authenticate

  datatype AuthResult = Refused(minutesLeft: Option<int>) | Rejected | LoggedIn

  /** `authenticate(username, password)`: a refused security check throws
      before anything is recorded (the check's own counter reset stays);
      invalid input or wrong credentials record exactly one failure and a
      log entry; success creates the session, clears the counters and logs. */
  function Authenticate(st: AuthState, now: int, username: Option<string>, password: Option<string>,
                        verify: (string, string) -> bool): (r: (AuthState, AuthResult))
    ensures var (checked, check) := CheckLoginSecurity(st, now);
      (r.1.Refused? <==> !(check.Checked? && check.allowed))
      && (r.1.Refused? ==> r.0 == checked)
    ensures r.1.LoggedIn? <==>
              (CheckLoginSecurity(st, now).1 == Checked(true, MaxLoginAttempts - st.attempts)
               && ValidateUsername(username) && ValidatePassword(password)
               && verify(username.value, password.value))
    ensures r.1.LoggedIn? ==> r.0.attempts == 0 && r.0.blockUntil == 0 && r.0.session.Some?
                              && r.0.session.value.username == username.value
                              && r.0.session.value.expires == now + SessionDuration
                              && |r.0.logs| > 0 && r.0.logs[0].event == LoginSuccess(username.value)
    ensures r.1.Rejected? ==> r.0.attempts == CheckLoginSecurity(st, now).0.attempts + 1
                              && r.0.lastAttempt == now && r.0.session == st.session
    ensures r.1.Rejected? && !(ValidateUsername(username) && ValidatePassword(password)) ==>
              |r.0.logs| > 0 && r.0.logs[0].event == InvalidInput(username)
  {
    var (checked, check) := CheckLoginSecurity(st, now);
    if !(check.Checked? && check.allowed) then
      (checked, Refused(if check.Blocked? then Some(check.minutesLeft) else None))
    else if !ValidateUsername(username) || !ValidatePassword(password) then
      var failed := RecordFailedAttempt(checked, now);
      (failed.(logs := LogEvent(failed.logs, LogEntry(now, InvalidInput(username)))), Rejected)
    else if verify(username.value, password.value) then
      var created := ClearSecurityData(CreateSession(checked, username.value, now));
      (created.(logs := LogEvent(created.logs, LogEntry(now, LoginSuccess(username.value)))), LoggedIn)
    else
      var failed := RecordFailedAttempt(checked, now);
      (failed.(logs := LogEvent(failed.logs, LogEntry(now, LoginFailed(username.value)))), Rejected)
  }

  /** Five wrong passwords in a row from a clean state, each within 15
      minutes of the previous one, lock the next login out. */
  lemma FiveFailuresLockOut(logs: seq<LogEntry>, u: string, p: string, verify: (string, string) -> bool, t: int)
    requires ValidateUsername(Some(u)) && ValidatePassword(Some(p)) && !verify(u, p)
    requires t >= AttemptWindow
    ensures var s0 := AuthState(0, 0, 0, None, logs);
      var s1 := Authenticate(s0, t, Some(u), Some(p), verify).0;
      var s2 := Authenticate(s1, t, Some(u), Some(p), verify).0;
      var s3 := Authenticate(s2, t, Some(u), Some(p), verify).0;
      var s4 := Authenticate(s3, t, Some(u), Some(p), verify).0;
      var s5 := Authenticate(s4, t, Some(u), Some(p), verify).0;
      s5.attempts == 5 && s5.blockUntil == t + LockoutDuration
      && Authenticate(s5, t + 1, Some(u), Some(p), verify).1.Refused?
  {
  }
}
