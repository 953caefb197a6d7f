/** The access guard and the authentication service: token validation
    with lazy session invalidation, login, logout and registration.
    bcrypt, uuid and the clock are parameters: `compare(password, hash)`
    stands for `bcrypt.compareSync`, `passwordHash` for the result of
    `bcrypt.hashSync`, `freshId`/`token` for `uuidv4()`, `now` for
    `Date.now()`. */
module Auth {
  import opened Wrappers
  import opened Types
  import opened Storage
  import opened Replies
  import StorageInvariants

  /** `token` names a session whose user exists, is `u`, and is active. */
  ghost predicate LiveSession(s: Store, token: string, u: User) {
    && token in s.sessions
    && s.sessions[token].userId in s.users.entries
    && s.users.entries[s.sessions[token].userId] == u
    && u.isActive
  }

  /** The store after a validation, and the caller it resolved to. */
  datatype Validated = Validated(store: Store, user: Option<User>)

  /** `validateToken(token)`: the active user owning the token's session.
      A token without a session is a plain miss that changes nothing; a
      session whose user is missing or inactive is deleted and the call
      fails; a live session is returned untouched. */
  function ValidateToken(s: Store, token: string): (r: Validated)
    ensures r.user.Some? ==> LiveSession(s, token, r.user.value) && r.store == s
    ensures r.user.None? ==> forall u :: !LiveSession(s, token, u)
    ensures token !in s.sessions ==> r == Validated(s, None)
    ensures r.user.None? ==> r.store == s.(sessions := s.sessions - {token})
  {
    match GetSession(s, token)
    case None => Validated(s, None)
    case Some(session) =>
      match GetUserById(s, session.userId)
      case None => Validated(DeleteSession(s, token).0, None)
      case Some(user) =>
        if !user.isActive then Validated(DeleteSession(s, token).0, None)
        else Validated(s, Some(user))
  }

  /** Validation is idempotent: repeating it gives the same caller and the
      same store, so after an invalidation the next call is a plain miss. */
  lemma ValidateTokenIdempotent(s: Store, token: string)
    ensures var v := ValidateToken(s, token);
      ValidateToken(v.store, token) == v
  {
    var v := ValidateToken(s, token);
    if v.user.None? {
      assert token !in v.store.sessions;
    }
  }

  /** Validation only ever drops the presented token's session, so it keeps
      every index of the store consistent. */
  lemma ValidateTokenPreservesConsistency(s: Store, token: string)
    requires Consistent(s)
    ensures Consistent(ValidateToken(s, token).store)
  {
    StorageInvariants.SessionChangesKeepConsistent(s, Session(token, "", 0), token);
  }

  // ---------------------------------------------------------------- login

  /** What a successful login hands back: the new token and the user. */
  datatype LoginResult = LoginResult(token: string, user: PublicUser)

  /** `authService.login`: an unknown username and a wrong password fail
      alike; an inactive user with the right password fails as deactivated;
      only a successful login stores a session, exactly one, under the fresh
      token and for that user. */
  function Login(s: Store, username: string, password: string,
                 compare: (string, string) -> bool, token: string, now: int)
    : (r: (Store, Reply<LoginResult>))
    ensures r.1 == Err(BadCredentials) <==>
      (username !in s.usersByUsername || !compare(password, s.usersByUsername[username].passwordHash))
    ensures r.1 == Err(Deactivated) <==>
      (&& username in s.usersByUsername
       && compare(password, s.usersByUsername[username].passwordHash)
       && !s.usersByUsername[username].isActive)
    ensures r.1.Err? ==> r.0 == s
    ensures r.1.Ok? ==>
      var u := s.usersByUsername[username];
      && r.1.value == LoginResult(token, Public(u))
      && r.0.sessions == s.sessions[token := Session(token, u.id, now)]
      && r.0 == AddSession(s, Session(token, u.id, now))
    ensures r.1.Err? ==> r.1.failure == BadCredentials || r.1.failure == Deactivated
  {
    match GetUserByUsername(s, username)
    case None => (s, Err(BadCredentials))
    case Some(user) =>
      if !compare(password, user.passwordHash) then (s, Err(BadCredentials))
      else if !user.isActive then (s, Err(Deactivated))
      else
        var session := Session(token, user.id, now);
        (AddSession(s, session), Ok(LoginResult(token, Public(user))))
  }

  /** A successful login with a token not yet in use grows the session
      table by exactly one entry. */
  lemma LoginAddsOneSession(s: Store, username: string, password: string,
                            compare: (string, string) -> bool, token: string, now: int)
    requires token !in s.sessions
    ensures var r := Login(s, username, password, compare, token, now);
      r.1.Ok? ==> |r.0.sessions| == |s.sessions| + 1
  {
  }

  /** Login stores a session under its own token, so consistency is kept. */
  lemma LoginPreservesConsistency(s: Store, username: string, password: string,
                                  compare: (string, string) -> bool, token: string, now: int)
    requires Consistent(s)
    ensures Consistent(Login(s, username, password, compare, token, now).0)
  {
    if username in s.usersByUsername {
      var u := s.usersByUsername[username];
      StorageInvariants.SessionChangesKeepConsistent(s, Session(token, u.id, now), token);
    }
  }

  // --------------------------------------------------------------- logout

  /** `authService.logout`: always reports success; afterwards the token
      has no session and every other session is untouched. */
  function Logout(s: Store, token: string): (r: (Store, bool))
    ensures r.1
    ensures GetSession(r.0, token) == None
    ensures forall t | t != token :: GetSession(r.0, t) == GetSession(s, t)
    ensures r.0.users == s.users && r.0.usersByUsername == s.usersByUsername
    ensures r.0.channels == s.channels && r.0.messages == s.messages
  {
    (DeleteSession(s, token).0, true)
  }

  // ------------------------------------------------------- validate (RPC)

  /** The `{valid, user}` reply of the validation RPC. */
  datatype TokenStatus = TokenStatus(valid: bool, user: Option<PublicUser>)

  /** `authService.validateToken`: the same check and the same lazy
      invalidation as the helper, reported as `{valid, user}`. */
  function ValidateTokenRpc(s: Store, token: string): (r: (Store, TokenStatus))
    ensures r.1.valid <==> exists u :: LiveSession(s, token, u)
    ensures r.1.valid ==> (r.0 == s && r.1.user.Some?
                           && exists u :: LiveSession(s, token, u) && r.1.user.value == Public(u))
    ensures !r.1.valid ==> r.1.user == None && r.0 == s.(sessions := s.sessions - {token})
  {
    var v := ValidateToken(s, token);
    match v.user
    case None => (v.store, TokenStatus(false, None))
    case Some(u) => (v.store, TokenStatus(true, Some(Public(u))))
  }

  // ------------------------------------------------------------- register

  /** `displayName || username`: an absent or empty display name falls
      back to the username. */
  function DisplayNameOr(displayName: Option<string>, username: string): (n: string)
    ensures n == username || (displayName.Some? && n == displayName.value && n != "")
    ensures displayName.Some? && displayName.value != "" ==> n == displayName.value
  {
    if displayName.Some? && displayName.value != "" then displayName.value else username
  }

  /** `authService.register`: a taken username fails and changes nothing;
      otherwise a new active user is stored under the fresh id, with the
      display name defaulting to the username. */
  function Register(s: Store, username: string, displayName: Option<string>,
                    freshId: string, passwordHash: string, now: int)
    : (r: (Store, Reply<PublicUser>))
    ensures GetUserByUsername(s, username).Some? <==> r.1 == Err(UsernameTaken)
    ensures GetUserByUsername(s, username).None? ==> r.1.Ok?
    ensures r.1.Err? ==> r.0 == s
    ensures r.1.Ok? ==>
      var u := User(freshId, username, passwordHash, DisplayNameOr(displayName, username), now, true);
      && GetUserByUsername(r.0, username) == Some(u)
      && GetUserById(r.0, freshId) == Some(u)
      && r.1.value == Public(u)
      && r.0 == AddUser(s, u)
  {
    if GetUserByUsername(s, username).Some? then (s, Err(UsernameTaken))
    else
      var user := User(freshId, username, passwordHash, DisplayNameOr(displayName, username), now, true);
      (AddUser(s, user), Ok(Public(user)))
  }

  /** Registration keeps usernames unique and both user indexes in step,
      provided the generated id is not already in use. */
  lemma RegisterPreservesConsistency(s: Store, username: string, displayName: Option<string>,
                                     freshId: string, passwordHash: string, now: int)
    requires Consistent(s)
    requires freshId !in s.users.entries
    ensures Consistent(Register(s, username, displayName, freshId, passwordHash, now).0)
  {
    var u := User(freshId, username, passwordHash, DisplayNameOr(displayName, username), now, true);
    if username !in s.usersByUsername {
      StorageInvariants.AddFreshUserKeepsConsistent(s, u);
    }
  }
}
