/** The user service: listing and reading profiles for any authenticated
    caller, and self-only profile and account changes. Every handler first
    validates the caller's token, then (for changes) compares the caller's
    id with the target id before looking the target up. */
module Users {
  import opened Wrappers
  import opened Types
  import opened Storage
  import opened Replies
  import Auth
  import StorageInvariants

  /** `userService.listUsers`: empty for an invalid token; otherwise every
      stored user, in insertion order, without its password hash. */
  function ListUsers(s: Store, token: string): (r: (Store, seq<PublicUser>))
    ensures var v := Auth.ValidateToken(s, token);
      && r.0 == v.store
      && (v.user.None? ==> r.1 == [])
      && (v.user.Some? ==>
            && |r.1| == |s.users.entries|
            && (forall id | id in s.users.entries :: Public(s.users.entries[id]) in r.1)
            && (forall p | p in r.1 :: exists id | id in s.users.entries :: Public(s.users.entries[id]) == p))
  {
    var v := Auth.ValidateToken(s, token);
    match v.user
    case None => (v.store, [])
    case Some(_) =>
      var all := GetAllUsers(v.store);
      var r := seq(|all|, i requires 0 <= i < |all| => Public(all[i]));
      assert forall id | id in s.users.entries :: Public(s.users.entries[id]) in r by {
        forall id | id in s.users.entries ensures Public(s.users.entries[id]) in r {
          var u := s.users.entries[id];
          assert u in all;
          var i :| 0 <= i < |all| && all[i] == u;
          assert r[i] == Public(u);
        }
      }
      (v.store, r)
  }

  /** `userService.getUser`: any authenticated caller may read any existing
      user; an unknown id is reported as not found. Nothing is written. */
  function GetUser(s: Store, token: string, userId: string): (r: (Store, Reply<PublicUser>))
    ensures var v := Auth.ValidateToken(s, token);
      && r.0 == v.store
      && (v.user.None? <==> r.1 == Err(InvalidToken))
      && (v.user.Some? && GetUserById(s, userId).None? ==> r.1 == Err(UserNotFound))
      && (v.user.Some? && GetUserById(s, userId).Some? ==> r.1 == Ok(Public(GetUserById(s, userId).value)))
  {
    var v := Auth.ValidateToken(s, token);
    match v.user
    case None => (v.store, Err(InvalidToken))
    case Some(_) =>
      match GetUserById(v.store, userId)
      case None => (v.store, Err(UserNotFound))
      case Some(user) => (v.store, Ok(Public(user)))
  }

  /** The self-service gate: the token must be valid, and then the caller
      must be acting on their own id; the target is not looked up yet. */
  function SelfCheck(s: Store, token: string, userId: string, action: SelfAction): (r: Reply<User>)
    ensures r == Err(InvalidToken) <==> Auth.ValidateToken(s, token).user.None?
    ensures r == Err(NotSelf(action)) <==>
      (Auth.ValidateToken(s, token).user.Some? && Auth.ValidateToken(s, token).user.value.id != userId)
    ensures r.Ok? ==> Auth.ValidateToken(s, token).user == Some(r.value) && r.value.id == userId
  {
    match Auth.ValidateToken(s, token).user
    case None => Err(InvalidToken)
    case Some(user) => if user.id != userId then Err(NotSelf(action)) else Ok(user)
  }

  /** `userService.updateUser`: self-only, checked before the lookup; on
      success only the display name of that user changes. */
  function UpdateUser(s: Store, token: string, userId: string, displayName: string)
    : (r: (Store, Reply<PublicUser>))
    ensures var v := Auth.ValidateToken(s, token);
      && (SelfCheck(s, token, userId, UpdateProfile).Err? ==>
            r == (v.store, Err(SelfCheck(s, token, userId, UpdateProfile).failure)))
      && (SelfCheck(s, token, userId, UpdateProfile).Ok? && GetUserById(s, userId).None? ==>
            r == (v.store, Err(UserNotFound)))
      && (SelfCheck(s, token, userId, UpdateProfile).Ok? && GetUserById(s, userId).Some? ==> r.1.Ok?)
      && (r.1.Ok? ==>
            && GetUserById(s, userId).Some?
            && var updated := GetUserById(s, userId).value.(displayName := displayName);
            && r.1.value == Public(updated)
            && r.0 == Storage.UpdateUser(s, updated))
  {
    var v := Auth.ValidateToken(s, token);
    match SelfCheck(s, token, userId, UpdateProfile)
    case Err(f) => (v.store, Err(f))
    case Ok(_) =>
      match GetUserById(v.store, userId)
      case None => (v.store, Err(UserNotFound))
      case Some(user) =>
        var updated := user.(displayName := displayName);
        (Storage.UpdateUser(v.store, updated), Ok(Public(updated)))
  }

  /** `userService.deleteUser`: self-only; reports not found, changing
      nothing, when the storage delete reports false. */
  function DeleteUser(s: Store, token: string, userId: string): (r: (Store, Reply<()>))
    ensures var v := Auth.ValidateToken(s, token);
      && (SelfCheck(s, token, userId, DeleteAccount).Err? ==>
            r == (v.store, Err(SelfCheck(s, token, userId, DeleteAccount).failure)))
      && (SelfCheck(s, token, userId, DeleteAccount).Ok? && GetUserById(s, userId).None? ==>
            r == (v.store, Err(UserNotFound)))
      && (SelfCheck(s, token, userId, DeleteAccount).Ok? && GetUserById(s, userId).Some? ==> r.1.Ok?)
      && (r.1.Ok? ==>
            && GetUserById(s, userId).Some?
            && GetUserById(r.0, userId) == None
            && GetUserByUsername(r.0, GetUserById(s, userId).value.username) == None
            && r.0 == Storage.DeleteUser(s, userId).0)
  {
    var v := Auth.ValidateToken(s, token);
    match SelfCheck(s, token, userId, DeleteAccount)
    case Err(f) => (v.store, Err(f))
    case Ok(_) =>
      var (store, deleted) := Storage.DeleteUser(v.store, userId);
      if !deleted then (v.store, Err(UserNotFound)) else (store, Ok(()))
  }

  /** `userService.setUserActive`: self-only; on success only the active
      flag of that user changes. */
  function SetUserActive(s: Store, token: string, userId: string, isActive: bool)
    : (r: (Store, Reply<()>))
    ensures var v := Auth.ValidateToken(s, token);
      && (SelfCheck(s, token, userId, ChangeAccount).Err? ==>
            r == (v.store, Err(SelfCheck(s, token, userId, ChangeAccount).failure)))
      && (SelfCheck(s, token, userId, ChangeAccount).Ok? && GetUserById(s, userId).None? ==>
            r == (v.store, Err(UserNotFound)))
      && (SelfCheck(s, token, userId, ChangeAccount).Ok? && GetUserById(s, userId).Some? ==> r.1.Ok?)
      && (r.1.Ok? ==>
            && GetUserById(s, userId).Some?
            && r.0 == Storage.UpdateUser(s, GetUserById(s, userId).value.(isActive := isActive)))
  {
    var v := Auth.ValidateToken(s, token);
    match SelfCheck(s, token, userId, ChangeAccount)
    case Err(f) => (v.store, Err(f))
    case Ok(_) =>
      match GetUserById(v.store, userId)
      case None => (v.store, Err(UserNotFound))
      case Some(user) => (Storage.UpdateUser(v.store, user.(isActive := isActive)), Ok(()))
  }

  /** A caller who is not the target is refused every account change, and
      nothing in the store changes. */
  lemma OthersCannotChangeAccount(s: Store, token: string, userId: string, displayName: string, isActive: bool)
    requires Auth.ValidateToken(s, token).user.Some?
    requires Auth.ValidateToken(s, token).user.value.id != userId
    ensures UpdateUser(s, token, userId, displayName) == (s, Err(NotSelf(UpdateProfile)))
    ensures DeleteUser(s, token, userId) == (s, Err(NotSelf(DeleteAccount)))
    ensures SetUserActive(s, token, userId, isActive) == (s, Err(NotSelf(ChangeAccount)))
  {
  }

  /** In a consistent store a profile update touches nothing but the
      caller's display name: other users, sessions, channels and messages
      (whose `username` was copied at send time) stay as they were. */
  lemma UpdateUserChangesOnlyDisplayName(s: Store, token: string, userId: string, displayName: string)
    requires Consistent(s)
    ensures var r := UpdateUser(s, token, userId, displayName);
      r.1.Ok? ==>
        && GetUserById(s, userId).Some?
        && GetUserById(r.0, userId) == Some(GetUserById(s, userId).value.(displayName := displayName))
        && (forall id | id != userId :: GetUserById(r.0, id) == GetUserById(s, id))
        && r.0.sessions == s.sessions && r.0.channels == s.channels && r.0.messages == s.messages
  {
    var r := UpdateUser(s, token, userId, displayName);
    if r.1.Ok? {
      assert s.users.entries[userId].id == userId;
    }
  }

  /** Once a user deactivates their account, every session of theirs is
      refused by the next validation, which also deletes it. */
  lemma DeactivationRevokesSessions(s: Store, token: string, userId: string, t: string)
    requires Consistent(s)
    requires SetUserActive(s, token, userId, false).1.Ok?
    requires t in s.sessions && s.sessions[t].userId == userId
    ensures var s' := SetUserActive(s, token, userId, false).0;
      && Auth.ValidateToken(s', t).user == None
      && t !in Auth.ValidateToken(s', t).store.sessions
  {
    var s' := SetUserActive(s, token, userId, false).0;
    assert s.users.entries[userId].id == userId;
    assert s'.users.entries[userId].isActive == false;
  }

  /** Once a user deletes their account, every session of theirs is refused
      by the next validation, which also deletes it. */
  lemma DeletionRevokesSessions(s: Store, token: string, userId: string, t: string)
    requires DeleteUser(s, token, userId).1.Ok?
    requires t in s.sessions && s.sessions[t].userId == userId
    ensures var s' := DeleteUser(s, token, userId).0;
      && Auth.ValidateToken(s', t).user == None
      && t !in Auth.ValidateToken(s', t).store.sessions
  {
  }

  /** Every user handler keeps the store consistent. */
  lemma UserHandlersPreserveConsistency(s: Store, token: string, userId: string, displayName: string, isActive: bool)
    requires Consistent(s)
    ensures Consistent(UpdateUser(s, token, userId, displayName).0)
    ensures Consistent(DeleteUser(s, token, userId).0)
    ensures Consistent(SetUserActive(s, token, userId, isActive).0)
  {
    Auth.ValidateTokenPreservesConsistency(s, token);
    UpdateKeepsConsistent(s, token, userId, displayName);
    DeleteKeepsConsistent(s, token, userId);
    SetActiveKeepsConsistent(s, token, userId, isActive);
  }

  lemma UpdateKeepsConsistent(s: Store, token: string, userId: string, displayName: string)
    requires Consistent(s)
    ensures Consistent(UpdateUser(s, token, userId, displayName).0)
  {
    var r := UpdateUser(s, token, userId, displayName);
    if r.1.Ok? {
      StorageInvariants.UpdateUserKeepsConsistent(s, s.users.entries[userId].(displayName := displayName));
    } else {
      Auth.ValidateTokenPreservesConsistency(s, token);
    }
  }

  lemma DeleteKeepsConsistent(s: Store, token: string, userId: string)
    requires Consistent(s)
    ensures Consistent(DeleteUser(s, token, userId).0)
  {
    var r := DeleteUser(s, token, userId);
    if r.1.Ok? {
      StorageInvariants.DeleteUserKeepsConsistent(s, userId);
    } else {
      Auth.ValidateTokenPreservesConsistency(s, token);
    }
  }

  lemma SetActiveKeepsConsistent(s: Store, token: string, userId: string, isActive: bool)
    requires Consistent(s)
    ensures Consistent(SetUserActive(s, token, userId, isActive).0)
  {
    var r := SetUserActive(s, token, userId, isActive);
    if r.1.Ok? {
      StorageInvariants.UpdateUserKeepsConsistent(s, s.users.entries[userId].(isActive := isActive));
    } else {
      Auth.ValidateTokenPreservesConsistency(s, token);
    }
  }
}
