/** The whole backend as one state machine: the store and the subscription
    registry, advanced by one request at a time (Node runs the handlers
    one after another). Each step's outside inputs, which the handlers read
    from uuid, the clock and bcrypt, come in an `Env`. */
module Server {
  import opened Wrappers
  import opened Types
  import opened Storage
  import opened Subscriptions
  import StorageInvariants
  import Auth
  import Channels
  import Messaging
  import Users

  datatype State = State(store: Store, registry: Registry)

  /** The outside inputs of one step: the next generated id or token, two
      clock readings, the hash `bcrypt.hashSync` would produce, the password
      check, and the subscribers whose stream write throws. */
  datatype Env = Env(freshId: string, now: int, later: int, passwordHash: string,
                     compare: (string, string) -> bool, failing: set<Endpoint>)

  /** One call of a service handler, or a stream's cancellation. */
  datatype Request =
    | Login(username: string, password: string)
    | Logout(token: string)
    | ValidateToken(token: string)
    | Register(username: string, displayName: Option<string>)
    | CreateChannel(token: string, name: string, description: Option<string>, isPrivate: Option<bool>)
    | ListChannels(token: string)
    | GetChannel(token: string, channelId: string)
    | UpdateChannel(token: string, channelId: string, name: string, newDescription: string)
    | DeleteChannel(token: string, channelId: string)
    | AddChannelMember(token: string, channelId: string, userId: string)
    | RemoveChannelMember(token: string, channelId: string, userId: string)
    | SendMessage(token: string, channelId: string, content: string)
    | ListMessages(token: string, channelId: string, limit: Option<int>, before: Option<int>)
    | SubscribeMessages(token: string, channelId: string, endpoint: Endpoint)
    | Cancelled(channelId: string, endpoint: Endpoint)
    | DeleteMessage(token: string, messageId: string)
    | ListUsers(token: string)
    | GetUser(token: string, userId: string)
    | UpdateUser(token: string, userId: string, newDisplayName: string)
    | DeleteUser(token: string, userId: string)
    | SetUserActive(token: string, userId: string, isActive: bool)
  {
    predicate ForAuth() { Login? || Logout? || ValidateToken? || Register? }

    predicate ForChannels() {
      CreateChannel? || ListChannels? || GetChannel? || UpdateChannel? || DeleteChannel?
      || AddChannelMember? || RemoveChannelMember?
    }

    predicate ForMessages() {
      SendMessage? || ListMessages? || SubscribeMessages? || Cancelled? || DeleteMessage?
    }

    /** Requests that only read: they change the store at most by dropping
        the presented token's stale session. */
    predicate ReadOnly() {
      ValidateToken? || ListChannels? || GetChannel? || ListMessages? || SubscribeMessages?
      || ListUsers? || GetUser?
    }
  }

  /** `after` is `before`, or `before` without the session of `token`. */
  ghost predicate AtMostDropsSession(before: Store, after: Store, token: string) {
    after == before || after == before.(sessions := before.sessions - {token})
  }

  /** The auth service's requests. */
  function AuthStep(s: Store, req: Request, env: Env): (r: Store)
    requires req.ForAuth()
    ensures req.ValidateToken? ==> AtMostDropsSession(s, r, req.token)
  {
    match req
    case Login(username, password) => Auth.Login(s, username, password, env.compare, env.freshId, env.now).0
    case Logout(token) => Auth.Logout(s, token).0
    case ValidateToken(token) => Auth.ValidateTokenRpc(s, token).0
    case Register(username, displayName) =>
      Auth.Register(s, username, displayName, env.freshId, env.passwordHash, env.now).0
  }

  /** The channel service's requests. */
  function ChannelStep(s: Store, req: Request, env: Env): (r: Store)
    requires req.ForChannels()
    ensures req.ReadOnly() ==> AtMostDropsSession(s, r, req.token)
  {
    match req
    case CreateChannel(token, name, description, isPrivate) =>
      Channels.CreateChannel(s, token, name, description, isPrivate, env.freshId, env.now).0
    case ListChannels(token) => Channels.ListChannels(s, token).0
    case GetChannel(token, channelId) => Channels.GetChannel(s, token, channelId).0
    case UpdateChannel(token, channelId, name, description) =>
      Channels.UpdateChannel(s, token, channelId, name, description).0
    case DeleteChannel(token, channelId) => Channels.DeleteChannel(s, token, channelId).0
    case AddChannelMember(token, channelId, userId) => Channels.AddChannelMember(s, token, channelId, userId).0
    case RemoveChannelMember(token, channelId, userId) =>
      Channels.RemoveChannelMember(s, token, channelId, userId).0
  }

  /** The message service's requests and stream cancellations: the only
      requests that touch the registry. */
  function MessageStep(st: State, req: Request, env: Env): (r: State)
    requires req.ForMessages()
    ensures !(req.SubscribeMessages? || req.Cancelled?) ==> r.registry == st.registry
    ensures req.ReadOnly() ==> AtMostDropsSession(st.store, r.store, req.token)
    ensures req.Cancelled? ==> r.store == st.store
    ensures NoEmptyEntries(st.registry) ==> NoEmptyEntries(r.registry)
  {
    var s := st.store;
    var reg := st.registry;
    match req
    case SendMessage(token, channelId, content) =>
      State(Messaging.SendMessage(s, reg, token, channelId, content, env.freshId, env.now, env.later,
                                  env.failing).store, reg)
    case ListMessages(token, channelId, limit, before) =>
      State(Messaging.ListMessages(s, token, channelId, limit, before).0, reg)
    case SubscribeMessages(token, channelId, e) =>
      var r := Messaging.Subscribe(s, reg, token, channelId, e);
      State(r.0, r.1)
    case Cancelled(channelId, e) => State(s, Detach(reg, channelId, e))
    case DeleteMessage(token, messageId) =>
      State(Messaging.DeleteMessage(s, reg, token, messageId, env.failing).store, reg)
  }

  /** The user service's requests. */
  function UserStep(s: Store, req: Request): (r: Store)
    requires !req.ForAuth() && !req.ForChannels() && !req.ForMessages()
    ensures req.ReadOnly() ==> AtMostDropsSession(s, r, req.token)
  {
    match req
    case ListUsers(token) => Users.ListUsers(s, token).0
    case GetUser(token, userId) => Users.GetUser(s, token, userId).0
    case UpdateUser(token, userId, displayName) => Users.UpdateUser(s, token, userId, displayName).0
    case DeleteUser(token, userId) => Users.DeleteUser(s, token, userId).0
    case SetUserActive(token, userId, isActive) => Users.SetUserActive(s, token, userId, isActive).0
  }

  /** The state after handling `req`. Only a subscribe or a cancellation
      touches the registry, a read-only request changes nothing in the
      store but the presented token's session, and a cancellation leaves
      the store alone. */
  function Step(st: State, req: Request, env: Env): (r: State)
    ensures !(req.SubscribeMessages? || req.Cancelled?) ==> r.registry == st.registry
    ensures req.ReadOnly() ==> AtMostDropsSession(st.store, r.store, req.token)
    ensures req.Cancelled? ==> r.store == st.store
  {
    if req.ForAuth() then State(AuthStep(st.store, req, env), st.registry)
    else if req.ForChannels() then State(ChannelStep(st.store, req, env), st.registry)
    else if req.ForMessages() then MessageStep(st, req, env)
    else State(UserStep(st.store, req), st.registry)
  }

  /** What every reachable state satisfies: a consistent store, and a
      registry without empty channel entries. */
  ghost predicate Inv(st: State) {
    Consistent(st.store) && NoEmptyEntries(st.registry)
  }

  /** The state before any request. */
  function Init(): (r: State)
    ensures Inv(r)
  {
    State(EmptyStore(), map[])
  }

  /** Whether the step's generated id is unused where the request stores
      it under that id as a new user. */
  ghost predicate FreshFor(st: State, req: Request, env: Env) {
    req.Register? ==> env.freshId !in st.store.users.entries
  }

  /** Every request keeps the invariant, given that a registration's
      generated id is not already a user's. */
  lemma StepPreservesInv(st: State, req: Request, env: Env)
    requires Inv(st)
    requires FreshFor(st, req, env)
    ensures Inv(Step(st, req, env))
  {
    if req.ForAuth() {
      AuthStepKeepsConsistent(st.store, req, env);
    } else if req.ForChannels() {
      ChannelStepKeepsConsistent(st.store, req, env);
    } else if req.ForMessages() {
      MessageStepKeepsConsistent(st, req, env);
    } else {
      UserStepKeepsConsistent(st.store, req);
    }
  }

  lemma AuthStepKeepsConsistent(s: Store, req: Request, env: Env)
    requires Consistent(s)
    requires req.ForAuth()
    requires req.Register? ==> env.freshId !in s.users.entries
    ensures Consistent(AuthStep(s, req, env))
  {
    match req
    case Login(username, password) =>
      Auth.LoginPreservesConsistency(s, username, password, env.compare, env.freshId, env.now);
    case Logout(token) =>
      StorageInvariants.SessionChangesKeepConsistent(s, Session(token, "", 0), token);
    case ValidateToken(token) =>
      StorageInvariants.SessionChangesKeepConsistent(s, Session(token, "", 0), token);
    case Register(username, displayName) =>
      Auth.RegisterPreservesConsistency(s, username, displayName, env.freshId, env.passwordHash, env.now);
  }

  lemma ChannelStepKeepsConsistent(s: Store, req: Request, env: Env)
    requires Consistent(s)
    requires req.ForChannels()
    ensures Consistent(ChannelStep(s, req, env))
  {
    match req
    case CreateChannel(token, name, description, isPrivate) =>
      Channels.CreateKeepsConsistent(s, token, name, description, isPrivate, env.freshId, env.now);
    case ListChannels(token) => Auth.ValidateTokenPreservesConsistency(s, token);
    case GetChannel(token, _) => Auth.ValidateTokenPreservesConsistency(s, token);
    case UpdateChannel(token, channelId, name, description) =>
      Channels.EditsKeepConsistent(s, token, channelId, "", name, description);
    case DeleteChannel(token, channelId) =>
      Channels.EditsKeepConsistent(s, token, channelId, "", "", "");
    case AddChannelMember(token, channelId, userId) =>
      Channels.EditsKeepConsistent(s, token, channelId, userId, "", "");
    case RemoveChannelMember(token, channelId, userId) =>
      Channels.EditsKeepConsistent(s, token, channelId, userId, "", "");
  }

  lemma MessageStepKeepsConsistent(st: State, req: Request, env: Env)
    requires Consistent(st.store)
    requires req.ForMessages()
    ensures Consistent(MessageStep(st, req, env).store)
  {
    var s := st.store;
    match req
    case SendMessage(token, channelId, content) =>
      Messaging.SendKeepsConsistent(s, st.registry, token, channelId, content, env.freshId,
                                    env.now, env.later, env.failing);
    case ListMessages(token, _, _, _) => Auth.ValidateTokenPreservesConsistency(s, token);
    case SubscribeMessages(token, _, _) => Auth.ValidateTokenPreservesConsistency(s, token);
    case Cancelled(_, _) =>
    case DeleteMessage(token, messageId) =>
      Messaging.DeleteKeepsConsistent(s, st.registry, token, messageId, env.failing);
  }

  lemma UserStepKeepsConsistent(s: Store, req: Request)
    requires Consistent(s)
    requires !req.ForAuth() && !req.ForChannels() && !req.ForMessages()
    ensures Consistent(UserStep(s, req))
  {
    match req
    case ListUsers(token) => Auth.ValidateTokenPreservesConsistency(s, token);
    case GetUser(token, _) => Auth.ValidateTokenPreservesConsistency(s, token);
    case UpdateUser(token, userId, displayName) => Users.UpdateKeepsConsistent(s, token, userId, displayName);
    case DeleteUser(token, userId) => Users.DeleteKeepsConsistent(s, token, userId);
    case SetUserActive(token, userId, isActive) => Users.SetActiveKeepsConsistent(s, token, userId, isActive);
  }

  /** The state after handling the requests in order. */
  function Run(st: State, reqs: seq<(Request, Env)>): State
    decreases |reqs|
  {
    if reqs == [] then st else Run(Step(st, reqs[0].0, reqs[0].1), reqs[1..])
  }

  /** Whether every registration along the run gets an unused id. */
  ghost predicate FreshAlong(st: State, reqs: seq<(Request, Env)>)
    decreases |reqs|
  {
    reqs != [] ==>
      && FreshFor(st, reqs[0].0, reqs[0].1)
      && FreshAlong(Step(st, reqs[0].0, reqs[0].1), reqs[1..])
  }

  /** Every state a sequence of requests reaches from a state satisfying
      the invariant satisfies it too, as long as every registration is
      handed an unused id. */
  lemma {:induction false} RunPreservesInv(st: State, reqs: seq<(Request, Env)>)
    requires Inv(st)
    requires FreshAlong(st, reqs)
    ensures Inv(Run(st, reqs))
    decreases |reqs|
  {
    if reqs != [] {
      StepPreservesInv(st, reqs[0].0, reqs[0].1);
      RunPreservesInv(Step(st, reqs[0].0, reqs[0].1), reqs[1..]);
    }
  }
}
