/** The messaging service: send, list and delete messages, and subscribe
    to a channel's live events. Sends and deletes report failures loudly;
    list and subscribe fail softly (an empty list, an ended stream). A
    successful send or delete broadcasts through the subscription registry;
    a failed write to one subscriber never changes the reply. */
module Messaging {
  import opened Wrappers
  import opened Types
  import opened Storage
  import opened Replies
  import opened Subscriptions
  import opened Ordering
  import Auth
  import Channels
  import StorageInvariants

  /** The store after a send or delete, the reply, and the writes that
      reached a subscriber. */
  datatype Outcome<T> = Outcome(store: Store, reply: Reply<T>, deliveries: set<Delivery>)

  // ---------------------------------------------------------------- send

  /** `messageService.sendMessage`: fails, storing and broadcasting
      nothing, on an invalid token, then on a missing channel, then on a
      caller who is not a member. Otherwise it stores a message of the
      caller with their display name as of now, and pushes a sent event
      carrying it to exactly the channel's subscribers whose write succeeds.
      `createdAt` and `updatedAt` are two separate clock readings. */
  function SendMessage(s: Store, reg: Registry, token: string, channelId: string, content: string,
                       freshId: string, createdAt: int, updatedAt: int, failing: set<Endpoint>)
    : (r: Outcome<Message>)
    ensures var v := Auth.ValidateToken(s, token);
      && (v.user.None? <==> r.reply == Err(InvalidToken))
      && (v.user.Some? && r.reply.Err? ==> Channels.Authorize(s, v.user.value, channelId) == Err(r.reply.failure))
      && (r.reply.Err? ==> r.store == v.store && r.deliveries == {})
      && (r.reply.Ok? ==>
            var m := r.reply.value;
            && Channels.Authorize(s, v.user.value, channelId).Ok?
            && m == Message(freshId, channelId, v.user.value.id, v.user.value.displayName,
                            content, createdAt, updatedAt)
            && r.store == AddMessage(s, m)
            && (forall d | d in r.deliveries :: d.event == Event(MessageSent, m))
            && (forall e :: Delivery(e, Event(MessageSent, m)) in r.deliveries <==>
                  e in Subscribers(reg, channelId) && e !in failing))
  {
    var v := Auth.ValidateToken(s, token);
    match v.user
    case None => Outcome(v.store, Err(InvalidToken), {})
    case Some(user) =>
      match Channels.Authorize(v.store, user, channelId)
      case Err(f) => Outcome(v.store, Err(f), {})
      case Ok(_) =>
        var message := Message(freshId, channelId, user.id, user.displayName, content, createdAt, updatedAt);
        var deliveries := Notify(reg, channelId, Event(MessageSent, message), failing);
        Outcome(AddMessage(v.store, message), Ok(message), deliveries)
  }

  // ---------------------------------------------------------------- list

  /** `limit || 100`: an absent or zero limit means 100; any other value,
      negative ones included, is passed on. */
  function EffectiveLimit(limit: Option<int>): (n: int)
    ensures n != 0
    ensures limit.None? || limit.value == 0 ==> n == 100
    ensures limit.Some? && limit.value != 0 ==> n == limit.value
  {
    if limit.Some? && limit.value != 0 then limit.value else 100
  }

  /** `before || undefined`: zero means no cutoff. */
  function EffectiveBefore(before: Option<int>): (b: Option<int>)
    ensures HasCutoff(b) <==> HasCutoff(before)
    ensures HasCutoff(b) ==> b == before
  {
    if before.Some? && before.value != 0 then before else None
  }

  /** `messageService.listMessages`: an empty list for an invalid token, a
      missing channel or a non-member; otherwise the newest messages of the
      channel, older than a non-zero `before`, at most `limit` of them (100
      when `limit` is absent or zero). */
  function ListMessages(s: Store, token: string, channelId: string, limit: Option<int>, before: Option<int>)
    : (r: (Store, seq<Message>))
    ensures var v := Auth.ValidateToken(s, token);
      && r.0 == v.store
      && (v.user.None? || Channels.Authorize(s, v.user.value, channelId).Err? ==> r.1 == [])
      && (v.user.Some? && Channels.Authorize(s, v.user.value, channelId).Ok? ==>
            r.1 == GetMessagesByChannelId(s, channelId, EffectiveLimit(limit), EffectiveBefore(before)))
      && (forall i | 0 <= i < |r.1| :: r.1[i].channelId == channelId)
      && (HasCutoff(before) ==> forall i | 0 <= i < |r.1| :: r.1[i].createdAt < before.value)
      && (0 <= EffectiveLimit(limit) ==> |r.1| <= EffectiveLimit(limit))
      && NewestFirst(r.1)
  {
    var v := Auth.ValidateToken(s, token);
    match v.user
    case None => (v.store, [])
    case Some(user) =>
      match Channels.Authorize(v.store, user, channelId)
      case Err(_) => (v.store, [])
      case Ok(_) => (v.store, GetMessagesByChannelId(v.store, channelId, EffectiveLimit(limit), EffectiveBefore(before)))
  }

  // ----------------------------------------------------------- subscribe

  /** `messageService.subscribeMessages`: on an invalid token, a missing
      channel or a non-member the stream is ended and the registry is left
      alone; otherwise the endpoint joins the channel's entry, which is
      created if absent. Returns whether the endpoint was attached. */
  function Subscribe(s: Store, reg: Registry, token: string, channelId: string, e: Endpoint)
    : (r: (Store, Registry, bool))
    ensures var v := Auth.ValidateToken(s, token);
      && r.0 == v.store
      && (r.2 <==> v.user.Some? && Channels.Authorize(s, v.user.value, channelId).Ok?)
      && (!r.2 ==> r.1 == reg)
      && (r.2 ==> && Subscribers(r.1, channelId) == Subscribers(reg, channelId) + {e}
                  && forall c | c != channelId :: Subscribers(r.1, c) == Subscribers(reg, c))
      && (NoEmptyEntries(reg) ==> NoEmptyEntries(r.1))
  {
    var v := Auth.ValidateToken(s, token);
    match v.user
    case None => (v.store, reg, false)
    case Some(user) =>
      match Channels.Authorize(v.store, user, channelId)
      case Err(_) => (v.store, reg, false)
      case Ok(_) => (v.store, Attach(reg, channelId, e), true)
  }

  // -------------------------------------------------------------- delete

  /** `messageService.deleteMessage`: fails, changing and broadcasting
      nothing, on an invalid token, a missing message, or a caller who is
      not its author. Otherwise the message is removed and a deleted event
      carrying its last state goes to its channel's subscribers. */
  function DeleteMessage(s: Store, reg: Registry, token: string, messageId: string, failing: set<Endpoint>)
    : (r: Outcome<()>)
    ensures var v := Auth.ValidateToken(s, token);
      && (v.user.None? <==> r.reply == Err(InvalidToken))
      && (v.user.Some? && GetMessageById(s, messageId).None? ==> r.reply == Err(MessageNotFound))
      && (v.user.Some? && GetMessageById(s, messageId).Some? ==>
            (r.reply == Err(NotAuthor) <==> GetMessageById(s, messageId).value.userId != v.user.value.id))
      && (v.user.Some? && GetMessageById(s, messageId).Some?
            && GetMessageById(s, messageId).value.userId == v.user.value.id
          ==> r.reply.Ok?)
      && (r.reply.Err? ==> r.store == v.store && r.deliveries == {})
      && (r.reply.Ok? ==>
            && GetMessageById(s, messageId).Some?
            && var m := GetMessageById(s, messageId).value;
            && m.userId == v.user.value.id
            && r.store == Storage.DeleteMessage(s, messageId).0
            && GetMessageById(r.store, messageId) == None
            && (forall id | id != messageId :: GetMessageById(r.store, id) == GetMessageById(s, id))
            && (forall d | d in r.deliveries :: d.event == Event(MessageDeleted, m))
            && (forall e :: Delivery(e, Event(MessageDeleted, m)) in r.deliveries <==>
                  e in Subscribers(reg, m.channelId) && e !in failing))
  {
    var v := Auth.ValidateToken(s, token);
    match v.user
    case None => Outcome(v.store, Err(InvalidToken), {})
    case Some(user) =>
      match GetMessageById(v.store, messageId)
      case None => Outcome(v.store, Err(MessageNotFound), {})
      case Some(message) =>
        if message.userId != user.id then Outcome(v.store, Err(NotAuthor), {})
        else
          var deliveries := Notify(reg, message.channelId, Event(MessageDeleted, message), failing);
          Outcome(Storage.DeleteMessage(v.store, messageId).0, Ok(()), deliveries)
  }

  // -------------------------------------------------------------- lemmas

  /** Sends and deletes keep the store consistent. */
  lemma MessageHandlersPreserveConsistency(s: Store, reg: Registry, token: string, channelId: string,
                                           content: string, freshId: string, createdAt: int, updatedAt: int,
                                           messageId: string, failing: set<Endpoint>)
    requires Consistent(s)
    ensures Consistent(SendMessage(s, reg, token, channelId, content, freshId, createdAt, updatedAt, failing).store)
    ensures Consistent(DeleteMessage(s, reg, token, messageId, failing).store)
  {
    SendKeepsConsistent(s, reg, token, channelId, content, freshId, createdAt, updatedAt, failing);
    DeleteKeepsConsistent(s, reg, token, messageId, failing);
  }

  lemma SendKeepsConsistent(s: Store, reg: Registry, token: string, channelId: string, content: string,
                            freshId: string, createdAt: int, updatedAt: int, failing: set<Endpoint>)
    requires Consistent(s)
    ensures Consistent(SendMessage(s, reg, token, channelId, content, freshId, createdAt, updatedAt, failing).store)
  {
    var v := Auth.ValidateToken(s, token);
    Auth.ValidateTokenPreservesConsistency(s, token);
    if v.user.Some? {
      var user := v.user.value;
      StorageInvariants.MessageChangesKeepConsistent(
        v.store, Message(freshId, channelId, user.id, user.displayName, content, createdAt, updatedAt), "");
    }
  }

  lemma DeleteKeepsConsistent(s: Store, reg: Registry, token: string, messageId: string, failing: set<Endpoint>)
    requires Consistent(s)
    ensures Consistent(DeleteMessage(s, reg, token, messageId, failing).store)
  {
    var v := Auth.ValidateToken(s, token);
    Auth.ValidateTokenPreservesConsistency(s, token);
    if v.user.Some? {
      var user := v.user.value;
      StorageInvariants.MessageChangesKeepConsistent(
        v.store, Message("", "", user.id, user.displayName, "", 0, 0), messageId);
    }
  }

  /** A delete by anyone but the author fails as such and the message can
      still be read back afterwards. */
  lemma OnlyAuthorDeletes(s: Store, reg: Registry, token: string, messageId: string, failing: set<Endpoint>)
    requires Auth.ValidateToken(s, token).user.Some?
    requires GetMessageById(s, messageId).Some?
    requires GetMessageById(s, messageId).value.userId != Auth.ValidateToken(s, token).user.value.id
    ensures var r := DeleteMessage(s, reg, token, messageId, failing);
      && r.reply == Err(NotAuthor)
      && r.reply.ErrorMessage() == "自分のメッセージのみ削除できます"
      && GetMessageById(r.store, messageId) == GetMessageById(s, messageId)
      && r.deliveries == {}
  {
  }

  /** After a successful send the same caller's default listing is the
      store query over the store that now holds the new message. */
  lemma ListAfterSend(s: Store, reg: Registry, token: string, channelId: string, content: string,
                      freshId: string, createdAt: int, updatedAt: int, failing: set<Endpoint>)
    ensures var o := SendMessage(s, reg, token, channelId, content, freshId, createdAt, updatedAt, failing);
      o.reply.Ok? ==>
        && o.reply.value.id == freshId
        && o.reply.value.channelId == channelId
        && o.reply.value.createdAt == createdAt
        && o.store == AddMessage(s, o.reply.value)
        && ListMessages(o.store, token, channelId, None, None).1
           == GetMessagesByChannelId(o.store, channelId, 100, None)
  {
    var o := SendMessage(s, reg, token, channelId, content, freshId, createdAt, updatedAt, failing);
    if o.reply.Ok? {
      var user := Auth.ValidateToken(s, token).user.value;
      var t := o.store;
      assert t.sessions == s.sessions && t.users == s.users && t.channels == s.channels;
      assert Auth.LiveSession(t, token, user);
      assert Auth.ValidateToken(t, token) == Auth.Validated(t, Some(user));
      assert Channels.Authorize(t, user, channelId) == Channels.Authorize(s, user, channelId);
    }
  }
}
