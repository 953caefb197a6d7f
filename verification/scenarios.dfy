/** Properties that span several handlers: the order a fresh message is
    listed in, what logging out does and does not stop, and what a channel
    creator may do to the member list. */
module Scenarios {
  import opened Wrappers
  import opened Types
  import opened Storage
  import opened Replies
  import opened Subscriptions
  import opened Ordering
  import Seqs
  import Auth
  import Channels
  import Messaging

  /** A member's message sent with a timestamp strictly newer than every
      stored message of the channel is the first one a default listing
      returns afterwards. */
  lemma SentMessageListedFirst(s: Store, reg: Registry, token: string, channelId: string, content: string,
                               freshId: string, createdAt: int, updatedAt: int, failing: set<Endpoint>)
    requires freshId !in s.messages.entries
    requires forall id | id in s.messages.entries && s.messages.entries[id].channelId == channelId ::
      s.messages.entries[id].createdAt < createdAt
    ensures var o := Messaging.SendMessage(s, reg, token, channelId, content, freshId, createdAt, updatedAt, failing);
      o.reply.Ok? ==>
        var l := Messaging.ListMessages(o.store, token, channelId, None, None).1;
        |l| > 0 && l[0] == o.reply.value
  {
    var o := Messaging.SendMessage(s, reg, token, channelId, content, freshId, createdAt, updatedAt, failing);
    Messaging.ListAfterSend(s, reg, token, channelId, content, freshId, createdAt, updatedAt, failing);
    if o.reply.Ok? {
      FreshNewestHeadsPage(s, o.reply.value);
    }
  }

  /** Contrary to "the new message is listed first": when a stored message
      of the channel already carries the send's timestamp (two sends in the
      same millisecond), the stable sort keeps the older one in front. */
  lemma TiedSendIsNotListedFirst(s: Store, reg: Registry, token: string, channelId: string, content: string,
                                 freshId: string, createdAt: int, updatedAt: int, failing: set<Endpoint>,
                                 older: string)
    requires Consistent(s)
    requires freshId !in s.messages.entries
    requires forall id | id in s.messages.entries && s.messages.entries[id].channelId == channelId ::
      s.messages.entries[id].createdAt <= createdAt
    requires older in s.messages.entries
    requires s.messages.entries[older].channelId == channelId && s.messages.entries[older].createdAt == createdAt
    ensures var o := Messaging.SendMessage(s, reg, token, channelId, content, freshId, createdAt, updatedAt, failing);
      o.reply.Ok? ==>
        var l := Messaging.ListMessages(o.store, token, channelId, None, None).1;
        |l| > 0 && l[0] != o.reply.value
  {
    var o := Messaging.SendMessage(s, reg, token, channelId, content, freshId, createdAt, updatedAt, failing);
    Messaging.ListAfterSend(s, reg, token, channelId, content, freshId, createdAt, updatedAt, failing);
    if o.reply.Ok? {
      FreshTiedDoesNotHeadPage(s, o.reply.value, older);
    }
  }

  /** Logging out stops the token from sending at once, but it does not
      touch the subscription registry: a stream opened earlier keeps
      receiving other members' messages until it is cancelled. */
  lemma LogoutStopsSendingNotListening(s: Store, reg: Registry, token: string, other: string,
                                       channelId: string, content: string, freshId: string,
                                       createdAt: int, updatedAt: int, failing: set<Endpoint>, e: Endpoint)
    requires e in Subscribers(reg, channelId) && e !in failing
    ensures var s' := Auth.Logout(s, token).0;
      && Messaging.SendMessage(s', reg, token, channelId, content, freshId, createdAt, updatedAt, failing).reply
         == Err(InvalidToken)
      && var o := Messaging.SendMessage(s', reg, other, channelId, content, freshId, createdAt, updatedAt, failing);
         o.reply.Ok? ==> Delivery(e, Event(MessageSent, o.reply.value)) in o.deliveries
  {
  }

  /** The member list is not kept non-empty: a creator who is the only
      member may remove themself, after which they can no longer read the
      channel, though they still own it. */
  lemma CreatorCanEmptyChannel(s: Store, token: string, channelId: string)
    requires Consistent(s)
    requires Auth.ValidateToken(s, token).user.Some?
    requires GetChannelById(s, channelId).Some?
    requires GetChannelById(s, channelId).value.createdBy == Auth.ValidateToken(s, token).user.value.id
    requires GetChannelById(s, channelId).value.memberIds == [Auth.ValidateToken(s, token).user.value.id]
    ensures var uid := Auth.ValidateToken(s, token).user.value.id;
      var r := Channels.RemoveChannelMember(s, token, channelId, uid);
      && r.1 == Ok(())
      && GetChannelById(r.0, channelId).Some?
      && GetChannelById(r.0, channelId).value.memberIds == []
      && Channels.GetChannel(r.0, token, channelId).1 == Err(NoAccess)
  {
    var user := Auth.ValidateToken(s, token).user.value;
    var r := Channels.RemoveChannelMember(s, token, channelId, user.id);
    Channels.RemoveChannelMemberEffect(s, token, channelId, user.id);
    var c := GetChannelById(s, channelId).value;
    assert Seqs.Without(c.memberIds, user.id) == [];
    assert r.0.sessions == s.sessions && r.0.users == s.users;
    assert Auth.LiveSession(r.0, token, user);
    assert Auth.ValidateToken(r.0, token) == Auth.Validated(r.0, Some(user));
  }
}
