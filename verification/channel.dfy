/** The channel service. Every handler first validates the caller's token
    (which may drop a stale session), then looks the channel up, then checks
    membership (reads) or creatorship (writes), in that order. */
module Channels {
  import opened Wrappers
  import opened Types
  import opened Storage
  import opened Replies
  import Seqs
  import Auth
  import StorageInvariants

  /** Channel access for a read or a post: the channel must exist and list
      the user as a member. */
  function Authorize(s: Store, user: User, channelId: string): (r: Reply<Channel>)
    ensures r == Err(ChannelNotFound) <==> GetChannelById(s, channelId).None?
    ensures r == Err(NoAccess) <==>
      GetChannelById(s, channelId).Some? && user.id !in GetChannelById(s, channelId).value.memberIds
    ensures r.Ok? ==> GetChannelById(s, channelId) == Some(r.value) && user.id in r.value.memberIds
  {
    match GetChannelById(s, channelId)
    case None => Err(ChannelNotFound)
    case Some(channel) =>
      if user.id !in channel.memberIds then Err(NoAccess) else Ok(channel)
  }

  /** Channel access for a change: the channel must exist and have been
      created by the user; membership plays no part. */
  function AuthorizeCreator(s: Store, user: User, channelId: string, action: CreatorAction)
    : (r: Reply<Channel>)
    ensures r == Err(ChannelNotFound) <==> GetChannelById(s, channelId).None?
    ensures r == Err(NotCreator(action)) <==>
      GetChannelById(s, channelId).Some? && GetChannelById(s, channelId).value.createdBy != user.id
    ensures r.Ok? ==> GetChannelById(s, channelId) == Some(r.value) && r.value.createdBy == user.id
  {
    match GetChannelById(s, channelId)
    case None => Err(ChannelNotFound)
    case Some(channel) =>
      if channel.createdBy != user.id then Err(NotCreator(action)) else Ok(channel)
  }

  // ------------------------------------------------------------- create

  /** `channelService.createChannel`: an invalid token stores nothing;
      otherwise a channel created by the caller, with the caller as its only
      member, an empty description and public visibility unless given, is
      stored under the fresh id. */
  function CreateChannel(s: Store, token: string, name: string, description: Option<string>,
                         isPrivate: Option<bool>, freshId: string, now: int)
    : (r: (Store, Reply<Channel>))
    ensures var v := Auth.ValidateToken(s, token);
      && (v.user.None? <==> r.1 == Err(InvalidToken))
      && (v.user.None? ==> r.0 == v.store)
      && (v.user.Some? ==>
            && r.1.Ok?
            && r.1.value.id == freshId
            && r.1.value.name == name
            && r.1.value.createdBy == v.user.value.id
            && r.1.value.memberIds == [v.user.value.id]
            && r.1.value.description == description.GetOr("")
            && r.1.value.isPrivate == (isPrivate == Some(true))
            && r.1.value.createdAt == now
            && r.0 == AddChannel(v.store, r.1.value))
  {
    var v := Auth.ValidateToken(s, token);
    match v.user
    case None => (v.store, Err(InvalidToken))
    case Some(user) =>
      var channel := Channel(freshId, name, description.GetOr(""), now, user.id,
                             [user.id], isPrivate.GetOr(false));
      (AddChannel(v.store, channel), Ok(channel))
  }

  // --------------------------------------------------------------- list

  /** `channelService.listChannels`: empty for an invalid token, otherwise
      exactly the stored channels that list the caller as a member. */
  function ListChannels(s: Store, token: string): (r: (Store, seq<Channel>))
    ensures var v := Auth.ValidateToken(s, token);
      && r.0 == v.store
      && (v.user.None? ==> r.1 == [])
      && (v.user.Some? ==> forall c :: c in r.1 <==>
            (exists id | id in s.channels.entries :: s.channels.entries[id] == c)
            && v.user.value.id in c.memberIds)
      && multiset(r.1) <= multiset(GetAllChannels(s))
  {
    var v := Auth.ValidateToken(s, token);
    match v.user
    case None => (v.store, [])
    case Some(user) => (v.store, GetChannelsByUserId(v.store, user.id))
  }

  // ---------------------------------------------------------------- get

  /** `channelService.getChannel`: authentication, then existence, then
      membership; only a member gets the channel. Nothing is written. */
  function GetChannel(s: Store, token: string, channelId: string): (r: (Store, Reply<Channel>))
    ensures var v := Auth.ValidateToken(s, token);
      && r.0 == v.store
      && (v.user.None? <==> r.1 == Err(InvalidToken))
      && (v.user.Some? ==> r.1 == Authorize(s, v.user.value, channelId))
      && (r.1.Ok? ==> GetChannelById(s, channelId) == Some(r.1.value)
                      && v.user.value.id in r.1.value.memberIds)
  {
    var v := Auth.ValidateToken(s, token);
    match v.user
    case None => (v.store, Err(InvalidToken))
    case Some(user) => (v.store, Authorize(v.store, user, channelId))
  }

  // ------------------------------------------------------------- update

  /** `channelService.updateChannel`: only the creator may rename the
      channel or change its description; nothing else about it changes, and
      every refusal leaves the channels as they were. */
  function UpdateChannel(s: Store, token: string, channelId: string, name: string, description: string)
    : (r: (Store, Reply<Channel>))
    ensures var v := Auth.ValidateToken(s, token);
      && (v.user.None? <==> r.1 == Err(InvalidToken))
      && (v.user.Some? && r.1.Err? ==> AuthorizeCreator(s, v.user.value, channelId, EditChannel) == Err(r.1.failure))
      && (r.1.Err? ==> r.0 == v.store)
      && (r.1.Ok? ==>
            && GetChannelById(s, channelId).Some?
            && var old_ := GetChannelById(s, channelId).value;
            && old_.createdBy == v.user.value.id
            && r.1.value == old_.(name := name, description := description)
            && r.0 == Storage.UpdateChannel(v.store, r.1.value))
  {
    var v := Auth.ValidateToken(s, token);
    match v.user
    case None => (v.store, Err(InvalidToken))
    case Some(user) =>
      match AuthorizeCreator(v.store, user, channelId, EditChannel)
      case Err(f) => (v.store, Err(f))
      case Ok(channel) =>
        var updated := channel.(name := name, description := description);
        (Storage.UpdateChannel(v.store, updated), Ok(updated))
  }

  /** A successful update keeps the id, creator, member list, visibility and
      creation time. */
  lemma UpdateChannelKeepsIdentity(s: Store, token: string, channelId: string, name: string, description: string)
    requires Consistent(s)
    ensures var r := UpdateChannel(s, token, channelId, name, description);
      r.1.Ok? ==>
        && GetChannelById(s, channelId).Some?
        && var old_ := GetChannelById(s, channelId).value;
        && GetChannelById(r.0, channelId) == Some(r.1.value)
        && r.1.value.id == old_.id == channelId
        && r.1.value.createdBy == old_.createdBy
        && r.1.value.memberIds == old_.memberIds
        && r.1.value.isPrivate == old_.isPrivate
        && r.1.value.createdAt == old_.createdAt
  {
  }

  // ------------------------------------------------------------- delete

  /** `channelService.deleteChannel`: only the creator may delete; on
      success the channel is gone and every other channel stays. */
  function DeleteChannel(s: Store, token: string, channelId: string): (r: (Store, Reply<()>))
    ensures var v := Auth.ValidateToken(s, token);
      && (v.user.None? <==> r.1 == Err(InvalidToken))
      && (v.user.Some? && r.1.Err? ==> AuthorizeCreator(s, v.user.value, channelId, RemoveChannel) == Err(r.1.failure))
      && (r.1.Err? ==> r.0 == v.store)
      && (r.1.Ok? ==>
            && GetChannelById(s, channelId).Some?
            && GetChannelById(s, channelId).value.createdBy == v.user.value.id
            && GetChannelById(r.0, channelId) == None
            && r.0 == Storage.DeleteChannel(v.store, channelId).0)
  {
    var v := Auth.ValidateToken(s, token);
    match v.user
    case None => (v.store, Err(InvalidToken))
    case Some(user) =>
      match AuthorizeCreator(v.store, user, channelId, RemoveChannel)
      case Err(f) => (v.store, Err(f))
      case Ok(_) => (Storage.DeleteChannel(v.store, channelId).0, Ok(()))
  }

  // ------------------------------------------------------------ members

  /** The member list after `addChannelMember`: unchanged when the user is
      already listed, else the user appended once. */
  function WithMember(memberIds: seq<string>, userId: string): (r: seq<string>)
    ensures userId in r
    ensures forall x | x != userId :: x in r <==> x in memberIds
    ensures Seqs.Distinct(memberIds) ==> Seqs.Distinct(r)
    ensures userId in memberIds ==> r == memberIds
  {
    if userId in memberIds then memberIds
    else
      var r := memberIds + [userId];
      assert forall i | 0 <= i < |memberIds| :: r[i] == memberIds[i];
      r
  }

  /** `channelService.addChannelMember`: only the creator may add; adding a
      listed member changes nothing, adding anyone else appends them once. */
  function AddChannelMember(s: Store, token: string, channelId: string, userId: string)
    : (r: (Store, Reply<()>))
    ensures var v := Auth.ValidateToken(s, token);
      && (v.user.None? <==> r.1 == Err(InvalidToken))
      && (v.user.Some? && r.1.Err? ==> AuthorizeCreator(s, v.user.value, channelId, AddMember) == Err(r.1.failure))
      && (r.1.Err? ==> r.0 == v.store)
      && (r.1.Ok? ==>
            && GetChannelById(s, channelId).Some?
            && var old_ := GetChannelById(s, channelId).value;
            && old_.createdBy == v.user.value.id
            && (userId in old_.memberIds ==> r.0 == v.store)
            && (userId !in old_.memberIds ==>
                  r.0 == Storage.UpdateChannel(v.store, old_.(memberIds := old_.memberIds + [userId]))))
  {
    var v := Auth.ValidateToken(s, token);
    match v.user
    case None => (v.store, Err(InvalidToken))
    case Some(user) =>
      match AuthorizeCreator(v.store, user, channelId, AddMember)
      case Err(f) => (v.store, Err(f))
      case Ok(channel) =>
        if channel.memberIds == WithMember(channel.memberIds, userId) then (v.store, Ok(()))
        else
          var updated := channel.(memberIds := WithMember(channel.memberIds, userId));
          (Storage.UpdateChannel(v.store, updated), Ok(()))
  }

  /** Adding a member twice is the same as adding once, and the member
      list of a consistent store never gains a duplicate. */
  lemma {:induction false} AddChannelMemberIdempotent(s: Store, token: string, channelId: string, userId: string)
    requires Consistent(s)
    ensures var r1 := AddChannelMember(s, token, channelId, userId);
      && AddChannelMember(r1.0, token, channelId, userId) == r1
      && (r1.1.Ok? ==> (&& GetChannelById(r1.0, channelId).Some?
                        && userId in GetChannelById(r1.0, channelId).value.memberIds
                        && Seqs.Distinct(GetChannelById(r1.0, channelId).value.memberIds)))
  {
    var v := Auth.ValidateToken(s, token);
    var r1 := AddChannelMember(s, token, channelId, userId);
    if v.user.Some? && r1.1.Ok? {
      var user := v.user.value;
      assert v.store == s;
      var c := GetChannelById(s, channelId).value;
      var updated := c.(memberIds := WithMember(c.memberIds, userId));
      assert c.id == channelId;
      assert r1.0 == s || r1.0 == Storage.UpdateChannel(s, updated);
      assert GetChannelById(r1.0, channelId) == Some(updated);
      assert r1.0.sessions == s.sessions && r1.0.users == s.users;
      assert Auth.ValidateToken(r1.0, token) == Auth.Validated(r1.0, Some(user));
      assert AuthorizeCreator(r1.0, user, channelId, AddMember) == Ok(updated);
    } else {
      Auth.ValidateTokenIdempotent(s, token);
    }
  }

  /** `channelService.removeChannelMember`: only the creator may remove;
      every occurrence of the user leaves the list and the remaining members
      keep their order. The creator may remove themself, even leaving the
      channel without members. */
  function RemoveChannelMember(s: Store, token: string, channelId: string, userId: string)
    : (r: (Store, Reply<()>))
    ensures var v := Auth.ValidateToken(s, token);
      && (v.user.None? <==> r.1 == Err(InvalidToken))
      && (v.user.Some? && r.1.Err? ==> AuthorizeCreator(s, v.user.value, channelId, RemoveMember) == Err(r.1.failure))
      && (r.1.Err? ==> r.0 == v.store)
      && (r.1.Ok? ==>
            && GetChannelById(s, channelId).Some?
            && var old_ := GetChannelById(s, channelId).value;
            && old_.createdBy == v.user.value.id
            && r.0 == Storage.UpdateChannel(v.store, old_.(memberIds := Seqs.Without(old_.memberIds, userId))))
  {
    var v := Auth.ValidateToken(s, token);
    match v.user
    case None => (v.store, Err(InvalidToken))
    case Some(user) =>
      match AuthorizeCreator(v.store, user, channelId, RemoveMember)
      case Err(f) => (v.store, Err(f))
      case Ok(channel) =>
        var updated := channel.(memberIds := Seqs.Without(channel.memberIds, userId));
        (Storage.UpdateChannel(v.store, updated), Ok(()))
  }

  /** A member who is not the creator is refused every creator-only change,
      and the channels stay as they were. */
  lemma MembersCannotAdminister(s: Store, token: string, channelId: string, userId: string,
                                name: string, description: string)
    requires Auth.ValidateToken(s, token).user.Some?
    requires GetChannelById(s, channelId).Some?
    requires Auth.ValidateToken(s, token).user.value.id in GetChannelById(s, channelId).value.memberIds
    requires GetChannelById(s, channelId).value.createdBy != Auth.ValidateToken(s, token).user.value.id
    ensures UpdateChannel(s, token, channelId, name, description) == (s, Err(NotCreator(EditChannel)))
    ensures DeleteChannel(s, token, channelId) == (s, Err(NotCreator(RemoveChannel)))
    ensures AddChannelMember(s, token, channelId, userId) == (s, Err(NotCreator(AddMember)))
    ensures RemoveChannelMember(s, token, channelId, userId) == (s, Err(NotCreator(RemoveMember)))
  {
  }

  /** After a successful removal the channel no longer lists the user and
      keeps its other members in their order (see `Seqs.WithoutSpec`). */
  lemma RemoveChannelMemberEffect(s: Store, token: string, channelId: string, userId: string)
    requires Consistent(s)
    ensures var r := RemoveChannelMember(s, token, channelId, userId);
      r.1.Ok? ==>
        && GetChannelById(s, channelId).Some?
        && var old_ := GetChannelById(s, channelId).value;
        && GetChannelById(r.0, channelId) == Some(old_.(memberIds := Seqs.Without(old_.memberIds, userId)))
        && userId !in GetChannelById(r.0, channelId).value.memberIds
        && multiset(GetChannelById(r.0, channelId).value.memberIds) == multiset(old_.memberIds)[userId := 0]
  {
    var r := RemoveChannelMember(s, token, channelId, userId);
    if r.1.Ok? {
      var old_ := GetChannelById(s, channelId).value;
      assert old_.id == channelId;
      Seqs.WithoutSpec(old_.memberIds, userId, [], []);
    }
  }

  /** Every channel handler keeps the store consistent; in particular no
      member list ever gains a duplicate. */
  lemma ChannelHandlersPreserveConsistency(s: Store, token: string, channelId: string, userId: string,
                                           name: string, description: Option<string>,
                                           isPrivate: Option<bool>, freshId: string, now: int)
    requires Consistent(s)
    ensures Consistent(CreateChannel(s, token, name, description, isPrivate, freshId, now).0)
    ensures Consistent(UpdateChannel(s, token, channelId, name, description.GetOr("")).0)
    ensures Consistent(DeleteChannel(s, token, channelId).0)
    ensures Consistent(AddChannelMember(s, token, channelId, userId).0)
    ensures Consistent(RemoveChannelMember(s, token, channelId, userId).0)
  {
    Auth.ValidateTokenPreservesConsistency(s, token);
    CreateKeepsConsistent(s, token, name, description, isPrivate, freshId, now);
    EditsKeepConsistent(s, token, channelId, userId, name, description.GetOr(""));
  }

  lemma CreateKeepsConsistent(s: Store, token: string, name: string, description: Option<string>,
                              isPrivate: Option<bool>, freshId: string, now: int)
    requires Consistent(Auth.ValidateToken(s, token).store)
    ensures Consistent(CreateChannel(s, token, name, description, isPrivate, freshId, now).0)
  {
    var v := Auth.ValidateToken(s, token);
    if v.user.Some? {
      var user := v.user.value;
      var c := Channel(freshId, name, description.GetOr(""), now, user.id, [user.id], isPrivate.GetOr(false));
      StorageInvariants.ChannelChangesKeepConsistent(v.store, c, freshId);
    }
  }

  lemma EditsKeepConsistent(s: Store, token: string, channelId: string, userId: string,
                            name: string, description: string)
    requires Consistent(s)
    ensures Consistent(UpdateChannel(s, token, channelId, name, description).0)
    ensures Consistent(DeleteChannel(s, token, channelId).0)
    ensures Consistent(AddChannelMember(s, token, channelId, userId).0)
    ensures Consistent(RemoveChannelMember(s, token, channelId, userId).0)
  {
    Auth.ValidateTokenPreservesConsistency(s, token);
    if GetChannelById(s, channelId).Some? {
      var c := GetChannelById(s, channelId).value;
      assert Seqs.Distinct(c.memberIds);
      UpdateKeepsConsistent(s, token, channelId, name, description);
      StorageInvariants.ChannelChangesKeepConsistent(s, c, channelId);
      AddMemberKeepsConsistent(s, token, channelId, userId);
      RemoveMemberKeepsConsistent(s, token, channelId, userId);
    }
  }

  lemma UpdateKeepsConsistent(s: Store, token: string, channelId: string, name: string, description: string)
    requires Consistent(s)
    requires GetChannelById(s, channelId).Some?
    ensures Consistent(UpdateChannel(s, token, channelId, name, description).0)
  {
    var c := GetChannelById(s, channelId).value;
    assert Seqs.Distinct(c.memberIds);
    Auth.ValidateTokenPreservesConsistency(s, token);
    StorageInvariants.ChannelChangesKeepConsistent(s, c.(name := name, description := description), channelId);
  }

  lemma AddMemberKeepsConsistent(s: Store, token: string, channelId: string, userId: string)
    requires Consistent(s)
    requires GetChannelById(s, channelId).Some?
    ensures Consistent(AddChannelMember(s, token, channelId, userId).0)
  {
    var c := GetChannelById(s, channelId).value;
    assert Seqs.Distinct(c.memberIds);
    Auth.ValidateTokenPreservesConsistency(s, token);
    if userId !in c.memberIds {
      assert WithMember(c.memberIds, userId) == c.memberIds + [userId];
      StorageInvariants.ChannelChangesKeepConsistent(s, c.(memberIds := c.memberIds + [userId]), channelId);
    }
  }

  lemma RemoveMemberKeepsConsistent(s: Store, token: string, channelId: string, userId: string)
    requires Consistent(s)
    requires GetChannelById(s, channelId).Some?
    ensures Consistent(RemoveChannelMember(s, token, channelId, userId).0)
  {
    var c := GetChannelById(s, channelId).value;
    Auth.ValidateTokenPreservesConsistency(s, token);
    Seqs.WithoutSpec(c.memberIds, userId, [], []);
    StorageInvariants.ChannelChangesKeepConsistent(s, c.(memberIds := Seqs.Without(c.memberIds, userId)), channelId);
  }
}
