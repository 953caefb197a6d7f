/** The in-memory `Storage`: users indexed both by id and by username,
    sessions by token, channels and messages by id. Each mutator returns
    the new store; a mutator that reports success also returns that flag. */
module Storage {
  import opened Wrappers
  import opened Types
  import Seqs
  import opened OrderedMaps
  import opened Ordering

  datatype Store = Store(
    users: OrderedMap<User>,
    usersByUsername: map<string, User>,
    sessions: map<string, Session>,
    channels: OrderedMap<Channel>,
    messages: OrderedMap<Message>)

  function EmptyStore(): Store {
    Store(Empty(), map[], map[], Empty(), Empty())
  }

  /** Every index agrees with the records it holds: the id index and the
      username index hold the same users, each under its own key; sessions,
      channels and messages are keyed by their own token or id; and no
      channel lists a member twice. */
  ghost predicate Consistent(s: Store) {
    && (forall id | id in s.users.entries ::
          && s.users.entries[id].id == id
          && s.users.entries[id].username in s.usersByUsername
          && s.usersByUsername[s.users.entries[id].username] == s.users.entries[id])
    && (forall n | n in s.usersByUsername ::
          && s.usersByUsername[n].username == n
          && s.usersByUsername[n].id in s.users.entries
          && s.users.entries[s.usersByUsername[n].id] == s.usersByUsername[n])
    && (forall t | t in s.sessions :: s.sessions[t].token == t)
    && (forall id | id in s.channels.entries ::
          s.channels.entries[id].id == id && Seqs.Distinct(s.channels.entries[id].memberIds))
    && (forall id | id in s.messages.entries :: s.messages.entries[id].id == id)
  }

  /** In a consistent store no two users share a username. */
  lemma UsernamesUnique(s: Store, a: string, b: string)
    requires Consistent(s)
    requires a in s.users.entries && b in s.users.entries
    ensures s.users.entries[a].username == s.users.entries[b].username ==> a == b
  {
    var n := s.users.entries[a].username;
    if s.users.entries[b].username == n {
      assert s.usersByUsername[n] == s.users.entries[a] == s.users.entries[b];
    }
  }

  // ---------------------------------------------------------------- users

  function GetUserById(s: Store, id: string): Option<User> {
    Get(s.users, id)
  }

  function GetUserByUsername(s: Store, username: string): Option<User> {
    if username in s.usersByUsername then Some(s.usersByUsername[username]) else None
  }

  /** `addUser(u)`: afterwards `u` is found both by its id and by its
      username; every other id and username resolves as before and the
      other tables are untouched. */
  function AddUser(s: Store, u: User): (r: Store)
    ensures GetUserById(r, u.id) == Some(u)
    ensures GetUserByUsername(r, u.username) == Some(u)
    ensures forall id | id != u.id :: GetUserById(r, id) == GetUserById(s, id)
    ensures forall n | n != u.username :: GetUserByUsername(r, n) == GetUserByUsername(s, n)
    ensures r.sessions == s.sessions && r.channels == s.channels && r.messages == s.messages
  {
    s.(users := Set(s.users, u.id, u), usersByUsername := s.usersByUsername[u.username := u])
  }

  /** `updateUser(u)` writes both indexes exactly as `addUser` does. */
  function UpdateUser(s: Store, u: User): Store {
    AddUser(s, u)
  }

  /** `getAllUsers()`: every stored user, in insertion order. */
  function GetAllUsers(s: Store): (r: seq<User>)
    ensures |r| == |s.users.entries|
    ensures forall u :: u in r <==> exists id | id in s.users.entries :: s.users.entries[id] == u
    ensures |r| == |s.users.keys| && forall i | 0 <= i < |r| :: r[i] == s.users.entries[s.users.keys[i]]
  {
    forall u ensures u in Values(s.users) <==> exists id | id in s.users.entries :: s.users.entries[id] == u {
      ValuesMembership(s.users, u);
    }
    Values(s.users)
  }

  /** `deleteUser(id)`: an absent id reports false and changes nothing;
      otherwise the user leaves both the id index and the username index,
      and every other entry stays. */
  function DeleteUser(s: Store, id: string): (r: (Store, bool))
    ensures !r.1 <==> GetUserById(s, id) == None
    ensures !r.1 ==> r.0 == s
    ensures r.1 ==> (GetUserById(r.0, id) == None
                     && GetUserByUsername(r.0, GetUserById(s, id).value.username) == None)
    ensures forall i | i != id :: GetUserById(r.0, i) == GetUserById(s, i)
    ensures r.1 ==> forall n | n != GetUserById(s, id).value.username ::
      GetUserByUsername(r.0, n) == GetUserByUsername(s, n)
    ensures r.0.sessions == s.sessions && r.0.channels == s.channels && r.0.messages == s.messages
  {
    if id !in s.users.entries then (s, false)
    else
      var u := s.users.entries[id];
      var (users, deleted) := Delete(s.users, id);
      (s.(users := users, usersByUsername := s.usersByUsername - {u.username}), deleted)
  }

  // ------------------------------------------------------------- sessions

  /** `addSession(session)`: the token now maps to that session. */
  function AddSession(s: Store, session: Session): (r: Store)
    ensures GetSession(r, session.token) == Some(session)
    ensures forall t | t != session.token :: GetSession(r, t) == GetSession(s, t)
    ensures r.users == s.users && r.usersByUsername == s.usersByUsername
    ensures r.channels == s.channels && r.messages == s.messages
  {
    s.(sessions := s.sessions[session.token := session])
  }

  function GetSession(s: Store, token: string): Option<Session> {
    if token in s.sessions then Some(s.sessions[token]) else None
  }

  /** `deleteSession(token)`: reports whether the token had a session;
      afterwards it has none, and every other session is untouched. */
  function DeleteSession(s: Store, token: string): (r: (Store, bool))
    ensures r.1 <==> GetSession(s, token).Some?
    ensures GetSession(r.0, token) == None
    ensures forall t | t != token :: GetSession(r.0, t) == GetSession(s, t)
    ensures r.0.users == s.users && r.0.usersByUsername == s.usersByUsername
    ensures r.0.channels == s.channels && r.0.messages == s.messages
  {
    (s.(sessions := s.sessions - {token}), token in s.sessions)
  }

  // ------------------------------------------------------------- channels

  /** `addChannel(c)`: `c` is found by its id; other channels are untouched. */
  function AddChannel(s: Store, c: Channel): (r: Store)
    ensures GetChannelById(r, c.id) == Some(c)
    ensures forall id | id != c.id :: GetChannelById(r, id) == GetChannelById(s, id)
    ensures r.users == s.users && r.usersByUsername == s.usersByUsername
    ensures r.sessions == s.sessions && r.messages == s.messages
  {
    s.(channels := Set(s.channels, c.id, c))
  }

  /** `updateChannel(c)` writes the channel table exactly as `addChannel` does. */
  function UpdateChannel(s: Store, c: Channel): Store {
    AddChannel(s, c)
  }

  function GetChannelById(s: Store, id: string): Option<Channel> {
    Get(s.channels, id)
  }

  /** `getAllChannels()`: every stored channel, in insertion order. */
  function GetAllChannels(s: Store): (r: seq<Channel>)
    ensures |r| == |s.channels.entries|
    ensures forall c :: c in r <==> exists id | id in s.channels.entries :: s.channels.entries[id] == c
    ensures |r| == |s.channels.keys| && forall i | 0 <= i < |r| :: r[i] == s.channels.entries[s.channels.keys[i]]
  {
    forall c ensures c in Values(s.channels) <==> exists id | id in s.channels.entries :: s.channels.entries[id] == c {
      ValuesMembership(s.channels, c);
    }
    Values(s.channels)
  }

  /** `getChannelsByUserId(u)`: exactly the stored channels whose member
      list contains `u`, in insertion order. */
  function GetChannelsByUserId(s: Store, userId: string): (r: seq<Channel>)
    ensures forall c :: c in r <==>
      (exists id | id in s.channels.entries :: s.channels.entries[id] == c) && userId in c.memberIds
    ensures multiset(r) <= multiset(GetAllChannels(s))
  {
    Seqs.FilterSubMultiset((c: Channel) => userId in c.memberIds, GetAllChannels(s));
    Seqs.Filter((c: Channel) => userId in c.memberIds, GetAllChannels(s))
  }

  /** `deleteChannel(id)`: reports whether the channel existed; afterwards
      it is gone and every other channel is untouched. */
  function DeleteChannel(s: Store, id: string): (r: (Store, bool))
    ensures r.1 <==> GetChannelById(s, id).Some?
    ensures GetChannelById(r.0, id) == None
    ensures forall i | i != id :: GetChannelById(r.0, i) == GetChannelById(s, i)
    ensures r.0.users == s.users && r.0.usersByUsername == s.usersByUsername
    ensures r.0.sessions == s.sessions && r.0.messages == s.messages
  {
    var (channels, deleted) := Delete(s.channels, id);
    (s.(channels := channels), deleted)
  }

  // ------------------------------------------------------------- messages

  /** `addMessage(m)`: `m` is found by its id; other messages are untouched. */
  function AddMessage(s: Store, m: Message): (r: Store)
    ensures GetMessageById(r, m.id) == Some(m)
    ensures forall id | id != m.id :: GetMessageById(r, id) == GetMessageById(s, id)
    ensures r.users == s.users && r.usersByUsername == s.usersByUsername
    ensures r.sessions == s.sessions && r.channels == s.channels
  {
    s.(messages := Set(s.messages, m.id, m))
  }

  function GetMessageById(s: Store, id: string): Option<Message> {
    Get(s.messages, id)
  }

  /** `deleteMessage(id)`: reports whether the message existed; afterwards
      it is gone and every other message is untouched. */
  function DeleteMessage(s: Store, id: string): (r: (Store, bool))
    ensures r.1 <==> GetMessageById(s, id).Some?
    ensures GetMessageById(r.0, id) == None
    ensures forall i | i != id :: GetMessageById(r.0, i) == GetMessageById(s, i)
    ensures r.0.users == s.users && r.0.usersByUsername == s.usersByUsername
    ensures r.0.sessions == s.sessions && r.0.channels == s.channels
  {
    var (messages, deleted) := Delete(s.messages, id);
    (s.(messages := messages), deleted)
  }

  // ---------------------------------------------------------- round trips

  /** Adding a user under an unused id and username and then deleting it
      restores the store, and the delete reports success. */
  lemma AddThenDeleteUser(s: Store, u: User)
    requires u.id !in s.users.entries && u.username !in s.usersByUsername
    ensures DeleteUser(AddUser(s, u), u.id) == (s, true)
  {
    SetFreshThenDelete(s.users, u.id, u);
    assert s.usersByUsername[u.username := u] - {u.username} == s.usersByUsername;
  }

  /** Adding a session under an unused token and then deleting it restores
      the store, and the delete reports success. */
  lemma AddThenDeleteSession(s: Store, session: Session)
    requires session.token !in s.sessions
    ensures DeleteSession(AddSession(s, session), session.token) == (s, true)
  {
    assert s.sessions[session.token := session] - {session.token} == s.sessions;
  }

  /** Adding a channel under an unused id and then deleting it restores the
      store, the channel order included. */
  lemma AddThenDeleteChannel(s: Store, c: Channel)
    requires c.id !in s.channels.entries
    ensures DeleteChannel(AddChannel(s, c), c.id) == (s, true)
  {
    SetFreshThenDelete(s.channels, c.id, c);
  }

  /** Adding a message under an unused id and then deleting it restores the
      store, the message order included. */
  lemma AddThenDeleteMessage(s: Store, m: Message)
    requires m.id !in s.messages.entries
    ensures DeleteMessage(AddMessage(s, m), m.id) == (s, true)
  {
    SetFreshThenDelete(s.messages, m.id, m);
  }

  /** Whether the query applies a cutoff: `if (before)` is false for an
      absent `before` and for 0, true for every other number. */
  predicate HasCutoff(before: Option<int>) {
    before.Some? && before.value != 0
  }

  /** Whether a message belongs on a page of channel `c` older than `before`. */
  predicate Qualifies(m: Message, c: string, before: Option<int>) {
    m.channelId == c && (HasCutoff(before) ==> m.createdAt < before.value)
  }

  /** Whether `m` is one of the stored messages. */
  ghost predicate Stored(s: Store, m: Message) {
    exists id | id in s.messages.entries :: s.messages.entries[id] == m
  }

  /** The stored messages the query keeps before sorting, in insertion order:
      those of the channel, then, under a cutoff, those strictly older. */
  function Candidates(s: Store, channelId: string, before: Option<int>): (r: seq<Message>)
    ensures forall m :: m in r <==> Stored(s, m) && Qualifies(m, channelId, before)
  {
    forall m ensures m in Values(s.messages) <==> Stored(s, m) {
      ValuesMembership(s.messages, m);
    }
    var inChannel := Seqs.Filter(InChannel(channelId), Values(s.messages));
    if HasCutoff(before) then Seqs.Filter(OlderThan(before.value), inChannel)
    else inChannel
  }

  /** The filter `msg => msg.channelId === channelId`. */
  function InChannel(channelId: string): Message -> bool {
    (m: Message) => m.channelId == channelId
  }

  /** The filter `msg => msg.createdAt < before`. */
  function OlderThan(before: int): Message -> bool {
    (m: Message) => m.createdAt < before
  }

  /** `getMessagesByChannelId(channelId, limit, before)`: stored messages of
      the channel, strictly older than a truthy `before`, newest first, at
      most `limit` of them. */
  function GetMessagesByChannelId(s: Store, channelId: string, limit: int, before: Option<int>)
    : (r: seq<Message>)
    ensures forall i | 0 <= i < |r| :: r[i].channelId == channelId
    ensures HasCutoff(before) ==> forall i | 0 <= i < |r| :: r[i].createdAt < before.value
    ensures forall i | 0 <= i < |r| :: Stored(s, r[i])
    ensures 0 <= limit ==> |r| <= limit
    ensures multiset(r) <= multiset(Candidates(s, channelId, before))
    ensures var n := |Candidates(s, channelId, before)|;
      && (0 <= limit ==> |r| == if limit < n then limit else n)
      && (limit < 0 ==> |r| == if n + limit < 0 then 0 else n + limit)
    ensures NewestFirst(r)
  {
    var cands := Candidates(s, channelId, before);
    SortedPage(cands, limit);
    Take(SortNewestFirst(cands), limit)
  }

  /** The first `limit` of the sorted candidates, in the sense of
      `slice(0, limit)`: newest first, drawn from the candidates without
      repetition, and exactly as long as the slice bounds say. */
  lemma SortedPage(cands: seq<Message>, limit: int)
    ensures var r := Take(SortNewestFirst(cands), limit);
      var n := |cands|;
      && NewestFirst(r)
      && multiset(r) <= multiset(cands)
      && (forall i | 0 <= i < |r| :: r[i] in cands)
      && (0 <= limit ==> |r| == if limit < n then limit else n)
      && (limit < 0 ==> |r| == if n + limit < 0 then 0 else n + limit)
  {
    var sorted := SortNewestFirst(cands);
    var r := Take(sorted, limit);
    assert |sorted| == |cands| by {
      assert |multiset(sorted)| == |multiset(cands)|;
    }
    PrefixOfSorted(cands, sorted, |r|);
  }

  /** A prefix of a newest-first permutation of `cands` is newest-first and
      is a sub-multiset of `cands`: no message is repeated or invented. */
  lemma PrefixOfSorted(cands: seq<Message>, sorted: seq<Message>, n: nat)
    requires multiset(sorted) == multiset(cands) && NewestFirst(sorted)
    requires n <= |sorted|
    ensures NewestFirst(sorted[..n])
    ensures multiset(sorted[..n]) <= multiset(cands)
    ensures forall i | 0 <= i < n :: sorted[i] in cands
  {
    assert sorted == sorted[..n] + sorted[n..];
    assert multiset(sorted) == multiset(sorted[..n]) + multiset(sorted[n..]);
    forall i | 0 <= i < n ensures sorted[i] in cands {
      assert sorted[i] in multiset(sorted);
    }
  }

  /** Among messages with the same timestamp the page keeps the ones
      stored first: for every timestamp `k`, the page's messages at `k`
      are the first of the candidates at `k`, in the same order. */
  lemma {:induction false} PageIsStable(s: Store, channelId: string, limit: int, before: Option<int>, k: int)
    ensures var r := GetMessagesByChannelId(s, channelId, limit, before);
      var w := WithTimestamp(k, Candidates(s, channelId, before));
      |WithTimestamp(k, r)| <= |w| && WithTimestamp(k, r) == w[..|WithTimestamp(k, r)|]
  {
    TopIsStable(Candidates(s, channelId, before), limit, k);
  }

  /** The page holds the NEWEST qualifying messages: every stored qualifying
      message left out is no newer than anything on the page, and a page
      shorter than a non-negative `limit` leaves nothing out. */
  lemma GetMessagesAreNewest(s: Store, channelId: string, limit: int, before: Option<int>, m: Message)
    requires Stored(s, m) && Qualifies(m, channelId, before)
    ensures var r := GetMessagesByChannelId(s, channelId, limit, before);
      && (m !in r ==> forall i | 0 <= i < |r| :: r[i].createdAt >= m.createdAt)
      && (0 <= limit && |r| < limit ==> m in r)
  {
    TopIsNewest(Candidates(s, channelId, before), limit, m);
  }

  /** Storing a message under a fresh id appends it to the channel's
      candidates, after every message already there. */
  lemma CandidatesAfterFreshAdd(s: Store, m: Message)
    requires m.id !in s.messages.entries
    ensures Candidates(AddMessage(s, m), m.channelId, None) == Candidates(s, m.channelId, None) + [m]
  {
    ValuesOfFreshSet(s.messages, m.id, m);
    Seqs.FilterAppend(InChannel(m.channelId), Values(s.messages), [m]);
  }

  /** With a fresh message added, the default page of its channel is the
      first 100 of the old candidates followed by it, sorted. */
  lemma FreshPage(s: Store, m: Message)
    requires m.id !in s.messages.entries
    ensures GetMessagesByChannelId(AddMessage(s, m), m.channelId, 100, None)
         == Take(SortNewestFirst(Candidates(s, m.channelId, None) + [m]), 100)
  {
    CandidatesAfterFreshAdd(s, m);
  }

  /** A bound on the timestamps of a channel's stored messages bounds its
      candidates. */
  lemma CandidatesNoNewerThan(s: Store, channelId: string, k: int, strict: bool)
    requires forall id | id in s.messages.entries && s.messages.entries[id].channelId == channelId ::
      if strict then s.messages.entries[id].createdAt < k else s.messages.entries[id].createdAt <= k
    ensures var c := Candidates(s, channelId, None);
      forall i | 0 <= i < |c| :: if strict then c[i].createdAt < k else c[i].createdAt <= k
  {
    var c := Candidates(s, channelId, None);
    forall i | 0 <= i < |c| ensures if strict then c[i].createdAt < k else c[i].createdAt <= k {
      assert c[i] in c;
    }
  }

  /** A message stored under a fresh id with a timestamp strictly newer
      than every other message of its channel heads a default page. */
  lemma FreshNewestHeadsPage(s: Store, m: Message)
    requires m.id !in s.messages.entries
    requires forall id | id in s.messages.entries && s.messages.entries[id].channelId == m.channelId ::
      s.messages.entries[id].createdAt < m.createdAt
    ensures var l := GetMessagesByChannelId(AddMessage(s, m), m.channelId, 100, None);
      |l| > 0 && l[0] == m
  {
    FreshPage(s, m);
    CandidatesNoNewerThan(s, m.channelId, m.createdAt, true);
    NewestAppendedHeadsSort(Candidates(s, m.channelId, None), m);
  }

  /** A message stored under a fresh id with the same timestamp as the
      newest message already in its channel does NOT head a default page:
      the stable sort keeps the earlier-stored message in front. */
  lemma FreshTiedDoesNotHeadPage(s: Store, m: Message, older: string)
    requires Consistent(s)
    requires m.id !in s.messages.entries
    requires forall id | id in s.messages.entries && s.messages.entries[id].channelId == m.channelId ::
      s.messages.entries[id].createdAt <= m.createdAt
    requires older in s.messages.entries
    requires s.messages.entries[older].channelId == m.channelId
    requires s.messages.entries[older].createdAt == m.createdAt
    ensures var l := GetMessagesByChannelId(AddMessage(s, m), m.channelId, 100, None);
      |l| > 0 && l[0] != m
  {
    var old_ := Candidates(s, m.channelId, None);
    FreshPage(s, m);
    CandidatesNoNewerThan(s, m.channelId, m.createdAt, false);
    FreshIsNoCandidate(s, m);
    assert Stored(s, s.messages.entries[older]);
    TiedAppendedDoesNotHeadSort(old_, m, s.messages.entries[older]);
  }

  /** In a consistent store, a message whose id is unused is not stored,
      so it is none of the candidates. */
  lemma FreshIsNoCandidate(s: Store, m: Message)
    requires Consistent(s)
    requires m.id !in s.messages.entries
    ensures m !in Candidates(s, m.channelId, None)
  {
  }
}

module StorageInvariants {
  import opened Types
  import Seqs
  import opened OrderedMaps
  import opened Storage

  /** Adding a user whose id and username are both unused keeps the two
      user indexes in step. */
  lemma AddFreshUserKeepsConsistent(s: Store, u: User)
    requires Consistent(s)
    requires u.id !in s.users.entries && u.username !in s.usersByUsername
    ensures Consistent(AddUser(s, u))
  {
    var r := AddUser(s, u);
    forall n | n in r.usersByUsername
      ensures r.usersByUsername[n].username == n
      ensures r.usersByUsername[n].id in r.users.entries
      ensures r.users.entries[r.usersByUsername[n].id] == r.usersByUsername[n]
    {
      if n != u.username {
        assert s.usersByUsername[n].id != u.id;
      }
    }
    forall id | id in r.users.entries
      ensures r.users.entries[id].id == id
      ensures r.users.entries[id].username in r.usersByUsername
      ensures r.usersByUsername[r.users.entries[id].username] == r.users.entries[id]
    {
      if id != u.id {
        assert GetUserById(r, id) == GetUserById(s, id);
        assert s.users.entries[id].username != u.username;
      }
    }
  }

  /** Rewriting a stored user without changing its username keeps the two
      user indexes in step. */
  lemma UpdateUserKeepsConsistent(s: Store, u: User)
    requires Consistent(s)
    requires u.id in s.users.entries && s.users.entries[u.id].username == u.username
    ensures Consistent(UpdateUser(s, u))
  {
    var r := UpdateUser(s, u);
    forall n | n in r.usersByUsername
      ensures r.usersByUsername[n].username == n
      ensures r.usersByUsername[n].id in r.users.entries
      ensures r.users.entries[r.usersByUsername[n].id] == r.usersByUsername[n]
    {
      if n != u.username {
        assert s.usersByUsername[n].id != u.id;
      }
    }
    forall id | id in r.users.entries
      ensures r.users.entries[id].id == id
      ensures r.users.entries[id].username in r.usersByUsername
      ensures r.usersByUsername[r.users.entries[id].username] == r.users.entries[id]
    {
      if id != u.id {
        assert GetUserById(r, id) == GetUserById(s, id);
        UsernamesUnique(s, id, u.id);
      }
    }
  }

  /** Deleting a user removes it from both indexes together. */
  lemma DeleteUserKeepsConsistent(s: Store, id: string)
    requires Consistent(s)
    ensures Consistent(DeleteUser(s, id).0)
  {
    var r := DeleteUser(s, id).0;
    if id in s.users.entries {
      var u := s.users.entries[id];
      forall i | i in r.users.entries
        ensures r.users.entries[i].id == i
        ensures r.users.entries[i].username in r.usersByUsername
        ensures r.usersByUsername[r.users.entries[i].username] == r.users.entries[i]
      {
        assert GetUserById(r, i) == GetUserById(s, i);
        UsernamesUnique(s, i, id);
      }
      forall n | n in r.usersByUsername
        ensures r.usersByUsername[n].id in r.users.entries
      {
        assert s.usersByUsername[n].id != id;
      }
    }
  }

  /** Sessions are stored under their own token. */
  lemma SessionChangesKeepConsistent(s: Store, session: Session, token: string)
    requires Consistent(s)
    ensures Consistent(AddSession(s, session))
    ensures Consistent(DeleteSession(s, token).0)
  {
  }

  /** Channels are stored under their own id and, when given a member list
      without repeats, keep every member list free of repeats. */
  lemma ChannelChangesKeepConsistent(s: Store, c: Channel, id: string)
    requires Consistent(s)
    requires Seqs.Distinct(c.memberIds)
    ensures Consistent(AddChannel(s, c))
    ensures Consistent(DeleteChannel(s, id).0)
  {
    var r := AddChannel(s, c);
    forall i | i in r.channels.entries
      ensures r.channels.entries[i].id == i && Seqs.Distinct(r.channels.entries[i].memberIds)
    {
      if i != c.id {
        assert GetChannelById(r, i) == GetChannelById(s, i);
      }
    }
    var d := DeleteChannel(s, id).0;
    forall i | i in d.channels.entries
      ensures d.channels.entries[i].id == i && Seqs.Distinct(d.channels.entries[i].memberIds)
    {
      assert GetChannelById(d, i) == GetChannelById(s, i);
    }
  }

  /** Messages are stored under their own id. */
  lemma MessageChangesKeepConsistent(s: Store, m: Message, id: string)
    requires Consistent(s)
    ensures Consistent(AddMessage(s, m))
    ensures Consistent(DeleteMessage(s, id).0)
  {
    var r := AddMessage(s, m);
    forall i | i in r.messages.entries ensures r.messages.entries[i].id == i {
      if i != m.id {
        assert GetMessageById(r, i) == GetMessageById(s, i);
      }
    }
    var d := DeleteMessage(s, id).0;
    forall i | i in d.messages.entries ensures d.messages.entries[i].id == i {
      assert GetMessageById(d, i) == GetMessageById(s, i);
    }
  }
}
