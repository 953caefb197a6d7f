# Chat backend core in Dafny

This project models the in-memory domain logic of a gRPC chat backend written in TypeScript. It covers:

- the `Storage` class: users indexed by id and by username, sessions, channels and messages;
- the access guard `validateToken`, with lazy session invalidation;
- the auth, channel, user and message services;
- the message service's subscription registry: `subscribeMessages`, the `cancelled` handler and `notifySubscribers`.

Every handler is a pure function from the store (and, for messaging, the registry) plus the request to the new store and the reply. `Server.Step` puts all of them together into one state machine.

Modules, leaves first:

- `Wrappers`: `Option`.
- `Types`: `User`, `Channel`, `Message`, `Session`, and the password-free `PublicUser`.
- `Replies`: `Reply<T>`, which is `Ok(value)` or `Err(failure)`. It gives the exact Japanese `errorMessage` for each failure.
- `Seqs`: order-preserving `Filter`, and `Without` (`filter(y => y !== x)`).
- `OrderedMaps`: a JavaScript `Map<string, V>`. It keeps its keys in insertion order, a deleted key losing its place (set again, it goes last), because `getAllUsers`, `getChannelsByUserId` and the order of same-timestamp messages all follow it.
- `Ordering`: the stable newest-first sort and `Array.prototype.slice(0, end)`.
- `Storage` and `StorageInvariants`: the storage class, and the store invariant `Consistent`.
- `Auth`, `Channels`, `Users`, `Messaging` and `Subscriptions`: the services.
- `Scenarios`: properties that span several handlers.
- `Server`: the state machine over (store, registry) and its invariant.

Some inputs come from outside the handlers, so they are parameters:

- `uuidv4()` becomes `freshId` (or `token`).
- `Date.now()` becomes `now`. `sendMessage`'s two readings are `createdAt` and `updatedAt`.
- `bcrypt.hashSync` becomes the resulting `passwordHash`.
- `bcrypt.compareSync` becomes a function parameter `compare`.
- A subscriber stream is an opaque `Endpoint`.
- A stream write that throws is named by the `failing` set of the broadcast.

## Where the code departs from what a reader might expect

Each point below is a plausible expectation that the code does not meet. The model follows the code in every case.

- **Default limit.** A non-positive `limit` does not fall back to the default of 100. The code only replaces `0` or an absent value (`limit || 100`). A negative limit reaches `slice(0, limit)`, which drops that many messages from the end (`Messaging.EffectiveLimit`, `Ordering.SliceEnd`).
- **Empty member list.** A channel's member list is not kept non-empty. `removeChannelMember` lets the creator remove anyone, including themself, so the list can become empty (`Scenarios.CreatorCanEmptyChannel`).
- **New message listed first.** `sendMessage` followed by `listMessages` does not always return the new message first. It does only when the new timestamp is strictly greater than every stored timestamp of the channel (`Scenarios.SentMessageListedFirst`). The sort is stable, so when an earlier message has the same millisecond timestamp, the earlier one stays in front (`Scenarios.TiedSendIsNotListedFirst`).
- **Timestamps of a new message.** A new message's `createdAt` and `updatedAt` need not be equal. The code reads the clock twice, so the model takes two readings and claims no equality.
- **Orphaned messages.** `deleteChannel` leaves the channel's messages in the store.
- **Unchecked member ids.** `addChannelMember` does not check that the added user exists.
- **Deleting outside a channel.** `deleteMessage` checks authorship only, not channel membership.

## Model

| member | source | states |
|---|---|---|
| Replies.ErrorMessageSignalsFailure | packages/backend/src/services/channel.ts:12-44 | a reply succeeds exactly when its `errorMessage` is empty: every failure carries a non-empty message |
| Types.PublicHidesOnlyPassword | packages/backend/src/services/user.ts:17-23 | the wire form of a user keeps every field but the password hash: two users have the same wire form exactly when they differ at most in the hash |
| Seqs.Filter | packages/backend/src/storage.ts:91-95 | `Array.prototype.filter`: an element is kept exactly when it is in the input and satisfies the predicate, and the result is no longer than the input |
| Seqs.FilterSubMultiset | packages/backend/src/storage.ts:68-70 | filtering never repeats an element: the result is a sub-multiset of the input |
| Seqs.Without | packages/backend/src/services/channel.ts:259 | `filter(id => id !== userId)`: the id is gone and every other element is present exactly when it was before |
| Seqs.WithoutSpec | packages/backend/src/services/channel.ts:259 | `filter(id => id !== userId)` drops every copy of the id, keeps the count of every other id, keeps order (distributes over concatenation), is the identity when the id is absent, and preserves distinctness |
| Seqs.WithoutAppended | packages/backend/src/services/channel.ts:259 | filtering out an id that was appended to a list without it gives back the original list |
| OrderedMaps.Set | packages/backend/src/storage.ts:55-57 | `Map.set`: the key maps to the value, other keys keep theirs, and a new key is appended to the iteration order while an existing one keeps its place |
| OrderedMaps.Delete | packages/backend/src/storage.ts:77-79 | `Map.delete`: reports whether the key was present; the key is gone, and other keys keep their values and relative order |
| OrderedMaps.Values | packages/backend/src/storage.ts:63-65 | `Array.from(map.values())`: one value per key, in key-insertion order |
| OrderedMaps.SetFreshThenDelete | packages/backend/src/storage.ts:82-105 | setting a new key and then deleting it restores the original map, order included, and the delete reports true |
| Ordering.SortNewestFirst | packages/backend/src/storage.ts:98-99 | the sort yields a permutation of its input in non-increasing `createdAt` order |
| Ordering.SortIsStable | packages/backend/src/storage.ts:98-99 | among messages with equal `createdAt`, the sort keeps their input order (the stable `Array.prototype.sort`) |
| Ordering.SortHeadIsFirstOfNewest | packages/backend/src/storage.ts:98-99 | the head of the sort is the first input message carrying the greatest timestamp |
| Ordering.SortHeadIsNewest | packages/backend/src/storage.ts:98-99 | the head of the sort carries the greatest timestamp of the input |
| Ordering.NewestAppendedHeadsSort | packages/backend/src/storage.ts:98-99 | a message appended after strictly older ones heads the sort |
| Ordering.TiedAppendedDoesNotHeadSort | packages/backend/src/storage.ts:98-99 | a message appended after others, one of which has the same timestamp and none a newer one, does not head the sort: an earlier message does |
| Ordering.SliceEnd | packages/backend/src/storage.ts:100 | `slice(0, end)` stops at `min(end, len)` for non-negative `end`, and counts back from the length for negative `end` |
| Ordering.Take | packages/backend/src/storage.ts:100 | `slice(0, limit)` is a prefix of length `min(limit, len)` for non-negative `limit` and `max(0, len + limit)` for negative `limit`, the whole sequence when shorter than `limit` |
| Ordering.TopIsNewest | packages/backend/src/storage.ts:98-100 | an element left out of the first `limit` of the sort is no newer than any kept one, and a result shorter than a non-negative `limit` leaves nothing out |
| Ordering.TopIsStable | packages/backend/src/storage.ts:98-100 | per timestamp, the first `limit` of the sort keep a prefix of the input's elements at that timestamp, in input order |
| Storage.UsernamesUnique | packages/backend/src/storage.ts:12-23 | in a consistent store two users with the same username are the same user |
| Storage.AddUser | packages/backend/src/storage.ts:12-23 | after `addUser(u)` both `getUserById(u.id)` and `getUserByUsername(u.username)` return `u`; every other id and username resolves as before; other tables are untouched |
| Storage.GetAllUsers | packages/backend/src/storage.ts:25-27 | exactly the stored users, one per id, in the insertion order of their ids |
| Storage.DeleteUser | packages/backend/src/storage.ts:34-39 | an absent id returns false and changes nothing; otherwise the user leaves both indexes, and every other id and username entry is unchanged |
| Storage.AddSession | packages/backend/src/storage.ts:42-44 | the token maps to the session; other sessions and tables are untouched |
| Storage.DeleteSession | packages/backend/src/storage.ts:50-52 | returns whether the token had a session; afterwards it has none and every other session is unchanged |
| Storage.AddChannel | packages/backend/src/storage.ts:55-57 | the channel is found by its id; other channels and tables are untouched |
| Storage.GetAllChannels | packages/backend/src/storage.ts:63-65 | exactly the stored channels, one per id, in the insertion order of their ids |
| Storage.GetChannelsByUserId | packages/backend/src/storage.ts:67-71 | a channel is returned if and only if it is stored and its member list contains the user, and none is returned more often than `getAllChannels` holds it |
| Storage.DeleteChannel | packages/backend/src/storage.ts:77-79 | returns whether the channel existed; afterwards it is gone and every other channel is unchanged |
| Storage.AddMessage | packages/backend/src/storage.ts:82-84 | the message is found by its id; other messages and tables are untouched |
| Storage.DeleteMessage | packages/backend/src/storage.ts:103-105 | returns whether the message existed; afterwards `getMessageById` is undefined for it and every other message is unchanged |
| Storage.AddThenDeleteUser | packages/backend/src/storage.ts:12-39 | adding a user under an unused id and username and then deleting it restores the store and returns true |
| Storage.AddThenDeleteSession | packages/backend/src/storage.ts:42-52 | adding a session under an unused token and then deleting it restores the store and returns true |
| Storage.AddThenDeleteChannel | packages/backend/src/storage.ts:55-79 | adding a channel under an unused id and then deleting it restores the store, channel order included |
| Storage.AddThenDeleteMessage | packages/backend/src/storage.ts:82-105 | adding a message under an unused id and then deleting it restores the store, message order included |
| Storage.Candidates | packages/backend/src/storage.ts:91-96 | a message is a candidate if and only if it is stored, belongs to the channel, and, when `before` is truthy, is strictly older than `before` |
| Storage.GetMessagesByChannelId | packages/backend/src/storage.ts:90-101 | every result is a stored message of the channel, strictly older than a truthy `before`; the page is a sub-multiset of the candidates (no message repeated), newest first, and exactly as long as `slice(0, limit)` makes it: `min(limit, n)` for non-negative `limit`, `max(0, n + limit)` for negative `limit` |
| Storage.PrefixOfSorted | packages/backend/src/storage.ts:98-100 | a prefix of the sorted candidates is newest first and a sub-multiset of the candidates |
| Storage.SortedPage | packages/backend/src/storage.ts:98-100 | sorting then `slice(0, limit)` gives a newest-first sub-multiset of the candidates whose length is fixed by the slice bounds |
| Storage.PageIsStable | packages/backend/src/storage.ts:98-100 | among messages with equal timestamps the page keeps the ones stored first, in storage order: per timestamp, the page's messages are a prefix of the candidates' |
| Storage.GetMessagesAreNewest | packages/backend/src/storage.ts:90-101 | every qualifying message left off the page is no newer than anything on it, and a page shorter than a non-negative `limit` leaves nothing out |
| Storage.CandidatesAfterFreshAdd | packages/backend/src/storage.ts:82-92 | a message stored under a fresh id joins its channel's candidates at the end |
| Storage.FreshPage | packages/backend/src/storage.ts:82-101 | after a message is stored under a fresh id, the default page of its channel is the first 100 of the old candidates plus the new message, sorted |
| Storage.CandidatesNoNewerThan | packages/backend/src/storage.ts:91-96 | a bound on the timestamps of a channel's stored messages, strict or not, bounds every candidate of that channel |
| Storage.FreshNewestHeadsPage | packages/backend/src/storage.ts:90-101 | a message stored under a fresh id, strictly newer than the rest of its channel, heads the default page |
| Storage.FreshTiedDoesNotHeadPage | packages/backend/src/storage.ts:98-99 | a message stored under a fresh id with the same timestamp as the channel's newest stored message does not head the default page |
| StorageInvariants.AddFreshUserKeepsConsistent | packages/backend/src/storage.ts:12-15 | adding a user with an unused id and username keeps both user indexes in step |
| StorageInvariants.UpdateUserKeepsConsistent | packages/backend/src/storage.ts:29-32 | rewriting a user without changing its username keeps both indexes in step |
| StorageInvariants.DeleteUserKeepsConsistent | packages/backend/src/storage.ts:34-39 | deleting a user removes it from both indexes together |
| StorageInvariants.SessionChangesKeepConsistent | packages/backend/src/storage.ts:42-52 | adding or deleting a session keeps the store consistent |
| StorageInvariants.ChannelChangesKeepConsistent | packages/backend/src/storage.ts:55-79 | storing a channel with a repeat-free member list, or deleting one, keeps the store consistent |
| StorageInvariants.MessageChangesKeepConsistent | packages/backend/src/storage.ts:82-105 | adding or deleting a message keeps the store consistent |
| Auth.ValidateToken | packages/backend/src/services/auth.ts:131-142 | a token without a session is a plain miss that changes nothing; a session whose user is missing or inactive is deleted and the call fails; a live session returns its user with the store unchanged |
| Auth.ValidateTokenIdempotent | packages/backend/src/services/auth.ts:131-142 | validating twice gives the same result and store as validating once, so after an invalidation the next call is a plain miss |
| Auth.ValidateTokenPreservesConsistency | packages/backend/src/services/auth.ts:131-142 | validation keeps the store consistent |
| Auth.Login | packages/backend/src/services/auth.ts:8-60 | an unknown username and a wrong password fail with the same error; a deactivated user with the right password fails as deactivated; failures add no session; success adds exactly the session mapping the fresh token to the user |
| Auth.LoginAddsOneSession | packages/backend/src/services/auth.ts:40-46 | a successful login with an unused token grows the session table by exactly one |
| Auth.LoginPreservesConsistency | packages/backend/src/services/auth.ts:40-46 | login keeps the store consistent |
| Auth.Logout | packages/backend/src/services/auth.ts:62-66 | logout always succeeds; afterwards the token has no session, every other session is unchanged, and both user indexes, the channels and the messages are untouched |
| Auth.ValidateTokenRpc | packages/backend/src/services/auth.ts:68-92 | `valid` holds exactly when the token has a live session; then the public user is returned and nothing changes; otherwise the token's session is dropped |
| Auth.DisplayNameOr | packages/backend/src/services/auth.ts:110 | the falsy fallback from display name to username: a non-empty display name is kept, anything else falls back to the username |
| Auth.Register | packages/backend/src/services/auth.ts:94-128 | a taken username fails and changes nothing; a free username always succeeds, storing a new active user, with the display name defaulting to the username, that is findable by id and username |
| Auth.RegisterPreservesConsistency | packages/backend/src/services/auth.ts:97-115 | registration under an unused id keeps usernames unique and both indexes in step |
| Channels.Authorize | packages/backend/src/services/channel.ts:82-97 | not found exactly when the channel is missing; access denied exactly when it exists and the user is not a member; otherwise the stored channel |
| Channels.AuthorizeCreator | packages/backend/src/services/channel.ts:126-141 | not found exactly when the channel is missing; not-creator exactly when it exists and was created by someone else, members included |
| Channels.CreateChannel | packages/backend/src/services/channel.ts:8-45 | an invalid token fails and stores nothing; otherwise it stores a channel created by the caller, with `memberIds == [caller]`, description defaulting to `''` and `isPrivate` defaulting to false |
| Channels.ListChannels | packages/backend/src/services/channel.ts:47-68 | empty for an invalid token; otherwise a channel is listed if and only if it is stored and lists the caller as a member, and none is listed more often than the store holds it |
| Channels.GetChannel | packages/backend/src/services/channel.ts:70-112 | checks authentication, then existence, then membership; only a member gets the channel |
| Channels.UpdateChannel | packages/backend/src/services/channel.ts:114-160 | every refusal leaves the channels as they were; success writes the old channel with only `name` and `description` replaced |
| Channels.UpdateChannelKeepsIdentity | packages/backend/src/services/channel.ts:143-145 | a successful update preserves id, creator, member list, visibility and creation time |
| Channels.DeleteChannel | packages/backend/src/services/channel.ts:162-194 | only the creator may delete; refusals change nothing; success removes the channel |
| Channels.WithMember | packages/backend/src/services/channel.ts:222-225 | the list then contains the user, other members are as before, a listed user leaves it unchanged, and distinctness is kept |
| Channels.AddChannelMember | packages/backend/src/services/channel.ts:196-231 | only the creator may add; adding a listed member changes nothing; otherwise the user is appended once |
| Channels.AddChannelMemberIdempotent | packages/backend/src/services/channel.ts:222-225 | a second identical add changes nothing and replies the same; the member list holds the user and no duplicate |
| Channels.RemoveChannelMember | packages/backend/src/services/channel.ts:233-266 | only the creator may remove; success stores the member list filtered of the user |
| Channels.RemoveChannelMemberEffect | packages/backend/src/services/channel.ts:259-260 | after a successful removal the user is absent and every other member keeps its count (and, by `Seqs.WithoutSpec`, its order) |
| Channels.MembersCannotAdminister | packages/backend/src/services/channel.ts:135-141 | a member who is not the creator is refused update, delete, add and remove with the matching message, and nothing changes |
| Channels.ChannelHandlersPreserveConsistency | packages/backend/src/services/channel.ts:8-266 | every channel handler keeps the store consistent, so no member list gains a duplicate |
| Channels.CreateKeepsConsistent | packages/backend/src/services/channel.ts:20-30 | creating a channel keeps the store consistent |
| Channels.EditsKeepConsistent | packages/backend/src/services/channel.ts:143-260 | update, delete, add and remove keep the store consistent |
| Channels.UpdateKeepsConsistent | packages/backend/src/services/channel.ts:143-146 | renaming or re-describing a channel keeps the store consistent |
| Channels.AddMemberKeepsConsistent | packages/backend/src/services/channel.ts:222-225 | adding a member keeps the store consistent, so the member list stays free of repeats |
| Channels.RemoveMemberKeepsConsistent | packages/backend/src/services/channel.ts:259-260 | removing a member keeps the store consistent |
| Subscriptions.Attach | packages/backend/src/services/message.ts:129-132 | the endpoint joins the channel's set, which is created when absent; no other channel changes; no empty set appears |
| Subscriptions.Detach | packages/backend/src/services/message.ts:135-143 | the endpoint leaves the channel's set, and the entry is dropped once empty; with no entry nothing changes; no empty set remains |
| Subscriptions.Notify | packages/backend/src/services/message.ts:195-206 | the event reaches exactly the channel's subscribers whose write does not throw; a channel without an entry gets nothing |
| Subscriptions.EventType.Code | packages/backend/src/services/message.ts:54 | the wire code is 0 exactly for a sent event and 1 exactly for a deleted one (the deleted code is written at message.ts line 176) |
| Subscriptions.DetachedEndpointIsNotNotified | packages/backend/src/services/message.ts:135-143 | a cancelled endpoint receives no later broadcast on that channel |
| Subscriptions.NotifyStaysInChannel | packages/backend/src/services/message.ts:195-199 | a broadcast never reaches an endpoint not subscribed to its channel |
| Subscriptions.AttachThenDetach | packages/backend/src/services/message.ts:129-143 | subscribing a new endpoint and then cancelling it restores the registry |
| Messaging.SendMessage | packages/backend/src/services/message.ts:11-79 | fails, with nothing stored or broadcast, on an invalid token, then a missing channel, then a non-member; success stores a message with the caller's id and current display name and pushes a sent event (code 0) to exactly the non-failing subscribers of the channel |
| Messaging.EffectiveLimit | packages/backend/src/services/message.ts:96 | the falsy fallback to 100: an absent or zero limit becomes exactly 100, and any other value, negatives included, is kept |
| Messaging.EffectiveBefore | packages/backend/src/services/message.ts:97 | the falsy fallback to no cutoff: a cutoff applies exactly when `before` is present and non-zero |
| Messaging.ListMessages | packages/backend/src/services/message.ts:81-111 | empty for an invalid token, a missing channel or a non-member; otherwise the store query with the defaulted limit and cutoff |
| Messaging.Subscribe | packages/backend/src/services/message.ts:113-133 | an invalid token, a missing channel or a non-member leaves the registry alone; otherwise the endpoint joins the channel's set |
| Messaging.DeleteMessage | packages/backend/src/services/message.ts:146-192 | fails, with nothing changed or broadcast, on an invalid token, a missing message or a non-author; the author's delete of an existing message always succeeds, and the new store is the storage delete of that one message, so users, sessions, channels and every other message are unchanged; it pushes a deleted event (code 1) carrying the pre-delete message to exactly the non-failing subscribers of its channel |
| Messaging.MessageHandlersPreserveConsistency | packages/backend/src/services/message.ts:40-50 | sending and deleting keep the store consistent |
| Messaging.SendKeepsConsistent | packages/backend/src/services/message.ts:40-50 | sending keeps the store consistent |
| Messaging.DeleteKeepsConsistent | packages/backend/src/services/message.ts:146-192 | deleting a message keeps the store consistent |
| Messaging.OnlyAuthorDeletes | packages/backend/src/services/message.ts:165-170 | a non-author's delete fails with "自分のメッセージのみ削除できます", broadcasts nothing, and the message stays readable |
| Messaging.ListAfterSend | packages/backend/src/services/message.ts:81-98 | after a successful send the sender's default listing is the store query over the store holding the new message |
| Users.ListUsers | packages/backend/src/services/user.ts:6-25 | empty for an invalid token; otherwise one password-free entry for every stored user |
| Users.GetUser | packages/backend/src/services/user.ts:27-59 | any authenticated caller reads any existing user; a missing user is reported as not found; nothing is written |
| Users.SelfCheck | packages/backend/src/services/user.ts:65-79 | invalid token first, then a caller acting on another id is refused, before any lookup |
| Users.UpdateUser | packages/backend/src/services/user.ts:61-104 | self-only, checked before the lookup; a self-update of an existing user always succeeds and stores the user with only `displayName` replaced |
| Users.DeleteUser | packages/backend/src/services/user.ts:106-136 | self-only; reports not found and changes nothing when the user is missing; a self-delete of an existing user always succeeds and removes it from both indexes |
| Users.SetUserActive | packages/backend/src/services/user.ts:138-171 | self-only; a self-change of an existing user always succeeds and stores the user with only `isActive` replaced |
| Users.OthersCannotChangeAccount | packages/backend/src/services/user.ts:73-79 | a caller acting on another user's id is refused update, delete and activation change, and nothing changes |
| Users.UpdateUserChangesOnlyDisplayName | packages/backend/src/services/user.ts:90-91 | a successful profile update changes only that user's display name; other users, sessions, channels and messages are unchanged |
| Users.DeactivationRevokesSessions | packages/backend/src/services/user.ts:164-165 | after a user deactivates themself, validating any of their tokens fails and deletes that session |
| Users.DeletionRevokesSessions | packages/backend/src/services/user.ts:124 | after a user deletes their account, validating any of their tokens fails and deletes that session |
| Users.UserHandlersPreserveConsistency | packages/backend/src/services/user.ts:61-171 | update, delete and activation change keep the store consistent |
| Users.UpdateKeepsConsistent | packages/backend/src/services/user.ts:61-104 | a profile update keeps the store consistent |
| Users.DeleteKeepsConsistent | packages/backend/src/services/user.ts:106-136 | an account deletion keeps the store consistent |
| Users.SetActiveKeepsConsistent | packages/backend/src/services/user.ts:138-171 | an activation change keeps the store consistent |
| Scenarios.SentMessageListedFirst | packages/backend/src/storage.ts:90-101 | a successful send strictly newer than the channel's stored messages is the first message of the sender's next default listing |
| Scenarios.TiedSendIsNotListedFirst | packages/backend/src/storage.ts:98-99 | a successful send tied in timestamp with a stored message of the channel is not the first of the next default listing |
| Scenarios.LogoutStopsSendingNotListening | packages/backend/src/services/auth.ts:62-66 | after logout the token can no longer send, but a stream it opened earlier still receives other members' messages |
| Scenarios.CreatorCanEmptyChannel | packages/backend/src/services/channel.ts:259-260 | a creator who is the only member may remove themself, leaving no members and losing read access to the channel |
| Server.Step | packages/backend/src/index.ts:68-71 | only subscribe and cancel touch the registry; a read-only request changes the store at most by dropping the presented token's session; a cancellation leaves the store alone |
| Server.AuthStep | packages/backend/src/index.ts:68 | of the auth requests, `validateToken` changes the store at most by dropping the presented token's session |
| Server.ChannelStep | packages/backend/src/index.ts:69 | the channel service's read-only requests change the store at most by dropping the presented token's session |
| Server.MessageStep | packages/backend/src/index.ts:70 | only subscribe and cancel touch the registry, and neither leaves an empty entry; listing and subscribing change the store at most by dropping the presented token's session; cancelling leaves the store alone |
| Server.UserStep | packages/backend/src/index.ts:71 | the user service's read-only requests change the store at most by dropping the presented token's session |
| Server.Init | packages/backend/src/storage.ts:4-9 | the empty store with an empty registry satisfies the invariant |
| Server.StepPreservesInv | packages/backend/src/index.ts:68-71 | every request keeps the store consistent and the registry free of empty entries, given an unused id for a registration |
| Server.AuthStepKeepsConsistent | packages/backend/src/index.ts:68 | every auth request keeps the store consistent, given an unused id for a registration |
| Server.ChannelStepKeepsConsistent | packages/backend/src/index.ts:69 | every channel request keeps the store consistent |
| Server.MessageStepKeepsConsistent | packages/backend/src/index.ts:70 | every message request keeps the store consistent |
| Server.UserStepKeepsConsistent | packages/backend/src/index.ts:71 | every user request keeps the store consistent |
| Server.RunPreservesInv | packages/backend/src/index.ts:68-71 | every state reached by a sequence of requests keeps the invariant |

## Left out

- bcrypt, uuid and the clock are parameters: `compare`, `passwordHash`, `freshId`/`token` and `now`. `register`'s plain `password` therefore takes no part in the model.
- Uniqueness of generated ids and tokens is not assumed by the handlers. The lemmas that need it take it as a hypothesis: `OrderedMaps.SetFreshThenDelete`, `OrderedMaps.ValuesOfFreshSet`, `Storage.AddThenDeleteUser`, `Storage.AddThenDeleteSession`, `Storage.AddThenDeleteChannel`, `Storage.AddThenDeleteMessage`, `Storage.CandidatesAfterFreshAdd`, `Storage.FreshPage`, `Storage.FreshNewestHeadsPage`, `Storage.FreshTiedDoesNotHeadPage`, `Storage.FreshIsNoCandidate`, `StorageInvariants.AddFreshUserKeepsConsistent`, `Auth.LoginAddsOneSession`, `Auth.RegisterPreservesConsistency`, `Scenarios.SentMessageListedFirst`, `Scenarios.TiedSendIsNotListedFirst`, `Server.StepPreservesInv` and `Server.AuthStepKeepsConsistent` (for `register`), and `Server.RunPreservesInv` (through `Server.FreshAlong`).
- Object aliasing between the two user indexes is modelled by writing both maps on every update. This is equivalent because no handler changes a username.
- gRPC streams are opaque `Endpoint`s. `call.end()` is modelled as "not attached". The `cancelled` event is an explicit `Cancelled` request (`Subscriptions.Detach`). A throwing `stream.write` is modelled by naming the failing endpoints of each broadcast. The `console.error` log line is left out.
- Concurrent attach and detach during a broadcast is not modelled: Node runs the handlers one at a time, and each step is atomic.
- Wire encoding (the `{success, errorMessage, ...}` objects) is modelled by `Reply<T>` with `Success()` and `ErrorMessage()`, and by plain sequences for list replies. The soft-failure replies (`[]`, an ended stream) are modelled directly.
- `limit` and `before` of `listMessages` are modelled as numbers, with `0` the unset value that `||` replaces. The server loads its protocol definitions with `longs: String` (index.ts lines 19, 30, 41). So if these fields were 64-bit in the protocol, they would arrive as decimal strings, and an unset `before` would be the truthy `"0"`. The protocol files are not part of this model, so this is not settled here.
- JavaScript numbers are modelled as unbounded integers. Timestamps and limits never reach 2^53 in practice, and the sort comparator `b.createdAt - a.createdAt` is modelled as a comparison.
- Process bootstrap (index.ts beyond the service table), the SQLite schema (database.ts), the frontend and the tests are not part of this model.
- Storage.UpdateUser and Storage.UpdateChannel are the same writes as `addUser` and `addChannel` and carry no contract of their own.
