/** The four persistent entities of the chat backend, field for field as
    the TypeScript interfaces declare them. Identifiers, tokens and names are
    strings; timestamps are integer milliseconds. */
module Types {

  datatype User = User(
    id: string,
    username: string,
    passwordHash: string,
    displayName: string,
    createdAt: int,
    isActive: bool)

  datatype Channel = Channel(
    id: string,
    name: string,
    description: string,
    createdAt: int,
    createdBy: string,
    memberIds: seq<string>,
    isPrivate: bool)

  datatype Message = Message(
    id: string,
    channelId: string,
    userId: string,
    username: string,
    content: string,
    createdAt: int,
    updatedAt: int)

  datatype Session = Session(token: string, userId: string, createdAt: int)

  /** The user record as every reply puts it on the wire: all fields except
      the password hash. */
  datatype PublicUser = PublicUser(
    id: string,
    username: string,
    displayName: string,
    createdAt: int,
    isActive: bool)

  function Public(u: User): PublicUser {
    PublicUser(u.id, u.username, u.displayName, u.createdAt, u.isActive)
  }

  /** The wire form hides the password hash and nothing else: two users
      look the same on the wire exactly when they differ at most in it. */
  lemma PublicHidesOnlyPassword(a: User, b: User)
    ensures Public(a) == Public(b) <==> a.(passwordHash := b.passwordHash) == b
  {
  }
}
