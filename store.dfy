/** The database the three components share, as one value: the `user`,
    `contact` and `message` tables in row order. No operation deletes a row,
    and the model assumes no insert uses up an id without storing its row, so
    an autoincrement id is the row's position plus one. */
module Store {
  import opened Base
  import opened Seqs

  /** A `user` row. `password` holds the bcrypt hash; `friends` is the ordered
      list of user ids that contact creation appends to. */
  datatype User = User(
    id: int,
    username: string,
    email: string,
    password: string,
    status: string,
    avatar: Option<string>,
    isOnline: bool,
    lastOnline: Option<int>,
    friends: seq<int>)

  /** A `contact` row (a conversation). The contact and auth services write
      `ownerId` and `members`; the chat gateway reads it as a two-party record
      `userId`/`contactId`, which those services never set. */
  datatype Contact = Contact(
    id: int,
    ownerId: int,
    name: Option<string>,
    avatar: Option<string>,
    members: seq<int>,
    userId: Option<int>,
    contactId: Option<int>,
    messageCount: int)

  /** A `message` row; `createdAt` is the clock reading at insertion. */
  datatype Message = Message(id: int, content: string, ownerId: int, contactId: int, createdAt: int)

  datatype Db = Db(users: seq<User>, contacts: seq<Contact>, messages: seq<Message>)

  /** The rows of `message` whose `contactId` is `cid`, in table order. */
  function MessagesOf(ms: seq<Message>, cid: int): (r: seq<Message>)
    ensures forall m :: m in r <==> m in ms && m.contactId == cid
    ensures |r| <= |ms|
    ensures (forall m :: m in ms ==> m.contactId != cid) ==> r == []
  {
    if |ms| == 0 then []
    else
      var last := ms[|ms| - 1];
      MessagesOf(ms[..|ms| - 1], cid) + if last.contactId == cid then [last] else []
  }

  lemma MessagesOfAppend(ms: seq<Message>, m: Message, cid: int)
    ensures MessagesOf(ms + [m], cid) == MessagesOf(ms, cid) + if m.contactId == cid then [m] else []
  {
    assert (ms + [m])[..|ms|] == ms;
  }

  predicate IsUserId(db: Db, id: int)
  {
    1 <= id <= |db.users|
  }

  predicate ContactRowValid(db: Db, i: nat)
    requires i < |db.contacts|
  {
    var c := db.contacts[i];
    && c.id == i + 1
    && NoDup(c.members)
    && (forall m :: m in c.members ==> IsUserId(db, m))
    && c.messageCount == |MessagesOf(db.messages, c.id)|
  }

  predicate MessageRowValid(db: Db, i: nat)
    requires i < |db.messages|
  {
    var m := db.messages[i];
    m.id == i + 1 && IsUserId(db, m.ownerId) && 1 <= m.contactId <= |db.contacts|
  }

  /** Autoincrement user ids: the user with id k is the row k - 1. */
  predicate RowIds(db: Db)
  {
    forall i :: 0 <= i < |db.users| ==> db.users[i].id == i + 1
  }

  /** The invariant the modelled operations keep: autoincrement ids, unique
      usernames, relations that point at existing rows, member sets without
      repetition, and a `messageCount` equal to the number of the contact's
      messages. */
  predicate Valid(db: Db)
  {
    && RowIds(db)
    && (forall i, j :: 0 <= i < j < |db.users| ==> db.users[i].username != db.users[j].username)
    && (forall i :: 0 <= i < |db.contacts| ==> ContactRowValid(db, i))
    && (forall i :: 0 <= i < |db.messages| ==> MessageRowValid(db, i))
  }

  /** `user.findUnique({ where: { id } })`, as the row's position. */
  function UserIndex(db: Db, id: int): (r: Option<nat>)
    ensures r.Some? ==> r.value < |db.users| && db.users[r.value].id == id
    ensures r.None? ==> forall i :: 0 <= i < |db.users| ==> db.users[i].id != id
  {
    FindFirst(db.users, (u: User) => u.id == id)
  }

  /** `user.findUnique({ where: { username } })`, as the row's position. */
  function UsernameIndex(db: Db, username: string): (r: Option<nat>)
    ensures r.Some? ==> r.value < |db.users| && db.users[r.value].username == username
    ensures r.None? ==> forall i :: 0 <= i < |db.users| ==> db.users[i].username != username
  {
    FindFirst(db.users, (u: User) => u.username == username)
  }

  /** `contact.findUnique({ where: { id } })`, as the row's position. */
  function ContactIndex(db: Db, id: int): (r: Option<nat>)
    ensures r.Some? ==> r.value < |db.contacts| && db.contacts[r.value].id == id
    ensures r.None? ==> forall i :: 0 <= i < |db.contacts| ==> db.contacts[i].id != id
  {
    FindFirst(db.contacts, (c: Contact) => c.id == id)
  }

  /** In a valid store the user with id `id` is the row at `id - 1`. */
  lemma UserIndexOfValid(db: Db, id: int)
    requires RowIds(db)
    ensures UserIndex(db, id) == if IsUserId(db, id) then Some(id - 1) else None
  {
    if IsUserId(db, id) {
      assert db.users[id - 1].id == id;
    }
  }

  /** In a valid store the contact with id `id` is the row at `id - 1`. */
  lemma ContactIndexOfValid(db: Db, id: int)
    requires Valid(db)
    ensures ContactIndex(db, id) == if 1 <= id <= |db.contacts| then Some(id - 1) else None
  {
    var r := ContactIndex(db, id);
    if r.Some? {
      assert ContactRowValid(db, r.value);
    }
    if 1 <= id <= |db.contacts| {
      assert ContactRowValid(db, id - 1);
    } else {
      forall i | 0 <= i < |db.contacts| ensures db.contacts[i].id != id {
        assert ContactRowValid(db, i);
      }
    }
  }

  /** `user.update({ where: { id }, data })` on the row at `i`; id and username
      are not among the updated columns. */
  function UpdateUser(db: Db, i: nat, u: User): (r: Db)
    requires i < |db.users| && u.id == db.users[i].id && u.username == db.users[i].username
    ensures Valid(db) ==> Valid(r)
  {
    var r := db.(users := db.users[i := u]);
    assert forall k :: 0 <= k < |db.contacts| && ContactRowValid(db, k) ==> ContactRowValid(r, k);
    assert forall k :: 0 <= k < |db.messages| && MessageRowValid(db, k) ==> MessageRowValid(r, k);
    r
  }

  /** `data: { friends: { push: f } }` on the row at `i`. */
  function PushFriend(db: Db, i: nat, f: int): (r: Db)
    requires i < |db.users|
    ensures Valid(db) ==> Valid(r)
  {
    UpdateUser(db, i, db.users[i].(friends := db.users[i].friends + [f]))
  }

  /** `user.create`: refused, as the unique index on `username` refuses it,
      when the name is taken; otherwise a row with the next id, the column
      defaults (offline, never seen, no friends, no avatar) and the given values. */
  function CreateUser(db: Db, username: string, email: string, passwordHash: string, status: string): (r: Option<Db>)
    ensures r.Some? <==> UsernameIndex(db, username).None?
    ensures r.Some? && Valid(db) ==> Valid(r.value)
  {
    if UsernameIndex(db, username).Some? then None
    else
      var u := User(|db.users| + 1, username, email, passwordHash, status, None, false, None, []);
      var r := db.(users := db.users + [u]);
      assert forall k :: 0 <= k < |db.contacts| && ContactRowValid(db, k) ==> ContactRowValid(r, k);
      assert forall k :: 0 <= k < |db.messages| && MessageRowValid(db, k) ==> MessageRowValid(r, k);
      Some(r)
  }

  /** `contact.create` with `members: { connect: ids }`: refused when an id
      names no user; a repeated id is assumed to be stored once, as in a
      relation table keyed by the pair.
      The new row takes the next id and starts with no messages. */
  function CreateContact(db: Db, ownerId: int, name: Option<string>, avatar: Option<string>, memberIds: seq<int>): (r: Option<Db>)
    ensures r.Some? <==> forall m :: m in memberIds ==> UserIndex(db, m).Some?
    ensures r.Some? ==> r.value == db.(contacts := db.contacts + [NewContact(db, ownerId, name, avatar, memberIds)])
    ensures r.Some? && Valid(db) ==> Valid(r.value)
  {
    if exists m :: m in memberIds && UserIndex(db, m).None? then None
    else
      var r := db.(contacts := db.contacts + [NewContact(db, ownerId, name, avatar, memberIds)]);
      if Valid(db) then
        CreateContactValid(db, ownerId, name, avatar, memberIds);
        Some(r)
      else
        Some(r)
  }

  /** The row `contact.create` inserts. */
  function NewContact(db: Db, ownerId: int, name: Option<string>, avatar: Option<string>, memberIds: seq<int>): (c: Contact)
    ensures c.id == |db.contacts| + 1 && c.ownerId == ownerId && c.name == name && c.avatar == avatar
    ensures NoDup(c.members) && forall x :: x in c.members <==> x in memberIds
    ensures c.userId.None? && c.contactId.None? && c.messageCount == 0
  {
    Contact(|db.contacts| + 1, ownerId, name, avatar, Dedup(memberIds), None, None, 0)
  }

  lemma CreateContactValid(db: Db, ownerId: int, name: Option<string>, avatar: Option<string>, memberIds: seq<int>)
    requires Valid(db)
    requires forall m :: m in memberIds ==> UserIndex(db, m).Some?
    ensures Valid(db.(contacts := db.contacts + [NewContact(db, ownerId, name, avatar, memberIds)]))
  {
    var c := NewContact(db, ownerId, name, avatar, memberIds);
    var r := db.(contacts := db.contacts + [c]);
    NewContactHasNoMessages(db);
    forall m | m in c.members ensures IsUserId(db, m) {
      UserIndexOfValid(db, m);
    }
    assert ContactRowValid(r, |db.contacts|);
    forall k | 0 <= k < |db.contacts| ensures ContactRowValid(r, k) {
      assert ContactRowValid(db, k);
    }
    forall k | 0 <= k < |db.messages| ensures MessageRowValid(r, k) {
      assert MessageRowValid(db, k);
    }
  }

  /** No message of a valid store refers to the id the next contact will get. */
  lemma NewContactHasNoMessages(db: Db)
    requires Valid(db)
    ensures MessagesOf(db.messages, |db.contacts| + 1) == []
  {
    var r := MessagesOf(db.messages, |db.contacts| + 1);
    forall k | 0 <= k < |db.messages| ensures db.messages[k].contactId <= |db.contacts| {
      assert MessageRowValid(db, k);
    }

  }

  /** `message.create` followed by `contact.update` with `messageCount:
      { increment: 1 }`: the new row has the next id and is stamped `now`. */
  function AppendMessage(db: Db, content: string, ownerId: int, ci: nat, now: int): (r: Db)
    requires ci < |db.contacts|
    ensures r.users == db.users && |r.contacts| == |db.contacts|
    ensures |r.messages| == |db.messages| + 1 && r.messages[..|db.messages|] == db.messages
    ensures r.messages[|db.messages|].id == |db.messages| + 1
  {
    var m := Message(|db.messages| + 1, content, ownerId, db.contacts[ci].id, now);
    var c := db.contacts[ci];
    db.(messages := db.messages + [m], contacts := db.contacts[ci := c.(messageCount := c.messageCount + 1)])
  }

  /** A send adds exactly one message, with the given content, owner and
      contact, to the end of that contact's log and to no other log; it raises
      that contact's `messageCount` by one and leaves every other row as it was. */
  lemma AppendMessageEffect(db: Db, content: string, ownerId: int, ci: nat, now: int)
    requires ci < |db.contacts|
    ensures var r := AppendMessage(db, content, ownerId, ci, now);
            var cid := db.contacts[ci].id;
            && r.users == db.users
            && |r.messages| == |db.messages| + 1 && r.messages[..|db.messages|] == db.messages
            && var m := r.messages[|db.messages|];
            && m.content == content && m.ownerId == ownerId && m.contactId == cid && m.createdAt == now
            && MessagesOf(r.messages, cid) == MessagesOf(db.messages, cid) + [m]
            && (forall other :: other != cid ==> MessagesOf(r.messages, other) == MessagesOf(db.messages, other))
            && |r.contacts| == |db.contacts|
            && r.contacts[ci] == db.contacts[ci].(messageCount := db.contacts[ci].messageCount + 1)
            && (forall k :: 0 <= k < |db.contacts| && k != ci ==> r.contacts[k] == db.contacts[k])
  {
    var r := AppendMessage(db, content, ownerId, ci, now);
    var m := r.messages[|db.messages|];
    assert r.messages == db.messages + [m];
    forall other {
      MessagesOfAppend(db.messages, m, other);
    }
  }

  /** A send by an existing user to an existing contact keeps the store valid;
      in particular `messageCount` keeps counting the contact's messages. */
  lemma AppendMessageValid(db: Db, content: string, ownerId: int, ci: nat, now: int)
    requires Valid(db) && ci < |db.contacts| && IsUserId(db, ownerId)
    ensures Valid(AppendMessage(db, content, ownerId, ci, now))
  {
    var r := AppendMessage(db, content, ownerId, ci, now);
    AppendMessageEffect(db, content, ownerId, ci, now);
    forall k | 0 <= k < |r.contacts|
      ensures ContactRowValid(r, k)
    {
      assert ContactRowValid(db, k);
      assert ContactRowValid(db, ci);
    }
    assert ContactRowValid(db, ci);
    forall k | 0 <= k < |r.messages|
      ensures MessageRowValid(r, k)
    {
      if k < |db.messages| {
        assert r.messages[k] == db.messages[k];
        assert MessageRowValid(db, k);
      }
    }
  }
}
