/** The websocket chat gateway: a registry from user id to the socket that
    last authenticated as that user, presence written to the store on connect
    and disconnect, the online-friends query, message send with a push to the
    other party, and the bounded history read. Each handler runs atomically;
    an emit is an append to the socket's outbox and `client.disconnect()` sets
    its `disconnected` flag. */
module Chat {
  import opened Base
  import opened Seqs
  import opened Text
  import opened Store

  /** The events the gateway emits, one constructor per event name. */
  datatype Event =
    | ContactStatus(isOnline: bool)           // 'contactStatus'
    | UserStatuses(online: seq<int>)          // 'userStatuses'
    | MessageEvent(message: Message)          // 'message'
    | FetchMessages(messages: seq<Message>)   // 'fetchMessages'

  /** The JWT verifier's answer for a token: it throws (Rejected) or returns
      the decoded payload, whose `id` may be absent. */
  datatype Verified = Rejected | Decoded(id: Option<int>)

  /** The `take` of the history query. */
  const HISTORY_LIMIT: nat := 48

  /** One socket.io connection: the `authorization` handshake header, the
      `userId` the gateway attaches to it, what it has been sent, and whether
      the server has closed it. */
  class Socket {
    const authorization: Option<string>
    var userId: Option<int>
    var outbox: seq<Event>
    var disconnected: bool

    constructor (authorization: Option<string>)
      ensures this.authorization == authorization
      ensures userId == None && outbox == [] && !disconnected
    {
      this.authorization := authorization;
      userId := None;
      outbox := [];
      disconnected := false;
    }

    /** `socket.emit(event, payload)` */
    method Emit(e: Event)
      modifies this`outbox
      ensures outbox == old(outbox) + [e]
    {
      outbox := outbox + [e];
    }

    /** `socket.disconnect()` */
    method Disconnect()
      modifies this`disconnected
      ensures disconnected
    {
      disconnected := true;
    }
  }

  /** The ids of `friends` that are in `online`, in the order of `friends`. */
  function OnlineAmong(friends: seq<int>, online: set<int>): (r: seq<int>)
    ensures forall x :: x in r <==> x in friends && x in online
    ensures |r| <= |friends|
  {
    if |friends| == 0 then []
    else
      var last := friends[|friends| - 1];
      OnlineAmong(friends[..|friends| - 1], online) + if last in online then [last] else []
  }

  /** The filter keeps the order of the friends list: it distributes over
      concatenation, so the statuses of a longer list extend those of its prefix. */
  lemma {:induction false} OnlineAmongConcat(a: seq<int>, b: seq<int>, online: set<int>)
    ensures OnlineAmong(a + b, online) == OnlineAmong(a, online) + OnlineAmong(b, online)
    decreases |b|
  {
    if |b| == 0 {
      assert a + b == a;
    } else {
      var b' := b[..|b| - 1];
      assert (a + b)[..|a + b| - 1] == a + b';
      OnlineAmongConcat(a, b', online);
    }
  }

  /** When every friend is connected the list is reported whole, repetitions
      and order included. */
  lemma {:induction false} OnlineAmongAllOnline(friends: seq<int>, online: set<int>)
    requires forall x :: x in friends ==> x in online
    ensures OnlineAmong(friends, online) == friends
  {
    if |friends| > 0 {
      OnlineAmongAllOnline(friends[..|friends| - 1], online);
      assert friends[..|friends| - 1] + [friends[|friends| - 1]] == friends;
    }
  }

  /** `contact.userId === ownerId ? contact.contactId : contact.userId` */
  function ReceiverId(c: Contact, ownerId: int): (r: Option<int>)
    ensures r.Some? ==> r == c.userId || r == c.contactId
    ensures c.userId.Some? && c.contactId.Some? && c.userId != c.contactId && IsParty(c, ownerId) ==>
              r.Some? && r != Some(ownerId) && IsParty(c, r.value)
  {
    if c.userId == Some(ownerId) then c.contactId else c.userId
  }

  /** The receiver is the other party of a two-party contact, for either
      sender; a sender who is neither party pushes to the `userId` party; a
      contact without the two-party columns (one made by the contact or auth
      services) has no receiver. */
  lemma ReceiverIsOtherParty(c: Contact, a: int, b: int, ownerId: int)
    requires c.userId == Some(a) && c.contactId == Some(b)
    ensures ownerId == a ==> ReceiverId(c, ownerId) == Some(b)
    ensures ownerId == b && a != b ==> ReceiverId(c, ownerId) == Some(a)
    ensures ownerId != a ==> ReceiverId(c, ownerId) == Some(a)
  {
  }

  lemma ReceiverOfServiceContact(c: Contact, ownerId: int)
    requires c.userId.None?
    ensures ReceiverId(c, ownerId).None?
  {
  }

  /** The fetch guard: the requester is one of the two parties. A contact the
      services created sets neither party, so it admits nobody. */
  predicate IsParty(c: Contact, uid: int): (r: bool)
    ensures c.userId.None? && c.contactId.None? ==> !r
  {
    c.userId == Some(uid) || c.contactId == Some(uid)
  }

  predicate SortedByCreatedAt(ms: seq<Message>)
  {
    forall i, j :: 0 <= i < j < |ms| ==> ms[i].createdAt <= ms[j].createdAt
  }

  function InsertByCreatedAt(m: Message, ms: seq<Message>): (r: seq<Message>)
    requires SortedByCreatedAt(ms)
    ensures SortedByCreatedAt(r)
    ensures multiset(r) == multiset(ms) + multiset{m}
    ensures |r| == |ms| + 1 && (r[0] == m || (|ms| > 0 && r[0] == ms[0]))
  {
    if |ms| == 0 || m.createdAt <= ms[0].createdAt then [m] + ms
    else
      var rest := InsertByCreatedAt(m, ms[1..]);
      assert ms == [ms[0]] + ms[1..];
      SortedCons(ms[0], rest);
      [ms[0]] + rest
  }

  lemma SortedCons(x: Message, s: seq<Message>)
    requires SortedByCreatedAt(s) && (|s| > 0 ==> x.createdAt <= s[0].createdAt)
    ensures SortedByCreatedAt([x] + s)
  {
    var r := [x] + s;
    forall i, j | 0 <= i < j < |r| ensures r[i].createdAt <= r[j].createdAt {
      if i == 0 && j > 1 {
        assert s[0].createdAt <= s[j - 1].createdAt;
      }
    }
  }

  /** `orderBy: { createdAt: 'asc' }`: an ordering of the same rows by time. */
  function SortByCreatedAt(ms: seq<Message>): (r: seq<Message>)
    ensures SortedByCreatedAt(r)
    ensures multiset(r) == multiset(ms)
    ensures |r| == |ms|
  {
    if |ms| == 0 then []
    else
      assert ms == [ms[0]] + ms[1..];
      InsertByCreatedAt(ms[0], SortByCreatedAt(ms[1..]))
  }

  /** `message.findMany({ where: { contactId }, orderBy: { createdAt: 'asc' }, take: 48 })`:
      min(48, n) of the contact's n messages, all of the contact, in ascending
      `createdAt`. */
  function History(ms: seq<Message>, cid: int): (r: seq<Message>)
    ensures |r| <= HISTORY_LIMIT
    ensures |r| == if |MessagesOf(ms, cid)| <= HISTORY_LIMIT then |MessagesOf(ms, cid)| else HISTORY_LIMIT
    ensures forall m :: m in r ==> m in ms && m.contactId == cid
    ensures SortedByCreatedAt(r)
  {
    var sorted := SortByCreatedAt(MessagesOf(ms, cid));
    var r := Take(sorted, HISTORY_LIMIT);
    assert forall m :: m in r ==> m in multiset(sorted);
    r
  }

  /** The history is the start of the contact's log in time order: what was
      left out is never older than what was sent, and a contact with at most
      48 messages gets all of them. */
  lemma HistoryEarliest(ms: seq<Message>, cid: int)
    ensures var all := MessagesOf(ms, cid);
            var r := History(ms, cid);
            && multiset(r) <= multiset(all)
            && (forall i, m :: 0 <= i < |r| && m in multiset(all) - multiset(r) ==> r[i].createdAt <= m.createdAt)
            && (|all| <= HISTORY_LIMIT ==> multiset(r) == multiset(all))
  {
    var sorted := SortByCreatedAt(MessagesOf(ms, cid));
    TakeOfSortedEarliest(sorted, HISTORY_LIMIT);
  }

  /** The first `n` messages of a time-ordered list are no newer than the rest. */
  lemma TakeOfSortedEarliest(sorted: seq<Message>, n: nat)
    requires SortedByCreatedAt(sorted)
    ensures var r := Take(sorted, n);
            && multiset(r) <= multiset(sorted)
            && (forall i, m :: 0 <= i < |r| && m in multiset(sorted) - multiset(r) ==> r[i].createdAt <= m.createdAt)
            && (|sorted| <= n ==> r == sorted)
  {
    var r := Take(sorted, n);
    var rest := sorted[|r|..];
    assert sorted == r + rest;
    assert multiset(sorted) == multiset(r) + multiset(rest);
    forall i, m | 0 <= i < |r| && m in multiset(sorted) - multiset(r)
      ensures r[i].createdAt <= m.createdAt
    {
      assert m in multiset(rest);
      assert m in rest;
      var j :| 0 <= j < |rest| && rest[j] == m;
      assert sorted[i] == r[i] && sorted[|r| + j] == m;
    }
  }

  class ChatGateway {
    /** `clients`: user id to the socket that last authenticated as that user. */
    var clients: map<int, Socket>
    /** The database behind Prisma. */
    var db: Db
    /** `jwtService.verify` */
    const verify: string -> Verified

    /** The store is consistent and every registry entry is a socket that was
        admitted as that user. */
    ghost predicate Valid()
      reads this, clients.Values
    {
      Store.Valid(db) && forall u :: u in clients ==> clients[u].userId == Some(u)
    }

    constructor (verify: string -> Verified, db: Db)
      requires Store.Valid(db)
      ensures Valid() && clients == map[] && this.db == db && this.verify == verify
    {
      this.verify := verify;
      this.db := db;
      clients := map[];
    }

    /** The socket a message from `ownerId` on contact `cid` is pushed to. */
    function Recipient(ownerId: int, cid: int): (r: Option<Socket>)
      reads this
      ensures r.Some? ==> r.value in clients.Values
      ensures r.Some? <==> ContactIndex(db, cid).Some?
                           && var rid := ReceiverId(db.contacts[ContactIndex(db, cid).value], ownerId);
                           rid.Some? && rid.value in clients
      ensures r.Some? ==> r.value == clients[ReceiverId(db.contacts[ContactIndex(db, cid).value], ownerId).value]
    {
      match ContactIndex(db, cid)
      case None => None
      case Some(ci) =>
        match ReceiverId(db.contacts[ci], ownerId)
        case None => None
        case Some(r) => if r in clients then Some(clients[r]) else None
    }

    function RecipientFrame(ownerId: Option<int>, cid: Option<int>): set<Socket>
      reads this
    {
      if ownerId.Some? && cid.Some? then
        match Recipient(ownerId.value, cid.value)
        case Some(s) => {s}
        case None => {}
      else {}
    }

    /** `handleConnection`: no (or an empty) header closes the socket; otherwise
        the header minus its first "Bearer " goes to the verifier. A rejected
        token closes the socket. A decoded id is attached to the socket; when it
        names a user, that user is marked online, the socket is told so and
        becomes the user's registry entry, replacing any earlier one; when it
        does not, the store update fails and the socket is closed. */
    method HandleConnection(client: Socket)
      requires Valid() && client !in clients.Values
      modifies this, client
      ensures Valid()
      ensures var header := client.authorization;
              var verdict := if TruthyText(header) then verify(StripBearer(header.value)) else Rejected;
              match verdict
              case Rejected =>
                && client.disconnected && client.userId == old(client.userId) && client.outbox == old(client.outbox)
                && clients == old(clients) && db == old(db)
              case Decoded(id) =>
                && client.userId == id
                && if id.Some? && UserIndex(old(db), id.value).Some? then
                     var i := UserIndex(old(db), id.value).value;
                     && db == old(db).(users := old(db).users[i := old(db).users[i].(isOnline := true)])
                     && client.outbox == old(client.outbox) + [ContactStatus(true)]
                     && client.disconnected == old(client.disconnected)
                     && clients == old(clients)[id.value := client]
                   else
                     && client.disconnected && client.outbox == old(client.outbox)
                     && clients == old(clients) && db == old(db)
    {
      var header := client.authorization;
      if !TruthyText(header) {
        client.Disconnect();
        return;
      }
      var token := StripBearer(header.value);
      var verdict := verify(token);
      if verdict.Rejected? {
        client.Disconnect();
        return;
      }
      var userId := verdict.id;
      client.userId := userId;
      var found := if userId.Some? then UserIndex(db, userId.value) else None;
      if found.None? {
        client.Disconnect();
        return;
      }
      var i := found.value;
      db := UpdateUser(db, i, db.users[i].(isOnline := true));
      client.Emit(ContactStatus(true));
      clients := clients[userId.value := client];
    }

    /** `handleDisconnect`: a socket carrying a truthy user id removes that
        user's registry entry, whichever socket it holds, and the user is
        written offline with `lastOnline = now`. For an id that names no user
        (a socket `handleConnection` tagged before its own update failed) the
        offline write throws outside any `try`: the entry is already gone, the
        store is as it was, and the failure is returned as `Some(StoreFailure)`.
        A socket without a user id changes nothing. */
    method HandleDisconnect(client: Socket, now: int) returns (failure: Option<HttpError>)
      requires Valid()
      modifies this
      ensures Valid()
      ensures var uid := client.userId;
              if TruthyId(uid) then
                && clients == old(clients) - {uid.value}
                && match UserIndex(old(db), uid.value)
                   case None => db == old(db) && failure == Some(StoreFailure)
                   case Some(i) =>
                     && db == old(db).(users := old(db).users[i := old(db).users[i].(isOnline := false, lastOnline := Some(now))])
                     && failure.None?
              else
                clients == old(clients) && db == old(db) && failure.None?
    {
      failure := None;
      var uid := client.userId;
      if TruthyId(uid) {
        clients := clients - {uid.value};
        var found := UserIndex(db, uid.value);
        if found.Some? {
          var i := found.value;
          db := UpdateUser(db, i, db.users[i].(isOnline := false, lastOnline := Some(now)));
        } else {
          failure := Some(StoreFailure);
        }
      }
    }

    /** The loop of `handleGetUserStatus`: the friends that have a registry entry. */
    method CollectOnline(friends: seq<int>) returns (statuses: seq<int>)
      ensures statuses == OnlineAmong(friends, clients.Keys)
    {
      statuses := [];
      var k := 0;
      while k < |friends|
        invariant 0 <= k <= |friends|
        invariant statuses == OnlineAmong(friends[..k], clients.Keys)
      {
        var id := friends[k];
        assert friends[..k + 1][..k] == friends[..k];
        if id in clients {
          statuses := statuses + [id];
        }
        k := k + 1;
      }
      assert friends[..k] == friends;
    }

    /** `handleGetUserStatus`: the requester's friends that are connected, in
        the order of its friends list, as `userStatuses`; nothing when the
        socket has no user id or the user is not in the store. */
    method HandleGetUserStatus(client: Socket)
      requires Valid()
      modifies client`outbox
      ensures Valid()
      ensures var uid := client.userId;
              var found := if uid.Some? then UserIndex(db, uid.value) else None;
              client.outbox == old(client.outbox) +
                if found.Some? then [UserStatuses(OnlineAmong(db.users[found.value].friends, clients.Keys))] else []
    {
      var uid := client.userId;
      if uid.None? {
        return;
      }
      var found := UserIndex(db, uid.value);
      if found.None? {
        return;
      }
      var statuses := CollectOnline(db.users[found.value].friends);
      client.Emit(UserStatuses(statuses));
    }

    /** `handleMessage`. A falsy sender or contact id closes the socket; an
        unknown contact is ignored; an unknown sender closes the socket. There
        is no membership check. Otherwise one message is stored, the contact's
        `messageCount` goes up by one, and the stored message is pushed to the
        registered socket of the receiver chosen by `ReceiverId`, if any, and
        then to the sender. */
    method HandleMessage(client: Socket, contactId: Option<int>, content: string, now: int)
      requires Valid()
      modifies this, client, RecipientFrame(client.userId, contactId)
      ensures Valid() && clients == old(clients)
      ensures client.userId == old(client.userId)
      ensures var owner := client.userId;
              var rcv := if owner.Some? && contactId.Some? then old(Recipient(owner.value, contactId.value)) else None;
              && (rcv.Some? && rcv.value != client ==> rcv.value.disconnected == old(rcv.value.disconnected))
              && if !TruthyId(owner) || !TruthyId(contactId) then
                && client.disconnected && client.outbox == old(client.outbox) && db == old(db)
                && (rcv.Some? ==> rcv.value.outbox == old(rcv.value.outbox))
              else if ContactIndex(old(db), contactId.value).None? then
                && client.disconnected == old(client.disconnected) && client.outbox == old(client.outbox)
                && db == old(db)
              else if UserIndex(old(db), owner.value).None? then
                && client.disconnected && client.outbox == old(client.outbox) && db == old(db)
                && (rcv.Some? ==> rcv.value.outbox == old(rcv.value.outbox))
              else
                var ci := ContactIndex(old(db), contactId.value).value;
                && db == AppendMessage(old(db), content, owner.value, ci, now)
                && var sent := MessageEvent(db.messages[|old(db.messages)|]);
                && client.disconnected == old(client.disconnected)
                && (rcv == Some(client) ==> client.outbox == old(client.outbox) + [sent, sent])
                && (rcv != Some(client) ==> client.outbox == old(client.outbox) + [sent])
                && (rcv.Some? && rcv.value != client ==> rcv.value.outbox == old(rcv.value.outbox) + [sent])
    {
      var owner := client.userId;
      if !TruthyId(owner) || !TruthyId(contactId) {
        client.Disconnect();
        return;
      }
      var ownerId, cid := owner.value, contactId.value;
      var foundContact := ContactIndex(db, cid);
      if foundContact.None? {
        return;
      }
      var foundOwner := UserIndex(db, ownerId);
      if foundOwner.None? {
        client.Disconnect();
        return;
      }
      var ci := foundContact.value;
      var contact := db.contacts[ci];
      ghost var rcv := Recipient(ownerId, cid);
      UserIndexOfValid(db, ownerId);
      AppendMessageValid(db, content, ownerId, ci, now);
      db := AppendMessage(db, content, ownerId, ci, now);
      var message := db.messages[|db.messages| - 1];
      var receiverId := ReceiverId(contact, ownerId);
      if receiverId.Some? && receiverId.value in clients {
        var receiver := clients[receiverId.value];
        assert rcv == Some(receiver);
        receiver.Emit(MessageEvent(message));
      }
      client.Emit(MessageEvent(message));
    }

    /** `handleFetchMessages`. A falsy requester or contact id closes the
        socket; an unknown contact, or a requester who is neither its `userId`
        nor its `contactId`, gets nothing; otherwise the requester is sent the
        contact's history. */
    method HandleFetchMessages(client: Socket, contactId: Option<int>)
      requires Valid()
      modifies client
      ensures Valid()
      ensures client.userId == old(client.userId)
      ensures var requester := client.userId;
              if !TruthyId(requester) || !TruthyId(contactId) then
                client.disconnected && client.outbox == old(client.outbox)
              else
                && client.disconnected == old(client.disconnected)
                && var found := ContactIndex(db, contactId.value);
                && if found.None? || !IsParty(db.contacts[found.value], requester.value) then
                     client.outbox == old(client.outbox)
                   else
                     client.outbox == old(client.outbox) + [FetchMessages(History(db.messages, contactId.value))]
    {
      var requester := client.userId;
      if !TruthyId(requester) || !TruthyId(contactId) {
        client.Disconnect();
        return;
      }
      var found := ContactIndex(db, contactId.value);
      if found.None? || !IsParty(db.contacts[found.value], requester.value) {
        return;
      }
      var messages := History(db.messages, contactId.value);
      client.Emit(FetchMessages(messages));
    }
  }
}
