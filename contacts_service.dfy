/** The contact service: the contact lists of a user, one contact resolved by
    id or by the "notes" sentinel 0, and contact creation, which makes the
    participants friends of each other before it inserts the contact. */
module ContactsService {
  import opened Base
  import opened Seqs
  import opened Store

  /** The `take` of `getContact`. */
  const CONTACT_ROWS: nat := 12
  /** The contact id that stands for the requester's notes conversation. */
  const NOTES_SENTINEL: int := 0
  /** The owner of every notes conversation. */
  const NOTES_OWNER: int := 1
  /** Every failure of `addContact` is rethrown as this one exception. */
  const CREATE_ERROR: HttpError := Unauthorized("Error creating contact")

  /** The users with the given id, in table order. */
  function UsersWithId(users: seq<User>, id: int): (r: seq<User>)
    ensures forall u :: u in r <==> u in users && u.id == id
  {
    if |users| == 0 then []
    else
      var last := users[|users| - 1];
      UsersWithId(users[..|users| - 1], id) + if last.id == id then [last] else []
  }

  /** The contacts having `uid` among their members: the `contacts` relation
      of a user. */
  function ContactsOf(cs: seq<Contact>, uid: int): (r: seq<Contact>)
    ensures forall c :: c in r <==> c in cs && uid in c.members
  {
    if |cs| == 0 then []
    else
      var last := cs[|cs| - 1];
      ContactsOf(cs[..|cs| - 1], uid) + if uid in last.members then [last] else []
  }

  /** `getContact`: `user.findMany({ where: { id }, select: { contacts: true },
      take: 12 })`, one row per matching user, each the list of contacts
      that user belongs to. The bound applies to users, not to contacts. */
  function GetContact(db: Db, userId: int): (rows: seq<seq<Contact>>)
    ensures |rows| <= CONTACT_ROWS
    ensures forall k :: 0 <= k < |rows| ==> rows[k] == ContactsOf(db.contacts, userId)
  {
    var us := Take(UsersWithId(db.users, userId), CONTACT_ROWS);
    seq(|us|, k requires 0 <= k < |us| => ContactsOf(db.contacts, us[k].id))
  }

  /** Ids are unique in a valid store, so the users with an id are the row
      `id - 1` or none. */
  lemma {:induction false} UsersWithIdOfValid(users: seq<User>, id: int)
    requires forall i :: 0 <= i < |users| ==> users[i].id == i + 1
    ensures UsersWithId(users, id) == if 1 <= id <= |users| then [users[id - 1]] else []
  {
    if |users| > 0 {
      var init := users[..|users| - 1];
      UsersWithIdOfValid(init, id);
      if 1 <= id < |users| {
        assert init[id - 1] == users[id - 1];
      }
    }
  }

  /** So `getContact` yields one row for an existing user and none otherwise:
      the limit of 12 never bites. */
  lemma GetContactSingleRow(db: Db, userId: int)
    requires Valid(db)
    ensures |GetContact(db, userId)| == if IsUserId(db, userId) then 1 else 0
  {
    UsersWithIdOfValid(db.users, userId);
  }

  /** A contact with its `members` relation loaded (`include: { members: true }`). */
  datatype ContactInfo = ContactInfo(contact: Contact, members: seq<User>)

  /** The user rows of a contact's members, in table order. */
  function MemberRows(users: seq<User>, c: Contact): (r: seq<User>)
    ensures forall u :: u in r <==> u in users && u.id in c.members
  {
    if |users| == 0 then []
    else
      var last := users[|users| - 1];
      MemberRows(users[..|users| - 1], c) + if last.id in c.members then [last] else []
  }

  /** A notes conversation of `uid`: owned by user 1, with `uid` a member. */
  predicate IsNotesOf(c: Contact, uid: int)
  {
    c.ownerId == NOTES_OWNER && uid in c.members
  }

  /** `getContactInfo`: the sentinel 0 resolves to the first contact owned by
      user 1 that has the requester as a member; any other id is looked up as
      is. The result is `null` (None) when nothing matches. */
  function GetContactInfo(db: Db, userId: int, contactId: int): (r: Option<ContactInfo>)
    ensures contactId == NOTES_SENTINEL ==>
              && (r.Some? <==> exists i :: 0 <= i < |db.contacts| && IsNotesOf(db.contacts[i], userId))
              && (r.Some? ==> r.value.contact.ownerId == NOTES_OWNER && userId in r.value.contact.members)
    ensures contactId != NOTES_SENTINEL ==>
              && (r.Some? <==> exists i :: 0 <= i < |db.contacts| && db.contacts[i].id == contactId)
              && (r.Some? ==> r.value.contact.id == contactId)
    ensures r.Some? ==> r.value.contact in db.contacts && r.value.members == MemberRows(db.users, r.value.contact)
  {
    var found :=
      if contactId == NOTES_SENTINEL then FindFirst(db.contacts, (c: Contact) => IsNotesOf(c, userId))
      else ContactIndex(db, contactId);
    match found
    case None => None
    case Some(i) => Some(ContactInfo(db.contacts[i], MemberRows(db.users, db.contacts[i])))
  }

  /** The members are returned as stored rows, password hashes included. */
  lemma ContactInfoKeepsPasswords(db: Db, userId: int, contactId: int, u: User)
    requires GetContactInfo(db, userId, contactId).Some?
    requires u in GetContactInfo(db, userId, contactId).value.members
    ensures u in db.users
  {
  }

  /** `[...new Set([userId, ...contactIds])]` */
  function Participants(userId: int, contactIds: seq<int>): (ps: seq<int>)
    ensures NoDup(ps) && |ps| > 0 && ps[0] == userId
    ensures forall x :: x in ps <==> x == userId || x in contactIds
  {
    DedupHead([userId] + contactIds);
    Dedup([userId] + contactIds)
  }

  /** The given ids keep their order of first occurrence: the participants of
      a prefix of the ids are a prefix of the participants. */
  lemma ParticipantsInOrder(userId: int, contactIds: seq<int>)
    ensures forall k :: 0 <= k <= |contactIds| ==> Participants(userId, contactIds[..k]) <= Participants(userId, contactIds)
  {
    var all := [userId] + contactIds;
    forall k | 0 <= k <= |contactIds|
      ensures Participants(userId, contactIds[..k]) <= Participants(userId, contactIds)
    {
      DedupPrefix(all, k + 1);
      assert all[..k + 1] == [userId] + contactIds[..k];
    }
  }

  /** The ids of `ps` absent from `friends`, in the order of `ps`. */
  function Missing(ps: seq<int>, friends: seq<int>): (r: seq<int>)
    ensures forall x :: x in r <==> x in ps && x !in friends
  {
    if |ps| == 0 then []
    else
      var last := ps[|ps| - 1];
      Missing(ps[..|ps| - 1], friends) + if last in friends then [] else [last]
  }

  /** The contact check of `addContact`: a `findFirst` over the contacts
      with the filter "owned by the user or having the user as a member"; it
      finds a row exactly when some contact is the user's or has the user. */
  predicate Involved(db: Db, uid: int): (r: bool)
    ensures r <==> exists c :: c in db.contacts && (c.ownerId == uid || uid in c.members)
    ensures (exists c :: c in db.contacts && IsNotesOf(c, uid)) ==> r
  {
    FindFirst(db.contacts, (c: Contact) => c.ownerId == uid || uid in c.members).Some?
  }

  /** Every user owns or belongs to some contact; registration keeps this true
      (the notes conversation), and then `addContact` refuses every user. */
  predicate EveryUserInvolved(db: Db)
  {
    forall id :: 1 <= id <= |db.users| ==> Involved(db, id)
  }

  /** The friend lists after the loop of `addContact` over participants `ps`
      have been reconciled, as far as `done` of them: the requester (row `me`)
      has its snapshot plus the missing participants appended, every other
      participant that existed has the requester appended if it lacked it,
      and nothing else changed. */
  predicate Reconciled(db: Db, db': Db, me: nat, userId: int, done: seq<int>)
    requires me < |db.users|
  {
    && |db'.users| == |db.users|
    && db'.contacts == db.contacts && db'.messages == db.messages
    && (forall k :: 0 <= k < |db.users| ==> db'.users[k] == db.users[k].(friends := db'.users[k].friends))
    && db'.users[me].friends == db.users[me].friends + Missing(done, db.users[me].friends)
    && (forall k :: 0 <= k < |db.users| && k != me ==>
          db'.users[k].friends == db.users[k].friends + Owed(db.users[k], userId, done))
  }

  /** What the loop appends to the friends of a participant other than the
      requester: the requester, when the participant has been visited and
      lacked it. */
  function Owed(u: User, userId: int, done: seq<int>): seq<int>
  {
    if u.id in done && userId !in u.friends then [userId] else []
  }

  /** One turn of the loop of `addContact` for participant `p`: append `p` to
      the requester's friends when the snapshot lacks it, then re-read `p`'s
      row and append the requester when `p` exists and lacks it. */
  function ReconcileTurn(d: Db, me: nat, userId: int, snapshot: seq<int>, p: int): (r: Db)
    requires me < |d.users|
    ensures |r.users| == |d.users| && r.contacts == d.contacts && r.messages == d.messages
    ensures forall k :: 0 <= k < |d.users| ==>
              r.users[k] == d.users[k].(friends := r.users[k].friends) && d.users[k].friends <= r.users[k].friends
  {
    var d1 := if p !in snapshot then PushFriend(d, me, p) else d;
    match UserIndex(d1, p)
    case Some(j) => if userId !in d1.users[j].friends then PushFriend(d1, j, userId) else d1
    case None => d1
  }

  lemma ReconcileTurnKeeps(db: Db, before: Db, me: nat, userId: int, done: seq<int>, p: int)
    requires RowIds(db) && me < |db.users| && db.users[me].id == userId
    requires RowIds(before) && Reconciled(db, before, me, userId, done)
    requires p !in done
    ensures Reconciled(db, ReconcileTurn(before, me, userId, db.users[me].friends, p), me, userId, done + [p])
  {
    var snapshot := db.users[me].friends;
    var d1 := if p !in snapshot then PushFriend(before, me, p) else before;
    assert (done + [p])[..|done|] == done;
    assert Missing(done + [p], snapshot) == Missing(done, snapshot) + if p in snapshot then [] else [p];
    assert forall k :: 0 <= k < |db.users| && k != me ==> d1.users[k] == before.users[k];
    GreetTurnKeeps(db, d1, me, userId, done, p);
  }

  /** The facts about the requester's friends being updated for `p` while the
      other rows still wait for their turn. */
  predicate HalfTurn(db: Db, d1: Db, me: nat, userId: int, done: seq<int>, p: int)
    requires me < |db.users|
  {
    && |d1.users| == |db.users| && d1.contacts == db.contacts && d1.messages == db.messages
    && (forall k :: 0 <= k < |db.users| ==> d1.users[k] == db.users[k].(friends := d1.users[k].friends))
    && d1.users[me].friends == db.users[me].friends + Missing(done + [p], db.users[me].friends)
    && (forall k :: 0 <= k < |db.users| && k != me ==>
          d1.users[k].friends == db.users[k].friends + Owed(db.users[k], userId, done))
  }

  /** The second half of a turn: `p`'s row gets the requester appended. */
  lemma GreetTurnKeeps(db: Db, d1: Db, me: nat, userId: int, done: seq<int>, p: int)
    requires RowIds(db) && me < |db.users| && db.users[me].id == userId && p !in done
    requires HalfTurn(db, d1, me, userId, done, p)
    ensures var after := match UserIndex(d1, p)
              case Some(j) => if userId !in d1.users[j].friends then PushFriend(d1, j, userId) else d1
              case None => d1;
            Reconciled(db, after, me, userId, done + [p])
  {
    assert RowIds(d1);
    UserIndexOfValid(d1, p);
    if 1 <= p <= |db.users| && p - 1 != me {
      GreetOther(db, d1, me, userId, done, p);
    } else {
      GreetNobody(db, d1, me, userId, done, p);
    }
  }

  lemma GreetOther(db: Db, d1: Db, me: nat, userId: int, done: seq<int>, p: int)
    requires RowIds(db) && me < |db.users| && db.users[me].id == userId && p !in done
    requires HalfTurn(db, d1, me, userId, done, p)
    requires 1 <= p <= |db.users| && p - 1 != me
    ensures var j := p - 1;
            Reconciled(db, if userId !in d1.users[j].friends then PushFriend(d1, j, userId) else d1, me, userId, done + [p])
  {
    var n := |db.users|;
    var j := p - 1;
    assert db.users[j].id == p;
    assert Owed(db.users[j], userId, done) == [];
    var after := if userId !in d1.users[j].friends then PushFriend(d1, j, userId) else d1;
    assert after.users[j].friends == db.users[j].friends + Owed(db.users[j], userId, done + [p]);
    forall k | 0 <= k < n && k != me && k != j
      ensures after.users[k].friends == db.users[k].friends + Owed(db.users[k], userId, done + [p])
    {
      assert db.users[k].id != p;
      assert after.users[k] == d1.users[k];
    }
  }

  lemma GreetNobody(db: Db, d1: Db, me: nat, userId: int, done: seq<int>, p: int)
    requires RowIds(db) && me < |db.users| && db.users[me].id == userId && p !in done
    requires HalfTurn(db, d1, me, userId, done, p)
    requires !(1 <= p <= |db.users|) || p - 1 == me
    ensures !(1 <= p <= |db.users|) || userId in d1.users[me].friends
    ensures Reconciled(db, d1, me, userId, done + [p])
  {
    forall k | 0 <= k < |db.users| && k != me
      ensures Owed(db.users[k], userId, done + [p]) == Owed(db.users[k], userId, done)
    {
      assert db.users[k].id != p;
    }
    if 1 <= p <= |db.users| {
      assert userId in Missing(done + [p], db.users[me].friends) || userId in db.users[me].friends;
    }
  }

  /** What the reconciliation promises: every participant is among the
      requester's friends, the requester is among the friends of every
      participant that exists, no friend list loses or reorders an entry, and
      the only entries added are participants (to the requester's list) and
      the requester (to the others'). */
  lemma ReconciledFriendships(db: Db, d: Db, me: nat, userId: int, ps: seq<int>)
    requires RowIds(db) && me < |db.users| && db.users[me].id == userId
    requires Reconciled(db, d, me, userId, ps)
    ensures forall p :: p in ps ==> p in d.users[me].friends
    ensures forall k :: 0 <= k < |db.users| && db.users[k].id in ps ==> userId in d.users[k].friends
    ensures forall k :: 0 <= k < |db.users| ==> db.users[k].friends <= d.users[k].friends
    ensures forall k, x :: 0 <= k < |db.users| && x in d.users[k].friends && x !in db.users[k].friends ==>
              (k == me && x in ps) || (k != me && x == userId)
  {
    forall k | 0 <= k < |db.users| && db.users[k].id in ps
      ensures userId in d.users[k].friends
    {
      if k == me {
        assert userId in ps;
      }
    }
  }

  /** The loop of `addContact` over the participants. */
  method ReconcileFriends(db: Db, me: nat, userId: int, ps: seq<int>) returns (db': Db)
    requires Valid(db) && me < |db.users| && db.users[me].id == userId && NoDup(ps)
    ensures Valid(db') && Reconciled(db, db', me, userId, ps)
  {
    var snapshot := db.users[me].friends;
    db' := db;
    var i := 0;
    while i < |ps|
      invariant 0 <= i <= |ps|
      invariant Valid(db')
      invariant Reconciled(db, db', me, userId, ps[..i])
    {
      ghost var before := db';
      assert RowIds(before);
      var p := ps[i];
      if p !in snapshot {
        db' := PushFriend(db', me, p);
      }
      var other := UserIndex(db', p);
      if other.Some? && userId !in db'.users[other.value].friends {
        db' := PushFriend(db', other.value, userId);
      }
      assert db' == ReconcileTurn(before, me, userId, snapshot, p);
      assert ps[..i + 1] == ps[..i] + [p];
      ReconcileTurnKeeps(db, before, me, userId, ps[..i], p);
      assert Valid(db');
      i := i + 1;
    }
    assert ps[..i] == ps;
  }

  /** The `contact.create` that ends `addContact`, on the store the loop left:
      it succeeds exactly when every participant exists, and then appends the
      contact owned by the requester with the participants as members. */
  method CreateGroup(db: Db, reconciled: Db, me: nat, userId: int, ps: seq<int>) returns (db': Db, r: Result<int>)
    requires Valid(db) && me < |db.users| && db.users[me].id == userId && NoDup(ps)
    requires Valid(reconciled) && Reconciled(db, reconciled, me, userId, ps)
    ensures Valid(db') && db'.(contacts := db.contacts) == reconciled
    ensures r.Ok? <==> forall p :: p in ps ==> IsUserId(db, p)
    ensures r.Ok? ==> r.value == |db.contacts| + 1
    ensures r.Ok? ==> db'.contacts == db.contacts + [Contact(r.value, userId, None, None, ps, None, None, 0)]
    ensures r.Err? ==> r == Err(CREATE_ERROR) && db' == reconciled
  {
    DedupOfNoDup(ps);
    forall p | p in ps ensures UserIndex(reconciled, p).Some? <==> IsUserId(db, p) {
      UserIndexOfValid(reconciled, p);
    }
    var created := CreateContact(reconciled, userId, None, None, ps);
    if created.None? {
      return reconciled, Err(CREATE_ERROR);
    }
    db' := created.value;
    r := Ok(|db.contacts| + 1);
  }

  /** `addContact`. Refused when `contactIds` is not a non-empty array, when the
      user already owns or belongs to a contact, or when the user does not
      exist; those refusals change nothing. Otherwise every participant is
      appended to the user's friends if its snapshot lacks it, and the user to
      every existing participant's friends if it lacks it; then the contact is
      created with the user as owner and the participants as members, which
      fails when a participant does not exist, after the friend lists were
      written. Every failure is reported as "Error creating contact". */
  method AddContact(db: Db, userId: int, contactIds: Option<seq<int>>) returns (db': Db, r: Result<int>)
    requires Valid(db)
    ensures Valid(db')
    ensures r.Err? ==> r.error == CREATE_ERROR
    ensures contactIds.None? || contactIds.value == [] ==> db' == db && r.Err?
    ensures contactIds.Some? && contactIds.value != [] && (Involved(db, userId) || !IsUserId(db, userId)) ==>
              db' == db && r.Err?
    ensures EveryUserInvolved(db) ==> db' == db && r.Err?
    ensures contactIds.Some? && contactIds.value != [] && !Involved(db, userId) && IsUserId(db, userId) ==>
              var ps := Participants(userId, contactIds.value);
              && Reconciled(db, db'.(contacts := db.contacts), userId - 1, userId, ps)
              && (r.Ok? <==> forall p :: p in ps ==> IsUserId(db, p))
              && (r.Ok? ==> r.value == |db.contacts| + 1)
              && (r.Ok? ==> db'.contacts == db.contacts + [Contact(r.value, userId, None, None, ps, None, None, 0)])
              && (r.Err? ==> db'.contacts == db.contacts)
  {
    if contactIds.None? || |contactIds.value| == 0 {
      return db, Err(CREATE_ERROR);
    }
    var ps := Participants(userId, contactIds.value);
    if Involved(db, userId) {
      return db, Err(CREATE_ERROR);
    }
    UserIndexOfValid(db, userId);
    var found := UserIndex(db, userId);
    if found.None? {
      return db, Err(CREATE_ERROR);
    }
    var me := found.value;
    var reconciled := ReconcileFriends(db, me, userId, ps);
    db', r := CreateGroup(db, reconciled, me, userId, ps);
  }
}
