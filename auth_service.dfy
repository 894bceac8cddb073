/** The authentication service: registration (which also seeds the user's
    "Notes" conversation), login, lookup of one user and the username search.
    bcrypt and the JWT signer are parameters: `hash`, `compare` and `sign`. */
module AuthService {
  import opened Base
  import opened Seqs
  import opened Text
  import opened Store
  import opened ContactsService

  /** A user as the service returns it: the stored row with the `password`
      field deleted. */
  datatype PublicUser = PublicUser(
    id: int,
    username: string,
    email: string,
    status: string,
    avatar: Option<string>,
    isOnline: bool,
    lastOnline: Option<int>,
    friends: seq<int>)

  /** `delete user.password`: every other field is kept, so putting the hash
      back gives the stored row again. */
  function WithoutPassword(u: User): (r: PublicUser)
    ensures WithPassword(r, u.password) == u
  {
    PublicUser(u.id, u.username, u.email, u.status, u.avatar, u.isOnline, u.lastOnline, u.friends)
  }

  function WithPassword(p: PublicUser, password: string): User
  {
    User(p.id, p.username, p.email, password, p.status, p.avatar, p.isOnline, p.lastOnline, p.friends)
  }

  /** The registration body; a field the client left out is `None`. */
  datatype RegisterDto = RegisterDto(username: Option<string>, email: Option<string>, password: Option<string>)

  const REQUIRED_ERROR: HttpError := BadRequest("Username, email, and password are required")
  const DEFAULT_STATUS: string := "default"
  const NOTES_NAME: string := "Notes"
  const NOTES_AVATAR: string := "https://i.pinimg.com/236x/46/56/5b/46565b2e707b945bda72a0a2b072f7b6.jpg"

  /** The notes conversation seeded for the user with id `id`. */
  predicate IsSeededNotes(c: Contact, id: int)
  {
    && c.ownerId == NOTES_OWNER && c.name == Some(NOTES_NAME) && c.avatar == Some(NOTES_AVATAR)
    && c.members == (if id == NOTES_OWNER then [NOTES_OWNER] else [id, NOTES_OWNER])
    && c.userId.None? && c.contactId.None? && c.messageCount == 0
  }

  /** A contact only gains rows at the end, so whoever owned or belonged to a
      contact still does. */
  lemma InvolvedPersists(db: Db, db': Db, id: int)
    requires db.contacts <= db'.contacts
    requires Involved(db, id)
    ensures Involved(db', id)
  {
    var c :| c in db.contacts && (c.ownerId == id || id in c.members);
    var i :| 0 <= i < |db.contacts| && db.contacts[i] == c;
    assert db'.contacts[i] == c;
  }

  /** `registerUser`. Refused with BadRequest before any write when the
      username, the email or the password is missing or empty. Otherwise the
      user row is created with status "default" and the hashed password (the
      unique index on `username` makes a taken name fail with nothing
      written), then the notes conversation owned by user 1 with members
      {new user, 1}. The user is returned without its password. */
  method RegisterUser(db: Db, dto: RegisterDto, hash: string -> string) returns (db': Db, r: Result<PublicUser>)
    requires Valid(db)
    ensures Valid(db')
    ensures !(TruthyText(dto.username) && TruthyText(dto.email) && TruthyText(dto.password)) ==>
              db' == db && r == Err(REQUIRED_ERROR)
    ensures TruthyText(dto.username) && TruthyText(dto.email) && TruthyText(dto.password) ==>
              var id := |db.users| + 1;
              if UsernameIndex(db, dto.username.value).Some? then
                db' == db && r == Err(StoreFailure)
              else
                && r.Ok?
                && db'.users == db.users + [WithPassword(r.value, hash(dto.password.value))]
                && r.value == PublicUser(id, dto.username.value, dto.email.value, DEFAULT_STATUS, None, false, None, [])
                && |db'.contacts| == |db.contacts| + 1 && db'.contacts[..|db.contacts|] == db.contacts
                && db'.contacts[|db.contacts|].id == |db.contacts| + 1
                && IsSeededNotes(db'.contacts[|db.contacts|], id)
                && db'.messages == db.messages
    ensures EveryUserInvolved(db) ==> EveryUserInvolved(db')
  {
    if !TruthyText(dto.username) || !TruthyText(dto.email) || !TruthyText(dto.password) {
      return db, Err(REQUIRED_ERROR);
    }
    var hashed := hash(dto.password.value);
    var withUser := CreateUser(db, dto.username.value, dto.email.value, hashed, DEFAULT_STATUS);
    if withUser.None? {
      return db, Err(StoreFailure);
    }
    var id := |db.users| + 1;
    var user := withUser.value.users[id - 1];
    var members := [user.id, NOTES_OWNER];
    UserIndexOfValid(withUser.value, user.id);
    UserIndexOfValid(withUser.value, NOTES_OWNER);
    var notes := CreateContact(withUser.value, NOTES_OWNER, Some(NOTES_NAME), Some(NOTES_AVATAR), members);
    NotesMembers(user.id);
    db' := notes.value;
    r := Ok(WithoutPassword(user));
    assert db'.contacts[..|db.contacts|] == db.contacts;
    if EveryUserInvolved(db) {
      NotesKeepEveryoneInvolved(db, db');
    }
  }

  /** `connect: [{ id }, { id: 1 }]` stores user 1 once when the new user is user 1. */
  lemma NotesMembers(id: int)
    ensures Dedup([id, NOTES_OWNER]) == if id == NOTES_OWNER then [NOTES_OWNER] else [id, NOTES_OWNER]
  {
    assert [id, NOTES_OWNER][..1] == [id];
    assert Dedup([id]) == [id];
  }

  /** The new user belongs to the notes contact appended with it, and everyone
      else keeps the contacts they were in. */
  lemma NotesKeepEveryoneInvolved(db: Db, db': Db)
    requires EveryUserInvolved(db)
    requires |db'.users| == |db.users| + 1
    requires |db'.contacts| == |db.contacts| + 1 && db'.contacts[..|db.contacts|] == db.contacts
    requires |db.users| + 1 in db'.contacts[|db.contacts|].members
    ensures EveryUserInvolved(db')
  {
    forall k | 1 <= k <= |db'.users| ensures Involved(db', k) {
      if k <= |db.users| {
        InvolvedPersists(db, db', k);
      } else {
        assert k in db'.contacts[|db.contacts|].members;
      }
    }
  }

  /** After a registration the notes sentinel of `getContactInfo` resolves,
      for the new user, to the conversation registration seeded: no earlier
      contact can have the new id among its members. */
  lemma RegisteredNotesResolve(db: Db, db': Db, id: int)
    requires Valid(db) && id == |db.users| + 1
    requires |db'.contacts| == |db.contacts| + 1 && db'.contacts[..|db.contacts|] == db.contacts
    requires IsSeededNotes(db'.contacts[|db.contacts|], id)
    ensures GetContactInfo(db', id, NOTES_SENTINEL).Some?
    ensures GetContactInfo(db', id, NOTES_SENTINEL).value.contact == db'.contacts[|db.contacts|]
  {
    var n := |db.contacts|;
    forall i | 0 <= i < n ensures !IsNotesOf(db'.contacts[i], id) {
      assert db'.contacts[i] == db.contacts[i];
      assert ContactRowValid(db, i);
    }
    assert IsNotesOf(db'.contacts[n], id);
  }

  /** The login body. */
  datatype LoginDto = LoginDto(username: Option<string>, password: Option<string>)

  /** A successful login: the signed token and the user without its password. */
  datatype Session = Session(accessToken: string, user: PublicUser)

  const INVALID_CREDENTIALS: HttpError := Unauthorized("Invalid username or password")

  /** There is a user with this username. */
  predicate Registered(db: Db, username: string)
  {
    exists i :: 0 <= i < |db.users| && db.users[i].username == username
  }

  /** `login`: look the user up by username, compare the password with the
      stored hash, and sign `{ id }`. An unknown username and a wrong
      password fail with the same error. A body without a username makes the
      lookup throw; a body without a password makes bcrypt throw once a user
      was found. */
  method Login(db: Db, dto: LoginDto, compare: (string, string) -> bool, sign: int -> string) returns (r: Result<Session>)
    requires Valid(db)
    ensures dto.username.None? ==> r == Err(StoreFailure)
    ensures dto.username.Some? ==>
              (r.Ok? <==> exists i :: 0 <= i < |db.users| && db.users[i].username == dto.username.value
                                      && dto.password.Some? && compare(dto.password.value, db.users[i].password))
    ensures dto.username.Some? && !Registered(db, dto.username.value) ==> r == Err(INVALID_CREDENTIALS)
    ensures dto.username.Some? && dto.password.Some? && r.Err? ==> r.error == INVALID_CREDENTIALS
    ensures dto.username.Some? && Registered(db, dto.username.value) && dto.password.None? ==> r == Err(RuntimeFailure)
    ensures r.Ok? ==> exists i :: 0 <= i < |db.users| && Some(db.users[i].username) == dto.username
                                 && r.value == Session(sign(db.users[i].id), WithoutPassword(db.users[i]))
  {
    if dto.username.None? {
      return Err(StoreFailure);
    }
    var found := UsernameIndex(db, dto.username.value);
    if found.None? {
      return Err(INVALID_CREDENTIALS);
    }
    var user := db.users[found.value];
    if dto.password.None? {
      return Err(RuntimeFailure);
    }
    var isPasswordValid := compare(dto.password.value, user.password);
    if !isPasswordValid {
      return Err(INVALID_CREDENTIALS);
    }
    var token := sign(user.id);
    r := Ok(Session(token, WithoutPassword(user)));
  }

  const USER_NOT_FOUND: HttpError := BadRequest("User not found")

  /** `findUser`: the user with the given id, without its password. */
  function FindUser(db: Db, userId: int): (r: Result<PublicUser>)
    ensures r.Ok? <==> exists i :: 0 <= i < |db.users| && db.users[i].id == userId
    ensures r.Err? ==> r.error == USER_NOT_FOUND
    ensures r.Ok? ==> exists i :: 0 <= i < |db.users| && db.users[i].id == userId && r.value == WithoutPassword(db.users[i])
  {
    match UserIndex(db, userId)
    case None => Err(USER_NOT_FOUND)
    case Some(i) => Ok(WithoutPassword(db.users[i]))
  }

  /** In a valid store `findUser` succeeds exactly for the ids of existing
      rows, with the row at `userId - 1`. */
  lemma FindUserOfValid(db: Db, userId: int)
    requires Valid(db)
    ensures FindUser(db, userId) == if IsUserId(db, userId) then Ok(WithoutPassword(db.users[userId - 1])) else Err(USER_NOT_FOUND)
  {
    UserIndexOfValid(db, userId);
  }

  /** The shortest query `searchByUsername` runs, and the `take` it applies. */
  const MIN_QUERY: nat := 3
  const SEARCH_LIMIT: nat := 6

  /** The columns the search selects: no password, no email. */
  datatype UserSummary = UserSummary(username: string, avatar: Option<string>, id: int, isOnline: bool)

  function Summary(u: User): UserSummary
  {
    UserSummary(u.username, u.avatar, u.id, u.isOnline)
  }

  /** The summaries of the users whose username contains `q`, in table order. */
  function Matches(users: seq<User>, q: string): (r: seq<UserSummary>)
    ensures |r| <= |users|
    ensures forall s :: s in r <==> exists u :: u in users && Contains(u.username, q) && s == Summary(u)
  {
    if |users| == 0 then []
    else
      var last := users[|users| - 1];
      var init := users[..|users| - 1];
      assert forall u :: u in users <==> u in init || u == last;
      Matches(init, q) + if Contains(last.username, q) then [Summary(last)] else []
  }

  /** `searchByUsername`: nothing for a query of at most two characters,
      otherwise the first six users whose username contains the query. An
      absent query throws at `username.length`. */
  function SearchByUsername(db: Db, query: Option<string>): (r: Result<seq<UserSummary>>)
    ensures query.None? <==> r == Err(RuntimeFailure)
    ensures query.Some? ==> r.Ok?
    ensures r.Ok? ==> |r.value| <= SEARCH_LIMIT
    ensures r.Ok? && |query.value| < MIN_QUERY ==> r.value == []
    ensures r.Ok? ==> forall s :: s in r.value ==> exists u :: u in db.users && Contains(u.username, query.value) && s == Summary(u)
    ensures r.Ok? && |query.value| >= MIN_QUERY ==>
              var all := Matches(db.users, query.value);
              && r.value <= all
              && |r.value| == if |all| <= SEARCH_LIMIT then |all| else SEARCH_LIMIT
  {
    if query.None? then Err(RuntimeFailure)
    else
      var q := query.value;
      if |q| <= 2 then Ok([])
      else
        var all := Matches(db.users, q);
        var r := Take(all, SEARCH_LIMIT);
        assert forall s :: s in r ==> s in all;
        Ok(r)
  }
}
