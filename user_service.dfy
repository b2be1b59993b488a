/**
  The outcome of each user handler as a function of the users table before
  the request: the reply it sends and the table after it. The properties the
  handlers promise, one request at a time and across requests, are lemmas
  about these functions.
 */
module UserService {
  import opened UserModel

  /** The reply a handler sends and the users table it leaves behind. */
  datatype Outcome = Outcome(reply: Reply, users: map<Id, User>)

  /** `User.findOne({ username })` finds a record. */
  predicate UsernameTaken(users: map<Id, User>, username: Json) {
    exists id :: id in users && users[id].username == username
  }

  /** A record other than `self` holds `username`. */
  predicate HeldByOther(users: map<Id, User>, username: Json, self: Id) {
    exists other :: other in users && other != self && users[other].username == username
  }

  /** No two records share a username. */
  predicate UniqueUsernames(users: map<Id, User>) {
    forall i, j :: i in users && j in users && users[i].username == users[j].username ==> i == j
  }

  /** What the create and update guards let into a record: a truthy username and at least one role. */
  predicate WellFormed(u: User) {
    Truthy(u.username) && |u.roles| > 0
  }

  /** The invariant of the users table that the handlers maintain. */
  predicate StoreInvariant(users: map<Id, User>) {
    UniqueUsernames(users) && forall id :: id in users ==> WellFormed(users[id])
  }

  /** Every id in the table was handed out before `next`. */
  predicate IdsBelow(users: map<Id, User>, next: Id) {
    forall id :: id in users ==> id < next
  }

  // ---------------------------------------------------------------- getAllUsers

  /** getAllUsers: 404 on an empty table, otherwise 200 and every record without its password. */
  function ListOutcome(users: map<Id, User>, next: Id): (r: Reply)
    requires IdsBelow(users, next)
    ensures r.status == 404 <==> |users| == 0
    ensures r.status == 404 ==> r.body == Msg(NoUsersFound)
    ensures r.status != 404 ==> r.status == 200 && r.body.Users?
    ensures r.body.Users? ==>
              forall i :: 0 <= i < |r.body.users| ==>
                r.body.users[i].id in users && r.body.users[i] == Project(r.body.users[i].id, users[r.body.users[i].id])
  {
    ListingEmpty(users, next);
    var list := Listing(users, next);
    if |list| == 0 then Reply(404, Msg(NoUsersFound)) else Reply(200, Users(list))
  }

  /** Every stored record is in a 200 listing, exactly once. */
  lemma ListedOnce(users: map<Id, User>, next: Id, id: Id)
    requires IdsBelow(users, next) && id in users
    ensures ListOutcome(users, next).status == 200
    ensures var list := ListOutcome(users, next).body.users;
            (exists i :: 0 <= i < |list| && list[i] == Project(id, users[id])) &&
            (forall i, j :: 0 <= i < |list| && 0 <= j < |list| && list[i].id == list[j].id ==> i == j)
  {
    ListingHas(users, next, id);
  }

  // ---------------------------------------------------------------- createNewUser

  /**
    createNewUser, with `newId` the id the store assigns to a new record,
    `hash` standing for bcrypt.hash and `salt` the salt it draws for this call.
   */
  function CreateOutcome(users: map<Id, User>, newId: Id, hash: (Json, Salt) -> string, salt: Salt,
                         username: Json, password: Json, roles: Json): (r: Outcome)
    requires newId !in users
    ensures r.reply == Reply(400, Msg(AllFieldsRequired)) <==> !CreateFieldsPresent(username, password, roles)
    ensures r.reply == Reply(409, Msg(UsernameExists)) <==>
              CreateFieldsPresent(username, password, roles) && UsernameTaken(users, username)
    ensures r.reply.status == 201 <==> CreateFieldsPresent(username, password, roles) && !UsernameTaken(users, username)
    ensures r.reply.status != 201 ==> r.users == users
    ensures r.reply.status == 201 ==>
              && r.reply.body == Msg(UserCreated(username))
              && r.users.Keys == users.Keys + {newId}
              && r.users[newId] == User(username, hash(password, salt), roles.elems, None)
              && forall id :: id in users ==> r.users[id] == users[id]
  {
    if !CreateFieldsPresent(username, password, roles) then
      Outcome(Reply(400, Msg(AllFieldsRequired)), users)
    else if UsernameTaken(users, username) then
      Outcome(Reply(409, Msg(UsernameExists)), users)
    else
      Outcome(Reply(201, Msg(UserCreated(username))),
              users[newId := User(username, hash(password, salt), roles.elems, None)])
  }

  /** A successful create keeps usernames unique and records well formed. */
  lemma CreateKeepsInvariant(users: map<Id, User>, newId: Id, hash: (Json, Salt) -> string, salt: Salt,
                             username: Json, password: Json, roles: Json)
    requires newId !in users && StoreInvariant(users)
    ensures StoreInvariant(CreateOutcome(users, newId, hash, salt, username, password, roles).users)
  {
  }

  /** A created user appears in the next listing, once, with the given username and roles. */
  lemma {:induction false} CreatedUserIsListed(users: map<Id, User>, next: Id,
                                               hash: (Json, Salt) -> string, salt: Salt,
                                               username: Json, password: Json, roles: Json)
    requires IdsBelow(users, next) && StoreInvariant(users)
    requires CreateOutcome(users, next, hash, salt, username, password, roles).reply.status == 201
    ensures var after := CreateOutcome(users, next, hash, salt, username, password, roles).users;
            var r := ListOutcome(after, next + 1);
            && r.status == 200
            && (exists i :: 0 <= i < |r.body.users| && r.body.users[i] == PublicUser(next, username, roles.elems, None))
            && (forall i :: 0 <= i < |r.body.users| && r.body.users[i].username == username ==> r.body.users[i].id == next)
  {
    var after := CreateOutcome(users, next, hash, salt, username, password, roles).users;
    CreateKeepsInvariant(users, next, hash, salt, username, password, roles);
    ListedOnce(after, next + 1, next);
  }

  /** Creating the same username twice: the second request is a conflict, whatever its other fields. */
  lemma CreateTwiceConflicts(users: map<Id, User>, next: Id, hash: (Json, Salt) -> string, salt: Salt,
                             username: Json, password: Json, roles: Json,
                             salt': Salt, password': Json, roles': Json)
    requires IdsBelow(users, next)
    requires CreateOutcome(users, next, hash, salt, username, password, roles).reply.status == 201
    requires CreateFieldsPresent(username, password', roles')
    ensures var after := CreateOutcome(users, next, hash, salt, username, password, roles).users;
            var again := CreateOutcome(after, next + 1, hash, salt', username, password', roles');
            again == Outcome(Reply(409, Msg(UsernameExists)), after)
  {
  }

  // ---------------------------------------------------------------- updateUser

  /** updateUser, with `hash` standing for bcrypt.hash and `salt` the salt it draws for this call. */
  function UpdateOutcome(users: map<Id, User>, hash: (Json, Salt) -> string, salt: Salt, id: Option<Id>,
                         username: Json, password: Json, roles: Json, active: Json): (r: Outcome)
    ensures !UpdateFieldsPresent(id, username, password, roles, active) ==>
              r == Outcome(Reply(400, Msg(AllFieldsRequired)), users)
    ensures UpdateFieldsPresent(id, username, password, roles, active) && id.value !in users ==>
              r == Outcome(Reply(400, Msg(UserNotFound)), users)
    ensures r.reply.status == 409 <==>
              UpdateFieldsPresent(id, username, password, roles, active) && id.value in users &&
              HeldByOther(users, username, id.value)
    ensures r.reply.status == 409 ==> r == Outcome(Reply(409, Msg(UsernameExists)), users)
    ensures r.reply.status == 200 <==>
              UpdateFieldsPresent(id, username, password, roles, active) && id.value in users &&
              !HeldByOther(users, username, id.value)
    ensures r.reply.status == 200 ==>
              && r.reply.body == Msg(UserUpdated(username))
              && r.users.Keys == users.Keys
              && r.users[id.value] == User(username, hash(password, salt), roles.elems, Some(active.b))
              && forall other :: other in users && other != id.value ==> r.users[other] == users[other]
  {
    if !UpdateFieldsPresent(id, username, password, roles, active) then
      Outcome(Reply(400, Msg(AllFieldsRequired)), users)
    else if id.value !in users then
      Outcome(Reply(400, Msg(UserNotFound)), users)
    else if HeldByOther(users, username, id.value) then
      Outcome(Reply(409, Msg(UsernameExists)), users)
    else
      var user := users[id.value].(username := username, roles := roles.elems, active := Some(active.b));
      var saved := if Truthy(password) then user.(passwordHash := hash(password, salt)) else user;
      Outcome(Reply(200, Msg(UserUpdated(saved.username))), users[id.value := saved])
  }

  /**
    The `if (password)` gate before rehashing is always open: the guard has
    already refused every request whose password is falsy.
   */
  lemma RehashGateAlwaysOpen(id: Option<Id>, username: Json, password: Json, roles: Json, active: Json)
    requires UpdateFieldsPresent(id, username, password, roles, active)
    ensures Truthy(password)
  {
  }

  /**
    The duplicate test of updateUser as the code writes it: findOne returns
    some record `found` holding the username, and the request is refused when
    its id differs. Over a table with unique usernames that is the same as
    asking whether another record holds the name.
   */
  lemma FoundDuplicateIsOther(users: map<Id, User>, username: Json, self: Id, found: Id)
    requires UniqueUsernames(users) && found in users && users[found].username == username
    ensures found != self <==> HeldByOther(users, username, self)
  {
  }

  /** Keeping a record's own username is not a conflict. */
  lemma UpdateOwnUsernameAllowed(users: map<Id, User>, hash: (Json, Salt) -> string, salt: Salt, id: Id,
                                 password: Json, roles: Json, active: Json)
    requires StoreInvariant(users) && id in users
    requires UpdateFieldsPresent(Some(id), users[id].username, password, roles, active)
    ensures UpdateOutcome(users, hash, salt, Some(id), users[id].username, password, roles, active).reply.status == 200
  {
  }

  /** A successful update keeps usernames unique and records well formed. */
  lemma UpdateKeepsInvariant(users: map<Id, User>, hash: (Json, Salt) -> string, salt: Salt, id: Option<Id>,
                             username: Json, password: Json, roles: Json, active: Json)
    requires StoreInvariant(users)
    ensures StoreInvariant(UpdateOutcome(users, hash, salt, id, username, password, roles, active).users)
  {
  }

  /**
    Sending the same update twice gets the same reply both times and leaves
    the same record as far as anyone can read it: the second request differs
    only in the password digest, which bcrypt computes with a fresh salt.
   */
  lemma UpdateIdempotent(users: map<Id, User>, hash: (Json, Salt) -> string, salt: Salt, salt': Salt,
                         id: Option<Id>, username: Json, password: Json, roles: Json, active: Json)
    ensures var first := UpdateOutcome(users, hash, salt, id, username, password, roles, active);
            var second := UpdateOutcome(first.users, hash, salt', id, username, password, roles, active);
            && second.reply == first.reply
            && second.users.Keys == first.users.Keys
            && (forall other :: other in first.users && (id.None? || other != id.value) ==>
                  second.users[other] == first.users[other])
            && (first.reply.status == 200 ==>
                  && Project(id.value, second.users[id.value]) == Project(id.value, first.users[id.value])
                  && second.users[id.value].passwordHash == hash(password, salt'))
            && (first.reply.status != 200 || salt' == salt ==> second.users == first.users)
  {
  }

  // ---------------------------------------------------------------- deleteUser

  /** deleteUser, with `noteOwners` the user ids that some note's `user` field names. */
  function DeleteOutcome(users: map<Id, User>, noteOwners: set<Id>, id: Option<Id>): (r: Outcome)
    ensures id.None? ==> r == Outcome(Reply(400, Msg(UserIdRequired)), users)
    ensures id.Some? && id.value in noteOwners ==> r == Outcome(Reply(400, Msg(UserHasNotes)), users)
    ensures r.reply.status == 404 <==> id.Some? && id.value !in noteOwners && id.value !in users
    ensures r.reply.status == 404 ==> r == Outcome(Reply(404, Msg(UserNotFound)), users)
    ensures r.reply.status == 200 <==> id.Some? && id.value !in noteOwners && id.value in users
    ensures r.reply.status == 200 ==>
              && r.reply.body == Msg(UserDeleted(users[id.value].username, id.value))
              && r.users.Keys == users.Keys - {id.value}
              && forall other :: other in r.users ==> r.users[other] == users[other]
  {
    if id.None? then
      Outcome(Reply(400, Msg(UserIdRequired)), users)
    else if id.value in noteOwners then
      Outcome(Reply(400, Msg(UserHasNotes)), users)
    else if id.value !in users then
      Outcome(Reply(404, Msg(UserNotFound)), users)
    else
      Outcome(Reply(200, Msg(UserDeleted(users[id.value].username, id.value))), users - {id.value})
  }

  /** Deleting keeps the invariant. */
  lemma DeleteKeepsInvariant(users: map<Id, User>, noteOwners: set<Id>, id: Option<Id>)
    requires StoreInvariant(users)
    ensures StoreInvariant(DeleteOutcome(users, noteOwners, id).users)
  {
  }

  /** The notes check runs first: an id that notes name but no user has gets 400, not 404. */
  lemma NotesCheckedBeforeExistence(users: map<Id, User>, noteOwners: set<Id>, id: Id)
    requires id in noteOwners && id !in users
    ensures DeleteOutcome(users, noteOwners, Some(id)).reply == Reply(400, Msg(UserHasNotes))
  {
  }

  /** After a successful delete the id is gone: deleting again gives 404, updating it gives "User not found". */
  lemma DeletedUserIsGone(users: map<Id, User>, noteOwners: set<Id>, id: Id,
                          hash: (Json, Salt) -> string, salt: Salt,
                          username: Json, password: Json, roles: Json, active: Json)
    requires DeleteOutcome(users, noteOwners, Some(id)).reply.status == 200
    requires UpdateFieldsPresent(Some(id), username, password, roles, active)
    ensures var after := DeleteOutcome(users, noteOwners, Some(id)).users;
            && DeleteOutcome(after, noteOwners, Some(id)).reply == Reply(404, Msg(UserNotFound))
            && UpdateOutcome(after, hash, salt, Some(id), username, password, roles, active).reply == Reply(400, Msg(UserNotFound))
  {
  }
}
