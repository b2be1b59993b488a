/**
  The four request handlers of the users controller, as methods of a store
  object that holds the users table. Each method runs the handler's steps in
  the handler's order and is proved to send the reply, and leave the table,
  that the matching UserService function describes.
 */
module UsersController {
  import opened UserModel
  import opened UserService

  class UserStore {
    /** The users collection, keyed by record id. */
    var users: map<Id, User>
    /** The id the store gives the next record it creates. */
    var nextId: Id
    /**
      The user ids that the `user` field of some note names. The notes side
      keeps this set; the handlers here only read it.
     */
    var noteOwners: set<Id>
    /**
      bcrypt.hash with the handlers' cost factor, as an uninterpreted function
      of the password and the salt drawn for the call.
     */
    const hash: (Json, Salt) -> string

    ghost predicate Valid()
      reads this
    {
      IdsBelow(users, nextId) && StoreInvariant(users)
    }

    constructor (hash: (Json, Salt) -> string)
      ensures Valid()
      ensures users == map[] && nextId == 0 && noteOwners == {} && this.hash == hash
    {
      this.hash := hash;
      users := map[];
      nextId := 0;
      noteOwners := {};
    }

    /** `User.findOne({ username })`: some record holding the username, if there is one. */
    method FindByUsername(username: Json) returns (found: Option<Id>)
      ensures found.None? <==> !UsernameTaken(users, username)
      ensures found.Some? ==> found.value in users && users[found.value].username == username
    {
      if exists id :: id in users && users[id].username == username {
        var id :| id in users && users[id].username == username;
        found := Some(id);
      } else {
        found := None;
      }
    }

    /** getAllUsers */
    method GetAllUsers() returns (reply: Reply)
      requires Valid()
      ensures reply == ListOutcome(users, nextId)
    {
      var list := Listing(users, nextId);
      if |list| == 0 {
        return Reply(404, Msg(NoUsersFound));
      }
      reply := Reply(200, Users(list));
    }

    /** createNewUser; `salt` is the random salt bcrypt draws for this request. */
    method CreateNewUser(username: Json, password: Json, roles: Json, salt: Salt) returns (reply: Reply)
      requires Valid()
      modifies this
      ensures Valid()
      ensures var r := CreateOutcome(old(users), old(nextId), hash, salt, username, password, roles);
              reply == r.reply && users == r.users
      ensures nextId == if reply.status == 201 then old(nextId) + 1 else old(nextId)
      ensures noteOwners == old(noteOwners)
    {
      if !CreateFieldsPresent(username, password, roles) {
        return Reply(400, Msg(AllFieldsRequired));
      }
      var duplicate := FindByUsername(username);
      if duplicate.Some? {
        return Reply(409, Msg(UsernameExists));
      }
      var hashedPassword := hash(password, salt);
      CreateKeepsInvariant(users, nextId, hash, salt, username, password, roles);
      users := users[nextId := User(username, hashedPassword, roles.elems, None)];
      nextId := nextId + 1;
      reply := Reply(201, Msg(UserCreated(username)));
    }

    /** updateUser; `salt` is the random salt bcrypt draws for this request. */
    method UpdateUser(id: Option<Id>, username: Json, password: Json, roles: Json, active: Json, salt: Salt)
      returns (reply: Reply)
      requires Valid()
      modifies this
      ensures Valid()
      ensures var r := UpdateOutcome(old(users), hash, salt, id, username, password, roles, active);
              reply == r.reply && users == r.users
      ensures nextId == old(nextId) && noteOwners == old(noteOwners)
    {
      if !UpdateFieldsPresent(id, username, password, roles, active) {
        return Reply(400, Msg(AllFieldsRequired));
      }
      if id.value !in users {
        return Reply(400, Msg(UserNotFound));
      }
      var user := users[id.value];
      var duplicate := FindByUsername(username);
      if duplicate.Some? {
        FoundDuplicateIsOther(users, username, id.value, duplicate.value);
      }
      if duplicate.Some? && duplicate.value != id.value {
        return Reply(409, Msg(UsernameExists));
      }
      user := user.(username := username);
      user := user.(roles := roles.elems);
      user := user.(active := Some(active.b));
      if Truthy(password) {
        user := user.(passwordHash := hash(password, salt));
      }
      UpdateKeepsInvariant(users, hash, salt, id, username, password, roles, active);
      users := users[id.value := user];
      reply := Reply(200, Msg(UserUpdated(user.username)));
    }

    /** deleteUser */
    method DeleteUser(id: Option<Id>) returns (reply: Reply)
      requires Valid()
      modifies this
      ensures Valid()
      ensures var r := DeleteOutcome(old(users), noteOwners, id);
              reply == r.reply && users == r.users
      ensures nextId == old(nextId) && noteOwners == old(noteOwners)
    {
      if id.None? {
        return Reply(400, Msg(UserIdRequired));
      }
      if id.value in noteOwners {
        return Reply(400, Msg(UserHasNotes));
      }
      if id.value !in users {
        return Reply(404, Msg(UserNotFound));
      }
      var user := users[id.value];
      DeleteKeepsInvariant(users, noteOwners, id);
      users := users - {id.value};
      reply := Reply(200, Msg(UserDeleted(user.username, id.value)));
    }
  }

  /**
    A client of the store: alice is created, a second create of alice is a
    conflict, and once a note names her she cannot be deleted.
   */
  method AliceScenario(hash: (Json, Salt) -> string) {
    var store := new UserStore(hash);
    var alice, pw1 := Str("alice"), Str("pw1");
    var roles := Arr([Str("Employee")]);
    var reply := store.CreateNewUser(alice, pw1, roles, 7);
    assert reply == Reply(201, Msg(UserCreated(alice)));
    assert store.users.Keys == {0} && store.users[0] == User(alice, hash(pw1, 7), [Str("Employee")], None);
    reply := store.CreateNewUser(alice, pw1, roles, 8);
    assert reply == Reply(409, Msg(UsernameExists));
    store.noteOwners := {0};
    reply := store.DeleteUser(Some(0));
    assert reply == Reply(400, Msg(UserHasNotes));
    assert 0 in store.users;
    store.noteOwners := {};
    reply := store.DeleteUser(Some(0));
    assert reply == Reply(200, Msg(UserDeleted(alice, 0)));
    reply := store.GetAllUsers();
    assert reply == Reply(404, Msg(NoUsersFound));
  }
}
