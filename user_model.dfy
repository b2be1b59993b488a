/**
  The values the user handlers work with: what a JSON request body can carry,
  the stored user record and its password-free projection, and the replies
  the handlers send back.
 */
module UserModel {

  datatype Option<+T> = None | Some(value: T)

  /** A value of a JSON request body, as the handlers inspect it. */
  datatype Json =
    | Undefined
    | Null
    | Bool(b: bool)
    | Num(n: int)
    | Str(s: string)
    | Arr(elems: seq<Json>)
    | Obj(fields: map<string, Json>)

  /** The identity the store gives a user record; compared only by equality. */
  type Id = nat

  /** The random salt bcrypt draws afresh for every hash it computes. */
  type Salt = nat

  /** JavaScript truthiness: what `!x` negates. The falsy values are exactly those listed. */
  predicate Truthy(v: Json)
    ensures Truthy(v) <==> v !in {Undefined, Null, Bool(false), Num(0), Str("")}
  {
    match v
    case Undefined => false
    case Null => false
    case Bool(b) => b
    case Num(n) => n != 0
    case Str(s) => s != ""
    case Arr(_) => true
    case Obj(_) => true
  }

  /** `Array.isArray(v) && v.length`: an array with at least one element. */
  predicate IsNonEmptyArray(v: Json) {
    v.Arr? && |v.elems| > 0
  }

  /** `typeof v === "boolean"`: a strict type test, not a truthiness test. */
  predicate IsBoolean(v: Json) {
    v.Bool?
  }

  /** The guard of createNewUser: username and password truthy, roles a non-empty array. */
  predicate CreateFieldsPresent(username: Json, password: Json, roles: Json) {
    Truthy(username) && Truthy(password) && IsNonEmptyArray(roles)
  }

  /** The guard of updateUser: the create guard plus an id and a boolean `active`. */
  predicate UpdateFieldsPresent(id: Option<Id>, username: Json, password: Json, roles: Json, active: Json) {
    id.Some? && Truthy(username) && Truthy(password) && IsNonEmptyArray(roles) && IsBoolean(active)
  }

  /** `active: false` passes the update guard although it is falsy; the string "true" fails it although it is truthy. */
  lemma ActiveTestIsStrict()
    ensures IsBoolean(Bool(false)) && !Truthy(Bool(false))
    ensures Truthy(Str("true")) && !IsBoolean(Str("true"))
  {
  }

  /**
    A stored user. Only the digest of the password is kept. `active` is None
    when no handler has set it (the create path leaves it to the store).
   */
  datatype User = User(username: Json, passwordHash: string, roles: seq<Json>, active: Option<bool>)

  /** A user as the list handler returns it: the password field is projected away. */
  datatype PublicUser = PublicUser(id: Id, username: Json, roles: seq<Json>, active: Option<bool>)

  function Project(id: Id, u: User): PublicUser {
    PublicUser(id, u.username, u.roles, u.active)
  }

  /** The `message` of each JSON reply; the comment gives the text the handler sends. */
  datatype Message =
    | NoUsersFound                        // "No users found"
    | AllFieldsRequired                   // "All fields are required"
    | UsernameExists                      // "Username already exists"
    | UserCreated(username: Json)         // "User <username> created"
    | UserNotFound                        // "User not found"
    | UserUpdated(username: Json)         // "User <username> updated"
    | UserIdRequired                      // "User ID is required"
    | UserHasNotes                        // "User has notes, cannot delete"
    | UserDeleted(username: Json, id: Id) // "Username <username> with ID <id> deleted"

  datatype Body = Msg(message: Message) | Users(users: seq<PublicUser>)

  /** An HTTP status and a JSON body. */
  datatype Reply = Reply(status: nat, body: Body)

  /**
    What `User.find({}).select("-password")` yields, for the records whose
    ids are below n. The query sets no order; listing in ascending id order
    is this model's choice.
   */
  function Listing(users: map<Id, User>, n: nat): (r: seq<PublicUser>)
    ensures forall i :: 0 <= i < |r| ==>
              r[i].id < n && r[i].id in users && r[i] == Project(r[i].id, users[r[i].id])
    ensures forall i, j :: 0 <= i < j < |r| ==> r[i].id < r[j].id
  {
    if n == 0 then []
    else Listing(users, n - 1) + (if n - 1 in users then [Project(n - 1, users[n - 1])] else [])
  }

  /** Every record below the bound appears in the listing. */
  lemma {:induction false} ListingHas(users: map<Id, User>, n: nat, id: Id)
    requires id in users && id < n
    ensures exists i :: 0 <= i < |Listing(users, n)| && Listing(users, n)[i] == Project(id, users[id])
  {
    var prefix := Listing(users, n - 1);
    if id == n - 1 {
      assert Listing(users, n)[|prefix|] == Project(id, users[id]);
    } else {
      ListingHas(users, n - 1, id);
      var i :| 0 <= i < |prefix| && prefix[i] == Project(id, users[id]);
      assert Listing(users, n)[i] == prefix[i];
    }
  }

  /** When every id is below the bound, the listing is empty exactly when the store is. */
  lemma ListingEmpty(users: map<Id, User>, n: nat)
    requires forall id :: id in users ==> id < n
    ensures |Listing(users, n)| == 0 <==> |users| == 0
  {
    if |users| != 0 {
      var id :| id in users;
      ListingHas(users, n, id);
    }
  }
}
