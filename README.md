# Users controller: a verified model

This project models the user-record service of a small notes backend: the
four request handlers of `server/controllers/usersController.js` —
`getAllUsers`, `createNewUser`, `updateUser` and `deleteUser` — over a users
table, with the check against the notes table that guards deletion.

- `user_model.dfy` (module `UserModel`): the JSON values a request body can
  carry, with JavaScript truthiness, `Array.isArray` and the strict
  `typeof … === "boolean"` test written out; the stored user record (only the
  password digest is kept); the password-free projection the list handler
  returns; the replies (status and message); the two validation guards; and
  `Listing`, the `find({}).select("-password")` query.
- `user_service.dfy` (module `UserService`): each handler as a function from
  the users table before the request to the reply and the table after it,
  with the invariant of the table (unique usernames, a truthy username and at
  least one role in every record) and the lemmas that relate requests to one
  another: a created user is listed once, a second create of a name is a
  conflict, an update is idempotent and may keep its own username, the notes
  check comes before the existence check on delete, a deleted id is gone.
- `users_controller.dfy` (module `UsersController`): class `UserStore`, whose
  fields are the users table, the next id the store hands out and the set of
  user ids that notes reference. Its methods run each handler's steps in the
  handler's order (`findOne`, `findById`, field-by-field assignment, `save`,
  `deleteOne`) and are proved to produce exactly the reply and table of the
  matching `UserService` function, keeping the invariant. `AliceScenario`
  walks through create, duplicate create, delete refused because of a note,
  delete, and list.

Modelling choices:

- `bcrypt.hash(password, 10)` is the store's constant
  `hash: (Json, Salt) -> string`, an uninterpreted function of the password
  and the salt bcrypt draws for that call. The salt is random in the
  service, so the create and update handlers take it as a parameter; two
  hashes of one password with different salts are not assumed equal.
- Record ids are natural numbers; the store gives each new record `nextId`
  and then increases it, standing in for fresh database ids. `User.find({})`
  sets no order, so the order of the list is unspecified in the service;
  ascending id order is this model's choice.
- A request's `id` is `Option<Id>`: `None` stands for a missing or falsy id,
  `Some(i)` for the id of a record. The validation guards (`Truthy`,
  `IsNonEmptyArray`, `IsBoolean`, `CreateFieldsPresent`, `UpdateFieldsPresent`)
  and the duplicate lookup (`UsernameTaken`) are plain predicates; what they
  decide is stated by the contracts of `CreateOutcome`, `UpdateOutcome`,
  `FindByUsername`, `ActiveTestIsStrict` and `RehashGateAlwaysOpen`.
- `findOne({ username })` returns some matching record (`FindByUsername`).
  The code refuses an update when the record found has a different id; since
  every table the handlers produce has unique usernames, this is the same as
  "another record holds the name", which is how `UpdateOutcome` states it
  (`FoundDuplicateIsOther`).
- Messages are a datatype with one constructor per message text; the text of
  each is given beside the constructor.

## Model

| member | source | states |
|---|---|---|
| UserModel.Truthy | server/controllers/usersController.js:25 | `!x` is true exactly for the falsy values undefined, null, false, 0 and the empty string |
| UserModel.ActiveTestIsStrict | server/controllers/usersController.js:67 | the active check is a type test: false passes it though falsy, the string "true" fails it though truthy |
| UserModel.Listing | server/controllers/usersController.js:10 | the list query yields only projections of stored records (no password field), with strictly increasing ids |
| UserModel.ListingHas | server/controllers/usersController.js:10 | every stored record appears in the list query's result |
| UserModel.ListingEmpty | server/controllers/usersController.js:10-12 | the list query's result is empty exactly when the users table is |
| UserService.ListOutcome | server/controllers/usersController.js:9-16 | getAllUsers replies 404 "No users found" exactly when the table is empty, otherwise 200 with records that are stored users without their passwords |
| UserService.ListedOnce | server/controllers/usersController.js:9-16 | on a non-empty table every stored record is in the 200 listing, and no record appears twice |
| UserService.CreateOutcome | server/controllers/usersController.js:21-48 | createNewUser replies 400 "All fields are required" exactly when username or password is falsy or roles is not a non-empty array; 409 exactly when the fields pass and the username is taken; on both the table is unchanged; otherwise 201 "User <username> created", exactly one new record with the username, the hash of the password and the roles, and every old record untouched |
| UserService.CreateKeepsInvariant | server/controllers/usersController.js:29-45 | create keeps usernames unique and every record with a truthy username and at least one role |
| UserService.CreatedUserIsListed | server/controllers/usersController.js:36-48 | after a successful create the next listing is 200 and holds the new user with its username and roles, and it is the only entry with that username |
| UserService.CreateTwiceConflicts | server/controllers/usersController.js:29-33 | after creating a username, creating it again with any valid password and roles gives 409 and changes nothing |
| UserService.UpdateOutcome | server/controllers/usersController.js:57-95 | updateUser replies 400 "All fields are required" with the table unchanged when id, username or password is missing, roles is not a non-empty array or active is not a boolean; 400 "User not found" unchanged for an unknown id; 409 unchanged exactly when another record holds the username; otherwise 200 "User <username> updated", only that record changes, to the new username, roles and active and the hash of the new password |
| UserService.RehashGateAlwaysOpen | server/controllers/usersController.js:61-90 | whenever the update guard passes, the password is truthy, so the `if (password)` rehash always runs |
| UserService.FoundDuplicateIsOther | server/controllers/usersController.js:79-82 | on a table with unique usernames, the record findOne returns has a different id exactly when another record holds the username |
| UserService.UpdateOwnUsernameAllowed | server/controllers/usersController.js:79-82 | a valid update that keeps the record's own username succeeds |
| UserService.UpdateKeepsInvariant | server/controllers/usersController.js:79-92 | update keeps usernames unique and every record well formed |
| UserService.UpdateIdempotent | server/controllers/usersController.js:84-94 | repeating an update request gives the same reply, the same ids, every other record unchanged and the updated record unchanged apart from its password digest, which is the hash of the password under the second call's salt; with the same salt, or when the first request failed, the table is the same |
| UserService.DeleteOutcome | server/controllers/usersController.js:100-124 | deleteUser replies 400 "User ID is required" for a missing id; 400 "User has notes, cannot delete" when a note names the id, whether or not the user exists; 404 "User not found" for an unknown id; on all of these the table is unchanged; otherwise 200 naming the removed username and id, exactly that record removed and every other record untouched |
| UserService.DeleteKeepsInvariant | server/controllers/usersController.js:113-119 | delete keeps the table invariant |
| UserService.NotesCheckedBeforeExistence | server/controllers/usersController.js:107-117 | an id that a note names but that no user has gets 400 "User has notes, cannot delete", not 404 |
| UserService.DeletedUserIsGone | server/controllers/usersController.js:113-117 | after a successful delete, deleting the id again gives 404 and updating it gives 400 "User not found" |
| UsersController.UserStore.FindByUsername | server/controllers/usersController.js:30 | findOne returns nothing exactly when no record holds the username, otherwise a record that holds it |
| UsersController.UserStore.GetAllUsers | server/controllers/usersController.js:9-16 | the handler's reply is the one ListOutcome describes for the current table |
| UsersController.UserStore.CreateNewUser | server/controllers/usersController.js:21-52 | the handler's reply and new table are those of CreateOutcome at the next free id; the id counter advances only on 201; the invariant is kept |
| UsersController.UserStore.UpdateUser | server/controllers/usersController.js:57-95 | the handler's reply and new table are those of UpdateOutcome; the invariant is kept |
| UsersController.UserStore.DeleteUser | server/controllers/usersController.js:100-124 | the handler's reply and new table are those of DeleteOutcome; the notes set is only read; the invariant is kept |

## Left out

- The "User creation failed" branch of createNewUser (server/controllers/usersController.js:49-51): `User.create` either returns the new document or throws, so the model's create always produces a record.
- Failures of the store or of bcrypt (a rejected id format, a non-string password given to bcrypt, a lost connection): they are exceptions handled outside the controller.
- `asyncHandler` and the awaits: each handler runs as one atomic step, so the race between two concurrent creates of the same username is not modelled.
- bcrypt's cost factor and the generation of salts: `hash` is an uninterpreted function and the salt of each call a parameter.
- UserService.UpdateIdempotent: a repeated update leaves a different password digest in the service, because bcrypt draws a new salt; the lemma promises the same table only when the two salts are equal.
- UserService.CreateOutcome: its 409/201 "exactly when" claims hold for string usernames; the service passes a non-string username to `findOne({ username })` as a query filter, where an object with `$`-keys is read as a query operator and an array as `$in`, so such a request may find a record (and reply 409) where the model finds none.
- UserService.UpdateOutcome: the same holds for its 409/200 claims; a non-string username is read by the duplicate query as an operator or `$in`.
- UserService.UpdateOutcome: a request id is modelled only as a record id or as missing; a JSON object given as `id` is read by `findById` as a query filter (such as `{"$ne": null}`), which selects an arbitrary record to overwrite, and that reading is not modelled.
- UserService.DeleteOutcome: a request id is modelled only as a record id or as missing; a JSON object given as `id` is read by `Note.findOne({ user: id })` and `findById` as a query filter, so the service may refuse it because of any note or delete an arbitrary matching user, and that reading is not modelled.
- UsersController.UserStore.UpdateUser: as for UserService.UpdateOutcome, an object id read as a query filter is not modelled.
- UsersController.UserStore.DeleteUser: as for UserService.DeleteOutcome, an object id read as a query filter is not modelled.
- UserService.UsernameTaken: models the duplicate query only for usernames compared by equality; query-operator and `$in` readings of non-string usernames are not modelled.
- UsersController.UserStore.FindByUsername: likewise compares usernames by equality; non-string usernames read as query operators or `$in` are not modelled.
- The store's own behaviour: schema defaults (the create path leaves `active` unset, shown as `None`), casting of field values to the schema's types, collation and case sensitivity of the username lookup, and id formatting (ids are compared only by equality).
- The deleted document's fields in the delete reply: the model names the removed record's username and id; what `deleteOne` resolves to depends on the store library's version.
- Numbers in request bodies are integers: NaN and fractions are not modelled.
- The text rendering of messages and the JSON encoding of replies.
- The HTTP `req`/`res` objects: the handlers take the body fields as parameters and return the status and body.
- server/server.js: static files, route mounting, the content-negotiated catch-all 404 and `listen` are process wiring, not part of this model.
- How notes come to reference users: notes are managed by another controller, which is not part of this model; the store's `noteOwners` set is read here and set by clients.
