# Notes API handlers, modelled in Dafny

This project models the note request handlers of a small multi-user notes REST
API. Authenticated users list, create, update and delete their own text notes.
The note collection is an immutable `map<NoteId, Note>`. Each handler is a pure
function from (store, caller, request input) to a `Step`: the reply plus the
store afterwards. A reply carries the status code (200, 201, 400, 401 or 404)
and either a payload or the error message. This replaces the handlers' "set the
status, then throw" control flow.

Modules, one file each:

- `NoteModel` (`note_model.dfy`): `Option` for request fields a client may
  omit, user and note ids, the `Note` record, the
  store, request bodies, replies, the status codes and messages, JavaScript
  truthiness of a field, and `Merge`, which applies an update body.
- `NoteController` (`note_controller.dfy`): `GetNotes`, `CreateNote`,
  `UpdateNote` and `DeleteNote`, plus `Authorize`. `Authorize` holds the
  lookup-then-ownership check that update and delete share.
- `NoteProperties` (`note_properties.dfy`): lemmas that relate several calls:
  error precedence, repeated updates and deletes, what a listing shows after a
  change, and the Groceries walk-through.
- `NoteSession` (`note_session.dfy`): the four routes as one dispatcher
  `Handle`, and `Run`, which handles a sequence of calls. It proves that
  other users' calls never change or remove a user's notes.

Modelling choices:

- The caller id is a parameter. Every route runs the authentication guard
  before its handler, so every handler sees an already resolved caller.
- User and note ids are opaque values compared with `==`. The source compares
  them through their string form, which is the same test for these ids.
- The store yields the notes of a listing in an order of its own, and the code
  promises no order. The model takes that enumeration as a parameter `order`,
  which must list every stored id exactly once (`Enumerates`). The contracts
  state which notes are listed, not their order.
- A new note's id comes from the store. The model takes it as a parameter
  that must not already be in the store.
- Create checks its fields with JavaScript truthiness. A field fails when it
  is missing (`None`) or the empty string (`Some("")`).
- The update body reaches the store unfiltered. `Patch` therefore has
  optional owner, title and content fields. Each field the body carries
  overwrites the stored value.

A note gets its owner and two non-empty fields at creation. The update
handler keeps neither: the owner can send `{user: <other id>}` or
`{title: ""}` and the store accepts it. The model
follows the code: `UpdateCanHandOverNote` and `UpdateCanEmptyTitle` state
that behaviour. Sending the same update twice leaves the store as sending it once does, in
every case; `UpdateTwiceSameStore` proves it. When the
first update succeeds, the reply repeats exactly when the body keeps the
caller as owner; otherwise the second call gets 401.

Ownership mismatch gives 401, not 403, exactly as the code does.

## Model

| member | source | states |
|---|---|---|
| NoteController.OwnedEntries | controllers/noteController.js:6 | the listing holds exactly the notes of the enumeration order that exist and belong to the caller, each with its stored fields; no id appears twice when the order has no repeats (no order of the entries is promised) |
| NoteController.GetNotes | controllers/noteController.js:5-8 | List replies 200 with every note whose owner is the caller and no other, no id twice, and leaves the store unchanged |
| NoteController.CreateNote | controllers/noteController.js:11-20 | Create fails with 400 "Please add all fields" exactly when title or content is missing or empty, and then stores nothing; otherwise it replies 201 with the new note owned by the caller, adds exactly that one id and keeps every other note |
| NoteController.Authorize | controllers/noteController.js:24-33 | update and delete may proceed exactly when the id is stored and owned by the caller; an absent id is refused with 404 before ownership is looked at, and a foreign note with 401 |
| NoteController.UpdateNote | controllers/noteController.js:23-37 | Update replies 404 for an unknown id and 401 for a foreign note, leaving the store unchanged; otherwise it overwrites exactly the fields the body carries, replies 200 with the stored result and changes no other entry |
| NoteController.DeleteNote | controllers/noteController.js:40-54 | Delete replies 404 for an unknown id and 401 for a foreign note, leaving the store unchanged; otherwise it removes exactly that id, keeps every other entry and replies 200 "Note deleted" |
| NoteModel.Merge | controllers/noteController.js:35 | the updated note takes each field the body carries and keeps each field the body omits |
| NoteProperties.MergeIdempotent | controllers/noteController.js:35 | applying an update body twice gives the same note as applying it once |
| NoteProperties.MergeEmptyPatch | controllers/noteController.js:35 | an update body with no fields leaves the note unchanged |
| NoteProperties.NotFoundPrecedesOwnership | controllers/noteController.js:24-45 | for an unknown id, update and delete give the same 404 reply and unchanged store for every caller and every body |
| NoteProperties.OwnershipRefusalIgnoresBody | controllers/noteController.js:30-50 | a non-owner gets the same 401 reply from update (any body) and delete, and the store is unchanged |
| NoteProperties.UpdateTwiceSameStore | controllers/noteController.js:30-36 | sending the same update twice leaves the same store as sending it once; when the first call succeeds, the second reply repeats if the body keeps the caller as owner and is 401 if it hands the note to another user |
| NoteProperties.UpdateCanHandOverNote | controllers/noteController.js:30-35 | the owner can reassign a note through the update body; afterwards the former owner is refused with 401 and the new owner may update it |
| NoteProperties.UpdateCanEmptyTitle | controllers/noteController.js:35 | an update body can set the title to the empty string |
| NoteProperties.DeleteTwiceNotFound | controllers/noteController.js:41-53 | after the owner deletes a note, a second delete of the same id replies 404, whoever sends it |
| NoteProperties.ListAfterCreate | controllers/noteController.js:5-19 | after a successful create, the creator's listing holds the new note with the creator as owner |
| NoteProperties.ListAfterDelete | controllers/noteController.js:6-53 | after a successful delete, no user's listing holds the deleted id |
| NoteProperties.GroceriesScenario | controllers/noteController.js:11-36 | A creates Groceries/Milk; B's update of the content is refused with 401 and changes nothing; A's same update replies 200 with content Eggs and title Groceries |
| NoteSession.Handle | routes/noteRoutes.js:48-163 | each authenticated request goes to its handler; a refusal (400, 401 or 404) leaves the store unchanged, success replies 200 or 201, and no note owned by someone else is changed or removed |
| NoteSession.OthersCannotTouch | controllers/noteController.js:23-54 | across any sequence of calls by other users, every note a user owned at the start is still stored, unchanged |
| NoteSession.RefusalsChangeNothing | controllers/noteController.js:13-50 | a sequence of calls that are all refused leaves the store exactly as it was |

## Left out

- The authentication guard (bearer-token verification and user lookup) is not
  part of this model. The caller id is taken as already verified.
- The error middleware, the unknown-route handler and the note schema are not
  part of this model. They are external. The model gives each handler's
  status and message directly.
- A note id that is not a well-formed store id makes the store lookup throw.
  The request then ends in the error middleware. Ids here are opaque, so this
  path is not modelled.
- Request fields that are not strings (numbers, `null`, objects) are not
  modelled. Fields are optional strings, and the update owner field is an
  optional user id.
- NoteController.UpdateNote: models plain field overwrites only. The body
  reaches the store unfiltered, so a top-level update operator such as
  `{"$unset": {"content": 1}}`, `$rename` or `$inc` is applied by the store
  (removing or renaming fields), and a `user` value that is not a well-formed
  id makes the update throw into the error middleware. Neither path is
  modelled.
- The store may add timestamps or version fields to a note. These are not
  modelled.
- Persistence, id generation and the store's listing order are abstracted as a
  map, a new-id parameter and an order parameter.
- The gap between the lookup and the write in update and delete is not
  modelled. Each handler is treated as atomic; concurrency is out of scope.
- Server start-up, configuration, logging and API documentation are I/O and
  framework wiring, so they are not modelled.
