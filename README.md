# Access-controlled notes: a Dafny model

This project models the core of a small multi-user notes REST service
(Express and Mongoose). Users sign up and log in to receive a bearer token.
They then create, list, read, update, delete, share and search text notes.
A note has one owner. The owner alone may change, delete or share it. The
owner and every user the note is shared with may read it.

The model has these parts, one module each:

- `NoteModel` (src/models/Note.js): the Note record, its validation
  (`required` title and content) and the two access predicates: `Visible`
  means owner or sharee, `OwnedBy` means owner.
- `Search`: what `new RegExp(q, 'i')` matches for a query without
  metacharacters. That is a substring search that ignores the case of ASCII
  letters. It is proved equal to an occurrence predicate.
- `NoteRules` (src/controllers/noteController.js): the seven controller
  actions as functions of the notes collection. They use the same query
  documents the controller sends to the database (`$or` of `userId` /
  `sharedWith` conditions, `$regex` conditions). Each contract ties the
  answer and the new collection to the ownership and visibility rules.
  Answers are `Ok`, `NotFound("Note not found" | "User not found")`,
  `Conflict("Note is already shared with this user")` (status 400) and
  `ServerError` (status 500).
- `NoteController`: class `NoteStore`. Its map of notes is reassigned by the
  mutating actions, step by step as the controller performs them. Each
  method is proved to agree with its `NoteRules` function. The class
  invariant says that ids are fresh and that no `sharedWith` list repeats a
  user.
- `NoteProperties`: lemmas over several actions. Sharing grants read access
  only. A refusal does not reveal whether a note exists. A repeated share is
  refused. The search's second permission filter removes nothing. One
  lemma follows a note from creation to deletion.
- `AuthMiddleware` (src/middlewares/auth.js): the Bearer-header gate, with
  JavaScript's `split(' ')` modelled and proved to round-trip with `join`.
- `AuthController` (src/controllers/authController.js, src/models/User.js):
  class `UserRegistry` keeps usernames unique across signups. `Login` is a
  function that answers both failure causes identically.

Inputs the code cannot see are parameters:
- `fault` says that a database call rejects.
- `verify` stands for the JWT verifier.
- `hash` and `compare` stand for bcrypt.

Behaviours of the code worth knowing, each stated by a member below:
- `updateNote` calls `findOneAndUpdate` without `runValidators`
  (src/controllers/noteController.js:78-82). An update may therefore store
  an empty title or content, despite the `required` flags at
  src/models/Note.js:5-6. `NoteRules.UpdateNote` states exactly when the
  updated note is still valid.
- `shareNote` ends with `note.save()` (src/controllers/noteController.js:149),
  which validates the whole document. A note emptied by an update passes
  the three guards and is then refused with 500
  (`NoteProperties.EmptiedNoteCannotBeShared`).
- `searchNotes` passes the query to `new RegExp` without escaping it
  (src/controllers/noteController.js:166-169). The model requires a query
  free of metacharacters rather than claiming literal matching for every
  query.
- `sharedWith` is a list, not a set (src/models/Note.js:8). It stays
  duplicate-free only because `shareNote` checks before it appends.
- Nothing prevents an owner from sharing a note with itself
  (`NoteProperties.OwnerCanShareWithItself`).
- A missing `q` parameter builds the empty pattern, which matches every
  visible note.

## Model

| member | source | states |
|---|---|---|
| `NoteModel.NewNote` | src/models/Note.js:4-8 | a new document exists only when title and content are present and non-empty; it is valid, owned by the caller and shared with nobody |
| `NoteModel.SchemaAllowsDuplicateShares` | src/models/Note.js:8 | the schema accepts a `sharedWith` list that names a user twice, so uniqueness is not a schema property |
| `NoteModel.AppendKeepsDistinct` | src/controllers/noteController.js:141-146 | appending an id that the list lacks keeps the list duplicate-free |
| `Search.Contains` | src/controllers/noteController.js:166-169 | the scan answers true exactly when the query occurs in the text, ASCII case ignored |
| `Search.OccursInUnfold` | src/controllers/noteController.js:166-169 | an occurrence starts at the first position or lies in the rest of the text |
| `Search.Matches` | src/controllers/noteController.js:166-169 | a missing query matches every text; a given query matches exactly the texts that contain it up to case |
| `Search.MatchesIgnoresQueryCase` | src/controllers/noteController.js:166-169 | two queries that differ only in letter case match the same texts |
| `Search.HelloFindsHelloWorld` | src/controllers/noteController.js:166 | the query "hello" matches "Hello World" |
| `NoteRules.VisibleTo` | src/controllers/noteController.js:13-18 | the `$or` of `userId` and `sharedWith $in` selects exactly the notes visible to the user |
| `NoteRules.OwnedByFilter` | src/controllers/noteController.js:125 | the `{ userId }` condition selects exactly the notes the user owns |
| `NoteRules.SearchFilter` | src/controllers/noteController.js:164-171 | the four-way `$or` selects exactly the visible notes whose title or content matches |
| `NoteRules.GetAllNotes` | src/controllers/noteController.js:8-25 | the answer is exactly the notes the caller owns or that are shared with it, unchanged; 500 only on a store failure |
| `NoteRules.GetNoteById` | src/controllers/noteController.js:28-51 | the note is returned iff it exists and is visible to the caller; otherwise "Note not found", whether it is absent or hidden |
| `NoteRules.SearchNotes` | src/controllers/noteController.js:159-184 | the answer is exactly the visible notes whose title or content contains the query, case aside |
| `NoteRules.CreateNote` | src/controllers/noteController.js:54-69 | success iff title and content are present and non-empty; one note is added, owned by the caller, with empty shares; otherwise 500 and nothing changes |
| `NoteRules.UpdateNote` | src/controllers/noteController.js:72-93 | success iff the caller owns the note; only its title and content change and the updated note is returned; a sharee gets "Note not found"; on every error nothing changes |
| `NoteRules.DeleteNote` | src/controllers/noteController.js:96-112 | success iff the caller owns the note; exactly that note is removed and its prior state returned; otherwise "Note not found" and nothing changes |
| `NoteRules.ShareNote` | src/controllers/noteController.js:115-156 | guards in order (own note, known user, not yet shared), each with its message; then `save` refuses a note with an empty title or content with 500; on success the absent target is appended once and nothing else changes; on every error nothing changes |
| `NoteController.NoteStore.CreateNote` | src/controllers/noteController.js:54-69 | the in-place insert agrees with `NoteRules.CreateNote` under a fresh id and keeps the store invariant |
| `NoteController.NoteStore.UpdateNote` | src/controllers/noteController.js:72-93 | the in-place rewrite agrees with `NoteRules.UpdateNote` and keeps the store invariant |
| `NoteController.NoteStore.DeleteNote` | src/controllers/noteController.js:96-112 | the in-place removal agrees with `NoteRules.DeleteNote` and keeps the store invariant |
| `NoteController.NoteStore.ShareNote` | src/controllers/noteController.js:115-156 | the guards, the in-place push and the validating save agree with `NoteRules.ShareNote`; the shares stay duplicate-free |
| `NoteProperties.SharingGrantsReadOnly` | src/controllers/noteController.js:115-156 | after a share the target can read the note, while every non-owner, the target included, still gets "Note not found" from update, delete and share |
| `NoteProperties.ReadRefusalHidesExistence` | src/controllers/noteController.js:34-44 | for a caller who may not read it, a stored note is answered as if it were absent |
| `NoteProperties.WriteRefusalHidesExistence` | src/controllers/noteController.js:78-130 | for a non-owner, update, delete and share answer as if the note were absent |
| `NoteProperties.ShareTwiceConflicts` | src/controllers/noteController.js:141-143 | repeating a successful share yields the 400 "Note is already shared with this user" and changes nothing |
| `NoteProperties.OwnerCanShareWithItself` | src/controllers/noteController.js:125-146 | an owner who is a known user can share its own valid note with itself |
| `NoteProperties.EmptiedNoteCannotBeShared` | src/controllers/noteController.js:78-154 | after an update empties the title, a share that passes every guard fails in `save` with 500 and stores nothing |
| `NoteProperties.SearchRecheckRemovesNothing` | src/controllers/noteController.js:164-177 | the additional permission filter returns the query's result unchanged |
| `NoteProperties.SearchWithinAllNotes` | src/controllers/noteController.js:159-184 | every search result is among the notes `getAllNotes` lists, with the same contents |
| `NoteProperties.CreatedNoteIsPrivate` | src/controllers/noteController.js:61-62 | a created note is readable by its owner and "Note not found" for every other user |
| `NoteProperties.DeletedNoteIsGone` | src/controllers/noteController.js:101 | after a delete the note is "Note not found" for every user |
| `NoteProperties.OperationsKeepSharesDistinct` | src/controllers/noteController.js:141-149 | create, update, delete and share all keep every `sharedWith` list duplicate-free |
| `NoteProperties.TripScenario` | src/controllers/noteController.js:54-156 | create, share with U2, U2 lists it, U2's update refused, U1 deletes, then neither can read it |
| `AuthMiddleware.Split` | src/middlewares/auth.js:14 | `split(' ')` yields at least one field and no field contains a space |
| `AuthMiddleware.JoinSplit` | src/middlewares/auth.js:14 | joining the fields of a split gives back the original string |
| `AuthMiddleware.SplitAfterWord` | src/middlewares/auth.js:14 | a space-free word followed by a space splits off as the first field |
| `AuthMiddleware.FirstField` | src/middlewares/auth.js:14 | the first field is the longest space-free prefix |
| `AuthMiddleware.TokenOf` | src/middlewares/auth.js:9-14 | the token is the text after "Bearer " up to the next space or the end |
| `AuthMiddleware.Authenticate` | src/middlewares/auth.js:4-37 | missing or non-"Bearer " header: 401 with the format message; verifier error: 403; synchronous throw: 401 "Invalid token"; accepted token: `next` with the decoded user |
| `AuthMiddleware.NextOnlyForAcceptedToken` | src/middlewares/auth.js:18-31 | `next` is called iff the header is well formed and the verifier accepts the extracted token |
| `AuthMiddleware.BearerAbc` | src/middlewares/auth.js:14 | the header "Bearer abc" passes the token "abc" to the verifier |
| `AuthController.Lookup` | src/controllers/authController.js:45 | `findOne({ username })` finds the first user with that name, and finds none iff no user has it |
| `AuthController.Login` | src/controllers/authController.js:39-64 | a token for the user's id iff the name exists and the password matches its hash; otherwise 401 "Invalid credentials"; the registry is only read |
| `AuthController.LoginFailuresIndistinguishable` | src/controllers/authController.js:45-54 | an unknown user and a wrong password get identical answers |
| `AuthController.LookupAppended` | src/controllers/authController.js:16-26 | a name that was free is found at the end once appended |
| `AuthController.SignupThenLogin` | src/controllers/authController.js:16-30 | a fresh signup followed by a login with the same password yields a token for the same id |
| `AuthController.UserRegistry.Signup` | src/controllers/authController.js:10-36 | a taken name gets 400 "Username already exists" and nothing changes; a fresh name adds exactly one user with the hashed password and answers with a token for its id; usernames stay unique |

## Left out

- Mongoose and MongoDB internals (`find`, `findOneAndUpdate`, `save`) are replaced by an in-memory map. The text index at src/models/Note.js:12 is not part of this model.
- A storage failure is the `fault` parameter. It is treated as the first database call rejecting. A failure after earlier calls succeeded gives the same answer (500) and the same unchanged store, so it is not modelled separately.
- bcrypt and JWT are foreign library calls. They are function parameters (`hash`, `compare`, `verify`). A token is the claims it carries; its secret and its one-hour expiry are not modelled.
- Concurrency is not modelled: the async/await interleavings, and the race in which two concurrent shares both pass the duplicate check.
- HTTP plumbing is not modelled: server.js, the route files, body parsing, logging and the rate-limit middleware.
- Note and user ids are naturals. An id string that is not a valid ObjectId makes Mongoose throw a cast error (status 500); that case is not modelled.
- `updateNote` takes title and content as strings. An update body with a missing field (which Mongoose drops from the update) is not modelled. Neither are non-string body values, which Mongoose casts.
- `signup` and `login` take username and password as strings. A missing field (`undefined`) is not modelled. Neither is a token payload without `userId`.
- The list and search actions answer with a map from id to note. Result order is not modelled, since the source promises none.
- Search.Matches: folds case for ASCII letters only. JavaScript's `/i` also folds other letters (for example "é"/"É"), and those are compared exactly here.
- NoteRules.SearchNotes: requires a query without regular-expression metacharacters. The controller passes the query to `new RegExp` unescaped. A query with metacharacters is read as a pattern, or throws and gives 500. That behaviour is not modelled.
