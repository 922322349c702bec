/**
 * The seven operations of src/controllers/noteController.js as functions
 * of the notes collection. Each request is answered for an authenticated
 * caller id; `fault` stands for a rejected database call, which the
 * controller's `catch` turns into status 500 without changing anything.
 *
 * The database queries are written as the query documents the controller
 * builds (a conjunction of field conditions and an optional `$or` of
 * conjunctions), so each contract below relates the source's query to the
 * visibility and ownership rules of the Note record.
 */
module NoteRules {
  import opened Wrappers
  import opened NoteModel
  import opened Search

  const NoteNotFound: string := "Note not found"
  const UserNotFound: string := "User not found"
  const AlreadyShared: string := "Note is already shared with this user"
  const SharedSuccessfully: string := "Note shared successfully"

  /**
   * A controller's answer: `Ok` is status 200 (201 for a created note),
   * `NotFound` status 404, `Conflict` status 400 and `ServerError`
   * status 500 with body "Internal server error".
   */
  datatype Outcome<T> = Ok(value: T) | NotFound(error: string) | Conflict(error: string) | ServerError

  /** The notes collection, keyed by `_id`. */
  type Notes = map<NoteId, Note>

  /** No note's `sharedWith` names the same user twice. */
  ghost predicate SharesDistinct(notes: Notes) {
    forall id :: id in notes ==> Distinct(notes[id].sharedWith)
  }

  /** A note together with the id the collection gave it. */
  datatype Stored = Stored(id: NoteId, note: Note)

  /** The answer to a request and the collection after it. */
  datatype Step<T> = Step(outcome: Outcome<T>, notes: Notes)

  // ---------------------------------------------------------------------------
  // Query documents

  /** One field condition of a query document. */
  datatype Condition =
    | UserIdIs(u: UserId)                  // { userId: u }
    | SharedWithHas(u: UserId)             // { sharedWith: u } and { sharedWith: { $in: [u] } }
    | TitleMatches(q: Option<string>)      // { title: { $regex: new RegExp(q, 'i') } }
    | ContentMatches(q: Option<string>)    // { content: { $regex: new RegExp(q, 'i') } }

  predicate Holds(c: Condition, n: Note) {
    match c
    case UserIdIs(u) => n.userId == u
    case SharedWithHas(u) => u in n.sharedWith
    case TitleMatches(q) => Matches(q, n.title)
    case ContentMatches(q) => Matches(q, n.content)
  }

  predicate AllHold(cs: seq<Condition>, n: Note) {
    forall i :: 0 <= i < |cs| ==> Holds(cs[i], n)
  }

  /** Field conditions that must all hold, and alternatives of which one must (no `$or` when empty). */
  datatype Filter = Filter(fields: seq<Condition>, anyOf: seq<seq<Condition>>)

  predicate Selects(f: Filter, n: Note) {
    AllHold(f.fields, n) && (f.anyOf == [] || exists i :: 0 <= i < |f.anyOf| && AllHold(f.anyOf[i], n))
  }

  lemma AllHoldOne(a: Condition, n: Note)
    ensures AllHold([a], n) == Holds(a, n)
  {
    if AllHold([a], n) { assert Holds([a][0], n); }
  }

  lemma AllHoldTwo(a: Condition, b: Condition, n: Note)
    ensures AllHold([a, b], n) == (Holds(a, n) && Holds(b, n))
  {
    if AllHold([a, b], n) { assert Holds([a, b][0], n) && Holds([a, b][1], n); }
  }

  /** `Model.find(filter)`: every document the filter selects. */
  function Find(notes: Notes, f: Filter): (r: Notes)
    ensures forall id :: id in r <==> id in notes && Selects(f, notes[id])
    ensures forall id :: id in r ==> r[id] == notes[id]
  {
    map id | id in notes && Selects(f, notes[id]) :: notes[id]
  }

  /** `Model.findOne({ _id: id, ...f })`: a primary-key lookup, then the rest of the filter. */
  function FindOne(notes: Notes, id: NoteId, f: Filter): (r: Option<Note>)
    ensures r.Some? <==> id in notes && Selects(f, notes[id])
    ensures r.Some? ==> r.value == notes[id]
  {
    if id in notes && Selects(f, notes[id]) then Some(notes[id]) else None
  }

  /** `{ $or: [{ userId: u }, { sharedWith: { $in: [u] } }] }` selects what u may read. */
  function VisibleTo(u: UserId): (f: Filter)
    ensures forall n :: Selects(f, n) <==> Visible(n, u)
  {
    var f := Filter([], [[UserIdIs(u)], [SharedWithHas(u)]]);
    VisibleToSelects(f, u);
    f
  }

  lemma VisibleToSelects(f: Filter, u: UserId)
    requires f == Filter([], [[UserIdIs(u)], [SharedWithHas(u)]])
    ensures forall n :: Selects(f, n) <==> Visible(n, u)
  {
    forall n ensures Selects(f, n) <==> Visible(n, u) {
      AllHoldOne(UserIdIs(u), n);
      AllHoldOne(SharedWithHas(u), n);
      if Visible(n, u) {
        if n.userId == u { assert AllHold(f.anyOf[0], n); } else { assert AllHold(f.anyOf[1], n); }
      }
    }
  }

  /** `{ userId: u }` selects what u may change. */
  function OwnedByFilter(u: UserId): (f: Filter)
    ensures forall n :: Selects(f, n) <==> OwnedBy(n, u)
  {
    var f := Filter([UserIdIs(u)], []);
    OwnedByFilterSelects(f, u);
    f
  }

  lemma OwnedByFilterSelects(f: Filter, u: UserId)
    requires f == Filter([UserIdIs(u)], [])
    ensures forall n :: Selects(f, n) <==> OwnedBy(n, u)
  {
    forall n ensures Selects(f, n) <==> OwnedBy(n, u) {
      AllHoldOne(UserIdIs(u), n);
    }
  }

  /** The four-way `$or` of `searchNotes`: owner or sharee, title or content. */
  function SearchFilter(u: UserId, q: Option<string>): (f: Filter)
    ensures forall n :: Selects(f, n) <==> Visible(n, u) && (Matches(q, n.title) || Matches(q, n.content))
  {
    var f := Filter([], [
      [UserIdIs(u), TitleMatches(q)],
      [UserIdIs(u), ContentMatches(q)],
      [SharedWithHas(u), TitleMatches(q)],
      [SharedWithHas(u), ContentMatches(q)]]);
    SearchFilterSelects(f, u, q);
    f
  }

  lemma SearchFilterSelects(f: Filter, u: UserId, q: Option<string>)
    requires f == Filter([], [
      [UserIdIs(u), TitleMatches(q)],
      [UserIdIs(u), ContentMatches(q)],
      [SharedWithHas(u), TitleMatches(q)],
      [SharedWithHas(u), ContentMatches(q)]])
    ensures forall n :: Selects(f, n) <==> Visible(n, u) && (Matches(q, n.title) || Matches(q, n.content))
  {
    forall n ensures Selects(f, n) <==> Visible(n, u) && (Matches(q, n.title) || Matches(q, n.content)) {
      AllHoldTwo(UserIdIs(u), TitleMatches(q), n);
      AllHoldTwo(UserIdIs(u), ContentMatches(q), n);
      AllHoldTwo(SharedWithHas(u), TitleMatches(q), n);
      AllHoldTwo(SharedWithHas(u), ContentMatches(q), n);
      if Visible(n, u) && (Matches(q, n.title) || Matches(q, n.content)) {
        if n.userId == u {
          if Matches(q, n.title) { assert AllHold(f.anyOf[0], n); } else { assert AllHold(f.anyOf[1], n); }
        } else {
          if Matches(q, n.title) { assert AllHold(f.anyOf[2], n); } else { assert AllHold(f.anyOf[3], n); }
        }
      }
    }
  }

  // ---------------------------------------------------------------------------
  // Read operations

  /** getAllNotes: every note the caller owns or that is shared with it. */
  function GetAllNotes(notes: Notes, caller: UserId, fault: bool): (r: Outcome<Notes>)
    ensures r.ServerError? <==> fault
    ensures !fault ==> r.Ok?
    ensures r.Ok? ==> forall id :: id in r.value <==> id in notes && Visible(notes[id], caller)
    ensures r.Ok? ==> forall id :: id in r.value ==> r.value[id] == notes[id]
  {
    if fault then ServerError else Ok(Find(notes, VisibleTo(caller)))
  }

  /**
   * getNoteById: the note when it exists and the caller may read it;
   * otherwise "Note not found", whether the note is absent or hidden.
   */
  function GetNoteById(notes: Notes, caller: UserId, id: NoteId, fault: bool): (r: Outcome<Note>)
    ensures r.ServerError? <==> fault
    ensures r.Ok? <==> !fault && id in notes && Visible(notes[id], caller)
    ensures r.Ok? ==> r.value == notes[id]
    ensures r.NotFound? ==> r.error == NoteNotFound
    ensures !r.Conflict?
  {
    if fault then ServerError
    else match FindOne(notes, id, VisibleTo(caller))
      case None => NotFound(NoteNotFound)
      case Some(note) => Ok(note)
  }

  /** The additional check of `searchNotes`: keep the notes the caller owns or sees. */
  function PermissionFilter(found: Notes, caller: UserId): (r: Notes)
    ensures forall id :: id in r <==> id in found && Visible(found[id], caller)
    ensures forall id :: id in r ==> r[id] == found[id]
  {
    map id | id in found && Visible(found[id], caller) :: found[id]
  }

  /**
   * searchNotes: the visible notes whose title or content contains the
   * query, case aside. The query is read as a literal only when it has no
   * regular-expression metacharacters, since the controller does not escape it.
   */
  function SearchNotes(notes: Notes, caller: UserId, query: Option<string>, fault: bool): (r: Outcome<Notes>)
    requires query.Some? ==> IsLiteral(query.value)
    ensures r.ServerError? <==> fault
    ensures !fault ==> r.Ok?
    ensures r.Ok? ==> forall id :: id in r.value <==>
      id in notes && Visible(notes[id], caller) && (Matches(query, notes[id].title) || Matches(query, notes[id].content))
    ensures r.Ok? ==> forall id :: id in r.value ==> r.value[id] == notes[id]
  {
    if fault then ServerError
    else Ok(PermissionFilter(Find(notes, SearchFilter(caller, query)), caller))
  }

  // ---------------------------------------------------------------------------
  // Mutating operations

  /**
   * createNote: a new note owned by the caller, under the fresh id the
   * collection assigns. A missing or empty title or content fails the
   * schema's validation inside `save`, which the controller answers with 500;
   * so does a duplicate `_id`.
   */
  function CreateNote(notes: Notes, id: NoteId, caller: UserId, title: Option<string>, content: Option<string>, fault: bool): (r: Step<Stored>)
    ensures r.outcome.Ok? <==> !fault && id !in notes && Required(title) && Required(content)
    ensures !r.outcome.Ok? ==> r.outcome == ServerError && r.notes == notes
    ensures r.outcome.Ok? ==>
      && r.outcome.value.id == id
      && r.outcome.value.note == Note(title.value, content.value, caller, [])
      && r.notes.Keys == notes.Keys + {id}
      && r.notes[id] == r.outcome.value.note
      && (forall k :: k in notes ==> r.notes[k] == notes[k])
  {
    if fault then Step(ServerError, notes)
    else match NewNote(title, content, caller)
      case None => Step(ServerError, notes)
      case Some(note) =>
        if id in notes then Step(ServerError, notes)
        else Step(Ok(Stored(id, note)), notes[id := note])
  }

  /**
   * updateNote: `findOneAndUpdate({ _id, userId }, { title, content }, { new: true })`.
   * Only the owner's note matches; on a match title and content are replaced
   * (without re-running the schema's validators) and the updated note is
   * returned; the owner, the shares and every other note are left as they were.
   */
  function UpdateNote(notes: Notes, caller: UserId, id: NoteId, title: string, content: string, fault: bool): (r: Step<Note>)
    ensures r.outcome.ServerError? <==> fault
    ensures r.outcome.Ok? <==> !fault && id in notes && OwnedBy(notes[id], caller)
    ensures !fault && !r.outcome.Ok? ==> r.outcome == NotFound(NoteNotFound)
    ensures !r.outcome.Ok? ==> r.notes == notes
    ensures r.outcome.Ok? ==>
      && r.notes.Keys == notes.Keys
      && r.notes[id] == r.outcome.value
      && r.outcome.value.title == title && r.outcome.value.content == content
      && r.outcome.value.userId == notes[id].userId
      && r.outcome.value.sharedWith == notes[id].sharedWith
      && (forall k :: k in notes && k != id ==> r.notes[k] == notes[k])
    ensures r.outcome.Ok? ==> (ValidNote(r.outcome.value) <==> title != "" && content != "")
  {
    if fault then Step(ServerError, notes)
    else match FindOne(notes, id, OwnedByFilter(caller))
      case None => Step(NotFound(NoteNotFound), notes)
      case Some(note) =>
        var updated := note.(title := title, content := content);
        Step(Ok(updated), notes[id := updated])
  }

  /**
   * deleteNote: `findOneAndDelete({ _id, userId })` removes the owner's note
   * and answers with the note as it was; anything else is "Note not found"
   * with the collection untouched.
   */
  function DeleteNote(notes: Notes, caller: UserId, id: NoteId, fault: bool): (r: Step<Note>)
    ensures r.outcome.ServerError? <==> fault
    ensures r.outcome.Ok? <==> !fault && id in notes && OwnedBy(notes[id], caller)
    ensures !fault && !r.outcome.Ok? ==> r.outcome == NotFound(NoteNotFound)
    ensures !r.outcome.Ok? ==> r.notes == notes
    ensures r.outcome.Ok? ==>
      && r.outcome.value == notes[id]
      && r.notes.Keys == notes.Keys - {id}
      && (forall k :: k in r.notes ==> r.notes[k] == notes[k])
  {
    if fault then Step(ServerError, notes)
    else match FindOne(notes, id, OwnedByFilter(caller))
      case None => Step(NotFound(NoteNotFound), notes)
      case Some(note) => Step(Ok(note), notes - {id})
  }

  /**
   * shareNote: three guards in a fixed order — the caller's own note, then
   * the target user, then "not yet shared" — and only then the target is
   * pushed onto `sharedWith` and the note saved. `save` validates the whole
   * document, so a note whose title or content was emptied by an earlier
   * update is refused there with 500. Every failure leaves the collection
   * as it was.
   */
  function ShareNote(notes: Notes, users: set<UserId>, caller: UserId, id: NoteId, target: UserId, fault: bool): (r: Step<string>)
    ensures r.outcome.ServerError? <==>
      fault || (id in notes && OwnedBy(notes[id], caller) && target in users &&
                target !in notes[id].sharedWith && !ValidNote(notes[id]))
    ensures r.outcome == NotFound(NoteNotFound) <==> !fault && !(id in notes && OwnedBy(notes[id], caller))
    ensures r.outcome == NotFound(UserNotFound) <==>
      !fault && id in notes && OwnedBy(notes[id], caller) && target !in users
    ensures r.outcome.Conflict? <==>
      !fault && id in notes && OwnedBy(notes[id], caller) && target in users && target in notes[id].sharedWith
    ensures r.outcome.Conflict? ==> r.outcome.error == AlreadyShared
    ensures r.outcome.Ok? <==>
      !fault && id in notes && OwnedBy(notes[id], caller) && target in users &&
      target !in notes[id].sharedWith && ValidNote(notes[id])
    ensures !r.outcome.Ok? ==> r.notes == notes
    ensures r.outcome.Ok? ==>
      && r.outcome.value == SharedSuccessfully
      && id in notes && target !in notes[id].sharedWith
      && r.notes.Keys == notes.Keys
      && r.notes[id] == notes[id].(sharedWith := notes[id].sharedWith + [target])
      && (forall k :: k in notes && k != id ==> r.notes[k] == notes[k])
  {
    if fault then Step(ServerError, notes)
    else match FindOne(notes, id, OwnedByFilter(caller))
      case None => Step(NotFound(NoteNotFound), notes)
      case Some(note) =>
        if target !in users then Step(NotFound(UserNotFound), notes)
        else if target in note.sharedWith then Step(Conflict(AlreadyShared), notes)
        else
          var shared := note.(sharedWith := note.sharedWith + [target]);
          if !ValidNote(shared) then Step(ServerError, notes)
          else Step(Ok(SharedSuccessfully), notes[id := shared])
  }
}
