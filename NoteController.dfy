/**
 * The note store behind src/controllers/noteController.js as an object:
 * the notes collection is a map the mutating controller actions reassign,
 * the users collection is the set of existing user ids that `shareNote`
 * consults, and `nextId` hands out fresh `_id`s. Each method follows the
 * controller's steps (lookup, guards, change, save) and is proved to agree
 * with the matching function of NoteRules; the read-only actions are those
 * functions applied to `notes`.
 */
module NoteController {
  import opened Wrappers
  import opened NoteModel
  import NoteRules

  class NoteStore {
    var notes: NoteRules.Notes
    const users: set<UserId>
    var nextId: NoteId

    /** Every stored id was handed out already, and shares are duplicate-free. */
    ghost predicate Valid()
      reads this
    {
      && (forall id :: id in notes ==> id < nextId)
      && NoteRules.SharesDistinct(notes)
    }

    /** An empty notes collection over the given existing users. */
    constructor (users: set<UserId>)
      ensures Valid()
      ensures notes == map[] && this.users == users
    {
      notes := map[];
      this.users := users;
      nextId := 0;
    }

    /** createNote: build the document, validate it in `save`, insert it under a fresh id. */
    method CreateNote(caller: UserId, title: Option<string>, content: Option<string>, fault: bool)
      returns (r: NoteRules.Outcome<NoteRules.Stored>)
      requires Valid()
      modifies this
      ensures Valid()
      ensures NoteRules.Step(r, notes) == NoteRules.CreateNote(old(notes), old(nextId), caller, title, content, fault)
      ensures r.Ok? ==> r.value.id !in old(notes)
    {
      if fault {
        return NoteRules.ServerError;
      }
      var doc := NewNote(title, content, caller);
      if doc.None? {
        return NoteRules.ServerError;
      }
      var id := nextId;
      notes := notes[id := doc.value];
      nextId := nextId + 1;
      r := NoteRules.Ok(NoteRules.Stored(id, doc.value));
    }

    /** updateNote: find the caller's note, then overwrite title and content. */
    method UpdateNote(caller: UserId, id: NoteId, title: string, content: string, fault: bool)
      returns (r: NoteRules.Outcome<Note>)
      requires Valid()
      modifies this
      ensures Valid() && nextId == old(nextId)
      ensures NoteRules.Step(r, notes) == NoteRules.UpdateNote(old(notes), caller, id, title, content, fault)
    {
      if fault {
        return NoteRules.ServerError;
      }
      var found := NoteRules.FindOne(notes, id, NoteRules.OwnedByFilter(caller));
      if found.None? {
        return NoteRules.NotFound(NoteRules.NoteNotFound);
      }
      var note := found.value.(title := title, content := content);
      notes := notes[id := note];
      r := NoteRules.Ok(note);
    }

    /** deleteNote: find the caller's note and remove it, answering with its last state. */
    method DeleteNote(caller: UserId, id: NoteId, fault: bool) returns (r: NoteRules.Outcome<Note>)
      requires Valid()
      modifies this
      ensures Valid() && nextId == old(nextId)
      ensures NoteRules.Step(r, notes) == NoteRules.DeleteNote(old(notes), caller, id, fault)
    {
      if fault {
        return NoteRules.ServerError;
      }
      var found := NoteRules.FindOne(notes, id, NoteRules.OwnedByFilter(caller));
      if found.None? {
        return NoteRules.NotFound(NoteRules.NoteNotFound);
      }
      notes := notes - {id};
      r := NoteRules.Ok(found.value);
    }

    /**
     * shareNote: the caller's note, then the target user, then the
     * duplicate check; only then push the target onto `sharedWith` and save,
     * which validates the document and stores nothing when it fails.
     */
    method ShareNote(caller: UserId, id: NoteId, target: UserId, fault: bool) returns (r: NoteRules.Outcome<string>)
      requires Valid()
      modifies this
      ensures Valid() && nextId == old(nextId)
      ensures NoteRules.Step(r, notes) == NoteRules.ShareNote(old(notes), users, caller, id, target, fault)
    {
      if fault {
        return NoteRules.ServerError;
      }
      var found := NoteRules.FindOne(notes, id, NoteRules.OwnedByFilter(caller));
      if found.None? {
        return NoteRules.NotFound(NoteRules.NoteNotFound);
      }
      var note := found.value;
      if target !in users {
        return NoteRules.NotFound(NoteRules.UserNotFound);
      }
      if target in note.sharedWith {
        return NoteRules.Conflict(NoteRules.AlreadyShared);
      }
      AppendKeepsDistinct(note.sharedWith, target);
      note := note.(sharedWith := note.sharedWith + [target]);
      if !ValidNote(note) {
        return NoteRules.ServerError;
      }
      notes := notes[id := note];
      r := NoteRules.Ok(NoteRules.SharedSuccessfully);
    }
  }
}
