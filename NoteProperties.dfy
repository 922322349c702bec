/**
 * Properties of the note operations taken together: what sharing grants
 * and what it does not, what a refusal reveals, and the life of one note
 * from creation to deletion.
 */
module NoteProperties {
  import opened Wrappers
  import opened NoteModel
  import opened NoteRules
  import opened Search

  /**
   * After the owner shares a note, the target may read it, while every user
   * other than the owner — the target included — still cannot update,
   * delete or re-share it.
   */
  lemma SharingGrantsReadOnly(notes: Notes, users: set<UserId>, owner: UserId, id: NoteId, target: UserId,
                              other: UserId, title: string, content: string, next: UserId)
    requires ShareNote(notes, users, owner, id, target, false).outcome.Ok?
    requires other != owner
    ensures var after := ShareNote(notes, users, owner, id, target, false).notes;
      && GetNoteById(after, target, id, false) == Ok(after[id])
      && UpdateNote(after, other, id, title, content, false) == Step(NotFound(NoteNotFound), after)
      && DeleteNote(after, other, id, false) == Step(NotFound(NoteNotFound), after)
      && ShareNote(after, users, other, id, next, false) == Step(NotFound(NoteNotFound), after)
  {
  }

  /**
   * A refusal does not reveal whether the note exists: to a caller who may
   * not read it, a stored note is answered exactly as if it were absent.
   */
  lemma ReadRefusalHidesExistence(notes: Notes, caller: UserId, id: NoteId)
    requires id in notes && !Visible(notes[id], caller)
    ensures GetNoteById(notes, caller, id, false) == GetNoteById(notes - {id}, caller, id, false)
  {
  }

  /** The same for the owner-only operations: a foreign note answers like a missing one. */
  lemma WriteRefusalHidesExistence(notes: Notes, users: set<UserId>, caller: UserId, id: NoteId,
                                   title: string, content: string, target: UserId)
    requires id in notes && !OwnedBy(notes[id], caller)
    ensures UpdateNote(notes, caller, id, title, content, false).outcome
         == UpdateNote(notes - {id}, caller, id, title, content, false).outcome
    ensures DeleteNote(notes, caller, id, false).outcome == DeleteNote(notes - {id}, caller, id, false).outcome
    ensures ShareNote(notes, users, caller, id, target, false).outcome
         == ShareNote(notes - {id}, users, caller, id, target, false).outcome
  {
  }

  /** Sharing is not idempotent: repeating a successful share is refused with status 400. */
  lemma ShareTwiceConflicts(notes: Notes, users: set<UserId>, owner: UserId, id: NoteId, target: UserId)
    requires ShareNote(notes, users, owner, id, target, false).outcome.Ok?
    ensures var after := ShareNote(notes, users, owner, id, target, false).notes;
      ShareNote(after, users, owner, id, target, false) == Step(Conflict(AlreadyShared), after)
  {
    var after := ShareNote(notes, users, owner, id, target, false).notes;
    assert after[id].sharedWith[|after[id].sharedWith| - 1] == target;
  }

  /**
   * Nothing stops an owner from sharing a valid note with itself: when the
   * owner is a known user, the share succeeds and the owner is listed as a
   * sharee.
   */
  lemma OwnerCanShareWithItself(notes: Notes, users: set<UserId>, owner: UserId, id: NoteId)
    requires id in notes && OwnedBy(notes[id], owner) && owner in users && owner !in notes[id].sharedWith
    requires ValidNote(notes[id])
    ensures var r := ShareNote(notes, users, owner, id, owner, false);
      r.outcome.Ok? && owner in r.notes[id].sharedWith
  {
    var r := ShareNote(notes, users, owner, id, owner, false);
    assert r.notes[id].sharedWith[|r.notes[id].sharedWith| - 1] == owner;
  }

  /**
   * An update may empty a note's title, since it skips validation; sharing
   * that note afterwards passes every guard but fails in `save` with 500,
   * and nothing is stored.
   */
  lemma EmptiedNoteCannotBeShared(notes: Notes, users: set<UserId>, owner: UserId, id: NoteId,
                                  content: string, target: UserId)
    requires id in notes && OwnedBy(notes[id], owner)
    requires target in users && target !in notes[id].sharedWith
    ensures var updated := UpdateNote(notes, owner, id, "", content, false);
      && updated.outcome.Ok?
      && ShareNote(updated.notes, users, owner, id, target, false) == Step(ServerError, updated.notes)
  {
  }

  /**
   * The second permission check of `searchNotes` removes nothing: the
   * database query already selects only notes the caller may read.
   */
  lemma SearchRecheckRemovesNothing(notes: Notes, caller: UserId, query: Option<string>)
    ensures var found := Find(notes, SearchFilter(caller, query));
      PermissionFilter(found, caller) == found
  {
    var found := Find(notes, SearchFilter(caller, query));
    assert PermissionFilter(found, caller).Keys == found.Keys;
  }

  /** Every search result is also among the caller's notes as `getAllNotes` lists them. */
  lemma SearchWithinAllNotes(notes: Notes, caller: UserId, query: Option<string>)
    requires query.Some? ==> IsLiteral(query.value)
    ensures var found := SearchNotes(notes, caller, query, false).value;
      var all := GetAllNotes(notes, caller, false).value;
      found.Keys <= all.Keys && forall id :: id in found ==> found[id] == all[id]
  {
  }

  /** A created note can be read back by its owner and by no one else. */
  lemma CreatedNoteIsPrivate(notes: Notes, id: NoteId, caller: UserId, title: Option<string>,
                             content: Option<string>, other: UserId)
    requires CreateNote(notes, id, caller, title, content, false).outcome.Ok?
    requires other != caller
    ensures var r := CreateNote(notes, id, caller, title, content, false);
      && GetNoteById(r.notes, caller, id, false) == Ok(r.outcome.value.note)
      && GetNoteById(r.notes, other, id, false) == NotFound(NoteNotFound)
  {
  }

  /** Once deleted, a note is "Note not found" for everybody. */
  lemma DeletedNoteIsGone(notes: Notes, owner: UserId, id: NoteId, anyone: UserId)
    requires DeleteNote(notes, owner, id, false).outcome.Ok?
    ensures GetNoteById(DeleteNote(notes, owner, id, false).notes, anyone, id, false) == NotFound(NoteNotFound)
  {
  }

  /** Every mutating operation keeps the `sharedWith` lists duplicate-free. */
  lemma OperationsKeepSharesDistinct(notes: Notes, users: set<UserId>, caller: UserId, id: NoteId,
                                     title: string, content: string, target: UserId,
                                     newTitle: Option<string>, newContent: Option<string>)
    requires SharesDistinct(notes)
    ensures SharesDistinct(CreateNote(notes, id, caller, newTitle, newContent, false).notes)
    ensures SharesDistinct(UpdateNote(notes, caller, id, title, content, false).notes)
    ensures SharesDistinct(DeleteNote(notes, caller, id, false).notes)
    ensures SharesDistinct(ShareNote(notes, users, caller, id, target, false).notes)
  {
    var r := ShareNote(notes, users, caller, id, target, false);
    if r.outcome.Ok? {
      AppendKeepsDistinct(notes[id].sharedWith, target);
    }
  }

  /**
   * The life of one note: U1 creates "Trip"/"Paris plan" and shares it with
   * U2; U2 now lists it but cannot update it; U1 deletes it; afterwards
   * neither user can read it.
   */
  lemma TripScenario(notes: Notes, users: set<UserId>, u1: UserId, u2: UserId, id: NoteId,
                     title: string, content: string)
    requires u1 != u2 && u2 in users && id !in notes
    ensures
      var created := CreateNote(notes, id, u1, Some("Trip"), Some("Paris plan"), false);
      var shared := ShareNote(created.notes, users, u1, id, u2, false);
      var updated := UpdateNote(shared.notes, u2, id, title, content, false);
      var deleted := DeleteNote(updated.notes, u1, id, false);
      && created.outcome.Ok?
      && shared.outcome == Ok(SharedSuccessfully)
      && id in GetAllNotes(shared.notes, u2, false).value
      && updated == Step(NotFound(NoteNotFound), shared.notes)
      && deleted.outcome.Ok?
      && GetNoteById(deleted.notes, u1, id, false) == NotFound(NoteNotFound)
      && GetNoteById(deleted.notes, u2, id, false) == NotFound(NoteNotFound)
  {
    var created := CreateNote(notes, id, u1, Some("Trip"), Some("Paris plan"), false);
    assert created.notes[id].sharedWith == [];
    var shared := ShareNote(created.notes, users, u1, id, u2, false);
    assert shared.notes[id].sharedWith == [u2];
    SharingGrantsReadOnly(created.notes, users, u1, id, u2, u2, title, content, u2);
  }
}
