/**
 * The Note record of src/models/Note.js: a title, a content, exactly one
 * owner id (`userId`) and the list of user ids the note is shared with.
 * The schema marks title, content and owner as required; it does not
 * deduplicate `sharedWith`.
 */
module NoteModel {
  import opened Wrappers

  /** An ObjectId referring to the users collection. */
  type UserId = nat

  /** An ObjectId of the notes collection. */
  type NoteId = nat

  /** A stored note. The owner is a single id by construction. */
  datatype Note = Note(title: string, content: string, userId: UserId, sharedWith: seq<UserId>)

  /**
   * Mongoose's `required` check on a String path: the value is present
   * and is not the empty string.
   */
  predicate Required(field: Option<string>) {
    field.Some? && field.value != ""
  }

  /** A note that passes the schema's validation. */
  predicate ValidNote(n: Note) {
    n.title != "" && n.content != ""
  }

  /**
   * `new Note({ title, content, userId })` followed by the validation that
   * `save` runs: the document exists only when both required strings are
   * present and non-empty; it starts out shared with nobody.
   */
  function NewNote(title: Option<string>, content: Option<string>, owner: UserId): (r: Option<Note>)
    ensures r.Some? <==> Required(title) && Required(content)
    ensures r.Some? ==> ValidNote(r.value)
    ensures r.Some? ==> Some(r.value.title) == title && Some(r.value.content) == content
    ensures r.Some? ==> r.value.userId == owner && r.value.sharedWith == []
  {
    if Required(title) && Required(content) then Some(Note(title.value, content.value, owner, [])) else None
  }

  /** The caller may read the note: it owns it or the note is shared with it. */
  predicate Visible(n: Note, caller: UserId) {
    n.userId == caller || caller in n.sharedWith
  }

  /** The caller owns the note, which alone allows changing or deleting it. */
  predicate OwnedBy(n: Note, caller: UserId) {
    n.userId == caller
  }

  /** No user id occurs twice in the list. */
  predicate Distinct(ids: seq<UserId>) {
    forall i, j :: 0 <= i < j < |ids| ==> ids[i] != ids[j]
  }

  /**
   * The schema alone accepts a `sharedWith` list that names the same user
   * twice: uniqueness is up to the controller's check before a share.
   */
  lemma SchemaAllowsDuplicateShares(n: Note)
    requires ValidNote(n) && |n.sharedWith| > 0
    ensures var dup := n.(sharedWith := n.sharedWith + [n.sharedWith[0]]);
            ValidNote(dup) && !Distinct(dup.sharedWith)
  {
    var dup := n.sharedWith + [n.sharedWith[0]];
    assert dup[0] == dup[|dup| - 1];
  }

  /** Appending an id that is not yet in a duplicate-free list keeps it duplicate-free. */
  lemma AppendKeepsDistinct(ids: seq<UserId>, u: UserId)
    requires Distinct(ids) && u !in ids
    ensures Distinct(ids + [u])
  {
  }
}
