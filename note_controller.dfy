/**
 * The note service's request handlers: each one awaits repository calls and
 * turns what they give back into an HTTP status. A repository call either
 * throws or returns a value, which may be missing (JavaScript `null` or
 * `undefined`, the falsy results the handlers test for).
 */
module NoteController {
  import opened Wrappers
  import opened NotesRepository

  /** What an awaited repository call gives back. */
  datatype Reply<T> = Threw | Returned(value: Option<T>)

  /** The status of a handler whose only failure is a thrown error
      (`getNotesForUser` 200, `createNote` 201, `updateNote` 200, and the
      final step of `shareNoteWithUser` and `getCollaborators` 200): the
      error becomes 500, anything returned becomes `success`. */
  function PlainStatus<T>(reply: Reply<T>, success: int): (code: int)
    requires 200 <= success < 300
    ensures code == 500 <==> reply.Threw?
    ensures reply.Returned? ==> code == success
  {
    if reply.Threw? then 500 else success
  }

  /** `deleteNote`: 500 on an error, 404 when the repository result is
      falsy, 200 otherwise. */
  function DeleteNoteStatus<T>(reply: Reply<T>): (code: int)
    ensures code in {200, 404, 500}
    ensures code == 500 <==> reply.Threw?
    ensures code == 404 <==> reply == Returned(None)
    ensures code == 200 <==> reply.Returned? && reply.value.Some?
  {
    match reply
    case Threw => 500
    case Returned(None) => 404
    case Returned(Some(_)) => 200
  }

  /** What a handler does once the note lookup is back: answer at once with a
      status, or go on with a list of user ids (to persist as the new access
      list, or to resolve into collaborators). */
  datatype Step = Respond(code: int) | Continue(userIds: seq<UserId>)

  /** `shareNoteWithUser` up to the write: 500 on an error, 404 for a missing
      note, 400 when the user is already listed; otherwise the access list
      with the user pushed at the end, which then holds the user exactly
      once. */
  function ShareStep(lookup: Reply<Note>, newUserId: UserId): (r: Step)
    ensures r == Respond(500) <==> lookup.Threw?
    ensures r == Respond(404) <==> lookup == Returned(None)
    ensures r == Respond(400) <==> lookup.Returned? && lookup.value.Some? && newUserId in lookup.value.value.userIds
    ensures r.Continue? <==> lookup.Returned? && lookup.value.Some? && newUserId !in lookup.value.value.userIds
    ensures r.Continue? ==>
              && r.userIds == lookup.value.value.userIds + [newUserId]
              && multiset(r.userIds)[newUserId] == 1
              && multiset(r.userIds) == multiset(lookup.value.value.userIds) + multiset{newUserId}
  {
    match lookup
    case Threw => Respond(500)
    case Returned(None) => Respond(404)
    case Returned(Some(note)) =>
      if newUserId in note.userIds then Respond(400)
      else
        assert multiset(note.userIds)[newUserId] == 0;
        Continue(note.userIds + [newUserId])
  }

  /** `getCollaborators` up to the directory lookup: 500 on an error, 404 for
      a missing note; otherwise the users to look up are exactly the note's
      access list. */
  function CollaboratorsStep(lookup: Reply<Note>): (r: Step)
    ensures r == Respond(500) <==> lookup.Threw?
    ensures r == Respond(404) <==> lookup == Returned(None)
    ensures r.Continue? <==> lookup.Returned? && lookup.value.Some?
    ensures r.Continue? ==> r.userIds == lookup.value.value.userIds
  {
    match lookup
    case Threw => Respond(500)
    case Returned(None) => Respond(404)
    case Returned(Some(note)) => Continue(note.userIds)
  }

  /** Sharing twice with the same user: the second request finds the user
      listed and answers 400 without writing. */
  lemma ShareTwice(note: Note, newUserId: UserId)
    requires newUserId !in note.userIds
    ensures var first := ShareStep(Returned(Some(note)), newUserId);
            && first.Continue?
            && ShareStep(Returned(Some(note.(userIds := first.userIds))), newUserId) == Respond(400)
  {
  }

  /** `shareNoteWithUser(noteId, newUserId)` against the table, whose reads
      and writes do not fail here: the status, and the access list pushed
      only when the user was not on it. */
  method ShareNoteWithUser(db: NotesTable, noteId: NoteId, newUserId: UserId) returns (code: int)
    modifies db
    ensures old(db.GetNoteById(noteId)).None? ==> code == 404 && db.notes == old(db.notes)
    ensures noteId in old(db.notes) && newUserId in old(db.notes)[noteId].userIds ==>
              code == 400 && db.notes == old(db.notes)
    ensures noteId in old(db.notes) && newUserId !in old(db.notes)[noteId].userIds ==>
              && code == 200
              && db.notes == old(db.notes)[noteId := old(db.notes)[noteId].(userIds := old(db.notes)[noteId].userIds + [newUserId])]
  {
    var note := db.GetNoteById(noteId);
    var step := ShareStep(Returned(note), newUserId);
    match step {
      case Respond(c) =>
        code := c;
      case Continue(userIds) =>
        db.UpdateNoteUserIds(noteId, userIds);
        code := PlainStatus(Returned(Some(userIds)), 200);
    }
  }

  /** `deleteNote` for the authenticated caller against the table. A
      missing note makes the repository throw when it reads the note's
      access list; a deleted row comes back as stored. What the store gives
      back for a rewritten access list is not known here and is the input
      `rewriteResult`. */
  method DeleteNote(db: NotesTable, noteId: NoteId, caller: UserId, now: Time, rewriteResult: Option<Note>)
    returns (code: int)
    modifies db
    ensures db.notes == AfterDelete(old(db.notes), noteId, caller, now)
    ensures noteId !in old(db.notes) ==> code == 500
    ensures noteId in old(db.notes) && noteId !in db.notes ==> code == 200
    ensures noteId in db.notes ==> code == if rewriteResult.Some? then 200 else 404
  {
    var result := db.DeleteNoteById(noteId, caller, now);
    var reply: Reply<Note> := match result
      case NoteMissing => Threw
      case RowDeleted(row) => Returned(Some(row))
      case AclUpdated => Returned(rewriteResult);
    code := DeleteNoteStatus(reply);
  }

  /** `createNote` for the authenticated caller: the new note is visible to
      the caller alone, and the answer is 201. */
  method CreateNote(db: NotesTable, id: NoteId, caller: UserId, title: string, content: string, category: string)
    returns (code: int, note: Note)
    requires id !in db.notes
    modifies db
    ensures code == 201
    ensures note.userIds == [caller] && note.editedAt == None
    ensures db.notes == old(db.notes)[id := note]
  {
    note := db.CreateNote(id, caller, title, content, category);
    code := PlainStatus(Returned(Some(note)), 201);
  }
}
