/**
 * The notes table behind the note service, and the repository operations on
 * it. A note row holds its text fields, the list of users who may see it (its
 * access list, the column `user_ids`) and the time it was last edited. The
 * table is a map from note id to row; the store picks the id of a new row and
 * the current time is an input.
 */
module NotesRepository {
  import opened Wrappers

  type NoteId = string
  type UserId = string
  /** A point in time, as the store records it. */
  type Time = int

  datatype Note = Note(
    title: string,
    content: string,
    category: string,
    userIds: seq<UserId>,
    editedAt: Option<Time>)

  /** `array.indexOf(x)`: the first index holding `x`, or -1 when there is
      none. */
  function FirstIndex(s: seq<UserId>, x: UserId): (i: int)
    ensures -1 <= i < |s|
    ensures i == -1 <==> x !in s
    ensures i >= 0 ==> s[i] == x && x !in s[..i]
  {
    if s == [] then -1
    else if s[0] == x then 0
    else
      var j := FirstIndex(s[1..], x);
      assert j >= 0 ==> s[1..][..j] == s[1..j + 1];
      if j == -1 then -1 else j + 1
  }

  /** The access list after `indexOf` and `splice(index, 1)`: the first
      occurrence of `x` goes, when there is one. */
  function RemoveFirst(s: seq<UserId>, x: UserId): seq<UserId>
  {
    var i := FirstIndex(s, x);
    if i == -1 then s else s[..i] + s[i + 1..]
  }

  /** Removing the first occurrence of `x` takes away one copy of it, when
      there is one, and nothing else. */
  lemma RemoveFirstMultiset(s: seq<UserId>, x: UserId)
    ensures multiset(RemoveFirst(s, x)) == multiset(s) - multiset{x}
  {
    if x in s {
      var i := FirstIndex(s, x);
      assert s == s[..i] + [x] + s[i + 1..];
      calc {
        multiset(s);
        multiset(s[..i]) + multiset{x} + multiset(s[i + 1..]);
        multiset(RemoveFirst(s, x)) + multiset{x};
      }
    } else {
      assert multiset(s)[x] == 0;
      assert multiset(s) - multiset{x} == multiset(s);
    }
  }

  /** Removing the first occurrence of a member shortens the list by one,
      takes away one copy of it and nothing else, and keeps the order: the
      entries before it stay in place and those after it move up by one.
      Removing a non-member changes nothing. */
  lemma RemoveFirstFacts(s: seq<UserId>, x: UserId)
    ensures x !in s ==> RemoveFirst(s, x) == s
    ensures x in s ==>
              var i := FirstIndex(s, x);
              var r := RemoveFirst(s, x);
              && |r| == |s| - 1
              && multiset(r) == multiset(s) - multiset{x}
              && r[..i] == s[..i] && r[i..] == s[i + 1..]
  {
    RemoveFirstMultiset(s, x);
    if x in s {
      var i := FirstIndex(s, x);
      var before, after := s[..i], s[i + 1..];
      assert RemoveFirst(s, x) == before + after;
      assert (before + after)[..|before|] == before;
      assert (before + after)[|before|..] == after;
    }
  }

  /** The list is empty after the removal exactly when it was empty or held
      only `x`. */
  lemma RemoveFirstEmptyIff(s: seq<UserId>, x: UserId)
    ensures RemoveFirst(s, x) == [] <==> s == [] || s == [x]
  {
    if x in s {
      var i := FirstIndex(s, x);
      assert |RemoveFirst(s, x)| == |s| - 1;
      if |s| == 1 {
        assert s == [s[0]];
      }
    }
  }

  /** A user listed once loses access; a user listed more often keeps it. */
  lemma RemoveFirstMembership(s: seq<UserId>, x: UserId)
    ensures x in RemoveFirst(s, x) <==> multiset(s)[x] >= 2
  {
    RemoveFirstFacts(s, x);
    if x in s {
      var r := RemoveFirst(s, x);
      assert multiset(r)[x] == multiset(s)[x] - 1;
    } else {
      assert multiset(s)[x] == 0;
    }
  }

  /** What `deleteNoteById` reports: the note was not there, the row was
      deleted (carrying the row as stored before the delete), or the row's
      access list was rewritten. */
  datatype DeleteResult = NoteMissing | RowDeleted(note: Note) | AclUpdated

  /** The table after `deleteNoteById(noteId, userId)` at time `now`. */
  function AfterDelete(notes: map<NoteId, Note>, noteId: NoteId, userId: UserId, now: Time)
    : map<NoteId, Note>
  {
    if noteId !in notes then notes
    else
      var remaining := RemoveFirst(notes[noteId].userIds, userId);
      if remaining == [] then notes - {noteId}
      else notes[noteId := notes[noteId].(userIds := remaining, editedAt := Some(now))]
  }

  /** A delete touches only its own row; it never leaves that row with an
      empty access list; it drops the row exactly when the caller's removal
      empties the list; a surviving row keeps its text and category, loses
      one copy of the caller, and is stamped with the time. */
  lemma AfterDeleteFacts(notes: map<NoteId, Note>, noteId: NoteId, userId: UserId, now: Time)
    ensures var after := AfterDelete(notes, noteId, userId, now);
            && after.Keys <= notes.Keys
            && (forall id :: id in notes && id != noteId ==> id in after && after[id] == notes[id])
            && (noteId in after ==> after[noteId].userIds != [])
            && (noteId in notes ==>
                  (noteId !in after <==> notes[noteId].userIds == [] || notes[noteId].userIds == [userId]))
            && (noteId in after ==>
                  var before := notes[noteId];
                  && after[noteId] == before.(userIds := after[noteId].userIds, editedAt := Some(now))
                  && multiset(after[noteId].userIds) == multiset(before.userIds) - multiset{userId})
  {
    AfterDeleteFrame(notes, noteId, userId, now);
    AfterDeleteRow(notes, noteId, userId, now);
  }

  /** A delete adds no row and leaves every other row as it was. */
  lemma AfterDeleteFrame(notes: map<NoteId, Note>, noteId: NoteId, userId: UserId, now: Time)
    ensures var after := AfterDelete(notes, noteId, userId, now);
            && after.Keys <= notes.Keys
            && (forall id :: id in notes && id != noteId ==> id in after && after[id] == notes[id])
  {
  }

  /** What a delete does to its own row. */
  lemma AfterDeleteRow(notes: map<NoteId, Note>, noteId: NoteId, userId: UserId, now: Time)
    ensures var after := AfterDelete(notes, noteId, userId, now);
            && (noteId in after ==> after[noteId].userIds != [])
            && (noteId in notes ==>
                  (noteId !in after <==> notes[noteId].userIds == [] || notes[noteId].userIds == [userId]))
            && (noteId in after ==>
                  var before := notes[noteId];
                  && after[noteId] == before.(userIds := after[noteId].userIds, editedAt := Some(now))
                  && multiset(after[noteId].userIds) == multiset(before.userIds) - multiset{userId})
  {
    if noteId in notes {
      var ids := notes[noteId].userIds;
      var remaining := RemoveFirst(ids, userId);
      RemoveFirstEmptyIff(ids, userId);
      RemoveFirstMultiset(ids, userId);
      if remaining != [] {
        assert AfterDelete(notes, noteId, userId, now)[noteId].userIds == remaining;
      }
    }
  }

  /** A table in which every note is visible to somebody stays so after any
      delete. */
  lemma AfterDeleteKeepsAclsNonEmpty(notes: map<NoteId, Note>, noteId: NoteId, userId: UserId, now: Time)
    requires forall id :: id in notes ==> notes[id].userIds != []
    ensures var after := AfterDelete(notes, noteId, userId, now);
            forall id :: id in after ==> after[id].userIds != []
  {
    AfterDeleteFacts(notes, noteId, userId, now);
  }

  /** `getNotesForUser(userId)` on the table `notes`: the rows whose access
      list contains the user, as stored. */
  function NotesForUser(notes: map<NoteId, Note>, userId: UserId): (r: map<NoteId, Note>)
    ensures r.Keys <= notes.Keys
    ensures forall id :: id in notes ==> (id in r <==> userId in notes[id].userIds)
    ensures forall id :: id in r ==> r[id] == notes[id]
  {
    map id | id in notes && userId in notes[id].userIds :: notes[id]
  }

  /** A note just created is listed for its creator and for nobody else, and
      every other user's list is as before. */
  lemma CreatedNoteVisibleToCreatorOnly(notes: map<NoteId, Note>, id: NoteId, creator: UserId, note: Note)
    requires id !in notes && note.userIds == [creator]
    ensures id in NotesForUser(notes[id := note], creator)
    ensures forall v :: v != creator ==> NotesForUser(notes[id := note], v) == NotesForUser(notes, v)
    ensures forall v :: id !in NotesForUser(notes, v)
  {
    forall v | v != creator
      ensures NotesForUser(notes[id := note], v) == NotesForUser(notes, v)
    {
      assert NotesForUser(notes[id := note], v).Keys == NotesForUser(notes, v).Keys;
    }
  }

  /** Deleting a note takes it out of the caller's list exactly when the
      caller was listed once, and changes no other user's access to it. */
  lemma DeleteRevokesAccess(notes: map<NoteId, Note>, noteId: NoteId, userId: UserId, now: Time)
    requires noteId in notes
    ensures var after := AfterDelete(notes, noteId, userId, now);
            && (noteId in NotesForUser(after, userId) <==> multiset(notes[noteId].userIds)[userId] >= 2)
            && forall v :: v != userId ==>
                 (noteId in NotesForUser(after, v) <==> noteId in NotesForUser(notes, v) && noteId in after)
  {
    var ids := notes[noteId].userIds;
    RemoveFirstMembership(ids, userId);
    RemoveFirstFacts(ids, userId);
    forall v | v != userId
      ensures v in RemoveFirst(ids, userId) <==> v in ids
    {
      if userId in ids {
        var r := RemoveFirst(ids, userId);
        assert multiset(r)[v] == multiset(ids)[v];
      }
    }
  }

  class NotesTable {
    var notes: map<NoteId, Note>

    constructor ()
      ensures notes == map[]
    {
      notes := map[];
    }

    /** `getNoteById(noteId)`: the row, or nothing when there is none. */
    function GetNoteById(noteId: NoteId): (r: Option<Note>)
      reads this
      ensures r.Some? <==> noteId in notes
      ensures r.Some? ==> r.value == notes[noteId]
    {
      if noteId in notes then Some(notes[noteId]) else None
    }

    /** `createNote`: a new row under the id the store picks, visible only to
        its creator and never edited. */
    method CreateNote(id: NoteId, userId: UserId, title: string, content: string, category: string)
      returns (note: Note)
      requires id !in notes
      modifies this
      ensures note == Note(title, content, category, [userId], None)
      ensures notes == old(notes)[id := note]
    {
      note := Note(title, content, category, [userId], None);
      notes := notes[id := note];
    }

    /** `updateNote`: writes the text fields given in the request body and
        the edit time of an existing row; the access list stays as it was. A
        field missing from the body (`undefined`, here `None`) is dropped from
        the update, so the row keeps its stored value; the editor's save sends
        only the title and the content. A missing id matches no row. */
    method UpdateNote(noteId: NoteId, title: Option<string>, content: Option<string>, category: Option<string>,
                      now: Time)
      modifies this
      ensures noteId !in old(notes) ==> notes == old(notes)
      ensures noteId in old(notes) ==>
                var before := old(notes)[noteId];
                notes == old(notes)[noteId := Note(
                  if title.Some? then title.value else before.title,
                  if content.Some? then content.value else before.content,
                  if category.Some? then category.value else before.category,
                  before.userIds,
                  Some(now))]
    {
      if noteId in notes {
        var row := notes[noteId];
        if title.Some? {
          row := row.(title := title.value);
        }
        if content.Some? {
          row := row.(content := content.value);
        }
        if category.Some? {
          row := row.(category := category.value);
        }
        notes := notes[noteId := row.(editedAt := Some(now))];
      }
    }

    /** `updateNoteUserIds`: replaces the access list of an existing row and
        nothing else. A missing id matches no row. */
    method UpdateNoteUserIds(noteId: NoteId, userIds: seq<UserId>)
      modifies this
      ensures noteId !in old(notes) ==> notes == old(notes)
      ensures noteId in old(notes) ==> notes == old(notes)[noteId := old(notes)[noteId].(userIds := userIds)]
    {
      if noteId in notes {
        notes := notes[noteId := notes[noteId].(userIds := userIds)];
      }
    }

    /** `removeUser` has an empty body: it changes nothing. */
    method RemoveUser(noteId: NoteId, userId: UserId)
      ensures notes == old(notes)
    {
    }

    /** `deleteNoteById(noteId, userId)`: read the row, remove the caller's
        first occurrence from a copy of its access list, then delete the row
        if that copy is empty and otherwise write the copy and the time. A
        missing row fails when its access list is read. */
    method DeleteNoteById(noteId: NoteId, userId: UserId, now: Time) returns (result: DeleteResult)
      modifies this
      ensures notes == AfterDelete(old(notes), noteId, userId, now)
      ensures result == if noteId !in old(notes) then NoteMissing
                        else if noteId in notes then AclUpdated
                        else RowDeleted(old(notes)[noteId])
    {
      var row := GetNoteById(noteId);
      if row.None? {
        return NoteMissing;
      }
      var userArray := row.value.userIds;
      var index := FirstIndex(userArray, userId);
      if index != -1 {
        userArray := userArray[..index] + userArray[index + 1..];
      }
      if |userArray| == 0 {
        notes := notes - {noteId};
        result := RowDeleted(row.value);
      } else {
        notes := notes[noteId := row.value.(userIds := userArray, editedAt := Some(now))];
        result := AclUpdated;
      }
    }
  }
}
