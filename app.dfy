/** The note client's component state and the handlers that change it. Each handler
    runs as one step; the server's answer to its request and the answer to the
    delete confirmation are parameters. */
module App {
  import opened Text
  import opened Seqs
  import opened NoteList

  /** The outcome of one request: the document the server sent back, or a failure
      (a network error or an error status). */
  datatype Reply<T> = Success(data: T) | Failure

  const FillInBoth := "Please fill in both title and content"
  const CreateFailed := "Failed to create note"
  const UpdateFailed := "Failed to update note"
  const DeleteFailed := "Failed to delete note"

  class NoteApp {
    var notes: seq<Note>
    var searchTerm: string
    var isCreating: bool
    var editingId: Option<Id>
    var error: string
    var newNote: Draft
    var editNote: Draft

    /** A form's draft is empty whenever the form is closed: the create form is shown
        only while `isCreating`, an edit form only for the card `editingId` names. */
    ghost predicate Valid()
      reads this
    {
      && (!isCreating ==> newNote == EmptyDraft)
      && (editingId == None ==> editNote == EmptyDraft)
    }

    /** The initial state: no notes, no search, no open form, no error. */
    constructor ()
      ensures Valid()
      ensures notes == [] && searchTerm == "" && !isCreating && editingId == None && error == ""
      ensures newNote == EmptyDraft && editNote == EmptyDraft
    {
      notes := [];
      searchTerm := "";
      isCreating := false;
      editingId := None;
      error := "";
      newNote := EmptyDraft;
      editNote := EmptyDraft;
    }

    /** The notes shown for the current search term: matching notes of `notes`, in
        their order. Computing them leaves the state as it is. */
    function FilteredNotes(): (r: seq<Note>)
      reads this
      ensures |r| <= |notes|
      ensures forall i :: 0 <= i < |r| ==> r[i] in notes && MatchesSearch(r[i], searchTerm)
      ensures IsSubsequence(r, notes)
      ensures forall x :: multiset(r)[x] == if MatchesSearch(x, searchTerm) then multiset(notes)[x] else 0
      ensures searchTerm == "" ==> r == notes
    {
      SearchKeepsMatches(notes, searchTerm);
      SearchEmptyTerm(notes);
      Search(notes, searchTerm)
    }

    /** Of the cards shown, at most one is an edit form, as long as the identifiers in
        `notes` are unique. */
    lemma AtMostOneCardEditing()
      requires UniqueIds(notes)
      ensures |EditingCards(FilteredNotes(), editingId)| <= 1
    {
      SearchKeepsUnique(notes, searchTerm);
      AtMostOneEditing(FilteredNotes(), editingId);
    }

    /** Save in the create form. A draft with a blank field is not sent and only the
        error changes. Otherwise the draft is sent as typed; on success the returned
        note goes first, the form closes and the error clears; on failure only the
        error changes. */
    method CreateNote(reply: Reply<Note>) returns (request: Option<Draft>)
      requires Valid()
      modifies this
      ensures Valid()
      ensures request == if Filled(old(newNote)) then Some(old(newNote)) else None
      ensures !old(isCreating) ==> request == None
      ensures !Filled(old(newNote)) ==>
        && notes == old(notes) && newNote == old(newNote) && isCreating == old(isCreating)
        && error == FillInBoth
      ensures Filled(old(newNote)) && reply.Success? ==>
        && notes == Prepend(reply.data, old(notes))
        && newNote == EmptyDraft && !isCreating && error == ""
      ensures Filled(old(newNote)) && reply.Failure? ==>
        && notes == old(notes) && newNote == old(newNote) && isCreating == old(isCreating)
        && error == CreateFailed
      ensures searchTerm == old(searchTerm) && editingId == old(editingId) && editNote == old(editNote)
      ensures old(UniqueIds(notes)) && (reply.Success? ==> !HasId(old(notes), reply.data.id)) ==>
        UniqueIds(notes)
    {
      if !Filled(newNote) {
        error := FillInBoth;
        return None;
      }
      request := Some(newNote);
      match reply {
        case Success(created) =>
          if UniqueIds(notes) && !HasId(notes, created.id) {
            PrependUnique(created, notes);
          }
          notes := Prepend(created, notes);
          newNote := EmptyDraft;
          isCreating := false;
          error := "";
        case Failure =>
          error := CreateFailed;
      }
    }

    /** Save in the edit form of the card `id`. A draft with a blank field is not sent
        and only the error changes. Otherwise the draft is sent as typed; on success
        every note with identifier `id` is replaced by the returned note, the edit
        form closes and the error clears; on failure only the error changes. */
    method UpdateNote(id: Id, reply: Reply<Note>) returns (request: Option<Draft>)
      requires Valid()
      modifies this
      ensures Valid()
      ensures request == if Filled(old(editNote)) then Some(old(editNote)) else None
      ensures old(editingId) == None ==> request == None
      ensures !Filled(old(editNote)) ==>
        && notes == old(notes) && editingId == old(editingId) && editNote == old(editNote)
        && error == FillInBoth
      ensures Filled(old(editNote)) && reply.Success? ==>
        && notes == ReplaceById(old(notes), id, reply.data)
        && editingId == None && editNote == EmptyDraft && error == ""
      ensures Filled(old(editNote)) && reply.Failure? ==>
        && notes == old(notes) && editingId == old(editingId) && editNote == old(editNote)
        && error == UpdateFailed
      ensures searchTerm == old(searchTerm) && isCreating == old(isCreating) && newNote == old(newNote)
      ensures old(UniqueIds(notes)) && (reply.Success? ==> reply.data.id == id) ==> UniqueIds(notes)
    {
      if !Filled(editNote) {
        error := FillInBoth;
        return None;
      }
      request := Some(editNote);
      match reply {
        case Success(updated) =>
          if updated.id == id && UniqueIds(notes) {
            ReplaceKeepsUnique(notes, id, updated);
          }
          notes := ReplaceById(notes, id, updated);
          editingId := None;
          editNote := EmptyDraft;
          error := "";
        case Failure =>
          error := UpdateFailed;
      }
    }

    /** The delete button of the card `id`. When the user declines the confirmation no
        request is sent and nothing changes. Otherwise, on success the notes with
        identifier `id` leave the list and the error clears; on failure only the error
        changes. */
    method DeleteNote(id: Id, confirmed: bool, reply: Reply<()>) returns (sent: bool)
      requires Valid()
      modifies this
      ensures Valid()
      ensures sent == confirmed
      ensures !confirmed ==> notes == old(notes) && error == old(error)
      ensures confirmed && reply.Success? ==> notes == RemoveById(old(notes), id) && error == ""
      ensures confirmed && reply.Failure? ==> notes == old(notes) && error == DeleteFailed
      ensures searchTerm == old(searchTerm) && isCreating == old(isCreating) && newNote == old(newNote)
      ensures editingId == old(editingId) && editNote == old(editNote)
      ensures old(UniqueIds(notes)) ==> UniqueIds(notes)
    {
      if !confirmed {
        return false;
      }
      sent := true;
      match reply {
        case Success(_) =>
          if UniqueIds(notes) {
            RemoveKeepsUnique(notes, id);
          }
          notes := RemoveById(notes, id);
          error := "";
        case Failure =>
          error := DeleteFailed;
      }
    }

    /** The edit button of a card: that card, and only that one, becomes the edit
        form, its draft starting from the note's title and content. */
    method StartEdit(n: Note)
      requires Valid()
      modifies this
      ensures Valid()
      ensures editingId == Some(n.id) && editNote == DraftOf(n)
      ensures notes == old(notes) && searchTerm == old(searchTerm) && isCreating == old(isCreating)
      ensures newNote == old(newNote) && error == old(error)
    {
      editingId := Some(n.id);
      editNote := DraftOf(n);
    }

    /** Cancel in an edit form: no card is edited and the draft is dropped. */
    method CancelEdit()
      requires Valid()
      modifies this
      ensures Valid()
      ensures editingId == None && editNote == EmptyDraft
      ensures notes == old(notes) && searchTerm == old(searchTerm) && isCreating == old(isCreating)
      ensures newNote == old(newNote) && error == old(error)
    {
      editingId := None;
      editNote := EmptyDraft;
    }

    /** The "New Note" buttons open the create form. */
    method OpenCreate()
      requires Valid()
      modifies this
      ensures Valid()
      ensures isCreating
      ensures notes == old(notes) && searchTerm == old(searchTerm) && newNote == old(newNote)
      ensures editingId == old(editingId) && editNote == old(editNote) && error == old(error)
    {
      isCreating := true;
    }

    /** Cancel in the create form: the form closes, its draft and the error clear. */
    method CancelCreate()
      requires Valid()
      modifies this
      ensures Valid()
      ensures !isCreating && newNote == EmptyDraft && error == ""
      ensures notes == old(notes) && searchTerm == old(searchTerm)
      ensures editingId == old(editingId) && editNote == old(editNote)
    {
      isCreating := false;
      newNote := EmptyDraft;
      error := "";
    }

    /** Typing in the search box. */
    method SetSearchTerm(term: string)
      requires Valid()
      modifies this
      ensures Valid()
      ensures searchTerm == term
      ensures notes == old(notes) && isCreating == old(isCreating) && newNote == old(newNote)
      ensures editingId == old(editingId) && editNote == old(editNote) && error == old(error)
    {
      searchTerm := term;
    }

    /** Typing in the create form's title field, which exists only while the form
        is open. */
    method SetNewTitle(title: string)
      requires Valid() && isCreating
      modifies this`newNote
      ensures Valid()
      ensures newNote == Draft(title, old(newNote.content))
    {
      newNote := newNote.(title := title);
    }

    /** Typing in the create form's content field. */
    method SetNewContent(content: string)
      requires Valid() && isCreating
      modifies this`newNote
      ensures Valid()
      ensures newNote == Draft(old(newNote.title), content)
    {
      newNote := newNote.(content := content);
    }

    /** Typing in the title field of the card being edited, which exists only while a
        card is in edit mode. */
    method SetEditTitle(title: string)
      requires Valid() && editingId != None
      modifies this`editNote
      ensures Valid()
      ensures editNote == Draft(title, old(editNote.content))
    {
      editNote := editNote.(title := title);
    }

    /** Typing in the content field of the card being edited. */
    method SetEditContent(content: string)
      requires Valid() && editingId != None
      modifies this`editNote
      ensures Valid()
      ensures editNote == Draft(old(editNote.title), content)
    {
      editNote := editNote.(content := content);
    }
  }
}
