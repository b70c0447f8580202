# NoteKeeper client state, in Dafny

NoteKeeper is a small note-taking web application: a React client lists text
notes and lets the user create, search, edit and delete them, and an Express
server stores them in a document database. This project models the client's
note-list state machine in `frontend/src/App.jsx` and proves what each of its
handlers does to that state.

- `text.dfy` (module `Text`): the string operations the client uses.
  `String.prototype.trim` is `Trim`, with ECMAScript's exact set of whitespace and
  line-terminator characters. The blank-field test `!s.trim()` is `IsBlank`.
  `toLowerCase` is `ToLower`, folding ASCII letters only. `includes` is `Contains`.
- `seqs.dfy` (module `Seqs`): `Array.prototype.filter` as `Filter`, and
  `IsSubsequence` ("keeps the order of").
- `notes.dfy` (module `NoteList`): a note (`_id`, title, content) and a form draft.
  It also holds the form check `Filled`. The list update after a successful
  create is `Prepend`, after an update `ReplaceById`, after a delete `RemoveById`.
  `Search` is the search filter and `EditingCards` the set of cards in edit mode.
- `app.dfy` (module `App`): the component state as a class `NoteApp`. Its fields
  are `notes`, `searchTerm`, `isCreating`, `editingId`, `error`, `newNote` and
  `editNote`. Each event handler is a method that changes those fields.

Each handler runs as one atomic step. The server's answer to its request is a
parameter: `Reply.Success(note)` or `Reply.Failure`. The user's answer to the
delete confirmation is a `bool` parameter. The methods return the request they
would send (`None`/`false` when no request is sent).

Whitespace-only fields count as empty, and the draft is sent untrimmed
(frontend/src/App.jsx:38, 44, 56, 62). A single `editingId` selects the card
being edited (frontend/src/App.jsx:11, 236). The delete route's defect is under
"Left out".

## Model

| member | source | states |
|---|---|---|
| Text.Trim | frontend/src/App.jsx:38 | `s.trim()` is a contiguous piece of `s` with only whitespace around it; it neither starts nor ends with whitespace; it is empty exactly when `s` is all whitespace |
| Text.IsBlank | frontend/src/App.jsx:38 | the blank test holds exactly when every character is whitespace |
| Text.BlankIffTrimEmpty | frontend/src/App.jsx:56 | the blank test agrees with `!s.trim()` for every string |
| Text.ToLower | frontend/src/App.jsx:97-98 | lower-casing keeps the length, folds each character on its own and leaves no upper-case letter |
| Text.ToLowerIdempotent | frontend/src/App.jsx:97-98 | lower-casing twice is lower-casing once |
| Text.Contains | frontend/src/App.jsx:97-98 | `hay.includes(needle)` holds exactly when `needle` occurs at some position of `hay` (the empty needle occurs everywhere) |
| Text.ContainsHasFirst | frontend/src/App.jsx:97-98 | a non-empty needle that occurs in `hay` has its first character in `hay` |
| Seqs.Filter | frontend/src/App.jsx:78 | `filter` returns at most as many elements, each accepted by the test and taken from the input |
| Seqs.FilterIsSubsequence | frontend/src/App.jsx:78 | `filter` keeps the relative order of what it keeps |
| Seqs.FilterCount | frontend/src/App.jsx:78 | each value occurs in the result as often as in the input if the test accepts it, and not at all otherwise |
| Seqs.FilterKeepsAll | frontend/src/App.jsx:96-99 | a test that accepts every element returns the input unchanged |
| Seqs.FilterKeepsNone | frontend/src/App.jsx:96-99 | a test that rejects every element returns the empty list |
| Seqs.FilterCongruent | frontend/src/App.jsx:96-99 | two tests that agree on every element give the same result |
| Seqs.FilterIdempotent | frontend/src/App.jsx:96-99 | filtering twice with one test is filtering once |
| NoteList.Filled | frontend/src/App.jsx:38 | a draft passes the form check exactly when both its title and its content hold a non-whitespace character; a passing draft has non-empty fields |
| NoteList.Prepend | frontend/src/App.jsx:45 | the created note is first, the old list follows unchanged, and the length grows by one |
| NoteList.PrependUnique | frontend/src/App.jsx:45 | prepending to a list with unique ids keeps the ids unique exactly when the new id is not already in the list |
| NoteList.ReplaceById | frontend/src/App.jsx:63 | the length is kept; every position with the id holds the server's note and every other position is unchanged |
| NoteList.ReplaceAbsent | frontend/src/App.jsx:63 | updating an id that is not in the list changes nothing |
| NoteList.ReplaceExactlyOne | frontend/src/App.jsx:63 | with unique ids, an update changes exactly the one position holding the id |
| NoteList.ReplaceKeepsUnique | frontend/src/App.jsx:63 | if the reply keeps the id, unique ids stay unique |
| NoteList.ReplaceIdempotent | frontend/src/App.jsx:63 | applying the same successful update twice is applying it once |
| NoteList.RemoveById | frontend/src/App.jsx:78 | no remaining note has the deleted id, and the list does not grow |
| NoteList.RemoveByIdKeepsOthers | frontend/src/App.jsx:78 | the remaining notes are exactly the old ones with other ids, each as often as before, in the same relative order |
| NoteList.RemoveAbsent | frontend/src/App.jsx:78 | removing an id that is not in the list changes nothing |
| NoteList.RemoveTwice | frontend/src/App.jsx:78 | a second removal of the same id changes nothing |
| NoteList.RemovePresentShortens | frontend/src/App.jsx:78 | with unique ids, removing a present id shortens the list by exactly one |
| NoteList.FilterKeepsUnique | frontend/src/App.jsx:78 | any filter of a list with unique ids has unique ids |
| NoteList.RemoveKeepsUnique | frontend/src/App.jsx:78 | deleting keeps ids unique |
| NoteList.Search | frontend/src/App.jsx:96-99 | every shown note is in the list and matches the term case-insensitively in its title or content |
| NoteList.SearchKeepsMatches | frontend/src/App.jsx:96-99 | the shown notes are exactly the matching notes of the list, each as often as in the list, in the list's order |
| NoteList.SearchAllMatch | frontend/src/App.jsx:96-99 | when every note matches, the whole list is shown |
| NoteList.SearchNoneMatch | frontend/src/App.jsx:96-99 | when no note matches, nothing is shown |
| NoteList.SearchEmptyTerm | frontend/src/App.jsx:96-99 | the empty term shows every note, in order |
| NoteList.SearchIgnoresCase | frontend/src/App.jsx:96-99 | terms that differ only in letter case show the same notes |
| NoteList.SearchIdempotent | frontend/src/App.jsx:96-99 | searching the shown notes again with the same term shows the same notes |
| NoteList.SearchKeepsUnique | frontend/src/App.jsx:96-99 | the shown notes of a list with unique ids have unique ids |
| NoteList.SearchExampleFindsBoth | frontend/src/App.jsx:96-99 | "shop" shows both the note titled "Shopping" and the note whose content is "shopping list" |
| NoteList.SearchExampleFindsNone | frontend/src/App.jsx:96-99 | "xyz" shows neither note of that example |
| NoteList.AtMostOneEditing | frontend/src/App.jsx:236 | a card is in edit mode when its note's id is `editingId`; with unique ids at most one card is, and none when `editingId` is null |
| App.NoteApp.constructor | frontend/src/App.jsx:8-17 | the initial state: no notes, empty search term, no open form, no card edited, no error, empty drafts |
| App.NoteApp.FilteredNotes | frontend/src/App.jsx:96-99 | the shown notes are exactly the notes of `notes` that match the search term, each as often as in `notes` and in its order; with an empty term they are all of `notes`; the state is not changed |
| App.NoteApp.AtMostOneCardEditing | frontend/src/App.jsx:231-236 | among the shown cards at most one is in edit mode, given unique ids in `notes` |
| App.NoteApp.CreateNote | frontend/src/App.jsx:37-53 | nothing is sent while the create form is closed; a blank draft is not sent and only `error` changes; on success the returned note is prepended, the draft is reset, the form closes and `error` clears; on failure only `error` changes; ids stay unique when the server's id is fresh |
| App.NoteApp.UpdateNote | frontend/src/App.jsx:55-71 | nothing is sent while no card is edited; a blank draft is not sent and only `error` changes; on success the notes with the id are replaced, edit mode ends, the draft is reset and `error` clears; on failure only `error` changes; ids stay unique when the reply keeps the id |
| App.NoteApp.DeleteNote | frontend/src/App.jsx:73-84 | a declined confirmation sends nothing and changes nothing; on success the notes with the id are removed and `error` clears; on failure only `error` changes; ids stay unique |
| App.NoteApp.StartEdit | frontend/src/App.jsx:86-89 | `editingId` becomes the note's id and the edit draft holds exactly the note's title and content; nothing else changes |
| App.NoteApp.CancelEdit | frontend/src/App.jsx:91-94 | `editingId` becomes null and the draft is reset; `notes` and everything else are unchanged |
| App.NoteApp.OpenCreate | frontend/src/App.jsx:126 | the create form opens; nothing else changes |
| App.NoteApp.CancelCreate | frontend/src/App.jsx:187-191 | the create form closes, its draft is reset and `error` clears; `notes` and the edit state are unchanged |
| App.NoteApp.SetSearchTerm | frontend/src/App.jsx:145 | only the search term changes |
| App.NoteApp.SetNewTitle | frontend/src/App.jsx:168 | only the create draft's title changes |
| App.NoteApp.SetNewContent | frontend/src/App.jsx:174 | only the create draft's content changes |
| App.NoteApp.SetEditTitle | frontend/src/App.jsx:241 | only the edit draft's title changes |
| App.NoteApp.SetEditContent | frontend/src/App.jsx:246 | only the edit draft's content changes |

Every `NoteApp` method keeps the class invariant `Valid()`: a closed form has an
empty draft. The create draft is empty while `isCreating` is false. The edit
draft is empty while `editingId` is null.

## Left out

- Initial load (`useEffect`, `fetchNotes`, `loading`; frontend/src/App.jsx:12, 19-35) is not modelled. The model starts from the empty list the state is declared with.
- `formatDate` (frontend/src/App.jsx:101-109) is not modelled. It is locale-dependent date formatting. Notes therefore carry no `createdAt`/`updatedAt` timestamps.
- The JSX rendering (frontend/src/App.jsx:111-316) is left out, apart from its event handlers and the edit-mode test at line 236.
- HTTP calls (axios) and `console.error` are not modelled. `window.confirm` becomes the `confirmed` parameter. Server replies become `Reply` values.
- Concurrency is not modelled. The handlers run asynchronously and close over a possibly stale `notes`, so the last response wins. Here each handler is one atomic step.
- Text.ToLower: folds only the ASCII letters A-Z. JavaScript's `toLowerCase` folds every Unicode letter.
- Text.Trim: strings are sequences of Unicode scalar values, not UTF-16 code units.
- routes/noteRoutes.js and server.js are not part of this model. The delete route at routes/noteRoutes.js:50 calls `res.statusCode(200)`, but `statusCode` is a number, not a function. Deleting an absent id therefore throws and is answered with a 500 (line 52). Deleting an existing id sends no response at all, so the client's `await` at frontend/src/App.jsx:77 never settles.
