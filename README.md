# Notes screen state machine

A model of the single screen of a React Native note-taking app (`App.js`).
The screen holds five pieces of state:
- the ordered note list, where each note is `{id, title, content}`;
- the selected note, which may be none;
- the draft title;
- the draft content;
- whether the editor modal is visible.

Six event handlers change this state:
- Save;
- tapping a note (Edit);
- Delete;
- Add Note;
- Cancel;
- typing in the two text fields.

The model has two modules:

- `NoteList` (`note_list.dfy`) holds the pure list computations.
  - `Revise` is the `map` that Save runs when a note is selected. Every note with the selected id gets the draft title and content.
  - `RemoveId` is the `filter` that Delete runs.
  - The lemmas cover length, position and id preservation; relative order; idempotence; and pairwise-distinct ids.
- `NotesApp` (`app.dfy`) holds the class `App`.
  - Its fields are the five state variables.
  - It has one method per handler. Each handler is one atomic transition: every value it writes is computed from the state as it was when the handler was invoked. This matches how the handler's state setters all read the same snapshot.
  - Three scenario methods replay event sequences and prove the final list, including the quirks of the code.

The creation timestamp `Date.now()` becomes the `newId` parameter of `Save`. Nothing in the code makes ids unique. Distinct ids are therefore stated as an invariant (`Valid`) that every handler preserves, on one condition: when `Save` creates a note, its id must be fresh.

The model follows the code, including these behaviours a conventional editor would not have:
- **Add Note keeps the selection.** Add Note does not clear `selectedNote` (App.js:98-102).
- **Cancel only hides the editor.** It keeps the selection and the draft text (App.js:142-143).
- **Tapping, cancelling, then Add Note and Save updates the old note.** So "tap a note, Cancel, Add Note, Save" revises the note tapped first instead of creating a new one (`EditCancelAddSave`).
- **Delete always clears the selection.** It also hides the editor and leaves the draft text as it was (App.js:67-74).
- **No errors are signalled.** Neither "not found" nor "stale reference" exists in the code.
  - A save whose selected id matches no note leaves the list unchanged.
  - Deleting an absent id leaves the list unchanged.
  - Delete clears the selection. So through these handlers the selection never refers to a removed note, as long as Edit receives a listed note (`SelectionLive`).

## Model

| member | source | states |
|---|---|---|
| `NoteList.Revise` | App.js:36-40 | The list keeps its length and every index keeps its id. Each note whose id is the selected id gets the draft title and content. Every other note is unchanged. If no id matches, the list is unchanged. |
| `NoteList.RemoveId` | App.js:68-70 | The result holds exactly the notes whose id differs from the deleted id. It is no longer than the input and contains no note with that id. If the id is absent, the list is unchanged. |
| `NoteList.RevisePreservesDistinct` | App.js:36-40 | Ids are pairwise distinct after the update exactly when they were before. |
| `NoteList.ReviseUnique` | App.js:36-40 | With distinct ids, saving onto the note at index k replaces exactly that note with `{id, draft title, draft content}`, in the same position. |
| `NoteList.ReviseIdempotent` | App.js:36-40 | Applying the same update twice gives the same list as applying it once. |
| `NoteList.RemoveIdSubsequence` | App.js:68-70 | The filtered list is a subsequence of the original: the kept notes keep their relative order. |
| `NoteList.RemoveIdAppend` | App.js:68-70 | Filtering a concatenation is the concatenation of the filtered parts, so notes are kept or dropped one at a time and order is preserved. |
| `NoteList.RemoveIdIdempotent` | App.js:68-70 | Deleting twice by the same id gives the same list as deleting once. |
| `NoteList.RemoveIdUnique` | App.js:68-70 | With distinct ids, deleting the id at index k gives the list with exactly that note cut out, one shorter. |
| `NoteList.RemoveIdPreservesDistinct` | App.js:68-70 | Filtering keeps ids pairwise distinct. |
| `NoteList.AppendDistinct` | App.js:46-51 | After appending the new note, ids are distinct if and only if they were distinct before and the new id is not in the list. |
| `NotesApp.App.constructor` | App.js:17-29 | Starts with an empty list, no selection, an empty draft and a hidden editor. |
| `NotesApp.App.Save` | App.js:32-56 | With a selection, the list becomes `Revise` of the old list with the old draft, and the selection is dropped. Without one, the note `{newId, title, content}` is appended after the unchanged earlier notes, with no validation of empty text. Afterwards the draft is empty, the editor is hidden and nothing is selected. Distinct ids are kept whenever the created id is fresh. |
| `NotesApp.App.Edit` | App.js:59-64 | Selects the given note, copies its title and content into the draft and shows the editor. The list is unchanged. If the note is listed, the selection refers to a listed note. |
| `NotesApp.App.Delete` | App.js:67-74 | The list becomes `RemoveId` of the old list. The selection is cleared and the editor hidden. The draft title and content are unchanged. Distinct ids are kept. |
| `NotesApp.App.AddNote` | App.js:98-102 | Empties the draft and shows the editor. The list and the selection are unchanged. |
| `NotesApp.App.Cancel` | App.js:142-143 | Hides the editor. The list, the selection and the draft are unchanged. |
| `NotesApp.App.SetTitle` | App.js:121 | Sets the draft title. Nothing else changes. |
| `NotesApp.App.SetContent` | App.js:130 | Sets the draft content. Nothing else changes. |
| `NotesApp.CreateThenEdit` | App.js:32-64 | Create a note, then tap it, retitle it and save: the note is revised in place and keeps its id, whatever timestamp the second save reads. |
| `NotesApp.EditCancelAddSave` | App.js:98-102 | Tap a note, Cancel, Add Note, type, Save: the tapped note is revised and no note is appended. |
| `NotesApp.CreateTwoDeleteFirst` | App.js:67-74 | Create two notes, tap the first and delete it: only the second remains, nothing is selected, and the draft still holds the deleted note's text. |

## Left out

- Rendering is not modelled: the JSX tree, the `ScrollView`, `TouchableOpacity`, `Modal`, `TextInput` and `Button` widgets, and the `StyleSheet` (App.js:76-162, App.js:165-229). These are presentation only.
- `Date.now()` is not modelled as a clock (App.js:47). It is host time, so the id of a created note is the `newId` parameter of `Save`.
- The Delete button appears only while a note is selected (App.js:147-157), and the handler receives the selected note. `Delete` accepts any note, because the handler itself does not depend on that.
- `Edit` has no precondition that the note is listed. The list rendering passes only listed notes (App.js:83-86). Keeping the selection pointing at a listed note is therefore stated as a consequence of that condition.
- React hooks, re-rendering and asynchronous batching of state updates are not modelled. Each handler is one synchronous transition that reads the state as it was before the handler ran.
- Every handler may fire in any state. In the app, Save, Cancel, Delete and the text fields exist only while the modal is shown, and the full-screen modal (App.js:113) covers the note list and Add Note while it is open. No property is lost: every contract holds for every call sequence.
- Persistence is not modelled, because the app keeps everything in memory. Error results are not modelled, because the code signals none.
